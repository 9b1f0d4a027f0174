/**
  Three screens: what the virtual terminals are meant to be.  An event acts on at most one of
  them.  The one thing the terminals share is the pair of write coordinates that the keyboard's echo
  consults; `LooksAloneIff` says exactly when each screen is nevertheless what its own inputs alone
  make of it, and `NoLeakIff` exactly when nothing of the other terminals shows on it.
 */
module Desk {
  import opened Bytes
  import opened Layout
  import opened Screen
  import opened Window

  // Codes of the keys that act on the terminals (keyboard.c's scancode table).
  const KEY_L: Byte := 108
  const KEY_SHIFT: Byte := 128
  const KEY_CAPS_LOCK: Byte := 129
  const KEY_CTRL: Byte := 130
  const KEY_F1: Byte := 131
  const KEY_ALT: Byte := 134

  datatype Modifiers = Modifiers(shift: bool, capsLock: bool, ctrl: bool, alt: bool)

  datatype Desk = Desk(screens: seq<Screen>, current: nat, inService: nat, writeX: Column, writeY: Row,
                       keys: Modifiers) {
    ghost predicate Valid() {
      && |screens| == NUM_TERMS
      && current < NUM_TERMS && inService < NUM_TERMS
      && forall t | 0 <= t < NUM_TERMS :: screens[t].WellFormed()
    }
  }

  datatype Event =
    | Print(c: Byte)                      // putc by the process in service
    | Serve(term: nat)                    // the scheduler puts another terminal in service
    | Press(key: Byte)                    // a key goes down
    | Release(key: Byte)                  // a key goes up

  /** Operations on a single screen; an echo brings the shared coordinates with it. */
  datatype Op = Write(c: Byte) | Wipe | Echo(c: Byte, gx: Column, gy: Row)

  function Apply(s: Screen, op: Op): (r: Screen)
    requires s.WellFormed()
    ensures r.WellFormed()
  {
    match op
    case Write(c) => Put(s, c)
    case Wipe => Wiped(s)
    case Echo(c, gx, gy) => Echoed(s, gx, gy, c)
  }

  function Replay(s: Screen, ops: seq<Op>): (r: Screen)
    requires s.WellFormed()
    ensures r.WellFormed()
  {
    if ops == [] then s else Apply(Replay(s, ops[..|ops| - 1]), ops[|ops| - 1])
  }

  // ------------------------------------------------------------------ keys

  predicate IsSwitchKey(key: Byte) {
    KEY_F1 <= key < KEY_F1 + NUM_TERMS
  }

  predicate IsModifier(key: Byte) {
    key == KEY_SHIFT || key == KEY_CAPS_LOCK || key == KEY_CTRL || key == KEY_ALT
  }

  predicate IsPrintable(key: Byte) {
    SPACE <= key < 127
  }

  function Pressed(m: Modifiers, key: Byte): Modifiers {
    m.(shift := m.shift || key == KEY_SHIFT, capsLock := m.capsLock != (key == KEY_CAPS_LOCK),
       ctrl := m.ctrl || key == KEY_CTRL, alt := m.alt || key == KEY_ALT)
  }

  function Released(m: Modifiers, key: Byte): Modifiers {
    m.(shift := m.shift && key != KEY_SHIFT, ctrl := m.ctrl && key != KEY_CTRL, alt := m.alt && key != KEY_ALT)
  }

  predicate IsLower(c: Byte) {
    97 <= c <= 122
  }

  /** The upper symbol of a key that is not a letter: "`1234567890-=[]\\;',./" gives "~!@#$%^&*()_+{}|:\"<>?". */
  function Shifted(c: Byte): (r: Byte)
    ensures IsPrintable(c) ==> IsPrintable(r)
  {
    match c
    case 96 => 126
    case 49 => 33
    case 50 => 64
    case 51 => 35
    case 52 => 36
    case 53 => 37
    case 54 => 94
    case 55 => 38
    case 56 => 42
    case 57 => 40
    case 48 => 41
    case 45 => 95
    case 61 => 43
    case 91 => 123
    case 93 => 125
    case 92 => 124
    case 59 => 58
    case 39 => 34
    case 44 => 60
    case 46 => 62
    case 47 => 63
    case _ => c
  }

  /** The character a key types. */
  function Typed(m: Modifiers, key: Byte): (c: Byte)
    ensures IsPrintable(key) ==> IsPrintable(c)
  {
    var letter := if m.shift != m.capsLock && IsLower(key) then key - 32 else key;
    if m.shift then Shifted(letter) else letter
  }

  // ------------------------------------------------------------------ steps

  /** What an event does to terminal `t`'s own screen. */
  function OpOn(d: Desk, e: Event, t: nat): seq<Op> {
    match e
    case Print(c) => if t == d.inService then [Write(c)] else []
    case Serve(_) => []
    case Press(key) =>
      if t != d.current then []
      else if IsPrintable(key) && !d.keys.ctrl then [Echo(Typed(d.keys, key), d.writeX, d.writeY)]
      else if key == KEY_L && d.keys.ctrl then [Wipe]
      else if key == NEWLINE then [Write(NEWLINE)]
      else []
    case Release(_) => []
  }

  predicate Legal(e: Event) {
    e.Serve? ==> e.term < NUM_TERMS
  }

  /** The shared write coordinates are set to terminal `t`'s cursor. */
  function WriteAt(d: Desk, t: nat): (r: Desk)
    requires d.Valid() && t < NUM_TERMS
    ensures r.Valid()
  {
    d.(writeX := d.screens[t].x, writeY := d.screens[t].y)
  }

  /** Terminal `t`'s screen becomes `s`, and writing goes on at its cursor. */
  function Redrawn(d: Desk, t: nat, s: Screen): (r: Desk)
    requires d.Valid() && t < NUM_TERMS && s.WellFormed()
    ensures r.Valid()
  {
    WriteAt(d.(screens := d.screens[t := s]), t)
  }

  /** The screens after one event, and which terminals are displayed and served. */
  function Step(d: Desk, e: Event): (r: Desk)
    requires d.Valid() && Legal(e)
    ensures r.Valid()
  {
    match e
    case Print(c) => Redrawn(d, d.inService, Put(d.screens[d.inService], c))
    case Serve(t) => d.(inService := t)
    case Release(key) => d.(keys := Released(d.keys, key))
    case Press(key) =>
      var shown := d.screens[d.current];
      if IsModifier(key) then d.(keys := Pressed(d.keys, key))
      else if IsSwitchKey(key) && d.keys.alt && key != KEY_F1 + d.current then
        WriteAt(d.(current := key - KEY_F1), key - KEY_F1)
      else if IsPrintable(key) && !d.keys.ctrl then
        Redrawn(d, d.current, Echoed(shown, d.writeX, d.writeY, Typed(d.keys, key)))
      else if key == KEY_L && d.keys.ctrl then Redrawn(d, d.current, Wiped(shown))
      else if key == NEWLINE then Redrawn(d, d.current, Put(shown, NEWLINE))
      else d
  }

  ghost predicate AllLegal(events: seq<Event>) {
    forall e | e in events :: Legal(e)
  }

  function Run(d: Desk, events: seq<Event>): (r: Desk)
    requires d.Valid() && AllLegal(events)
    ensures r.Valid()
  {
    if events == [] then d else Step(Run(d, events[..|events| - 1]), events[|events| - 1])
  }

  /** Terminal `t`'s own operations in a run. */
  function Own(d: Desk, events: seq<Event>, t: nat): seq<Op>
    requires d.Valid() && AllLegal(events)
  {
    if events == [] then []
    else
      var before := events[..|events| - 1];
      Own(d, before, t) + OpOn(Run(d, before), events[|events| - 1], t)
  }

  lemma OneStep(d: Desk, e: Event, t: nat)
    requires d.Valid() && Legal(e) && t < NUM_TERMS
    ensures |OpOn(d, e, t)| <= 1
    ensures Step(d, e).screens[t] ==
            if OpOn(d, e, t) == [] then d.screens[t] else Apply(d.screens[t], OpOn(d, e, t)[0])
  {
  }

  lemma ReplayExtended(s: Screen, ops: seq<Op>, more: seq<Op>)
    requires s.WellFormed() && |more| <= 1
    ensures Replay(s, ops + more) == if more == [] then Replay(s, ops) else Apply(Replay(s, ops), more[0])
  {
    if more == [] {
      assert ops + more == ops;
    } else {
      assert (ops + more)[..|ops + more| - 1] == ops;
    }
  }

  /**
    For every interleaving, a screen is made by its own operations; an echo is one that brings the shared
    coordinates with it.  `LooksAloneIff` says when these make no difference.
   */
  lemma {:induction false} Isolation(d: Desk, events: seq<Event>, t: nat)
    requires d.Valid() && AllLegal(events) && t < NUM_TERMS
    ensures Run(d, events).screens[t] == Replay(d.screens[t], Own(d, events, t))
  {
    if events != [] {
      var before, e := events[..|events| - 1], events[|events| - 1];
      Isolation(d, before, t);
      OneStep(Run(d, before), e, t);
      ReplayExtended(d.screens[t], Own(d, before, t), OpOn(Run(d, before), e, t));
    }
  }

  // ------------------------------------------------------------------ the shared coordinates

  ghost predicate SameControl(d: Desk, e: Desk) {
    d.current == e.current && d.inService == e.inService && d.keys == e.keys
  }

  /** A key of terminal `t` is echoed. */
  predicate EchoesOn(d: Desk, e: Event, t: nat) {
    e.Press? && t == d.current && IsPrintable(e.key) && !d.keys.ctrl
  }

  lemma ControlStep(d: Desk, e: Desk, event: Event, t: nat)
    requires d.Valid() && e.Valid() && SameControl(d, e) && Legal(event) && t < NUM_TERMS
    ensures SameControl(Step(d, event), Step(e, event))
    ensures EchoesOn(d, event, t) == EchoesOn(e, event, t)
    ensures InputOn(d, event, t) == InputOn(e, event, t)
    ensures !EchoesOn(d, event, t) && d.screens[t] == e.screens[t] ==>
              Step(d, event).screens[t] == Step(e, event).screens[t]
  {
    OneStep(d, event, t);
    OneStep(e, event, t);
  }

  lemma {:induction false} ControlIgnoresScreens(d: Desk, e: Desk, events: seq<Event>, t: nat)
    requires d.Valid() && e.Valid() && SameControl(d, e) && AllLegal(events) && t < NUM_TERMS
    ensures SameControl(Run(d, events), Run(e, events))
    ensures Inputs(d, events, t) == Inputs(e, events, t)
  {
    if events != [] {
      var before := events[..|events| - 1];
      ControlIgnoresScreens(d, e, before, t);
      ControlStep(Run(d, before), Run(e, before), events[|events| - 1], t);
    }
  }

  /** An echo leaves two equal screens equal exactly if the coordinates it finds amount to the same. */
  lemma EchoStep(d: Desk, e: Desk, event: Event, t: nat)
    requires d.Valid() && e.Valid() && SameControl(d, e) && Legal(event) && t < NUM_TERMS
    requires EchoesOn(d, event, t) && d.screens[t] == e.screens[t]
    ensures Step(d, event).screens[t] == Step(e, event).screens[t] <==>
            SameEcho(d.screens[t], d.writeX, d.writeY, e.writeX, e.writeY)
  {
    OneStep(d, event, t);
    OneStep(e, event, t);
    EchoesCompared(d.screens[t], d.writeX, d.writeY, e.writeX, e.writeY, Typed(d.keys, event.key));
  }

  // ------------------------------------------------------------------ a terminal on its own

  /** What a terminal itself receives: text to print, Ctrl-L, or a typed character. */
  datatype Input = Text(c: Byte) | Clear | Key(c: Byte)

  function Received(op: Op): Input {
    match op
    case Write(c) => Text(c)
    case Wipe => Clear
    case Echo(c, _, _) => Key(c)
  }

  /** What the input does to a screen that nothing else is written beside: keys are typed at its own cursor. */
  function Take(s: Screen, i: Input): (r: Screen)
    requires s.WellFormed()
    ensures r.WellFormed()
  {
    match i
    case Text(c) => Put(s, c)
    case Clear => Wiped(s)
    case Key(c) => Echoed(s, s.x, s.y, c)
  }

  function TakeAll(s: Screen, inputs: seq<Input>): (r: Screen)
    requires s.WellFormed()
    ensures r.WellFormed()
  {
    if inputs == [] then s else Take(TakeAll(s, inputs[..|inputs| - 1]), inputs[|inputs| - 1])
  }

  function InputOn(d: Desk, e: Event, t: nat): seq<Input> {
    var ops := OpOn(d, e, t);
    if ops == [] then [] else [Received(ops[0])]
  }

  /** Terminal `t`'s own inputs in a run; they do not depend on any screen. */
  function Inputs(d: Desk, events: seq<Event>, t: nat): seq<Input>
    requires d.Valid() && AllLegal(events)
  {
    if events == [] then []
    else
      var before := events[..|events| - 1];
      Inputs(d, before, t) + InputOn(Run(d, before), events[|events| - 1], t)
  }

  /** After every event of the run, terminal `t` looks as its own inputs alone make it look. */
  ghost predicate LooksAlone(d: Desk, events: seq<Event>, t: nat)
    requires d.Valid() && AllLegal(events) && t < NUM_TERMS
  {
    && Run(d, events).screens[t] == TakeAll(d.screens[t], Inputs(d, events, t))
    && (events != [] ==> LooksAlone(d, events[..|events| - 1], t))
  }

  /** Every key of terminal `t` is echoed where the shared coordinates amount to the terminal's own cursor. */
  ghost predicate EchoesAtHome(d: Desk, events: seq<Event>, t: nat)
    requires d.Valid() && AllLegal(events) && t < NUM_TERMS
  {
    events == [] ||
    (var before, last := Run(d, events[..|events| - 1]), events[|events| - 1];
     && EchoesAtHome(d, events[..|events| - 1], t)
     && (EchoesOn(before, last, t) ==>
           var s := before.screens[t];
           SameEcho(s, before.writeX, before.writeY, s.x, s.y)))
  }

  lemma TakeStep(d: Desk, e: Event, t: nat)
    requires d.Valid() && Legal(e) && t < NUM_TERMS
    ensures var s, more := d.screens[t], InputOn(d, e, t);
            && |more| <= 1
            && (Step(d, e).screens[t] == (if more == [] then s else Take(s, more[0])) <==>
                (EchoesOn(d, e, t) ==> SameEcho(s, d.writeX, d.writeY, s.x, s.y)))
  {
    OneStep(d, e, t);
    if EchoesOn(d, e, t) {
      var s := d.screens[t];
      EchoesCompared(s, d.writeX, d.writeY, s.x, s.y, Typed(d.keys, e.key));
    }
  }

  lemma TakeAllExtended(s: Screen, inputs: seq<Input>, more: seq<Input>)
    requires s.WellFormed() && |more| <= 1
    ensures TakeAll(s, inputs + more) == if more == [] then TakeAll(s, inputs) else Take(TakeAll(s, inputs), more[0])
  {
    if more == [] {
      assert inputs + more == inputs;
    } else {
      assert (inputs + more)[..|inputs + more| - 1] == inputs;
    }
  }

  /**
    Main result: throughout a run, whatever is interleaved, a terminal looks as its own inputs alone
    make it look exactly when each of its keys is echoed where the shared coordinates amount to its
    own cursor.
   */
  lemma {:induction false} LooksAloneIff(d: Desk, events: seq<Event>, t: nat)
    requires d.Valid() && AllLegal(events) && t < NUM_TERMS
    ensures LooksAlone(d, events, t) <==> EchoesAtHome(d, events, t)
  {
    if events != [] {
      var before, last := events[..|events| - 1], events[|events| - 1];
      LooksAloneIff(d, before, t);
      TakeStep(Run(d, before), last, t);
      TakeAllExtended(d.screens[t], Inputs(d, before, t), InputOn(Run(d, before), last, t));
    }
  }

  // ------------------------------------------------------------------ what shows of the other terminals

  /** Terminal `t` looks the same in both runs, after every event. */
  ghost predicate LooksSame(d: Desk, e: Desk, events: seq<Event>, t: nat)
    requires d.Valid() && e.Valid() && AllLegal(events) && t < NUM_TERMS
  {
    && Run(d, events).screens[t] == Run(e, events).screens[t]
    && (events != [] ==> LooksSame(d, e, events[..|events| - 1], t))
  }

  /** Every key of terminal `t` is echoed where the shared coordinates of both runs amount to the same. */
  ghost predicate EchoesMatch(d: Desk, e: Desk, events: seq<Event>, t: nat)
    requires d.Valid() && e.Valid() && AllLegal(events) && t < NUM_TERMS
  {
    events == [] ||
    (var before, last := events[..|events| - 1], events[|events| - 1];
     var a, b := Run(d, before), Run(e, before);
     && EchoesMatch(d, e, before, t)
     && (EchoesOn(a, last, t) ==> SameEcho(a.screens[t], a.writeX, a.writeY, b.writeX, b.writeY)))
  }

  /**
    Main result: of two runs that differ in what the screens hold at first, nothing of the difference shows
    on terminal `t` exactly when it starts out the same and its echoes find coordinates that amount to the same.
   */
  lemma {:induction false} NoLeakIff(d: Desk, e: Desk, events: seq<Event>, t: nat)
    requires d.Valid() && e.Valid() && SameControl(d, e) && AllLegal(events) && t < NUM_TERMS
    ensures LooksSame(d, e, events, t) <==> d.screens[t] == e.screens[t] && EchoesMatch(d, e, events, t)
  {
    if events != [] {
      var before, last := events[..|events| - 1], events[|events| - 1];
      NoLeakIff(d, e, before, t);
      ControlIgnoresScreens(d, e, before, t);
      if LooksSame(d, e, before, t) {
        ControlStep(Run(d, before), Run(e, before), last, t);
        if EchoesOn(Run(d, before), last, t) {
          EchoStep(Run(d, before), Run(e, before), last, t);
        }
      }
    }
  }

  /** The shared coordinates are the cursor of terminal `u`. */
  predicate WritesAt(d: Desk, u: nat)
    requires d.Valid() && u < NUM_TERMS
  {
    d.writeX == d.screens[u].x && d.writeY == d.screens[u].y
  }

  /** The terminal the event sets the shared coordinates for, `u` if it leaves them alone. */
  function WrittenBy(d: Desk, e: Event, u: nat): nat {
    match e
    case Print(_) => d.inService
    case Serve(_) => u
    case Release(_) => u
    case Press(key) =>
      if IsSwitchKey(key) && d.keys.alt && key != KEY_F1 + d.current then key - KEY_F1
      else if OpOn(d, e, d.current) != [] then d.current
      else u
  }

  /** The terminal that was written to or brought up last, `u` if none was. */
  function LastWritten(d: Desk, u: nat, events: seq<Event>): nat
    requires d.Valid() && AllLegal(events)
  {
    if events == [] then u
    else
      var before := events[..|events| - 1];
      WrittenBy(Run(d, before), events[|events| - 1], LastWritten(d, u, before))
  }

  lemma WrittenByStep(d: Desk, e: Event, u: nat)
    requires d.Valid() && Legal(e) && u < NUM_TERMS && WritesAt(d, u)
    ensures WrittenBy(d, e, u) < NUM_TERMS && WritesAt(Step(d, e), WrittenBy(d, e, u))
  {
  }

  /** Main result: the shared coordinates are always the cursor of the terminal last written to or brought up. */
  lemma {:induction false} CoordinatesFollow(d: Desk, u: nat, events: seq<Event>)
    requires d.Valid() && AllLegal(events) && u < NUM_TERMS && WritesAt(d, u)
    ensures LastWritten(d, u, events) < NUM_TERMS && WritesAt(Run(d, events), LastWritten(d, u, events))
  {
    if events != [] {
      var before := events[..|events| - 1];
      CoordinatesFollow(d, u, before);
      WrittenByStep(Run(d, before), events[|events| - 1], LastWritten(d, u, before));
    }
  }

  lemma {:induction false} LastWrittenIgnoresScreens(d: Desk, e: Desk, u: nat, events: seq<Event>)
    requires d.Valid() && e.Valid() && SameControl(d, e) && AllLegal(events)
    ensures LastWritten(d, u, events) == LastWritten(e, u, events)
  {
    if events != [] {
      var before := events[..|events| - 1];
      LastWrittenIgnoresScreens(d, e, u, before);
      ControlIgnoresScreens(d, e, before, 0);
    }
  }

  /** Every key of terminal `t` is echoed when it was the terminal last written to or brought up. */
  ghost predicate KeysFollowOwn(d: Desk, u: nat, events: seq<Event>, t: nat)
    requires d.Valid() && AllLegal(events)
  {
    events == [] ||
    (var before, last := events[..|events| - 1], events[|events| - 1];
     KeysFollowOwn(d, u, before, t) && (EchoesOn(Run(d, before), last, t) ==> LastWritten(d, u, before) == t))
  }

  /** Then its keys are echoed at its own cursor. */
  lemma {:induction false} KeysFollowOwnSuffices(d: Desk, u: nat, events: seq<Event>, t: nat)
    requires d.Valid() && AllLegal(events) && u < NUM_TERMS && WritesAt(d, u) && t < NUM_TERMS
    requires KeysFollowOwn(d, u, events, t)
    ensures EchoesAtHome(d, events, t)
  {
    if events != [] {
      var before := events[..|events| - 1];
      KeysFollowOwnSuffices(d, u, before, t);
      CoordinatesFollow(d, u, before);
    }
  }

  /**
    At every echo on terminal `t`, either it was the terminal last written to or brought up, or the shared column
    is at the right margin in neither run.
   */
  ghost predicate SafeEchoes(d: Desk, e: Desk, u: nat, events: seq<Event>, t: nat)
    requires d.Valid() && e.Valid() && AllLegal(events) && u < NUM_TERMS
  {
    events == [] ||
    (var before, last := events[..|events| - 1], events[|events| - 1];
     var a, b := Run(d, before), Run(e, before);
     && SafeEchoes(d, e, u, before, t)
     && (EchoesOn(a, last, t) ==>
           || (WritesAt(d, u) && WritesAt(e, u) && LastWritten(d, u, before) == t)
           || (a.writeX != NUM_COLS - 1 && b.writeX != NUM_COLS - 1)))
  }

  /**
    What the other terminals hold cannot show on terminal `t` unless one of its keys is echoed after another
    terminal was written to or brought up, and finds that terminal's cursor at the right margin.
   */
  lemma {:induction false} NoLeak(d: Desk, e: Desk, u: nat, events: seq<Event>, t: nat)
    requires d.Valid() && e.Valid() && SameControl(d, e) && AllLegal(events) && t < NUM_TERMS && u < NUM_TERMS
    requires d.screens[t] == e.screens[t] && SafeEchoes(d, e, u, events, t)
    ensures LooksSame(d, e, events, t)
  {
    if events != [] {
      var before, last := events[..|events| - 1], events[|events| - 1];
      var a, b := Run(d, before), Run(e, before);
      NoLeak(d, e, u, before, t);
      ControlIgnoresScreens(d, e, before, t);
      ControlStep(a, b, last, t);
      if EchoesOn(a, last, t) {
        if WritesAt(d, u) && WritesAt(e, u) && LastWritten(d, u, before) == t {
          CoordinatesFollow(d, u, before);
          CoordinatesFollow(e, u, before);
          LastWrittenIgnoresScreens(d, e, u, before);
        }
        EchoStep(a, b, last, t);
      }
    }
  }

  /**
    An input on which it does show: terminal 0 is displayed and terminal 1 served.  Where a key typed on
    terminal 0 lands depends on where terminal 1's cursor was when it printed a character.
   */
  lemma LeakThroughEcho(d: Desk, page: seq<Byte>)
    requires d.Valid() && d.current == 0 && d.inService == 1 && !d.keys.ctrl && d.screens[0].y == 0
    requires |page| == PAGE_SIZE
    ensures var a := d.(screens := d.screens[1 := Screen(page, NUM_COLS - 2, 0)]);
            var b := d.(screens := d.screens[1 := Screen(page, 0, 0)]);
            var events := [Print(97), Press(98)];
            && AllLegal(events) && a.Valid() && b.Valid()
            && Run(a, events).screens[0] != Run(b, events).screens[0]
  {
    var a := d.(screens := d.screens[1 := Screen(page, NUM_COLS - 2, 0)]);
    var b := d.(screens := d.screens[1 := Screen(page, 0, 0)]);
    RunTwo(a, Print(97), Press(98));
    RunTwo(b, Print(97), Press(98));
    EchoIsPut(d.screens[0], NUM_COLS - 1, 0, Typed(d.keys, 98));
  }

  lemma RunTwo(d: Desk, first: Event, second: Event)
    requires d.Valid() && Legal(first) && Legal(second)
    ensures AllLegal([first, second])
    ensures Run(d, [first, second]) == Step(Step(d, first), second)
  {
    assert [first, second][..1] == [first] && [first][..0] == [];
    assert Run(d, [first]) == Step(Run(d, []), first);
  }

  // ------------------------------------------------------------------ what the screens show

  /** The text an operation other than `Wipe` adds; an echo at the right margin breaks the line first. */
  function TextOf(op: Op): seq<Byte>
    requires !op.Wipe?
  {
    if op.Echo? && op.gx == NUM_COLS - 1 then [NEWLINE, op.c] else [op.c]
  }

  /** The text a list of operations has written since its last `Wipe`. */
  function TextSinceWipe(ops: seq<Op>): seq<Byte> {
    if ops == [] then []
    else
      var last := ops[|ops| - 1];
      if last.Wipe? then [] else TextSinceWipe(ops[..|ops| - 1]) + TextOf(last)
  }

  /** Whenever an echo breaks the line, the shared row is the displayed cursor's. */
  ghost predicate EchoesAgree(s: Screen, ops: seq<Op>)
    requires s.WellFormed()
  {
    ops == [] ||
    (var before, last := ops[..|ops| - 1], ops[|ops| - 1];
     && EchoesAgree(s, before)
     && (last.Echo? && last.gx == NUM_COLS - 1 ==> last.gy == Replay(s, before).y))
  }

  lemma ApplyShows(s: Screen, text: seq<Byte>, op: Op)
    requires Shows(s, text) && !op.Wipe?
    requires op.Echo? && op.gx == NUM_COLS - 1 ==> op.gy == s.y
    ensures Shows(Apply(s, op), text + TextOf(op))
  {
    PutShows(s, text, op.c);
    if op.Echo? && op.gx == NUM_COLS - 1 {
      PutShows(s, text, NEWLINE);
      PutShows(Put(s, NEWLINE), text + [NEWLINE], op.c);
      assert text + [NEWLINE] + [op.c] == text + [NEWLINE, op.c];
    }
  }

  /** A screen that was blank, or that the operations wiped, shows what was written since. */
  lemma {:induction false} ReplayShows(s: Screen, ops: seq<Op>)
    requires s.WellFormed() && (Shows(s, []) || Wipe in ops) && EchoesAgree(s, ops)
    ensures Shows(Replay(s, ops), TextSinceWipe(ops))
  {
    if ops != [] {
      var before, last := ops[..|ops| - 1], ops[|ops| - 1];
      if last.Wipe? {
        ScreenIsWindow(Replay(s, before), []);
      } else {
        ReplayShows(s, before);
        ApplyShows(Replay(s, before), TextSinceWipe(before), last);
      }
    }
  }

  /** Terminal `t` started blank or has been cleared, and its echoes broke lines at its own cursor's row. */
  ghost predicate StartsClean(d: Desk, events: seq<Event>, t: nat)
    requires d.Valid() && AllLegal(events) && t < NUM_TERMS
  {
    (Shows(d.screens[t], []) || Wipe in Own(d, events, t)) && EchoesAgree(d.screens[t], Own(d, events, t))
  }

  /** Nothing is printed while a terminal that is not displayed is in service. */
  ghost predicate NoHiddenPrint(d: Desk, events: seq<Event>)
    requires d.Valid() && AllLegal(events)
  {
    events == [] ||
    (var before, last := events[..|events| - 1], events[|events| - 1];
     && NoHiddenPrint(d, before)
     && (last.Print? ==> Run(d, before).inService == Run(d, before).current))
  }

  lemma StepWritesAtDisplay(d: Desk, e: Event)
    requires d.Valid() && Legal(e) && WritesAt(d, d.current) && (e.Print? ==> d.inService == d.current)
    ensures WritesAt(Step(d, e), Step(d, e).current)
  {
  }

  /** If no hidden terminal prints, every echo finds its own terminal's cursor. */
  lemma {:induction false} EchoesAgreeWithoutHiddenPrint(d: Desk, events: seq<Event>, t: nat)
    requires d.Valid() && AllLegal(events) && t < NUM_TERMS && WritesAt(d, d.current) && NoHiddenPrint(d, events)
    ensures WritesAt(Run(d, events), Run(d, events).current) && EchoesAgree(d.screens[t], Own(d, events, t))
  {
    if events != [] {
      var before, last := events[..|events| - 1], events[|events| - 1];
      EchoesAgreeWithoutHiddenPrint(d, before, t);
      StepWritesAtDisplay(Run(d, before), last);
      Isolation(d, before, t);
      var ops, more := Own(d, before, t), OpOn(Run(d, before), last, t);
      if more == [] {
        assert ops + more == ops;
      } else {
        assert (ops + more)[..|ops + more| - 1] == ops;
      }
    }
  }

  /**
    Main result, both claims together: after any interleaving, every terminal that started
    blank or has been cleared shows the last 25 rows of the text it received itself since its
    last Ctrl-L.
   */
  lemma EachTerminalShowsItsOwnText(d: Desk, events: seq<Event>, t: nat)
    requires d.Valid() && AllLegal(events) && t < NUM_TERMS && StartsClean(d, events, t)
    ensures Shows(Run(d, events).screens[t], TextSinceWipe(Own(d, events, t)))
  {
    Isolation(d, events, t);
    ReplayShows(d.screens[t], Own(d, events, t));
  }

  /**
    What a screen `s` of terminal `t` is at the end of a run: the replay of the terminal's own operations; what
    its own inputs alone make of it, throughout the run exactly if its keys are echoed at home; and, if it
    started clean, the window onto its own text.
   */
  ghost predicate EndsAs(d: Desk, events: seq<Event>, t: nat, s: Screen)
    requires d.Valid() && AllLegal(events) && t < NUM_TERMS
  {
    && s == Replay(d.screens[t], Own(d, events, t))
    && (LooksAlone(d, events, t) <==> EchoesAtHome(d, events, t))
    && (EchoesAtHome(d, events, t) ==> s == TakeAll(d.screens[t], Inputs(d, events, t)))
    && (StartsClean(d, events, t) ==> Shows(s, TextSinceWipe(Own(d, events, t))))
  }

  lemma RunEndsAs(d: Desk, events: seq<Event>, t: nat)
    requires d.Valid() && AllLegal(events) && t < NUM_TERMS
    ensures EndsAs(d, events, t, Run(d, events).screens[t])
  {
    Isolation(d, events, t);
    LooksAloneIff(d, events, t);
    if StartsClean(d, events, t) {
      EachTerminalShowsItsOwnText(d, events, t);
    }
  }

  // ------------------------------------------------------------------ the page table entry

  /** The terminal that was displayed when the video page entry was last set, if it was `d0` at first. */
  function MappedDisplay(d: Desk, d0: nat, events: seq<Event>): (m: nat)
    requires d.Valid() && AllLegal(events) && d0 < NUM_TERMS
    ensures m < NUM_TERMS
  {
    if events == [] then d0
    else
      var before, last := events[..|events| - 1], events[|events| - 1];
      if last.Print? || last.Serve? then Run(d, before).current else MappedDisplay(d, d0, before)
  }

  function Prints(buf: seq<Byte>): (r: seq<Event>)
    ensures AllLegal(r) && |r| == |buf|
  {
    seq(|buf|, i requires 0 <= i < |buf| => Print(buf[i]))
  }

  lemma RunExtended(d: Desk, events: seq<Event>, e: Event)
    requires d.Valid() && AllLegal(events) && Legal(e)
    ensures AllLegal(events + [e])
    ensures Run(d, events + [e]) == Step(Run(d, events), e)
    ensures forall d0: nat | d0 < NUM_TERMS ::
              MappedDisplay(d, d0, events + [e]) ==
              if e.Print? || e.Serve? then Run(d, events).current else MappedDisplay(d, d0, events)
  {
    assert (events + [e])[..|events + [e]| - 1] == events;
  }
}
