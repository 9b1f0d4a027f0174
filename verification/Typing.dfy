/**
  What keys, printing and the scheduler do to the terminals, stated on the events themselves: which
  modifiers are held, which terminal is displayed and served, and what a typed or printed text
  leaves on the screen.
 */
module Typing {
  import opened Bytes
  import opened Layout
  import opened Screen
  import opened Window
  import opened Desk

  // ------------------------------------------------------------------ modifiers, display and service

  /** Whether the key is down: it was pressed after it was last released, or is still down from before. */
  function Held(was: bool, events: seq<Event>, key: Byte): bool {
    if events == [] then was
    else
      var last := events[|events| - 1];
      if last == Press(key) then true
      else if last == Release(key) then false
      else Held(was, events[..|events| - 1], key)
  }

  /** How often the key was pressed. */
  function Presses(events: seq<Event>, key: Byte): nat {
    if events == [] then 0
    else Presses(events[..|events| - 1], key) + if events[|events| - 1] == Press(key) then 1 else 0
  }

  /** The terminal of the last function key pressed with Alt held. */
  function Shown(was: nat, alt: bool, events: seq<Event>): nat {
    if events == [] then was
    else
      var before, last := events[..|events| - 1], events[|events| - 1];
      if last.Press? && 131 <= last.key <= 133 && Held(alt, before, 134) then last.key - 131
      else Shown(was, alt, before)
  }

  /** The terminal the scheduler last put in service. */
  function Served(was: nat, events: seq<Event>): nat {
    if events == [] then was
    else
      var last := events[|events| - 1];
      if last.Serve? then last.term else Served(was, events[..|events| - 1])
  }

  /**
    Main result: after any run Shift, Ctrl and Alt are on exactly if they are held down, Caps Lock has been
    turned over once per press, and display and service are where the events last put them.
   */
  lemma {:induction false} ControlFromEvents(d: Desk, events: seq<Event>)
    requires d.Valid() && AllLegal(events)
    ensures var r := Run(d, events);
            && r.keys.shift == Held(d.keys.shift, events, 128)
            && r.keys.ctrl == Held(d.keys.ctrl, events, 130)
            && r.keys.alt == Held(d.keys.alt, events, 134)
            && r.keys.capsLock == (d.keys.capsLock != (Presses(events, 129) % 2 == 1))
            && r.current == Shown(d.current, d.keys.alt, events)
            && r.inService == Served(d.inService, events)
  {
    if events != [] {
      var before, last := events[..|events| - 1], events[|events| - 1];
      ControlFromEvents(d, before);
      ControlChanges(Run(d, before), last);
    }
  }

  lemma ControlChanges(d: Desk, e: Event)
    requires d.Valid() && Legal(e)
    ensures var r := Step(d, e);
            && r.keys.shift == (if e == Press(128) then true else if e == Release(128) then false else d.keys.shift)
            && r.keys.ctrl == (if e == Press(130) then true else if e == Release(130) then false else d.keys.ctrl)
            && r.keys.alt == (if e == Press(134) then true else if e == Release(134) then false else d.keys.alt)
            && r.keys.capsLock == (d.keys.capsLock != (e == Press(129)))
            && r.current == (if e.Press? && 131 <= e.key <= 133 && d.keys.alt then e.key - 131 else d.current)
            && r.inService == if e.Serve? then e.term else d.inService
  {
  }

  // ------------------------------------------------------------------ characters

  // The keys that are no letters, and what they type with Shift held.
  const PLAIN: string := "`1234567890-=[]\\;',./"
  const UPPER: string := "~!@#$%^&*()_+{}|:\"<>?"

  lemma ShiftTable(i: nat)
    requires i < |PLAIN|
    ensures |UPPER| == |PLAIN| && PLAIN[i] as int < 128 && UPPER[i] as int < 128
    ensures Shifted(PLAIN[i] as int) == UPPER[i] as int
    ensures !IsLower(PLAIN[i] as int)
  {
  }

  lemma NotInTable(c: Byte)
    requires forall i | 0 <= i < |PLAIN| :: PLAIN[i] as int != c
    ensures Shifted(c) == c
  {
    assert |PLAIN| == 21;
    forall i | 0 <= i < 21
      ensures c != PLAIN[i] as int
    {
    }
    assert [PLAIN[0], PLAIN[1], PLAIN[2], PLAIN[3], PLAIN[4], PLAIN[5], PLAIN[6]] == "`123456";
    assert [PLAIN[7], PLAIN[8], PLAIN[9], PLAIN[10], PLAIN[11], PLAIN[12], PLAIN[13]] == "7890-=[";
    assert [PLAIN[14], PLAIN[15], PLAIN[16], PLAIN[17], PLAIN[18], PLAIN[19], PLAIN[20]] == "]\\;',./";
  }

  /**
    What a key types: a letter is a capital exactly if one of Shift and Caps Lock is on; any other key has a second
    symbol for Shift, or types the same with every modifier.
   */
  lemma TypedCharacters(m: Modifiers, key: Byte)
    ensures 'a' as int <= key <= 'z' as int ==> Typed(m, key) == if m.shift != m.capsLock then key - 32 else key
    ensures forall i | 0 <= i < |PLAIN| ::
              PLAIN[i] as int == key ==> Typed(m, key) == if m.shift then UPPER[i] as int else key
    ensures !('a' as int <= key <= 'z' as int) && (forall i | 0 <= i < |PLAIN| :: PLAIN[i] as int != key) ==>
              Typed(m, key) == key
  {
    forall i | 0 <= i < |PLAIN| && PLAIN[i] as int == key
      ensures Typed(m, key) == if m.shift then UPPER[i] as int else key
    {
      ShiftTable(i);
    }
    if forall i | 0 <= i < |PLAIN| :: PLAIN[i] as int != key {
      NotInTable(key);
    }
  }

  // ------------------------------------------------------------------ typing

  /** The keys pressed and released one after the other. */
  function Strokes(keys: seq<Byte>): seq<Event> {
    if keys == [] then []
    else Strokes(keys[..|keys| - 1]) + [Press(keys[|keys| - 1]), Release(keys[|keys| - 1])]
  }

  /** What stands on the terminal when the keys are typed behind `text`; in the last column the line is broken first. */
  function Script(text: seq<Byte>, keys: seq<Byte>, m: Modifiers): seq<Byte> {
    if keys == [] then text
    else
      var before, key := Script(text, keys[..|keys| - 1], m), keys[|keys| - 1];
      if key == 10 then before + [10]
      else if End(before).col == 79 then before + [10, Typed(m, key)]
      else before + [Typed(m, key)]
  }

  /** Nothing but the displayed terminal's screen, and the write position, has changed. */
  predicate OnlyDisplayChanged(d: Desk, r: Desk)
    requires d.Valid()
  {
    && |r.screens| == NUM_TERMS && r.current == d.current && r.inService == d.inService && r.keys == d.keys
    && forall t | 0 <= t < NUM_TERMS && t != d.current :: r.screens[t] == d.screens[t]
  }

  lemma StrokeShows(d: Desk, key: Byte, text: seq<Byte>)
    requires d.Valid() && !d.keys.ctrl && WritesAt(d, d.current) && Shows(d.screens[d.current], text)
    requires 32 <= key < 127 || key == 10
    ensures var r := Step(Step(d, Press(key)), Release(key));
            && r.Valid() && OnlyDisplayChanged(d, r) && WritesAt(r, r.current)
            && Shows(r.screens[d.current], Script(text, [key], d.keys))
  {
    var s := d.screens[d.current];
    assert [key][..0] == [] && Script(text, [], d.keys) == text;
    if key == 10 {
      ApplyShows(s, text, Write(10));
    } else {
      ApplyShows(s, text, Echo(Typed(d.keys, key), d.writeX, d.writeY));
    }
  }

  lemma ScriptExtended(text: seq<Byte>, keys: seq<Byte>, m: Modifiers)
    requires keys != []
    ensures Script(text, keys, m) == Script(Script(text, keys[..|keys| - 1], m), [keys[|keys| - 1]], m)
  {
    assert [keys[|keys| - 1]][..0] == [];
  }

  /** Main result: a text typed without Ctrl on the terminal written to last appears on it, and on no other. */
  lemma {:induction false} TypedTextShows(d: Desk, keys: seq<Byte>, text: seq<Byte>)
    requires d.Valid() && !d.keys.ctrl && WritesAt(d, d.current) && Shows(d.screens[d.current], text)
    requires forall i | 0 <= i < |keys| :: 32 <= keys[i] < 127 || keys[i] == 10
    ensures AllLegal(Strokes(keys))
    ensures var r := Run(d, Strokes(keys));
            && OnlyDisplayChanged(d, r) && WritesAt(r, r.current)
            && Shows(r.screens[d.current], Script(text, keys, d.keys))
  {
    if keys != [] {
      var before, key := keys[..|keys| - 1], keys[|keys| - 1];
      TypedTextShows(d, before, text);
      StrokeShows(Run(d, Strokes(before)), key, Script(text, before, d.keys));
      RunTwoMore(d, Strokes(before), Press(key), Release(key));
      ScriptExtended(text, keys, d.keys);
    }
  }

  lemma RunTwoMore(d: Desk, events: seq<Event>, first: Event, second: Event)
    requires d.Valid() && AllLegal(events) && Legal(first) && Legal(second)
    ensures AllLegal(events + [first, second])
    ensures Run(d, events + [first, second]) == Step(Step(Run(d, events), first), second)
  {
    RunExtended(d, events, first);
    RunExtended(d, events + [first], second);
    assert events + [first] + [second] == events + [first, second];
  }

  /** Main result: Ctrl-L clears the displayed terminal, and no other. */
  lemma CtrlLClears(d: Desk)
    requires d.Valid()
    ensures var events := [Press(130), Press(108)] + [Release(108), Release(130)];
            && AllLegal(events)
            && var r := Run(d, events);
            && OnlyDisplayChanged(d.(keys := r.keys), r) && r.keys == d.keys.(ctrl := false)
            && Shows(r.screens[d.current], []) && WritesAt(r, r.current)
  {
    RunTwo(d, Press(130), Press(108));
    RunTwoMore(d, [Press(130), Press(108)], Release(108), Release(130));
    ScreenIsWindow(d.screens[d.current], []);
  }

  /** Main result: Alt-Fn brings up the n-th terminal, and changes no screen. */
  lemma AltFnShows(d: Desk, n: nat)
    requires d.Valid() && n < 3
    ensures var events := [Press(134), Press(131 + n)] + [Release(131 + n), Release(134)];
            && AllLegal(events)
            && var r := Run(d, events);
            && r.current == n && r.screens == d.screens && r.inService == d.inService
            && r.keys == d.keys.(alt := false)
            && (n != d.current ==> WritesAt(r, n))
  {
    RunTwo(d, Press(134), Press(131 + n));
    RunTwoMore(d, [Press(134), Press(131 + n)], Release(131 + n), Release(134));
  }

  /** No other key does anything: control characters, function keys without Alt, printable keys with Ctrl held. */
  lemma OtherKeysDoNothing(d: Desk, key: Byte)
    requires d.Valid()
    ensures (key < 32 && key != 10) || key == 127 || key > 134 ==> Step(d, Press(key)) == d
    ensures 131 <= key <= 133 && !d.keys.alt ==> Step(d, Press(key)) == d
    ensures 32 <= key < 127 && key != 108 && d.keys.ctrl ==> Step(d, Press(key)) == d
    ensures key != 128 && key != 130 && key != 134 ==> Step(d, Release(key)) == d
    ensures forall t: nat | t < 3 :: Step(d, Serve(t)) == d.(inService := t)
  {
  }

  // ------------------------------------------------------------------ printing

  /** Main result: a printed text appears on the terminal in service, and on no other. */
  lemma {:induction false} PrintedTextShows(d: Desk, buf: seq<Byte>, text: seq<Byte>)
    requires d.Valid() && Shows(d.screens[d.inService], text)
    ensures var r := Run(d, Prints(buf));
            && Shows(r.screens[d.inService], text + buf)
            && r.current == d.current && r.inService == d.inService && r.keys == d.keys
            && forall t | 0 <= t < NUM_TERMS && t != d.inService :: r.screens[t] == d.screens[t]
  {
    if buf == [] {
      assert text + [] == text;
    } else {
      var before, c := buf[..|buf| - 1], buf[|buf| - 1];
      PrintedTextShows(d, before, text);
      var m := Run(d, Prints(before));
      RunExtended(d, Prints(before), Print(c));
      assert Prints(buf) == Prints(before) + [Print(c)];
      PutShows(m.screens[d.inService], text + before, c);
      assert text + before + [c] == text + buf;
    }
  }
}
