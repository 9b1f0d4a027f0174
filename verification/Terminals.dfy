/**
  The kernel's terminals: one pair of write coordinates, one remappable page entry, video
  memory and three backing pages.  Every method is proved to be a step of `Desk`.
 */
module Terminals {
  import opened Bytes
  import opened Layout
  import opened Screen
  import opened Window
  import opened Desk

  const KEY_BACKSPACE: Byte := 8
  const KEY_1: Byte := 49
  const KEY_2: Byte := 50

  const VIM_MEM_INDEX: nat := 0xB8000
  const ENTRY_FLAGS: nat := 7             // PRESENT | RW | USER
  const NUM_FRAMES: nat := 4              // VGA memory, then a backing page per terminal

  /** A page table entry: the frame's address with the low three flag bits set. */
  function EntryFor(frame: nat): nat {
    VIM_MEM_INDEX + frame * FOUR_KB + ENTRY_FLAGS
  }

  /** The frame an entry maps to, counted from VGA memory: bits 12 and up of the entry. */
  function FrameOf(entry: nat): int {
    entry / FOUR_KB - VIM_MEM_INDEX / FOUR_KB
  }

  /** Where a terminal's screen lives. */
  function Home(t: nat, displayed: nat): nat {
    if t == displayed then 0 else t + 1
  }

  class Terminals {
    const frame: seq<array<Byte>>
    var pageTableVid: seq<nat>
    var screenX: nat
    var screenY: nat
    var termCursorX: seq<nat>
    var termCursorY: seq<nat>
    var curTerm: nat
    var termInService: nat
    var shiftPressed: bool
    var capsLockPressed: bool
    var ctrlPressed: bool
    var altPressed: bool
    var hardwareCursor: nat
    ghost var mappedDisplay: nat        // the terminal displayed when the video page entry was last set

    ghost predicate Shape()
      reads this
    {
      && |frame| == NUM_FRAMES
      && (forall i, j | 0 <= i < j < NUM_FRAMES :: frame[i] != frame[j])
      && (forall i | 0 <= i < NUM_FRAMES :: frame[i].Length == PAGE_SIZE)
      && |pageTableVid| == NUM_FRAMES
      && (forall i | 1 <= i < NUM_FRAMES :: pageTableVid[i] == EntryFor(i))
      && |termCursorX| == |termCursorY| == NUM_TERMS
      && (forall t | 0 <= t < NUM_TERMS :: termCursorX[t] < NUM_COLS && termCursorY[t] < NUM_ROWS)
      && curTerm < NUM_TERMS && termInService < NUM_TERMS
      && screenX < NUM_COLS && screenY < NUM_ROWS
      && mappedDisplay < NUM_TERMS
      && pageTableVid[0] == EntryFor(Home(termInService, mappedDisplay))
    }

    /** The hardware cursor always sits at the displayed terminal's cursor. */
    ghost predicate Valid()
      reads this
    {
      && Shape()
      && hardwareCursor == NUM_COLS * termCursorY[curTerm] + termCursorX[curTerm]
    }

    /** Terminal `t`'s screen, wherever it lives at the moment. */
    ghost function ScreenOf(t: nat): Screen
      requires Shape() && t < NUM_TERMS
      reads this, frame
    {
      Screen(frame[Home(t, curTerm)][..], termCursorX[t], termCursorY[t])
    }

    ghost function View(): (d: Desk)
      requires Shape()
      reads this, frame
      ensures d.Valid()
    {
      Desk([ScreenOf(0), ScreenOf(1), ScreenOf(2)], curTerm, termInService, screenX, screenY,
           Modifiers(shiftPressed, capsLockPressed, ctrlPressed, altPressed))
    }

    /** What user programs write through vidmap reaches the page of the terminal in service. */
    ghost predicate MappingIsRight()
      requires Shape()
      reads this
    {
      pageTableVid[0] == EntryFor(Home(termInService, curTerm))
    }

    /** Video memory and the hardware cursor are the displayed terminal's; the others' pages lie behind it in order. */
    ghost predicate MonitorShowsDisplay()
      requires Shape()
      reads this, frame
    {
      && (var s := View().screens[curTerm]; frame[0][..] == s.page && hardwareCursor == 80 * s.y + s.x)
      && forall t | 0 <= t < NUM_TERMS && t != curTerm :: frame[t + 1][..] == View().screens[t].page
    }

    /** init_page_table, terminal_open and init_term_cursor. */
    constructor ()
      ensures Valid() && fresh(frame)
      ensures View().current == View().inService == mappedDisplay == 0 && WritesAt(View(), 0)
      ensures View().keys == Modifiers(false, false, false, false)
      ensures pageTableVid == [0xB8007, 0xB9007, 0xBA007, 0xBB007]
      ensures frame[0][..] == ScreenOf(0).page && hardwareCursor == 0
      ensures ScreenOf(0).x == ScreenOf(0).y == 0
      ensures forall k | 0 <= k < 4000 :: ScreenOf(0).page[k] == if k % 2 == 0 then 32 else 7
    {
      var vga := new Byte[PAGE_SIZE];
      var back1 := new Byte[PAGE_SIZE];
      var back2 := new Byte[PAGE_SIZE];
      var back3 := new Byte[PAGE_SIZE];
      frame := [vga, back1, back2, back3];
      pageTableVid := [EntryFor(0), EntryFor(1), EntryFor(2), EntryFor(3)];
      screenX, screenY := 0, 0;
      termCursorX, termCursorY := [0, 0, 0], [0, 0, 0];
      curTerm, termInService := 0, 0;
      shiftPressed, capsLockPressed, ctrlPressed, altPressed := false, false, false, false;
      hardwareCursor := 0;
      mappedDisplay := 0;
      new;
      assert pageTableVid[0] == EntryFor(0);
      ClearPage(frame[0]);
    }

    /** Loads the write coordinates of the terminal in service and maps its page. */
    method CursorCheck() returns (onDisplay: bool)
      requires Shape()
      modifies this`screenX, this`screenY, this`pageTableVid, this`mappedDisplay
      ensures Shape() && unchanged(this`hardwareCursor) && View() == WriteAt(old(View()), termInService)
      ensures onDisplay <==> termInService == curTerm
      ensures MappingIsRight() && mappedDisplay == curTerm
    {
      screenX, screenY := termCursorX[termInService], termCursorY[termInService];
      mappedDisplay := curTerm;
      onDisplay := termInService == curTerm;
      if onDisplay {
        pageTableVid := pageTableVid[0 := EntryFor(0)];
      } else {
        pageTableVid := pageTableVid[0 := EntryFor(termInService + 1)];
      }
    }

    method TermCursorUpdate()
      requires Shape()
      modifies this`termCursorX, this`termCursorY
      ensures Shape()
      ensures termCursorX == old(termCursorX)[termInService := screenX]
      ensures termCursorY == old(termCursorY)[termInService := screenY]
      ensures var d := old(View());
              View() == d.(screens := d.screens[d.inService := d.screens[d.inService].(x := d.writeX, y := d.writeY)])
    {
      termCursorX := termCursorX[termInService := screenX];
      termCursorY := termCursorY[termInService := screenY];
    }

    /** The part of putc between cursor_check and the cursor updates. */
    method PlaceChar(page: array<Byte>, c: Byte)
      requires page.Length == PAGE_SIZE && screenX < NUM_COLS && screenY < NUM_ROWS
      modifies this`screenX, this`screenY, page
      ensures screenX < NUM_COLS && screenY < NUM_ROWS
      ensures Screen(page[..], screenX, screenY) == Put(old(Screen(page[..], screenX, screenY)), c)
    {
      if c == NEWLINE || c == RETURN {
        if screenY == NUM_ROWS - 1 {
          ScrollPage(page);
        } else {
          screenY := screenY + 1;
        }
        screenX := 0;
      } else {
        page[(NUM_COLS * screenY + screenX) * 2] := c;
        page[(NUM_COLS * screenY + screenX) * 2 + 1] := ATTRIB;
        screenX := screenX + 1;
        if screenX > NUM_COLS - 1 {
          screenY := screenY + 1;
        }
        screenX := screenX % NUM_COLS;
        screenY := screenY + screenX / NUM_COLS;
        if screenY > NUM_ROWS - 1 {
          ScrollPage(page);
          screenY := NUM_ROWS - 1;
          screenX := 0;
        }
      }
    }

    /** The part of putc that writes through the page table entry. */
    method WritePage(c: Byte)
      requires Shape() && MappingIsRight()
      modifies this`screenX, this`screenY, frame
      ensures Shape()
      ensures var d := old(View()); var s := d.screens[d.inService];
              var r := Put(Screen(s.page, d.writeX, d.writeY), c);
              View() == d.(screens := d.screens[d.inService := s.(page := r.page)], writeX := r.x, writeY := r.y)
    {
      PlaceChar(frame[FrameOf(pageTableVid[0])], c);
    }

    method Putc(c: Byte)
      requires Valid()
      modifies this`screenX, this`screenY, this`pageTableVid, this`mappedDisplay, this`termCursorX, this`termCursorY,
               this`hardwareCursor, frame
      ensures Valid() && MappingIsRight() && mappedDisplay == curTerm
      ensures View() == Step(old(View()), Print(c))
    {
      var flag := CursorCheck();
      WritePage(c);
      if flag {
        hardwareCursor := screenY * NUM_COLS + screenX;
      }
      TermCursorUpdate();
    }

    method TerminalWrite(buf: seq<Byte>)
      requires Valid()
      modifies this, frame
      ensures Valid()
      ensures View() == Run(old(View()), Prints(buf))
    {
      for i := 0 to |buf|
        invariant Valid()
        invariant View() == Run(old(View()), Prints(buf[..i]))
      {
        Putc(buf[i]);
        RunExtended(old(View()), Prints(buf[..i]), Print(buf[i]));
        assert Prints(buf[..i + 1]) == Prints(buf[..i]) + [Print(buf[i])];
      }
      assert buf[..|buf|] == buf;
    }

    /** The part of pit_handler that marks a terminal as served and remaps the video entry. */
    method ServeTerminal(newTerm: nat)
      requires Valid() && newTerm < NUM_TERMS
      modifies this`termInService, this`pageTableVid, this`mappedDisplay
      ensures Valid() && MappingIsRight() && mappedDisplay == curTerm
      ensures pageTableVid[0] == if newTerm == curTerm then 0xB8007 else 0xB9007 + 0x1000 * newTerm
      ensures View() == Step(old(View()), Serve(newTerm))
    {
      termInService := newTerm;
      mappedDisplay := curTerm;
      if curTerm != newTerm {
        pageTableVid := pageTableVid[0 := EntryFor(newTerm + 1)];
      } else {
        pageTableVid := pageTableVid[0 := EntryFor(0)];
      }
    }

    // ---------------------------------------------------------------- the keyboard

    /** The displayed page goes to its backing page, and terminal `newTerm`'s comes to video memory. */
    method SwapPages(newTerm: nat)
      requires Shape() && newTerm < NUM_TERMS && newTerm != curTerm
      modifies frame
      ensures forall t | 0 <= t < NUM_TERMS :: frame[Home(t, newTerm)][..] == old(frame[Home(t, curTerm)][..])
    {
      var vidmem := frame[0];
      CopyPage(frame[FrameOf(pageTableVid[curTerm + 1])], vidmem);
      CopyPage(vidmem, frame[FrameOf(pageTableVid[newTerm + 1])]);
    }

    /** Alt-Fn: the displayed page is saved to its backing page and the new one brought up. */
    method SwitchTo(newTerm: nat)
      requires Valid() && newTerm < NUM_TERMS && newTerm != curTerm
      modifies this`screenX, this`screenY, this`hardwareCursor, this`curTerm, frame
      ensures Valid()
      ensures View() == WriteAt(old(View()).(current := newTerm), newTerm)
    {
      SwapPages(newTerm);
      screenX, screenY := termCursorX[newTerm], termCursorY[newTerm];
      hardwareCursor := NUM_COLS * termCursorY[newTerm] + termCursorX[newTerm];
      curTerm := newTerm;
    }

    /** Moves the displayed terminal's cursor, the write coordinates and the hardware cursor. */
    method MoveCursor(x: nat, y: nat)
      requires Shape() && x < NUM_COLS && y < NUM_ROWS
      modifies this`screenX, this`screenY, this`termCursorX, this`termCursorY, this`hardwareCursor
      ensures Valid()
      ensures screenX == x && screenY == y
      ensures termCursorX == old(termCursorX)[curTerm := x]
      ensures termCursorY == old(termCursorY)[curTerm := y]
    {
      screenX, screenY := x, y;
      hardwareCursor := y * NUM_COLS + x;
      termCursorX := termCursorX[curTerm := screenX];
      termCursorY := termCursorY[curTerm := screenY];
    }

    /** Ctrl-L, with video memory mapped. */
    method ClearDisplay()
      requires Valid() && pageTableVid[0] == EntryFor(0)
      modifies this`screenX, this`screenY, this`termCursorX, this`termCursorY, this`hardwareCursor, frame
      ensures Valid()
      ensures var d := old(View()); View() == Redrawn(d, d.current, Wiped(d.screens[d.current]))
    {
      ClearPage(frame[FrameOf(pageTableVid[0])]);
      MoveCursor(0, 0);
    }

    /** Enter, with video memory mapped. */
    method NewLine()
      requires Valid() && pageTableVid[0] == EntryFor(0)
      modifies this`screenX, this`screenY, this`termCursorX, this`termCursorY, this`hardwareCursor, frame
      ensures Valid()
      ensures var d := old(View()); View() == Redrawn(d, d.current, Put(d.screens[d.current], NEWLINE))
    {
      var currY := termCursorY[curTerm];
      if currY == NUM_ROWS - 1 {
        ScrollPage(frame[FrameOf(pageTableVid[0])]);
      } else {
        currY := currY + 1;
      }
      MoveCursor(0, currY);
    }

    /** The line break the echo inserts when the shared coordinates are in the last column. */
    method BreakLine()
      requires Valid() && pageTableVid[0] == EntryFor(0)
      modifies this`screenX, this`screenY, this`termCursorX, this`termCursorY, this`hardwareCursor, frame
      ensures Valid()
      ensures var d := old(View());
              View().screens == d.screens[d.current := Broken(d.screens[d.current], d.writeX, d.writeY)]
    {
      var currX, currY := screenX, screenY;
      if currX == NUM_COLS - 1 {
        if currY == NUM_ROWS - 1 {
          ScrollPage(frame[FrameOf(pageTableVid[0])]);
          MoveCursor(0, currY);
        } else {
          MoveCursor(0, currY + 1);
        }
      }
    }

    /** The echo of a printable key, with video memory mapped: it consults the shared write coordinates. */
    method EchoKey(c: Byte)
      requires Valid() && pageTableVid[0] == EntryFor(0) && termInService == curTerm
      modifies this`screenX, this`screenY, this`pageTableVid, this`mappedDisplay, this`termCursorX, this`termCursorY,
               this`hardwareCursor, frame
      ensures Valid() && pageTableVid == old(pageTableVid)
      ensures var d := old(View());
              View() == Redrawn(d, d.current, Echoed(d.screens[d.current], d.writeX, d.writeY, c))
    {
      BreakLine();
      Putc(c);
    }

    /** The handler's prologue: map video memory and pretend the displayed terminal is served. */
    method BorrowDisplay() returns (tempVidmap: nat, termSave: nat)
      requires Valid()
      modifies this`pageTableVid, this`mappedDisplay, this`termInService
      ensures Valid()
      ensures pageTableVid == old(pageTableVid)[0 := EntryFor(0)]
      ensures View() == old(View()).(inService := curTerm)
      ensures tempVidmap == old(pageTableVid)[0] && termSave == old(termInService)
    {
      tempVidmap := pageTableVid[0];
      pageTableVid := pageTableVid[0 := EntryFor(0)];
      mappedDisplay := curTerm;
      termSave := termInService;
      termInService := curTerm;
    }

    /** The handler's epilogue; `d0` was displayed when the entry that comes back was set. */
    method ReturnDisplay(tempVidmap: nat, termSave: nat, ghost d0: nat)
      requires Valid() && termSave < NUM_TERMS && d0 < NUM_TERMS
      requires tempVidmap == EntryFor(Home(termSave, d0))
      modifies this`pageTableVid, this`mappedDisplay, this`termInService
      ensures Valid() && mappedDisplay == d0
      ensures pageTableVid == old(pageTableVid)[0 := tempVidmap]
      ensures View() == old(View()).(inService := termSave)
    {
      pageTableVid := pageTableVid[0 := tempVidmap];
      mappedDisplay := d0;
      termInService := termSave;
    }

    /**
      The keyboard interrupt for any key but Backspace and the RTC test keys.  The old video
      mapping comes back at the end, so after a switch it can be a page out of date.
     */
    method KeyboardHandler(released: bool, key: Byte)
      requires Valid()
      requires !released ==> Handled(ctrlPressed, Press(key))
      modifies this, frame
      ensures Valid() && pageTableVid == old(pageTableVid) && mappedDisplay == old(mappedDisplay)
      ensures View() == Step(old(View()), if released then Release(key) else Press(key))
    {
      ghost var d0 := mappedDisplay;
      var tempVidmap, termSave := BorrowDisplay();
      KeysIgnoreService(old(View()), if released then Release(key) else Press(key), curTerm);
      if released {
        KeyRelease(key);
      } else {
        KeyPress(key);
      }
      ReturnDisplay(tempVidmap, termSave, d0);
    }

    method KeyRelease(key: Byte)
      requires Valid()
      modifies this`shiftPressed, this`ctrlPressed, this`altPressed
      ensures Valid()
      ensures View() == Step(old(View()), Release(key))
    {
      if key == KEY_SHIFT {
        shiftPressed := false;
      } else if key == KEY_CTRL {
        ctrlPressed := false;
      } else if key == KEY_ALT {
        altPressed := false;
      }
    }

    method PressModifier(key: Byte)
      requires Valid()
      modifies this`shiftPressed, this`capsLockPressed, this`ctrlPressed, this`altPressed
      ensures Valid()
      ensures View() == old(View()).(keys := Pressed(old(View()).keys, key))
    {
      if key == KEY_SHIFT {
        shiftPressed := true;
      } else if key == KEY_CAPS_LOCK {
        capsLockPressed := !capsLockPressed;
      } else if key == KEY_CTRL {
        ctrlPressed := true;
      } else if key == KEY_ALT {
        altPressed := true;
      }
    }

    /** The character a pressed key stands for. */
    method TypedChar(key: Byte) returns (c: Byte)
      ensures c == Typed(Modifiers(shiftPressed, capsLockPressed, ctrlPressed, altPressed), key)
    {
      c := key;
      if shiftPressed != capsLockPressed {
        if c > 96 && c < 123 {
          c := c - 32;
        }
      }
      if shiftPressed {
        c := Shifted(c);
      }
    }

    /** Alt-Fn, Ctrl-L and Enter. */
    method KeyCommand(key: Byte)
      requires Valid() && pageTableVid[0] == EntryFor(0)
      modifies this`screenX, this`screenY, this`termCursorX, this`termCursorY, this`hardwareCursor, this`curTerm, frame
      ensures Valid()
      ensures !IsModifier(key) && (IsPrintable(key) ==> ctrlPressed) ==> View() == Step(old(View()), Press(key))
      ensures IsModifier(key) || (IsPrintable(key) && !ctrlPressed) ==> View() == old(View())
    {
      if altPressed && KEY_F1 <= key < KEY_F1 + NUM_TERMS {
        var newTerm := key - KEY_F1;
        if curTerm != newTerm {
          SwitchTo(newTerm);
        }
      }
      if ctrlPressed && key == KEY_L {
        ClearDisplay();
      }
      if key == NEWLINE {
        NewLine();
      }
    }

    /** All that a pressed key does before its echo; `c` is the character to echo. */
    method KeyEffect(key: Byte) returns (c: Byte)
      requires Valid() && pageTableVid[0] == EntryFor(0)
      modifies this`screenX, this`screenY, this`termCursorX, this`termCursorY, this`hardwareCursor, this`curTerm,
               this`shiftPressed, this`capsLockPressed, this`ctrlPressed, this`altPressed, frame
      ensures Valid()
      ensures IsPrintable(key) && !old(ctrlPressed) ==> View() == old(View()) && c == Typed(View().keys, key)
      ensures !(IsPrintable(key) && !old(ctrlPressed)) ==> View() == Step(old(View()), Press(key))
    {
      PressModifier(key);
      KeyCommand(key);
      c := TypedChar(key);
    }

    method KeyPress(key: Byte)
      requires Valid() && pageTableVid[0] == EntryFor(0) && termInService == curTerm
      modifies this`screenX, this`screenY, this`pageTableVid, this`mappedDisplay, this`termCursorX, this`termCursorY,
               this`hardwareCursor, this`curTerm, this`shiftPressed, this`capsLockPressed, this`ctrlPressed,
               this`altPressed, frame
      ensures Valid() && pageTableVid == old(pageTableVid)
      ensures View() == Step(old(View()), Press(key))
    {
      var printMe := key >= SPACE && key < 127 && !ctrlPressed;
      var c := KeyEffect(key);
      if printMe {
        EchoKey(c);
      }
    }

    // ---------------------------------------------------------------- runs

    method HandleEvent(e: Event)
      requires Valid() && Legal(e) && Handled(ctrlPressed, e)
      modifies this, frame
      ensures Valid()
      ensures View() == Step(old(View()), e)
      ensures mappedDisplay == if e.Print? || e.Serve? then old(curTerm) else old(mappedDisplay)
    {
      match e
      case Print(c) => Putc(c);
      case Serve(t) => ServeTerminal(t);
      case Press(key) => KeyboardHandler(false, key);
      case Release(key) => KeyboardHandler(true, key);
    }

    lemma MonitorIsDisplay()
      requires Valid()
      ensures MonitorShowsDisplay()
    {
    }

    method HandleEach(events: seq<Event>)
      requires Valid() && AllLegal(events) && AllHandled(View(), events)
      modifies this, frame
      ensures Valid()
      ensures View() == Run(old(View()), events)
      ensures mappedDisplay == MappedDisplay(old(View()), old(mappedDisplay), events)
    {
      ghost var start, d0 := View(), mappedDisplay;
      for i := 0 to |events|
        invariant Valid()
        invariant View() == Run(start, events[..i])
        invariant mappedDisplay == MappedDisplay(start, d0, events[..i])
      {
        assert Handled(Run(start, events[..i]).keys.ctrl, events[i]);
        HandleEvent(events[i]);
        RunExtended(start, events[..i], events[i]);
        assert events[..i + 1] == events[..i] + [events[i]];
      }
      assert events[..|events|] == events;
    }

    /**
      Main result on video memory and its page table entry: after any run the monitor shows the displayed
      terminal, and the entry maps the page of the terminal in service exactly when the terminal displayed at the
      last `putc` or tick, `m`, is displayed again, or the terminal in service is neither `m` nor the displayed one.
     */
    method HandleAll(events: seq<Event>)
      requires Valid() && AllLegal(events) && AllHandled(View(), events)
      modifies this, frame
      ensures Valid() && MonitorShowsDisplay()
      ensures View() == Run(old(View()), events)
      ensures mappedDisplay == MappedDisplay(old(View()), old(mappedDisplay), events)
      ensures MappingIsRight() <==> var m := MappedDisplay(old(View()), old(mappedDisplay), events);
                                    curTerm == m || (termInService != m && termInService != curTerm)
    {
      HandleEach(events);
      EntriesDiffer(termInService, mappedDisplay, curTerm);
      MonitorIsDisplay();
    }

    /**
      Main result: whatever is interleaved on the shared cursor, page entry and video memory,
      each terminal ends with the replay of its own operations; it looks as its own inputs alone make it
      look throughout exactly when its keys are echoed at home; and one that started clean shows the
      last 25 rows of its own text.
     */
    method Interleave(events: seq<Event>)
      requires Valid() && AllLegal(events) && AllHandled(View(), events)
      modifies this, frame
      ensures Valid()
      ensures MonitorShowsDisplay()
      ensures var d := old(View()); forall t | 0 <= t < NUM_TERMS :: EndsAs(d, events, t, View().screens[t])
    {
      ghost var start := View();
      HandleAll(events);
      forall t: nat | t < NUM_TERMS
        ensures EndsAs(start, events, t, View().screens[t])
      {
        RunEndsAs(start, events, t);
      }
    }
  }

  /** A run in which the entry is wrong: from boot, Alt-F2 brings up terminal 1 while terminal 0 is served. */
  method StaleMappingAfterSwitch() returns (t: Terminals)
    ensures fresh(t) && t.Valid() && t.curTerm == 1 && t.termInService == 0 && !t.MappingIsRight()
  {
    t := new Terminals();
    ghost var d := t.View();
    StaleMappings(d);
    t.HandleAll([Press(KEY_ALT), Press(KEY_F1 + 1)]);
  }

  method CopyPage(dst: array<Byte>, src: array<Byte>)
    requires dst != src && dst.Length == src.Length == PAGE_SIZE
    modifies dst
    ensures dst[..] == src[..]
  {
    for i := 0 to PAGE_SIZE
      invariant dst[..i] == src[..i]
    {
      dst[i] := src[i];
    }
  }

  /** The frames are counted from the physical address of VGA memory on. */
  lemma FrameAddress(frame: nat)
    ensures FrameOf(0xB8007 + 0x1000 * frame) == frame && EntryFor(frame) == 0xB8007 + 0x1000 * frame
  {
  }

  lemma EntriesDiffer(t: nat, before: nat, after: nat)
    ensures EntryFor(Home(t, before)) == EntryFor(Home(t, after)) <==> after == before || (t != before && t != after)
  {
  }

  lemma KeysIgnoreService(d: Desk, e: Event, t: nat)
    requires d.Valid() && t < NUM_TERMS && (e.Press? || e.Release?)
    ensures Step(d.(inService := t), e).(inService := d.inService) == Step(d, e)
  {
  }

  /** Events the handlers above cover: a pressed key must not be Backspace or an RTC test key. */
  predicate Handled(ctrl: bool, e: Event) {
    e.Press? ==> e.key != KEY_BACKSPACE && !(ctrl && (e.key == KEY_1 || e.key == KEY_2))
  }

  ghost predicate AllHandled(d: Desk, events: seq<Event>)
    requires d.Valid() && AllLegal(events)
  {
    forall i | 0 <= i < |events| :: Handled(Run(d, events[..i]).keys.ctrl, events[i])
  }

  lemma AllHandledOf(d: Desk, events: seq<Event>, e: Event)
    requires d.Valid() && AllLegal(events) && AllHandled(d, events) && Legal(e) && Handled(Run(d, events).keys.ctrl, e)
    ensures AllLegal(events + [e]) && AllHandled(d, events + [e])
  {
    forall i | 0 <= i <= |events|
      ensures Handled(Run(d, (events + [e])[..i]).keys.ctrl, (events + [e])[i])
    {
      assert (events + [e])[..i] == events[..i];
      assert events[..|events|] == events;
    }
  }

  /** Whether the entry is right after a run that starts with the entry set for displayed terminal `d0`. */
  predicate RightAfter(d: Desk, d0: nat, events: seq<Event>)
    requires d.Valid() && AllLegal(events) && d0 < NUM_TERMS
  {
    var r := Run(d, events);
    EntryFor(Home(r.inService, MappedDisplay(d, d0, events))) == EntryFor(Home(r.inService, r.current))
  }

  /**
    Runs of both kinds while terminal 0 stays in service: the display goes to terminal 1 (wrong), on to
    terminal 2 (still wrong, although terminal 0 takes no part in that switch), and back to 0 (right again).
   */
  lemma StaleMappings(d: Desk)
    requires d.Valid() && d.current == d.inService == 0 && !d.keys.ctrl
    ensures var one := [Press(KEY_ALT), Press(KEY_F1 + 1)];
            var two, back := one + [Press(KEY_F1 + 2)], one + [Press(KEY_F1)];
            && AllLegal(two) && AllLegal(back) && AllHandled(d, one) && AllHandled(d, two) && AllHandled(d, back)
            && MappedDisplay(d, 0, one) == 0 && Run(d, one).current == 1 && Run(d, one).inService == 0
            && !RightAfter(d, 0, one) && !RightAfter(d, 0, two) && RightAfter(d, 0, back)
  {
    var alt, f2, f3, f1 := Press(KEY_ALT), Press(KEY_F1 + 1), Press(KEY_F1 + 2), Press(KEY_F1);
    var one := [alt, f2];
    RunExtended(d, [], alt);
    RunExtended(d, [alt], f2);
    assert [] + [alt] == [alt] && [alt] + [f2] == one;
    RunExtended(d, one, f3);
    RunExtended(d, one, f1);
    AllHandledOf(d, [alt], f2);
    AllHandledOf(d, one, f3);
    AllHandledOf(d, one, f1);
  }
}
