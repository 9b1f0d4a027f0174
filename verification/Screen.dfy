/**
  One 25 by 80 text screen: its 4 KB page of (character, attribute) pairs and its
  cursor.  The two in-place loops of `lib.c` that rewrite a page are methods on an
  array; `Put` gives the meaning of `putc` and `Echoed` that of the keyboard's echo.
 */
module Screen {
  import opened Bytes

  const NUM_COLS: nat := 80
  const NUM_ROWS: nat := 25
  const ATTRIB: Byte := 7
  const PAGE_SIZE: nat := 4096

  type Column = x: nat | x < NUM_COLS
  type Row = y: nat | y < NUM_ROWS

  datatype Screen = Screen(page: seq<Byte>, x: nat, y: nat) {
    predicate WellFormed() {
      |page| == PAGE_SIZE && x < NUM_COLS && y < NUM_ROWS
    }
  }

  predicate IsLineBreak(c: Byte) {
    c == NEWLINE || c == RETURN
  }

  /** Byte offset of the character cell at column `x`, row `y`. */
  function CellOffset(x: nat, y: nat): nat {
    2 * (NUM_COLS * y + x)
  }

  function BlankByte(k: nat): Byte {
    if k % 2 == 0 then SPACE else ATTRIB
  }

  /** Every cell blank; the 96 bytes past the last cell are not touched. */
  function Cleared(p: seq<Byte>): (r: seq<Byte>)
    requires |p| == PAGE_SIZE
  {
    seq(PAGE_SIZE, k requires 0 <= k < PAGE_SIZE => if k < 4000 then BlankByte(k) else p[k])
  }

  /** Characters move up one row, attributes stay, the last row becomes blank. */
  function Scrolled(p: seq<Byte>): (r: seq<Byte>)
    requires |p| == PAGE_SIZE
  {
    seq(PAGE_SIZE, k requires 0 <= k < PAGE_SIZE => ScrolledByte(p, k))
  }

  function ScrolledByte(p: seq<Byte>, k: nat): Byte
    requires |p| == PAGE_SIZE && k < PAGE_SIZE
  {
    if k < 3840 then (if k % 2 == 0 then p[k + 160] else p[k])
    else if k < 4000 then BlankByte(k)
    else p[k]
  }

  /** What one call of `putc` does to the screen it writes to. */
  function Put(s: Screen, c: Byte): (r: Screen)
    requires s.WellFormed()
    ensures r.WellFormed()
  {
    if IsLineBreak(c) then
      if s.y == NUM_ROWS - 1 then Screen(Scrolled(s.page), 0, s.y)
      else Screen(s.page, 0, s.y + 1)
    else
      var k := CellOffset(s.x, s.y);
      var page := s.page[k := c][k + 1 := ATTRIB];
      if s.x + 1 < NUM_COLS then Screen(page, s.x + 1, s.y)
      else if s.y + 1 < NUM_ROWS then Screen(page, 0, s.y + 1)
      else Screen(Scrolled(page), 0, s.y)
  }

  /** What Ctrl-L does to the screen it clears. */
  function Wiped(s: Screen): (r: Screen)
    requires s.WellFormed()
    ensures r.WellFormed()
  {
    Screen(Cleared(s.page), 0, 0)
  }

  /** The displayed screen after the echo's line break, given the kernel's shared coordinates (gx, gy). */
  function Broken(s: Screen, gx: Column, gy: Row): (r: Screen)
    requires s.WellFormed()
    ensures r.WellFormed()
  {
    if gx != NUM_COLS - 1 then s
    else if gy == NUM_ROWS - 1 then Screen(Scrolled(s.page), 0, gy)
    else Screen(s.page, 0, gy + 1)
  }

  /** What the keyboard echo of `c` does to the displayed screen. */
  function Echoed(s: Screen, gx: Column, gy: Row, c: Byte): (r: Screen)
    requires s.WellFormed()
    ensures r.WellFormed()
  {
    Put(Broken(s, gx, gy), c)
  }

  /** Scrolling the page would change nothing but the first cell of the last row. */
  ghost predicate ScrollsOnlyLastRowStart(p: seq<Byte>)
    requires |p| == PAGE_SIZE
  {
    var k := CellOffset(0, NUM_ROWS - 1);
    forall j | 0 <= j < PAGE_SIZE && j != k && j != k + 1 :: ScrolledByte(p, j) == p[j]
  }

  /** At the start of the last row, a character hides what scrolling would do to an otherwise unmoved page. */
  lemma ScrolledUnder(p: seq<Byte>, c: Byte)
    requires |p| == PAGE_SIZE
    ensures var k := CellOffset(0, NUM_ROWS - 1);
            Scrolled(p)[k := c][k + 1 := ATTRIB] == p[k := c][k + 1 := ATTRIB] <==> ScrollsOnlyLastRowStart(p)
  {
    var k := CellOffset(0, NUM_ROWS - 1);
    var a, b := Scrolled(p)[k := c][k + 1 := ATTRIB], p[k := c][k + 1 := ATTRIB];
    assert forall j | 0 <= j < PAGE_SIZE && j != k && j != k + 1 :: a[j] == ScrolledByte(p, j) && b[j] == p[j];
    if ScrollsOnlyLastRowStart(p) {
      assert forall j | 0 <= j < PAGE_SIZE :: a[j] == b[j];
    }
  }

  /** The echo's line break at row `gy` leaves the screen as it was, up to the cell that is written next. */
  ghost predicate BreakUnseen(s: Screen, gy: Row)
    requires s.WellFormed()
  {
    s.x == 0 && if gy < NUM_ROWS - 1 then s.y == gy + 1 else s.y == gy && ScrollsOnlyLastRowStart(s.page)
  }

  /**
    Echoing a key is writing it to the displayed screen exactly when the shared column is not the
    last, or the line break happens to leave the screen as it was.
   */
  lemma EchoIsPut(s: Screen, gx: Column, gy: Row, c: Byte)
    requires s.WellFormed() && !IsLineBreak(c)
    ensures Echoed(s, gx, gy, c) == Put(s, c) <==> gx != NUM_COLS - 1 || BreakUnseen(s, gy)
  {
    ScrolledUnder(s.page, c);
  }

  /** Two pairs of shared coordinates between which the echo cannot tell. */
  ghost predicate SameEcho(s: Screen, gx: Column, gy: Row, hx: Column, hy: Row)
    requires s.WellFormed()
  {
    if gx != NUM_COLS - 1 && hx != NUM_COLS - 1 then true
    else if gx == hx then
      gy == hy || (gy >= NUM_ROWS - 2 && hy >= NUM_ROWS - 2 && ScrollsOnlyLastRowStart(s.page))
    else BreakUnseen(s, if gx == NUM_COLS - 1 then gy else hy)
  }

  /** Main result on the echo: exactly when two pairs of shared coordinates lead to the same screen. */
  lemma EchoesCompared(s: Screen, gx: Column, gy: Row, hx: Column, hy: Row, c: Byte)
    requires s.WellFormed() && !IsLineBreak(c)
    ensures Echoed(s, gx, gy, c) == Echoed(s, hx, hy, c) <==> SameEcho(s, gx, gy, hx, hy)
  {
    EchoIsPut(s, gx, gy, c);
    EchoIsPut(s, hx, hy, c);
    ScrolledUnder(s.page, c);
  }

  /**
    Where the shared row is the displayed cursor's, the line break is a newline.  So ordinary typing is
    writing exactly outside the last column; in it, the character lands in the next row.
   */
  lemma TypingIsPut(s: Screen, c: Byte)
    requires s.WellFormed() && !IsLineBreak(c)
    ensures Echoed(s, s.x, s.y, c) == Put(s, c) <==> s.x != NUM_COLS - 1
    ensures forall gx: Column ::
              Echoed(s, gx, s.y, c) == if gx == NUM_COLS - 1 then Put(Put(s, NEWLINE), c) else Put(s, c)
  {
    EchoIsPut(s, s.x, s.y, c);
  }

  /** An input of the kind: a blank screen with the cursor at the end of the first row. */
  lemma TypingInLastColumn(p: seq<Byte>)
    requires |p| == PAGE_SIZE
    ensures var s := Screen(Cleared(p), NUM_COLS - 1, 0);
            && Put(s, 97).page[CellOffset(NUM_COLS - 1, 0)] == 97
            && Echoed(s, s.x, s.y, 97).page[CellOffset(NUM_COLS - 1, 0)] == SPACE
            && Echoed(s, s.x, s.y, 97).page[CellOffset(0, 1)] == 97
  {
  }

  // ------------------------------------------------------------------ the page loops

  method ClearPage(a: array<Byte>)
    requires a.Length == PAGE_SIZE
    modifies a
    ensures a[..] == Cleared(old(a[..]))
  {
    for i := 0 to NUM_ROWS * NUM_COLS
      invariant forall k :: 0 <= k < PAGE_SIZE ==> a[k] == if k < 2 * i then BlankByte(k) else old(a[k])
    {
      a[2 * i] := SPACE;
      a[2 * i + 1] := ATTRIB;
    }
  }

  method ScrollPage(a: array<Byte>)
    requires a.Length == PAGE_SIZE
    modifies a
    ensures a[..] == Scrolled(old(a[..]))
  {
    for i := NUM_COLS to NUM_ROWS * NUM_COLS
      invariant forall k :: 0 <= k < PAGE_SIZE ==>
        a[k] == if k < 2 * i - 160 || 3840 <= k < 2 * i then ScrolledByte(old(a[..]), k) else old(a[k])
    {
      a[2 * (i - NUM_COLS)] := a[2 * i];
      if i > NUM_ROWS * NUM_COLS - NUM_COLS - 1 {
        a[2 * i] := SPACE;
        a[2 * i + 1] := ATTRIB;
      }
    }
  }
}
