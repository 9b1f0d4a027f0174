/**
  The text a terminal has received, laid out on an unbounded 80-column page, and the
  proof that a screen driven by `putc` from the cleared state shows the last 25 rows of it.
 */
module Window {
  import opened Bytes
  import opened Screen

  datatype Position = Position(row: nat, col: nat)

  /** Where the next character goes once `text` has been laid out. */
  function End(text: seq<Byte>): (p: Position)
    ensures p.col < NUM_COLS
  {
    if text == [] then Position(0, 0)
    else
      var p := End(text[..|text| - 1]);
      if IsLineBreak(text[|text| - 1]) || p.col == NUM_COLS - 1 then Position(p.row + 1, 0)
      else Position(p.row, p.col + 1)
  }

  /** The character laid out at (row, col); cells no character lands on are blank. */
  function CharLaidOut(text: seq<Byte>, row: nat, col: nat): Byte {
    if text == [] then SPACE
    else
      var before, c := text[..|text| - 1], text[|text| - 1];
      if !IsLineBreak(c) && End(before) == Position(row, col) then c
      else CharLaidOut(before, row, col)
  }

  /** First row of the unbounded page that is still visible. */
  function Top(text: seq<Byte>): nat {
    var row := End(text).row;
    if row < NUM_ROWS then 0 else row - (NUM_ROWS - 1)
  }

  function CharAt(page: seq<Byte>, row: nat, col: nat): Byte
    requires |page| == PAGE_SIZE && row < NUM_ROWS && col < NUM_COLS
  {
    page[CellOffset(col, row)]
  }

  function AttribAt(page: seq<Byte>, row: nat, col: nat): Byte
    requires |page| == PAGE_SIZE && row < NUM_ROWS && col < NUM_COLS
  {
    page[CellOffset(col, row) + 1]
  }

  /** The 25 by 80 cells are the rows of the layout from `Top` on, and the cursor is where it ends. */
  ghost predicate Shows(s: Screen, text: seq<Byte>) {
    && s.WellFormed()
    && s.x == End(text).col
    && s.y == End(text).row - Top(text)
    && (forall row: nat, col: nat | row < NUM_ROWS && col < NUM_COLS ::
          CharAt(s.page, row, col) == CharLaidOut(text, Top(text) + row, col))
    && (forall row: nat, col: nat | row < NUM_ROWS && col < NUM_COLS ::
          AttribAt(s.page, row, col) == ATTRIB)
  }

  function PutAll(s: Screen, text: seq<Byte>): (r: Screen)
    requires s.WellFormed()
    ensures r.WellFormed()
  {
    if text == [] then s else Put(PutAll(s, text[..|text| - 1]), text[|text| - 1])
  }

  predicate Reaches(p: Position, row: nat, col: nat) {
    p.row < row || (p.row == row && p.col <= col)
  }

  /** Nothing has been laid out at or after the end of the text. */
  lemma {:induction false} BlankFromEnd(text: seq<Byte>, row: nat, col: nat)
    requires Reaches(End(text), row, col) && col < NUM_COLS
    ensures CharLaidOut(text, row, col) == SPACE
  {
    if text != [] {
      BlankFromEnd(text[..|text| - 1], row, col);
    }
  }

  /** The end only moves forward, so no cell is written twice. */
  lemma {:induction false} EndAdvances(text: seq<Byte>, i: nat)
    requires i < |text|
    ensures var p, q := End(text[..i]), End(text); p.row < q.row || (p.row == q.row && p.col < q.col)
  {
    var before := text[..|text| - 1];
    if i < |before| {
      EndAdvances(before, i);
      assert before[..i] == text[..i];
    }
  }

  /** The layout loses nothing: every printed character stays at the place the layout gave it. */
  lemma {:induction false} LaidOutAt(text: seq<Byte>, i: nat)
    requires i < |text| && !IsLineBreak(text[i])
    ensures CharLaidOut(text, End(text[..i]).row, End(text[..i]).col) == text[i]
  {
    var before := text[..|text| - 1];
    if i < |before| {
      LaidOutAt(before, i);
      EndAdvances(before, i);
      assert before[..i] == text[..i];
    }
  }

  /** A text without line breaks wraps at the 80th column. */
  lemma {:induction false} LongLineWraps(text: seq<Byte>)
    requires forall c | c in text :: !IsLineBreak(c)
    ensures End(text) == Position(|text| / NUM_COLS, |text| % NUM_COLS)
  {
    if text != [] {
      LongLineWraps(text[..|text| - 1]);
    }
  }

  predicate Breaks(c: Byte) {
    c == 10 || c == 13
  }

  /** How many line breaks a text holds, and how many characters follow the last one. */
  function BreakCount(text: seq<Byte>): nat {
    if text == [] then 0
    else BreakCount(text[..|text| - 1]) + if Breaks(text[|text| - 1]) then 1 else 0
  }

  function LastLine(text: seq<Byte>): nat {
    if text == [] || Breaks(text[|text| - 1]) then 0 else LastLine(text[..|text| - 1]) + 1
  }

  /** No line of the text fills a row. */
  ghost predicate ShortLines(text: seq<Byte>) {
    forall i | 0 <= i <= |text| :: LastLine(text[..i]) < 80
  }

  /** A text of short lines is laid out a line to a row. */
  lemma {:induction false} ShortLinesStackUp(text: seq<Byte>)
    requires ShortLines(text)
    ensures End(text) == Position(BreakCount(text), LastLine(text))
  {
    if text != [] {
      var before := text[..|text| - 1];
      assert forall i | 0 <= i <= |before| :: before[..i] == text[..i];
      ShortLinesStackUp(before);
      assert text[..|text|] == text;
    }
  }

  /** The window property on the bytes of video memory: character and attribute, 160 bytes a row. */
  lemma ShowsInBytes(s: Screen, text: seq<Byte>, row: nat, col: nat)
    requires Shows(s, text) && row < 25 && col < 80
    ensures s.page[160 * row + 2 * col] == CharLaidOut(text, Top(text) + row, col)
    ensures s.page[160 * row + 2 * col + 1] == 7
    ensures Top(text) == if End(text).row < 25 then 0 else End(text).row - 24
  {
    assert CharAt(s.page, row, col) == s.page[160 * row + 2 * col];
    assert AttribAt(s.page, row, col) == s.page[160 * row + 2 * col + 1];
  }

  /** What lies behind the 25 rows of a page is never written. */
  lemma PutKeepsTail(s: Screen, c: Byte, k: nat)
    requires s.WellFormed() && 4000 <= k < 4096
    ensures Put(s, c).page[k] == s.page[k] == Wiped(s).page[k]
  {
  }

  /** Scrolling shows the next row everywhere, and a blank last row. */
  lemma ScrolledCells(p: seq<Byte>, row: nat, col: nat)
    requires |p| == PAGE_SIZE && row < NUM_ROWS && col < NUM_COLS
    ensures CharAt(Scrolled(p), row, col) == if row < NUM_ROWS - 1 then CharAt(p, row + 1, col) else SPACE
    ensures AttribAt(Scrolled(p), row, col) == if row < NUM_ROWS - 1 then AttribAt(p, row, col) else ATTRIB
  {
  }

  lemma WrittenCells(p: seq<Byte>, x: nat, y: nat, c: Byte, row: nat, col: nat)
    requires |p| == PAGE_SIZE && row < NUM_ROWS && col < NUM_COLS && x < NUM_COLS && y < NUM_ROWS
    ensures var k := CellOffset(x, y); var q := p[k := c][k + 1 := ATTRIB];
            && CharAt(q, row, col) == (if row == y && col == x then c else CharAt(p, row, col))
            && AttribAt(q, row, col) == (if row == y && col == x then ATTRIB else AttribAt(p, row, col))
  {
  }

  lemma PutShows(s: Screen, text: seq<Byte>, c: Byte)
    requires Shows(s, text)
    ensures Shows(Put(s, c), text + [c])
  {
    var more := text + [c];
    assert more[..|more| - 1] == text;
    forall row: nat, col: nat | row < NUM_ROWS && col < NUM_COLS
      ensures CharAt(Put(s, c).page, row, col) == CharLaidOut(more, Top(more) + row, col)
      ensures AttribAt(Put(s, c).page, row, col) == ATTRIB
    {
      PutShowsCell(s, text, c, row, col);
    }
  }

  lemma PutShowsCell(s: Screen, text: seq<Byte>, c: Byte, row: nat, col: nat)
    requires Shows(s, text) && row < NUM_ROWS && col < NUM_COLS
    ensures CharAt(Put(s, c).page, row, col) == CharLaidOut(text + [c], Top(text + [c]) + row, col)
    ensures AttribAt(Put(s, c).page, row, col) == ATTRIB
  {
    var more := text + [c];
    assert more[..|more| - 1] == text;
    if Top(more) == Top(text) {
      WrittenCell(s, text, c, row, col);
    } else {
      ScrolledCells(Written(s, c), row, col);
      if row == NUM_ROWS - 1 {
        BlankFromEnd(more, Top(more) + row, col);
      } else {
        WrittenCell(s, text, c, row + 1, col);
      }
    }
  }

  /** The page once the character is stored and before any scrolling. */
  function Written(s: Screen, c: Byte): (page: seq<Byte>)
    requires s.WellFormed()
    ensures |page| == PAGE_SIZE
  {
    var k := CellOffset(s.x, s.y);
    if IsLineBreak(c) then s.page else s.page[k := c][k + 1 := ATTRIB]
  }

  lemma WrittenCell(s: Screen, text: seq<Byte>, c: Byte, row: nat, col: nat)
    requires Shows(s, text) && row < NUM_ROWS && col < NUM_COLS
    ensures CharAt(Written(s, c), row, col) == CharLaidOut(text + [c], Top(text) + row, col)
    ensures forall r: nat | r < NUM_ROWS :: AttribAt(Written(s, c), r, col) == ATTRIB
  {
    var more := text + [c];
    assert more[..|more| - 1] == text;
    WrittenCells(s.page, s.x, s.y, c, row, col);
    forall r: nat | r < NUM_ROWS
      ensures AttribAt(Written(s, c), r, col) == ATTRIB
    {
      WrittenCells(s.page, s.x, s.y, c, r, col);
    }
  }

  /** Main result: whatever bytes are written to a cleared screen, it is a window onto their layout. */
  lemma {:induction false} ScreenIsWindow(s: Screen, text: seq<Byte>)
    requires s.WellFormed()
    ensures Shows(PutAll(Wiped(s), text), text)
    ensures PutAll(Wiped(s), text).y == if End(text).row < NUM_ROWS then End(text).row else NUM_ROWS - 1
  {
    if text != [] {
      var before := text[..|text| - 1];
      ScreenIsWindow(s, before);
      PutShows(PutAll(Wiped(s), before), before, text[|text| - 1]);
      assert before + [text[|text| - 1]] == text;
    }
  }
}
