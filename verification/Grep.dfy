/**
  `do_one_file` of the grep program: it searches a file through a 1024-byte buffer,
  carrying an unfinished line to the front before each refill.  For every NUL-free file
  the report equals that of a search over the whole file cut into pieces: its lines, with
  lines of more than 1024 bytes cut every 1024 bytes.
 */
module Grep {
  import opened Bytes

  const BUFSIZE: nat := 1024
  const COLON: Byte := 58

  // ------------------------------------------------------------------ whole-file search

  predicate NulFree(t: seq<Byte>) {
    NUL !in t
  }

  /** Index of the first newline, or the length if there is none. */
  function LineEnd(t: seq<Byte>): (e: nat)
    ensures e <= |t|
    ensures NEWLINE !in t[..e]
    ensures e < |t| ==> t[e] == NEWLINE
  {
    if t == [] || t[0] == NEWLINE then 0 else
      var e := 1 + LineEnd(t[1..]);
      assert t[..e] == [t[0]] + t[1..][..e - 1];
      e
  }

  function Lines(t: seq<Byte>): seq<seq<Byte>> {
    if t == [] then []
    else
      var e := LineEnd(t);
      [t[..e]] + Lines(t[if e < |t| then e + 1 else e..])
  }

  /** Where the first piece ends, and where the next one starts. */
  function PieceEnd(t: seq<Byte>): nat {
    if LineEnd(t) < BUFSIZE then LineEnd(t) else BUFSIZE
  }

  function NextPiece(t: seq<Byte>): (n: nat)
    ensures n <= |t|
    ensures t != [] ==> n > 0
  {
    if LineEnd(t) < BUFSIZE && LineEnd(t) < |t| then LineEnd(t) + 1 else PieceEnd(t)
  }

  function Pieces(t: seq<Byte>): seq<seq<Byte>> {
    if t == [] then [] else [t[..PieceEnd(t)]] + Pieces(t[NextPiece(t)..])
  }

  /** The program's notion of a match; the empty pattern matches no line. */
  ghost predicate Contains(line: seq<Byte>, s: seq<Byte>) {
    s != [] && exists k: nat :: OccursAt(line, s, k)
  }

  predicate OccursAt(line: seq<Byte>, s: seq<Byte>, k: nat) {
    k + |s| <= |line| && line[k..k + |s|] == s
  }

  ghost function Filter(lines: seq<seq<Byte>>, s: seq<Byte>): seq<seq<Byte>> {
    if lines == [] then []
    else (if Contains(lines[0], s) then [lines[0]] else []) + Filter(lines[1..], s)
  }

  /** What is printed for one matching line. */
  function Entry(fname: seq<Byte>, line: seq<Byte>): seq<Byte> {
    fname + [COLON] + line + [NEWLINE]
  }

  function Report(fname: seq<Byte>, lines: seq<seq<Byte>>): seq<Byte> {
    if lines == [] then [] else Entry(fname, lines[0]) + Report(fname, lines[1..])
  }

  /** The part of the report one piece is responsible for. */
  ghost function PieceReport(piece: seq<Byte>, s: seq<Byte>, fname: seq<Byte>): seq<Byte> {
    if Contains(piece, s) then Entry(fname, piece) else []
  }

  /** The report of a search over `t`, piece by piece. */
  ghost function Search(t: seq<Byte>, s: seq<Byte>, fname: seq<Byte>): seq<Byte>
    decreases |t|
  {
    if t == [] then []
    else PieceReport(t[..PieceEnd(t)], s, fname) + Search(t[NextPiece(t)..], s, fname)
  }

  /** The piecewise report prints the pieces that contain the pattern, each once and in order. */
  lemma {:induction false} SearchFilters(t: seq<Byte>, s: seq<Byte>, fname: seq<Byte>)
    ensures Search(t, s, fname) == Report(fname, Filter(Pieces(t), s))
    decreases |t|
  {
    if t != [] {
      var first, after := t[..PieceEnd(t)], t[NextPiece(t)..];
      SearchFilters(after, s, fname);
      ReportCons(first, Pieces(after), s, fname);
    }
  }

  lemma ReportCons(line: seq<Byte>, lines: seq<seq<Byte>>, s: seq<Byte>, fname: seq<Byte>)
    ensures Report(fname, Filter([line] + lines, s)) == PieceReport(line, s, fname) + Report(fname, Filter(lines, s))
  {
    assert ([line] + lines)[1..] == lines;
    if Contains(line, s) {
      assert ([line] + Filter(lines, s))[1..] == Filter(lines, s);
    } else {
      assert [] + Filter(lines, s) == Filter(lines, s);
    }
  }

  // ------------------------------------------------------------------ string routines

  /** Character `k` of the C string `s`. */
  function CharOf(s: seq<Byte>, k: nat): Byte {
    if k < |s| then s[k] else NUL
  }

  /** ece391_strncmp of `data + at` with the whole of `s`, as the search calls it. */
  method StrncmpIsZero(data: array<Byte>, at: nat, end: nat, s: seq<Byte>) returns (same: bool)
    requires at < end < data.Length && data[end] == NUL
    requires s != [] && NulFree(s)
    ensures same <==> OccursAt(data[at..end], s, 0)
  {
    var i := 0;
    while data[at + i] == s[i]
      invariant i < |s| && at + i <= end
      invariant data[at..at + i] == s[..i]
      decreases |s| - i
    {
      assert s[i] in s;
      if data[at + i] == NUL || i + 1 == |s| {
        assert data[at..at + i + 1] == s;
        assert data[at..end][..|s|] == data[at..at + |s|];
        return true;
      }
      i := i + 1;
    }
    if at + i < end {
      assert data[at..end][i] == data[at + i];
    }
    return false;
  }

  lemma OccursShift(line: seq<Byte>, s: seq<Byte>, k: nat)
    requires k < |line| && s != []
    ensures OccursAt(line, s, k) <==> OccursAt(line[k..], s, 0)
    ensures OccursAt(line, s, k) ==> line[k] == s[0]
  {
  }

  /** The search of one line for the pattern. */
  method SearchLine(data: array<Byte>, start: nat, end: nat, s: seq<Byte>) returns (found: bool)
    requires start <= end < data.Length && data[end] == NUL
    requires forall k | start <= k < end :: data[k] != NUL
    requires NulFree(s)
    ensures found <==> Contains(data[start..end], s)
  {
    var line := data[start..end];
    for check := start to end
      invariant forall k: nat :: k < check - start && s != [] ==> !OccursAt(line, s, k)
    {
      assert data[check..end] == line[check - start..];
      if CharOf(s, 0) == data[check] {
        OccursShift(line, s, check - start);
        var same := StrncmpIsZero(data, check, end, s);
        if same {
          assert OccursAt(line, s, check - start);
          return true;
        }
      } else if s != [] {
        OccursShift(line, s, check - start);
      }
    }
    return false;
  }

  /** ece391_strcpy(data, data + from): overlapping, front to back, up to the NUL at `end`. */
  method StrcpyDown(data: array<Byte>, from: nat, end: nat)
    requires 0 < from <= end < data.Length && data[end] == NUL
    requires forall k | from <= k < end :: data[k] != NUL
    modifies data
    ensures data[..end - from] == old(data[from..end])
    ensures forall k | end - from < k < data.Length :: data[k] == old(data[k])
    ensures data[end - from] == NUL
  {
    var i := 0;
    while true
      invariant i <= end - from
      invariant forall k | 0 <= k < i :: data[k] == old(data[from + k])
      invariant forall k | i <= k < data.Length :: data[k] == old(data[k])
      decreases end - from - i
    {
      data[i] := data[from + i];
      if data[i] == NUL {
        break;
      }
      i := i + 1;
    }
  }

  /** The C string at `data + start`, which ece391_fdputs prints. */
  method StringAt(data: array<Byte>, start: nat, end: nat) returns (text: seq<Byte>)
    requires start <= end < data.Length && data[end] == NUL
    requires forall k | start <= k < end :: data[k] != NUL
    ensures text == data[start..end]
  {
    var len := 0;
    while data[start + len] != NUL
      invariant start + len <= end
      decreases end - start - len
    {
      len := len + 1;
    }
    return data[start..start + len];
  }

  method FindNewline(data: array<Byte>, start: nat, last: nat) returns (end: nat)
    requires start <= last < data.Length
    ensures start <= end <= last && end - start == LineEnd(data[start..last])
  {
    end := start;
    while end < last && NEWLINE != data[end]
      invariant start <= end <= last
      invariant NEWLINE !in data[start..end]
    {
      end := end + 1;
    }
    LineEndIs(data[start..last], end - start);
  }

  lemma LineEndIs(t: seq<Byte>, e: nat)
    requires e <= |t| && (forall k | 0 <= k < e :: t[k] != NEWLINE) && (e < |t| ==> t[e] == NEWLINE)
    ensures LineEnd(t) == e
  {
  }

  // ------------------------------------------------------------------ the streaming search

  lemma LineEndExtended(buf: seq<Byte>, rest: seq<Byte>)
    ensures LineEnd(buf) < |buf| ==> LineEnd(buf + rest) == LineEnd(buf)
    ensures LineEnd(buf) == |buf| ==> LineEnd(buf + rest) >= |buf|
  {
    var t := buf + rest;
    if LineEnd(buf) < |buf| {
      LineEndIs(t, LineEnd(buf));
    } else if LineEnd(t) < |buf| {
      assert t[LineEnd(t)] in buf[..|buf|];
    }
  }

  lemma Split(a: seq<Byte>, b: seq<Byte>, k: nat)
    requires k <= |a|
    ensures (a + b)[..k] == a[..k] && (a + b)[k..] == a[k..] + b
  {
  }

  /** A newline in the buffer: the piece before it is a line of the text still to be searched. */
  lemma WholeLine(buf: seq<Byte>, rest: seq<Byte>, s: seq<Byte>, fname: seq<Byte>)
    requires |buf| <= BUFSIZE && LineEnd(buf) < |buf|
    ensures Search(buf + rest, s, fname) ==
            PieceReport(buf[..LineEnd(buf)], s, fname) + Search(buf[LineEnd(buf) + 1..] + rest, s, fname)
  {
    var t, e := buf + rest, LineEnd(buf);
    LineEndExtended(buf, rest);
    assert PieceEnd(t) == e && NextPiece(t) == e + 1;
    Split(buf, rest, e);
    Split(buf, rest, e + 1);
  }

  /** No newline in the buffer, and either it is full or the file has ended: all of it is one piece. */
  lemma WholeBuffer(buf: seq<Byte>, rest: seq<Byte>, s: seq<Byte>, fname: seq<Byte>)
    requires LineEnd(buf) == |buf| <= BUFSIZE
    requires |buf| == BUFSIZE || rest == []
    ensures Search(buf + rest, s, fname) == PieceReport(buf, s, fname) + Search(rest, s, fname)
  {
  }

  /** Searches the line data[start..end], printing it if it matches. */
  method PrintIfMatching(data: array<Byte>, start: nat, end: nat, s: seq<Byte>, fname: seq<Byte>)
    returns (text: seq<Byte>)
    requires start <= end < data.Length && data[end] == NUL
    requires forall k | start <= k < end :: data[k] != NUL
    requires NulFree(s)
    ensures text == PieceReport(data[start..end], s, fname)
  {
    text := [];
    var found := SearchLine(data, start, end, s);
    if found {
      text := text + fname;
      text := text + [COLON];
      var line := StringAt(data, start, end);
      text := text + line;
      text := text + [NEWLINE];
    }
  }

  /** What is left of the buffer once its first line is done. */
  ghost function AfterLine(buf: seq<Byte>): seq<Byte> {
    if LineEnd(buf) < |buf| then buf[LineEnd(buf) + 1..] else []
  }

  /**
    One turn of the inner loop on the text `data[start..filled]`: carry it to the front, or
    search its first line.  Past the end of what was read the buffer may hold anything, so an
    unfinished line can be taken for a whole one, but only if it is all there is.
   */
  method ScanLine(data: array<Byte>, start: nat, filled: nat, cnt: nat, s: seq<Byte>, fname: seq<Byte>)
    returns (carry: bool, next: nat, text: seq<Byte>)
    requires data.Length == BUFSIZE + 1 && start <= filled <= BUFSIZE && data[BUFSIZE] != NEWLINE
    requires NulFree(data[start..filled])
    requires NulFree(s)
    modifies data
    ensures data[BUFSIZE] != NEWLINE
    ensures carry ==> cnt != 0 && start != 0 && text == [] && data[..filled - start] == old(data[start..filled])
    ensures !carry ==> var buf := old(data[start..filled]);
                       && next == start + LineEnd(buf) + 1
                       && data[if next < filled then next else filled..filled] == AfterLine(buf)
                       && text == PieceReport(buf[..LineEnd(buf)], s, fname)
    ensures !carry && next == filled + 1 ==> start == 0 || cnt == 0 || filled < BUFSIZE
  {
    var lineEnd := FindNewline(data, start, filled);
    assert forall k | start <= k < filled :: data[k] == data[start..filled][k - start];
    if NEWLINE != data[lineEnd] && 0 != cnt && start != 0 {
      data[lineEnd] := NUL;
      StrcpyDown(data, start, lineEnd);
      return true, 0, [];
    }
    text := CutAndPrint(data, start, filled, lineEnd, s, fname);
    carry, next := false, lineEnd + 1;
  }

  /** The line up to `lineEnd` is terminated, searched and printed if it matches. */
  method CutAndPrint(data: array<Byte>, start: nat, filled: nat, lineEnd: nat, s: seq<Byte>, fname: seq<Byte>)
    returns (text: seq<Byte>)
    requires start <= filled < data.Length && NulFree(data[start..filled]) && NulFree(s)
    requires lineEnd == start + LineEnd(data[start..filled])
    modifies data
    ensures forall k | 0 <= k < data.Length && k != lineEnd :: data[k] == old(data[k])
    ensures data[lineEnd] == NUL
    ensures var buf := old(data[start..filled]);
            && data[if lineEnd + 1 < filled then lineEnd + 1 else filled..filled] == AfterLine(buf)
            && text == PieceReport(buf[..LineEnd(buf)], s, fname)
  {
    ghost var buf, line := data[start..filled], data[start..lineEnd];
    assert line == buf[..LineEnd(buf)];
    data[lineEnd] := NUL;
    assert data[start..lineEnd] == line;
    assert forall k | start <= k < lineEnd :: data[k] == buf[k - start];
    assert data[if lineEnd + 1 < filled then lineEnd + 1 else filled..filled] == AfterLine(buf);
    text := PrintIfMatching(data, start, lineEnd, s, fname);
  }

  lemma AfterLineNulFree(buf: seq<Byte>)
    requires NulFree(buf)
    ensures NulFree(AfterLine(buf))
  {
  }

  lemma LineReport(buf: seq<Byte>, rest: seq<Byte>, s: seq<Byte>, fname: seq<Byte>)
    requires |buf| <= BUFSIZE
    requires LineEnd(buf) == |buf| ==> |buf| == BUFSIZE || rest == []
    ensures Search(buf + rest, s, fname) ==
            PieceReport(buf[..LineEnd(buf)], s, fname) + Search(AfterLine(buf) + rest, s, fname)
  {
    if LineEnd(buf) < |buf| {
      WholeLine(buf, rest, s, fname);
    } else {
      WholeBuffer(buf, rest, s, fname);
      assert buf[..|buf|] == buf && [] + rest == rest;
    }
  }

  /** The report so far, extended by the report on what is left, is the report on everything. */
  ghost predicate Progress(text: seq<Byte>, left: seq<Byte>, all: seq<Byte>, s: seq<Byte>, fname: seq<Byte>) {
    text + Search(left, s, fname) == Search(all, s, fname)
  }

  lemma ProgressStart(all: seq<Byte>, s: seq<Byte>, fname: seq<Byte>)
    ensures Progress([], all, all, s, fname)
  {
  }

  lemma Associates(a: seq<Byte>, b: seq<Byte>, c: seq<Byte>)
    ensures a + (b + c) == (a + b) + c
  {
  }

  lemma ProgressStep(text: seq<Byte>, buf: seq<Byte>, rest: seq<Byte>, all: seq<Byte>, s: seq<Byte>, fname: seq<Byte>)
    requires |buf| <= BUFSIZE
    requires LineEnd(buf) == |buf| ==> |buf| == BUFSIZE || rest == []
    requires Progress(text, buf + rest, all, s, fname)
    ensures Progress(text + PieceReport(buf[..LineEnd(buf)], s, fname), AfterLine(buf) + rest, all, s, fname)
  {
    LineReport(buf, rest, s, fname);
    Associates(text, PieceReport(buf[..LineEnd(buf)], s, fname), Search(AfterLine(buf) + rest, s, fname));
  }

  /** The inner loop: everything printed from one bufferful, and how much of it is carried over. */
  method ScanBuffer(data: array<Byte>, filled: nat, cnt: nat, s: seq<Byte>, fname: seq<Byte>,
                    ghost rest: seq<Byte>, ghost all: seq<Byte>)
    returns (last: nat, text: seq<Byte>, ghost left: seq<Byte>)
    requires data.Length == BUFSIZE + 1 && filled <= BUFSIZE && data[BUFSIZE] != NEWLINE
    requires NulFree(data[..filled]) && NulFree(s)
    requires (filled < BUFSIZE || cnt == 0 ==> rest == []) && all == data[..filled] + rest
    modifies data
    ensures last < BUFSIZE && data[BUFSIZE] != NEWLINE && NulFree(data[..last])
    ensures cnt == 0 ==> last == 0
    ensures left == data[..last] + rest && Progress(text, left, all, s, fname)
  {
    last, text := filled, [];
    ghost var buf := data[..filled];
    ProgressStart(all, s, fname);
    var lineStart := 0;
    while true
      invariant last == filled && lineStart <= filled
      invariant data[lineStart..filled] == buf && NulFree(buf)
      invariant data[BUFSIZE] != NEWLINE
      invariant Progress(text, buf + rest, all, s, fname)
      decreases filled - lineStart
    {
      var carry, next, printed := ScanLine(data, lineStart, filled, cnt, s, fname);
      if carry {
        last := last - lineStart;
        assert data[..last] == buf;
        break;
      }
      ProgressStep(text, buf, rest, all, s, fname);
      AfterLineNulFree(buf);
      text := text + printed;
      buf := AfterLine(buf);
      lineStart := next;
      if lineStart >= last {
        last := 0;
        assert data[..last] == buf;
        break;
      }
    }
    left := buf + rest;
  }

  /** The read system call's contract: as many bytes as wanted, or as remain. */
  function ReadCount(file: seq<Byte>, pos: nat, wanted: nat): nat
    requires pos <= |file|
  {
    if wanted < |file| - pos then wanted else |file| - pos
  }

  method Read(file: seq<Byte>, pos: nat, data: array<Byte>, at: nat, wanted: nat) returns (cnt: nat)
    requires pos <= |file| && at + wanted <= data.Length
    modifies data
    ensures cnt == ReadCount(file, pos, wanted)
    ensures data[..at + cnt] == old(data[..at]) + file[pos..pos + cnt]
    ensures forall k | at + cnt <= k < data.Length :: data[k] == old(data[k])
  {
    cnt := ReadCount(file, pos, wanted);
    for i := 0 to cnt
      invariant data[..at + i] == old(data[..at]) + file[pos..pos + i]
      invariant forall k | at + i <= k < data.Length :: data[k] == old(data[k])
    {
      data[at + i] := file[pos + i];
    }
  }

  /** One round of the loop: fill up the buffer behind the carried-over rest and report its lines. */
  method ReadAndScan(file: seq<Byte>, pos: nat, data: array<Byte>, carried: nat, s: seq<Byte>, fname: seq<Byte>,
                     ghost before: seq<Byte>)
    returns (cnt: nat, last: nat, printed: seq<Byte>, ghost left: seq<Byte>)
    requires data.Length == BUFSIZE + 1 && carried < BUFSIZE && data[BUFSIZE] != NEWLINE && pos <= |file|
    requires NulFree(file) && NulFree(s) && NulFree(data[..carried]) && before == data[..carried] + file[pos..]
    modifies data
    ensures cnt == ReadCount(file, pos, BUFSIZE - carried) && (cnt == 0 ==> last == 0)
    ensures last < BUFSIZE && data[BUFSIZE] != NEWLINE && NulFree(data[..last])
    ensures left == data[..last] + file[pos + cnt..] && Progress(printed, left, before, s, fname)
  {
    ghost var rest := data[..carried];
    cnt := Read(file, pos, data, carried, BUFSIZE - carried);
    Refill(rest, file, pos, cnt);
    last, printed, left := ScanBuffer(data, carried + cnt, cnt, s, fname, file[pos + cnt..], before);
  }

  /**
    Main result: what `do_one_file` prints for an opened file is the report of the search over
    the whole file.  `data` is its uninitialised buffer; the byte past the read area must not
    happen to be a newline.
   */
  method DoOneFile(file: seq<Byte>, s: seq<Byte>, fname: seq<Byte>, data: array<Byte>) returns (out: seq<Byte>)
    requires data.Length == BUFSIZE + 1 && data[BUFSIZE] != NEWLINE
    requires NulFree(file) && NulFree(s)
    modifies data
    ensures out == Report(fname, Filter(Pieces(file), s))
  {
    ProgressStart(file, s, fname);
    var pos: nat, last: nat := 0, 0;
    out := [];
    ghost var left := file;
    assert data[..0] + file[0..] == file;
    while true
      invariant pos <= |file| && last < BUFSIZE && data[BUFSIZE] != NEWLINE
      invariant NulFree(data[..last])
      invariant left == data[..last] + file[pos..] && Progress(out, left, file, s, fname)
      decreases |file| - pos
    {
      ghost var before := left;
      var cnt, printed;
      cnt, last, printed, left := ReadAndScan(file, pos, data, last, s, fname, before);
      pos := pos + cnt;
      ProgressTrans(out, printed, before, left, file, s, fname);
      out := out + printed;
      if cnt == 0 {
        break;
      }
    }
    assert left == [];
    Finished(out, file, s, fname);
  }

  lemma Finished(out: seq<Byte>, file: seq<Byte>, s: seq<Byte>, fname: seq<Byte>)
    requires Progress(out, [], file, s, fname)
    ensures out == Report(fname, Filter(Pieces(file), s))
  {
    SearchFilters(file, s, fname);
    assert out + [] == out;
  }

  lemma Refill(carried: seq<Byte>, file: seq<Byte>, pos: nat, cnt: nat)
    requires pos + cnt <= |file| && NulFree(carried) && NulFree(file)
    ensures (carried + file[pos..pos + cnt]) + file[pos + cnt..] == carried + file[pos..]
    ensures NulFree(carried + file[pos..pos + cnt])
  {
  }

  lemma ProgressTrans(text: seq<Byte>, more: seq<Byte>, left: seq<Byte>, after: seq<Byte>, all: seq<Byte>,
                      s: seq<Byte>, fname: seq<Byte>)
    requires Progress(text, left, all, s, fname) && Progress(more, after, left, s, fname)
    ensures Progress(text + more, after, all, s, fname)
  {
  }

  // ------------------------------------------------------------------ pieces and lines

  ghost predicate LinesFit(t: seq<Byte>) {
    forall l | l in Lines(t) :: |l| <= BUFSIZE
  }

  lemma {:induction false} FittingLines(t: seq<Byte>, s: seq<Byte>)
    requires LinesFit(t)
    ensures Filter(Pieces(t), s) == Filter(Lines(t), s)
    decreases |t|
  {
    if t != [] {
      var e := LineEnd(t);
      var after := t[if e < |t| then e + 1 else e..];
      LinesCons(t, after);
      FittingLines(after, s);
      FilterCons(t[..e], Lines(after), s);
      FilterCons(t[..e], Pieces(after), s);
      FirstPiece(t, after, s);
    }
  }

  lemma LinesCons(t: seq<Byte>, after: seq<Byte>)
    requires t != [] && after == t[if LineEnd(t) < |t| then LineEnd(t) + 1 else LineEnd(t)..]
    ensures Lines(t) == [t[..LineEnd(t)]] + Lines(after)
    ensures t[..LineEnd(t)] in Lines(t)
    ensures forall l | l in Lines(after) :: l in Lines(t)
  {
  }

  lemma FirstPiece(t: seq<Byte>, after: seq<Byte>, s: seq<Byte>)
    requires t != [] && LineEnd(t) <= BUFSIZE
    requires after == t[if LineEnd(t) < |t| then LineEnd(t) + 1 else LineEnd(t)..]
    ensures Filter(Pieces(t), s) == Filter([t[..LineEnd(t)]] + Pieces(after), s)
  {
    if LineEnd(t) == BUFSIZE && LineEnd(t) < |t| {
      FullLine(t, s);
    } else {
      assert Pieces(t) == [t[..LineEnd(t)]] + Pieces(after);
    }
  }

  /** A line of exactly 1024 bytes leaves an empty piece behind, which matches nothing. */
  lemma FullLine(t: seq<Byte>, s: seq<Byte>)
    requires LineEnd(t) == BUFSIZE < |t|
    ensures Filter(Pieces(t), s) == Filter([t[..BUFSIZE]] + Pieces(t[BUFSIZE + 1..]), s)
  {
    var u := t[BUFSIZE..];
    assert u[1..] == t[BUFSIZE + 1..] && u[..0] == [];
    assert Pieces(u) == [[]] + Pieces(u[1..]);
    assert Pieces(t) == [t[..BUFSIZE]] + Pieces(u);
    FilterCons([], Pieces(u[1..]), s);
    FilterCons(t[..BUFSIZE], Pieces(u), s);
    FilterCons(t[..BUFSIZE], Pieces(u[1..]), s);
  }

  lemma FilterCons(l: seq<Byte>, lines: seq<seq<Byte>>, s: seq<Byte>)
    ensures Filter([l] + lines, s) == (if Contains(l, s) then [l] else []) + Filter(lines, s)
  {
  }

  lemma {:induction false} FilterKeeps(lines: seq<seq<Byte>>, s: seq<Byte>, l: seq<Byte>)
    ensures l in Filter(lines, s) <==> l in lines && Contains(l, s)
  {
    if lines != [] {
      FilterKeeps(lines[1..], s, l);
      assert lines == [lines[0]] + lines[1..];
    }
  }

  lemma {:induction false} PiecesAreShort(t: seq<Byte>)
    ensures forall p | p in Pieces(t) :: |p| <= BUFSIZE
    decreases |t|
  {
    if t != [] {
      PiecesAreShort(t[NextPiece(t)..]);
    }
  }

  lemma {:induction false} LinesNulFree(t: seq<Byte>)
    requires NulFree(t)
    ensures forall l | l in Lines(t) :: NulFree(l)
    decreases |t|
  {
    if t != [] {
      LinesNulFree(t[if LineEnd(t) < |t| then LineEnd(t) + 1 else LineEnd(t)..]);
    }
  }

  /**
    Main result: the streaming search agrees with the search over the lines of the file, for
    every pattern, exactly when no line is longer than the buffer.
   */
  lemma StreamingIsLineSearch(t: seq<Byte>)
    requires NulFree(t)
    ensures (forall s | NulFree(s) :: Filter(Pieces(t), s) == Filter(Lines(t), s)) <==> LinesFit(t)
  {
    if LinesFit(t) {
      forall s | NulFree(s)
        ensures Filter(Pieces(t), s) == Filter(Lines(t), s)
      {
        FittingLines(t, s);
      }
    } else {
      var l :| l in Lines(t) && |l| > BUFSIZE;
      LinesNulFree(t);
      PiecesAreShort(t);
      assert OccursAt(l, l, 0);
      FilterKeeps(Lines(t), l, l);
      FilterKeeps(Pieces(t), l, l);
    }
  }
}
