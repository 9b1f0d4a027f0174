/**
  What the notions that the results on grep are stated with amount to: a match, the lines and
  pieces of a text, and the report, each related to the bytes alone.
 */
module GrepReports {
  import opened Bytes
  import opened Grep

  /** A match is an occurrence of the pattern with anything before and behind it. */
  lemma ContainsIff(line: seq<Byte>, s: seq<Byte>)
    ensures Contains(line, s) <==> s != [] && exists a, b :: line == a + s + b
  {
    if Contains(line, s) {
      var k: nat :| OccursAt(line, s, k);
      assert line == line[..k] + s + line[k + |s|..];
    }
    if s != [] && exists a, b :: line == a + s + b {
      var a, b :| line == a + s + b;
      assert OccursAt(line, s, |a|);
    }
  }

  /** The lines, each followed by a newline. */
  function Terminated(lines: seq<seq<Byte>>): seq<Byte> {
    if lines == [] then [] else lines[0] + [10] + Terminated(lines[1..])
  }

  lemma TerminatedCons(l: seq<Byte>, lines: seq<seq<Byte>>)
    ensures Terminated([l] + lines) == l + [10] + Terminated(lines)
  {
    assert ([l] + lines)[1..] == lines;
  }

  /** The text with a newline at its end. */
  function Whole(t: seq<Byte>): seq<Byte> {
    if t == [] || t[|t| - 1] == 10 then t else t + [10]
  }

  lemma WholeJoin(l: seq<Byte>, after: seq<Byte>)
    ensures Whole(l + [10] + after) == l + [10] + Whole(after)
  {
    var t := l + [10] + after;
    if after == [] {
      assert t == l + [10];
    } else if after[|after| - 1] != 10 {
      assert t[|t| - 1] == after[|after| - 1];
      assert t + [10] == l + [10] + (after + [10]);
    } else {
      assert t[|t| - 1] == 10;
    }
  }

  lemma WholeLast(l: seq<Byte>)
    requires l != [] && 10 !in l
    ensures Whole(l) == l + [10] + Whole([])
  {
    assert l[|l| - 1] in l;
    assert l + [10] + [] == l + [10];
  }

  /** A text is its first line, a newline and the rest, or that line alone. */
  lemma FirstLineOf(t: seq<Byte>, l: seq<Byte>, after: seq<Byte>)
    requires t != [] && l == t[..LineEnd(t)]
    requires after == t[if LineEnd(t) < |t| then LineEnd(t) + 1 else LineEnd(t)..]
    ensures t == l + [10] + after || (t == l && after == [] && 10 !in l)
  {
    if LineEnd(t) < |t| {
      CutAt(t, LineEnd(t));
    }
  }

  lemma CutAt(t: seq<Byte>, e: nat)
    requires e < |t| && t[e] == 10
    ensures t == t[..e] + [10] + t[e + 1..]
  {
  }

  /** The lines of a text spell the text, whose last newline may be missing. */
  lemma {:induction false} LinesSpell(t: seq<Byte>)
    ensures Terminated(Lines(t)) == Whole(t)
    decreases |t|
  {
    if t != [] {
      var l, after := t[..LineEnd(t)], t[if LineEnd(t) < |t| then LineEnd(t) + 1 else LineEnd(t)..];
      LinesSpell(after);
      LinesCons(t, after);
      FirstLineOf(t, l, after);
      if t == l + [10] + after {
        WholeJoin(l, after);
      } else {
        WholeLast(l);
      }
      TerminatedCons(l, Lines(after));
    }
  }

  /** And no line has a newline in it. */
  lemma {:induction false} LinesAreLines(t: seq<Byte>)
    ensures forall l | l in Lines(t) :: 10 !in l
    decreases |t|
  {
    if t != [] {
      LinesAreLines(t[if LineEnd(t) < |t| then LineEnd(t) + 1 else LineEnd(t)..]);
    }
  }

  lemma FirstOfTerminated(l: seq<Byte>, rest: seq<Byte>)
    requires 10 !in l
    ensures Lines(l + [10] + rest) == [l] + Lines(rest)
  {
    var t := l + [10] + rest;
    assert forall k | 0 <= k < |l| :: t[k] == l[k];
    LineEndIs(t, |l|);
    assert t[..|l|] == l && t[|l| + 1..] == rest;
  }

  lemma {:induction false} LinesOfTerminated(lines: seq<seq<Byte>>)
    requires forall i | 0 <= i < |lines| :: 10 !in lines[i]
    ensures Lines(Terminated(lines)) == lines
  {
    if lines != [] {
      LinesOfTerminated(lines[1..]);
      FirstOfTerminated(lines[0], Terminated(lines[1..]));
      assert lines == [lines[0]] + lines[1..];
    }
  }

  /** Main result on the output: cut at its newlines, it is file name, colon and line for each line, in order. */
  lemma ReportIsLabelled(fname: seq<Byte>, lines: seq<seq<Byte>>)
    requires 10 !in fname && forall i | 0 <= i < |lines| :: 10 !in lines[i]
    ensures |Lines(Report(fname, lines))| == |lines|
    ensures forall i | 0 <= i < |lines| :: Lines(Report(fname, lines))[i] == fname + [':' as int] + lines[i]
  {
    var labelled := seq(|lines|, i requires 0 <= i < |lines| => fname + [':' as int] + lines[i]);
    ReportTerminated(fname, lines, labelled);
    LinesOfTerminated(labelled);
  }

  lemma {:induction false} ReportTerminated(fname: seq<Byte>, lines: seq<seq<Byte>>, labelled: seq<seq<Byte>>)
    requires |labelled| == |lines| && forall i | 0 <= i < |lines| :: labelled[i] == fname + [':' as int] + lines[i]
    ensures Report(fname, lines) == Terminated(labelled)
  {
    if lines != [] {
      ReportTerminated(fname, lines[1..], labelled[1..]);
    }
  }

  /** The characters of a text other than newlines. */
  function Printed(t: seq<Byte>): seq<Byte> {
    if t == [] then [] else (if t[0] == 10 then [] else [t[0]]) + Printed(t[1..])
  }

  function Flat(pieces: seq<seq<Byte>>): seq<Byte> {
    if pieces == [] then [] else pieces[0] + Flat(pieces[1..])
  }

  lemma PrintedCons(c: Byte, t: seq<Byte>)
    ensures Printed([c] + t) == (if c == 10 then [] else [c]) + Printed(t)
  {
    assert ([c] + t)[1..] == t;
  }

  lemma {:induction false} PrintedFront(a: seq<Byte>, b: seq<Byte>)
    requires 10 !in a
    ensures Printed(a + b) == a + Printed(b)
  {
    if a == [] {
      assert a + b == b;
    } else {
      PrintedFront(a[1..], b);
      assert a + b == [a[0]] + (a[1..] + b);
      PrintedCons(a[0], a[1..] + b);
      assert a[0] in a && a == [a[0]] + a[1..];
    }
  }

  /** The pieces of a text have no newlines and at most 1024 bytes. */
  lemma {:induction false} PiecesAreSmall(t: seq<Byte>)
    ensures forall p | p in Pieces(t) :: 10 !in p && |p| <= 1024
    decreases |t|
  {
    if t != [] {
      PiecesAreSmall(t[NextPiece(t)..]);
      assert t[..PieceEnd(t)] == t[..LineEnd(t)][..PieceEnd(t)];
    }
  }

  /** What lies between a piece and the next one is nothing or a newline. */
  lemma FirstPieceOf(t: seq<Byte>, p: seq<Byte>, after: seq<Byte>)
    requires t != [] && p == t[..PieceEnd(t)] && after == t[NextPiece(t)..]
    ensures 10 !in p && (t == p + after || t == p + ([10] + after))
  {
    assert p == t[..LineEnd(t)][..PieceEnd(t)];
  }

  /** They lose nothing of the text but its newlines. */
  lemma {:induction false} PiecesSpell(t: seq<Byte>)
    ensures Flat(Pieces(t)) == Printed(t)
    decreases |t|
  {
    if t != [] {
      var p, after := t[..PieceEnd(t)], t[NextPiece(t)..];
      PiecesSpell(after);
      FlatCons(p, Pieces(after));
      FirstPieceOf(t, p, after);
      PrintedFront(p, after);
      PrintedFront(p, [10] + after);
      PrintedCons(10, after);
    }
  }

  lemma FlatCons(p: seq<Byte>, pieces: seq<seq<Byte>>)
    ensures Flat([p] + pieces) == p + Flat(pieces)
  {
    assert ([p] + pieces)[1..] == pieces;
  }

  /** A line is cut only where a piece is full. */
  lemma {:induction false} LineCutWhenFull(line: seq<Byte>, i: nat)
    requires 10 !in line && i + 1 < |Pieces(line)|
    ensures |Pieces(line)[i]| == 1024
    decreases |line|
  {
    LineEndIs(line, |line|);
    var n := NextPiece(line);
    if i > 0 {
      LineCutWhenFull(line[n..], i - 1);
    } else {
      assert Pieces(line)[1..] == Pieces(line[n..]) && line[n..] != [];
    }
  }
}
