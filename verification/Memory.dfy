/**
  The memory routines of `lib.c` on a flat memory, addresses being indices.  `memcpy` and
  `memset` go byte by byte up to a word boundary of the destination, then by words, then by
  bytes again.
 */
module Memory {
  import opened Bytes

  /** The memory after `n` bytes at `src` have been copied to `dest` at once. */
  function Moved(m: seq<Byte>, dest: nat, src: nat, n: nat): (r: seq<Byte>)
    requires dest + n <= |m| && src + n <= |m|
    ensures |r| == |m|
  {
    seq(|m|, k requires 0 <= k < |m| => if dest <= k < dest + n then m[src + (k - dest)] else m[k])
  }

  /** The memory after `n` bytes from `dest` on have been set to `c`. */
  function Filled(m: seq<Byte>, dest: nat, n: nat, c: Byte): (r: seq<Byte>)
    requires dest + n <= |m|
    ensures |r| == |m|
  {
    seq(|m|, k requires 0 <= k < |m| => if dest <= k < dest + n then c else m[k])
  }

  /** The destination holds what the source held, and the rest is as it was. */
  lemma MovedIs(m: seq<Byte>, dest: nat, src: nat, n: nat)
    requires dest + n <= |m| && src + n <= |m|
    ensures var r := Moved(m, dest, src, n);
            r[..dest] == m[..dest] && r[dest..dest + n] == m[src..src + n] && r[dest + n..] == m[dest + n..]
  {
  }

  lemma FilledIs(m: seq<Byte>, dest: nat, n: nat, c: Byte)
    requires dest + n <= |m|
    ensures Filled(m, dest, n, c) == m[..dest] + seq(n, _ => c) + m[dest + n..]
  {
  }

  /** memmove: the bytes that arrive are those that were there before, for every overlap. */
  method Memmove(m: array<Byte>, dest: nat, src: nat, n: nat)
    requires dest + n <= m.Length && src + n <= m.Length
    modifies m
    ensures m[..] == Moved(old(m[..]), dest, src, n)
  {
    if src >= dest {
      CopyBytes(m, dest, src, n);
    } else {
      MoveDown(m, dest, src, n);
    }
  }

  /** The copy with the direction flag set: from the last byte to the first. */
  method MoveDown(m: array<Byte>, dest: nat, src: nat, n: nat)
    requires src < dest && dest + n <= m.Length
    modifies m
    ensures m[..] == Moved(old(m[..]), dest, src, n)
  {
    var left := n;
    while left > 0
      invariant 0 <= left <= n
      invariant forall k | 0 <= k < m.Length ::
                  m[k] == if dest + left <= k < dest + n then old(m[src + (k - dest)]) else old(m[k])
    {
      left := left - 1;
      m[dest + left] := m[src + left];
    }
  }

  /** A copy that has got to byte `c` and is then completed from there. */
  lemma Completed(m: seq<Byte>, half: seq<Byte>, dest: nat, src: nat, n: nat, c: nat)
    requires dest + n <= |m| && src + n <= |m| && c <= n && half == Moved(m, dest, src, c)
    requires dest <= src || src + n <= dest
    ensures Moved(half, dest + c, src + c, n - c) == Moved(m, dest, src, n)
  {
  }

  /** Byte by byte from the front: correct unless the destination starts inside the source. */
  method CopyBytes(m: array<Byte>, dest: nat, src: nat, n: nat)
    requires dest + n <= m.Length && src + n <= m.Length
    requires dest <= src || src + n <= dest
    modifies m
    ensures m[..] == Moved(old(m[..]), dest, src, n)
  {
    for i := 0 to n
      invariant forall k | 0 <= k < m.Length ::
                  m[k] == if dest <= k < dest + i then old(m[src + (k - dest)]) else old(m[k])
    {
      m[dest + i] := m[src + i];
    }
  }

  /** `rep movsl`: four bytes are read before four are written. */
  method CopyWords(m: array<Byte>, dest: nat, src: nat, words: nat)
    requires dest + 4 * words <= m.Length && src + 4 * words <= m.Length
    requires dest <= src || src + 4 * words <= dest
    modifies m
    ensures m[..] == Moved(old(m[..]), dest, src, 4 * words)
  {
    for i := 0 to words
      invariant forall k | dest <= k < dest + 4 * i :: m[k] == old(m[src + (k - dest)])
      invariant forall k | 0 <= k < dest || dest + 4 * i <= k < m.Length :: m[k] == old(m[k])
    {
      var d, s := dest + 4 * i, src + 4 * i;
      m[d], m[d + 1], m[d + 2], m[d + 3] := m[s], m[s + 1], m[s + 2], m[s + 3];
    }
  }

  /** Bytes to go before the destination is on a word boundary, if that comes within `n`. */
  function Head(dest: nat, n: nat): (h: nat)
    ensures h <= n && h < 4
    ensures h == n || (dest + h) % 4 == 0
  {
    var h := (4 - dest % 4) % 4;
    if h <= n then h else n
  }

  /**
    Main result: for every address and length, memcpy copies like a single simultaneous move,
    provided the destination does not start inside the source.
   */
  method Memcpy(m: array<Byte>, dest: nat, src: nat, n: nat)
    requires dest + n <= m.Length && src + n <= m.Length
    requires dest <= src || src + n <= dest
    modifies m
    ensures m[..] == Moved(old(m[..]), dest, src, n)
  {
    var head := AlignedPart(dest, n);
    ghost var was := m[..];
    CopyBytes(m, dest, src, head);
    Completed(was, m[..], dest, src, n, head);
    CopyAligned(m, dest + head, src + head, n - head);
  }

  /** The part of memcpy from `.memcpy_aligned` on: whole words, then the last bytes. */
  method CopyAligned(m: array<Byte>, dest: nat, src: nat, n: nat)
    requires dest + n <= m.Length && src + n <= m.Length
    requires dest <= src || src + n <= dest
    modifies m
    ensures m[..] == Moved(old(m[..]), dest, src, n)
  {
    ghost var was := m[..];
    var words, tail := n / 4, n % 4;
    CopyWords(m, dest, src, words);
    ghost var done := n - tail;
    assert done == 4 * words;
    Completed(was, m[..], dest, src, n, done);
    CopyBytes(m, dest + 4 * words, src + 4 * words, tail);
  }

  /** How far the byte loop at the top goes: until nothing is left or the destination is aligned. */
  method AlignedPart(dest: nat, n: nat) returns (h: nat)
    ensures h == Head(dest, n)
  {
    h := 0;
    while h < n && (dest + h) % 4 != 0
      invariant h <= Head(dest, n)
    {
      h := h + 1;
    }
  }

  // ------------------------------------------------------------------ memset

  lemma FillCompleted(m: seq<Byte>, half: seq<Byte>, dest: nat, n: nat, c: nat, b: Byte)
    requires dest + n <= |m| && c <= n && half == Filled(m, dest, c, b)
    ensures Filled(half, dest + c, n - c, b) == Filled(m, dest, n, b)
  {
  }

  method SetBytes(m: array<Byte>, dest: nat, n: nat, c: Byte)
    requires dest + n <= m.Length
    modifies m
    ensures m[..] == Filled(old(m[..]), dest, n, c)
  {
    for i := 0 to n
      invariant forall k | 0 <= k < m.Length :: m[k] == if dest <= k < dest + i then c else old(m[k])
    {
      m[dest + i] := c;
    }
  }

  /** `rep stosl` of the byte repeated four times. */
  method SetWords(m: array<Byte>, dest: nat, words: nat, c: Byte)
    requires dest + 4 * words <= m.Length
    modifies m
    ensures m[..] == Filled(old(m[..]), dest, 4 * words, c)
  {
    for i := 0 to words
      invariant forall k | 0 <= k < m.Length :: m[k] == if dest <= k < dest + 4 * i then c else old(m[k])
    {
      var at := dest + 4 * i;
      m[at], m[at + 1], m[at + 2], m[at + 3] := c, c, c, c;
    }
  }

  /** Main result: memset stores the low byte of `c` in every byte, for every address and length. */
  method Memset(m: array<Byte>, dest: nat, c: int, n: nat)
    requires dest + n <= m.Length
    modifies m
    ensures m[..] == Filled(old(m[..]), dest, n, c % 0x100)
  {
    var b: Byte := c % 0x100;
    var head := AlignedPart(dest, n);
    ghost var was := m[..];
    SetBytes(m, dest, head, b);
    FillCompleted(was, m[..], dest, n, head, b);
    SetAligned(m, dest + head, n - head, b);
  }

  /** The part of memset from `.memset_aligned` on. */
  method SetAligned(m: array<Byte>, dest: nat, n: nat, c: Byte)
    requires dest + n <= m.Length
    modifies m
    ensures m[..] == Filled(old(m[..]), dest, n, c)
  {
    var words, tail := n / 4, n % 4;
    ghost var was := m[..];
    SetWords(m, dest, words, c);
    ghost var done := n - tail;
    assert done == 4 * words;
    FillCompleted(was, m[..], dest, n, done, c);
    SetBytes(m, dest + 4 * words, tail, c);
  }
}
