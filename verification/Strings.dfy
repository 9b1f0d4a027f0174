/**
  The C string routines of `lib.c`.  Memory that is only read is a byte sequence, memory that
  is written an array; a string ends at its first NUL.
 */
module Strings {
  import opened Bytes

  /** Length of the string at the start of `s`: index of the first NUL, or all of `s`. */
  function CLen(s: seq<Byte>): (n: nat)
    ensures n <= |s|
    ensures NUL !in s[..n]
    ensures n < |s| ==> s[n] == NUL
    ensures NUL in s ==> n < |s|
  {
    if s == [] || s[0] == NUL then 0 else
      var n := 1 + CLen(s[1..]);
      assert s[..n] == [s[0]] + s[1..][..n - 1];
      n
  }

  function CString(s: seq<Byte>): (t: seq<Byte>) {
    s[..CLen(s)]
  }

  /** The string at `s`, cut off after `n` bytes. */
  function Cut(s: seq<Byte>, n: nat): (t: seq<Byte>)
    ensures |t| <= n && NUL !in t
  {
    if CLen(s) <= n then s[..CLen(s)] else s[..n]
  }

  lemma CLenIs(s: seq<Byte>, n: nat)
    requires n <= |s| && (forall k | 0 <= k < n :: s[k] != NUL) && (n < |s| ==> s[n] == NUL)
    ensures CLen(s) == n
  {
  }

  method Strlen(s: seq<Byte>) returns (len: nat)
    requires NUL in s
    ensures len == CLen(s)
  {
    len := 0;
    while s[len] != NUL
      invariant len <= CLen(s)
      decreases |s| - len
    {
      assert len != CLen(s);
      len := len + 1;
    }
    assert s[..CLen(s)][..len] == s[..len];
    CLenIs(s, len);
  }

  /** A byte read as the signed char of the source. */
  function Signed(b: Byte): (r: int)
    ensures -128 <= r < 128 && (r - b) % 256 == 0
  {
    if b < 128 then b else b - 256
  }

  /**
    strncmp: zero exactly when the strings agree up to their end or the first `n` bytes;
    otherwise the difference of the first bytes that differ.
   */
  method Strncmp(s1: seq<Byte>, s2: seq<Byte>, n: nat) returns (r: int)
    requires NUL in s1 && NUL in s2
    ensures r == 0 <==> Cut(s1, n) == Cut(s2, n)
    ensures r != 0 ==> exists k: nat ::
              k < n && k < |s1| && k < |s2| && s1[..k] == s2[..k] && r == Signed(s1[k]) - Signed(s2[k])
  {
    for i := 0 to n
      invariant i <= CLen(s1) && i <= CLen(s2)
      invariant s1[..i] == s2[..i]
    {
      if s1[i] != s2[i] || s1[i] == NUL {
        CutsCompared(s1, s2, n, i);
        return Signed(s1[i]) - Signed(s2[i]);
      }
    }
    return 0;
  }

  /** How the comparison ends at index `i`, where the strings differ or stop. */
  lemma CutsCompared(s1: seq<Byte>, s2: seq<Byte>, n: nat, i: nat)
    requires NUL in s1 && NUL in s2 && i < n && i <= CLen(s1) && i <= CLen(s2)
    requires s1[..i] == s2[..i] && (s1[i] != s2[i] || s1[i] == NUL)
    ensures Cut(s1, n) == Cut(s2, n) <==> s1[i] == s2[i]
  {
  }

  /** strcpy(dest + at, src): the string and its NUL, however far that runs. */
  method Strcpy(dest: array<Byte>, at: nat, src: seq<Byte>)
    requires NUL in src && at + CLen(src) < dest.Length
    modifies dest
    ensures forall k | 0 <= k <= CLen(src) :: dest[at + k] == src[k]
    ensures forall k | 0 <= k < dest.Length && !(at <= k <= at + CLen(src)) :: dest[k] == old(dest[k])
  {
    var i := 0;
    while src[i] != NUL
      invariant i <= CLen(src)
      invariant forall k | 0 <= k < i :: dest[at + k] == src[k] && src[k] != NUL
      invariant forall k | 0 <= k < dest.Length && !(at <= k < at + i) :: dest[k] == old(dest[k])
      decreases |src| - i
    {
      dest[at + i] := src[i];
      i := i + 1;
    }
    CLenIs(src, i);
    dest[at + i] := NUL;
  }

  /** The string at `src` cut to `n` bytes and padded with NULs to `n` bytes. */
  function Padded(src: seq<Byte>, n: nat): (r: seq<Byte>)
    ensures |r| == n
  {
    Cut(src, n) + seq(n - |Cut(src, n)|, _ => NUL)
  }

  /** Byte by byte: the string's bytes, and NULs from its end on. */
  lemma PaddedAt(src: seq<Byte>, n: nat, k: nat)
    requires NUL in src && k < n
    ensures Padded(src, n)[k] == if k < CLen(src) then src[k] else 0
  {
  }

  /** strncpy(dest, src, n). */
  method Strncpy(dest: array<Byte>, src: seq<Byte>, n: nat)
    requires NUL in src && n <= dest.Length
    modifies dest
    ensures forall k | 0 <= k < n :: dest[k] == Padded(src, n)[k]
    ensures forall k | n <= k < dest.Length :: dest[k] == old(dest[k])
  {
    var i := 0;
    while src[i] != NUL && i < n
      invariant i <= n && i <= CLen(src)
      invariant forall k | 0 <= k < i :: dest[k] == src[k] && src[k] != NUL
      invariant forall k | i <= k < dest.Length :: dest[k] == old(dest[k])
      decreases n - i
    {
      dest[i] := src[i];
      i := i + 1;
    }
    ghost var len := i;
    assert |Cut(src, n)| == len by {
      if i < n {
        CLenIs(src, i);
      }
    }
    while i < n
      invariant len <= i <= n
      invariant forall k | 0 <= k < i :: dest[k] == if k < len then src[k] else NUL
      invariant forall k | i <= k < dest.Length :: dest[k] == old(dest[k])
    {
      dest[i] := NUL;
      i := i + 1;
    }
  }
}
