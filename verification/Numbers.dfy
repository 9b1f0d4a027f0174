/**
  Printing numbers: `itoa` writes the digits backwards and reverses them in place.  Numerals
  and values are in exact correspondence, and the two `printf` conversions built on `itoa`
  print what they should.
 */
module Numbers {
  import opened Arithmetic
  import opened Bytes
  import opened Strings

  const UINT_LIMIT: nat := 0x1_0000_0000
  const MINUS: Byte := 45
  const ZERO: Byte := 48

  predicate ValidRadix(radix: nat) {
    2 <= radix <= 36
  }

  // ------------------------------------------------------------------ numerals

  /** The character of the lookup table "0123456789ABC...". */
  function Digit(d: nat): (c: Byte)
    requires d < 36
  {
    if d < 10 then ZERO + d else 55 + d
  }

  function DigitValue(c: Byte): int {
    if c < 58 then c - 48 else c - 55
  }

  predicate IsDigit(c: Byte, radix: nat) {
    (48 <= c < 58 || 65 <= c < 91) && DigitValue(c) < radix
  }

  /** The digits are the characters of the lookup table in its order, and a minus sign is none of them. */
  lemma DigitCharacters(d: nat)
    requires d < 36
    ensures Digit(d) == "0123456789ABCDEFGHIJKLMNOPQRSTUVWXYZ"[d] as int && DigitValue(Digit(d)) == d
    ensures ZERO == '0' as int && MINUS == '-' as int
  {
  }

  /** The number a string of digits denotes, most significant digit first. */
  function Parse(s: seq<Byte>, radix: nat): int {
    if s == [] then 0 else Parse(s[..|s| - 1], radix) * radix + DigitValue(s[|s| - 1])
  }

  /** The digits of `v`, most significant first; none for zero. */
  function Digits(v: nat, radix: nat): (s: seq<Byte>)
    requires ValidRadix(radix)
    ensures v != 0 ==> s != []
    decreases v
  {
    if v == 0 then []
    else
      Smaller(v, radix);
      Digits(v / radix, radix) + [Digit(v % radix)]
  }

  function Numeral(v: nat, radix: nat): (s: seq<Byte>)
    requires ValidRadix(radix)
    ensures s != []
  {
    if v == 0 then [ZERO] else Digits(v, radix)
  }

  lemma Smaller(v: nat, radix: nat)
    requires v > 0 && radix >= 2
    ensures 0 <= v / radix < v && v / radix * radix + v % radix == v && v % radix < radix
    ensures v / radix <= v / 2
  {
    var q := v / radix;
    assert radix * q + v % radix == v;
    assert (radix - 2) * q >= 0;
    assert 2 * q <= v;
  }

  lemma ParseAppend(s: seq<Byte>, c: Byte, radix: nat)
    ensures Parse(s + [c], radix) == Parse(s, radix) * radix + DigitValue(c)
  {
  }

  /** The string denotes the value it was made from. */
  lemma {:induction false} DigitsDenote(v: nat, radix: nat)
    requires ValidRadix(radix)
    ensures Parse(Digits(v, radix), radix) == v
    decreases v
  {
    if v != 0 {
      Smaller(v, radix);
      DigitsDenote(v / radix, radix);
      ParseAppend(Digits(v / radix, radix), Digit(v % radix), radix);
    }
  }

  lemma {:induction false} DigitsAreDigits(v: nat, radix: nat)
    requires ValidRadix(radix)
    ensures forall c | c in Digits(v, radix) :: IsDigit(c, radix)
    ensures v != 0 ==> Digits(v, radix)[0] != ZERO
    decreases v
  {
    if v != 0 {
      Smaller(v, radix);
      DigitsAreDigits(v / radix, radix);
      assert v / radix == 0 ==> v % radix == v;
    }
  }

  /** Main result: every number's numeral is read back as the number and has no leading zero. */
  lemma NumeralRoundTrip(v: nat, radix: nat)
    requires ValidRadix(radix)
    ensures Parse(Numeral(v, radix), radix) == v
    ensures forall c | c in Numeral(v, radix) :: IsDigit(c, radix)
    ensures Numeral(v, radix)[0] == ZERO ==> Numeral(v, radix) == [ZERO]
  {
    DigitsDenote(v, radix);
    DigitsAreDigits(v, radix);
    assert Parse([ZERO], radix) == Parse([ZERO][..0], radix) * radix + 0;
  }

  lemma QuotientAndDigit(q: nat, d: nat, radix: nat)
    requires ValidRadix(radix) && d < radix
    ensures q * radix + d >= 0 && (q * radix + d) / radix == q && (q * radix + d) % radix == d
    ensures q > 0 || d > 0 ==> q * radix + d > 0
  {
    assert q * radix >= 0;
    assert q > 0 ==> q * radix >= radix;
    DivisionIs(q * radix + d, radix, q);
    ModuloIs(q * radix + d, radix, q, d);
  }

  /** The other way round: a string of digits without a leading zero is the numeral of its value. */
  lemma {:induction false} DigitsOfParse(s: seq<Byte>, radix: nat)
    requires ValidRadix(radix) && (forall c | c in s :: IsDigit(c, radix))
    requires s == [] || s[0] != ZERO
    ensures Parse(s, radix) >= 0 && Digits(Parse(s, radix), radix) == s
    ensures s != [] ==> Parse(s, radix) > 0
  {
    if s != [] {
      var front, last := s[..|s| - 1], DigitValue(s[|s| - 1]);
      assert s[|s| - 1] in s;
      DigitsOfParse(front, radix);
      QuotientAndDigit(Parse(front, radix), last, radix);
      assert Digit(last) == s[|s| - 1];
      assert front + [s[|s| - 1]] == s;
    }
  }

  lemma ParseRoundTrip(s: seq<Byte>, radix: nat)
    requires ValidRadix(radix) && s != [] && (forall c | c in s :: IsDigit(c, radix))
    requires s[0] == ZERO ==> s == [ZERO]
    ensures Parse(s, radix) >= 0 && Numeral(Parse(s, radix), radix) == s
  {
    if s == [ZERO] {
      NumeralRoundTrip(0, radix);
    } else {
      DigitsOfParse(s, radix);
    }
  }

  function Pow(base: nat, n: nat): nat {
    if n == 0 then 1 else base * Pow(base, n - 1)
  }

  /** The number of digits is the least that can hold the value. */
  lemma {:induction false} DigitCount(v: nat, radix: nat)
    requires ValidRadix(radix) && v > 0
    ensures Pow(radix, |Digits(v, radix)| - 1) <= v < Pow(radix, |Digits(v, radix)|)
    decreases v
  {
    Smaller(v, radix);
    var q, n := v / radix, |Digits(v / radix, radix)|;
    if q > 0 {
      DigitCount(q, radix);
      Scaled(v, q, radix, Pow(radix, n - 1), Pow(radix, n));
      assert Pow(radix, n) == radix * Pow(radix, n - 1) && Pow(radix, n + 1) == radix * Pow(radix, n);
    } else {
      assert Pow(radix, 1) == radix * Pow(radix, 0);
    }
  }

  lemma Scaled(v: nat, q: nat, radix: nat, low: nat, high: nat)
    requires radix > 0 && v / radix == q && low <= q < high
    ensures radix * low <= v < radix * high
  {
    assert v == radix * q + v % radix;
    assert radix * (q - low) >= 0;
    Times(radix, q, high);
  }

  /** At most `n` digits for a value below radix to the `n`. */
  lemma {:induction false} AtMost(v: nat, radix: nat, n: nat)
    requires ValidRadix(radix) && v < Pow(radix, n)
    ensures |Digits(v, radix)| <= n
    decreases n
  {
    if v > 0 {
      Smaller(v, radix);
      var high := Pow(radix, n - 1);
      Unscaled(v, radix, high);
      AtMost(v / radix, radix, n - 1);
    }
  }

  lemma Unscaled(v: nat, radix: nat, high: nat)
    requires radix > 0 && v < radix * high
    ensures v / radix < high
  {
  }

  /** Whatever the radix, a value below 2 to the `n` has at most `n` digits. */
  lemma {:induction false} AtMostBits(v: nat, radix: nat, n: nat)
    requires ValidRadix(radix) && v < Pow(2, n)
    ensures |Digits(v, radix)| <= n
    decreases n
  {
    if v > 0 {
      Smaller(v, radix);
      AtMostBits(v / radix, radix, n - 1);
    }
  }

  lemma Powers()
    ensures Pow(2, 32) == UINT_LIMIT && Pow(16, 8) == UINT_LIMIT
  {
    assert Pow(2, 4) == 16 && Pow(2, 8) == 0x100 && Pow(2, 12) == 0x1000 && Pow(2, 16) == 0x1_0000;
    assert Pow(2, 20) == 0x10_0000 && Pow(2, 24) == 0x100_0000 && Pow(2, 28) == 0x1000_0000;
    assert Pow(16, 4) == 0x1_0000;
  }

  // ------------------------------------------------------------------ reversal in place

  function Reversed(s: seq<Byte>): (r: seq<Byte>)
    ensures |r| == |s|
  {
    seq(|s|, i requires 0 <= i < |s| => s[|s| - 1 - i])
  }

  /** A NUL-terminated text in memory is the string there. */
  lemma IsTextAt(mem: seq<Byte>, at: nat, text: seq<Byte>)
    requires at + |text| < |mem| && mem[at..at + |text|] == text && mem[at + |text|] == NUL && NUL !in text
    ensures NUL in mem[at..] && CLen(mem[at..]) == |text| && CString(mem[at..]) == text
  {
  }

  /** strrev of the string `text` stored at `s + at`. */
  method Strrev(s: array<Byte>, at: nat, ghost text: seq<Byte>)
    requires at + |text| < s.Length && s[at..at + |text|] == text && s[at + |text|] == NUL && NUL !in text
    modifies s
    ensures s[at..at + |text|] == Reversed(text)
    ensures forall k | 0 <= k < at || at + |text| <= k < s.Length :: s[k] == old(s[k])
  {
    IsTextAt(s[..], at, text);
    var n := Strlen(s[at..]);
    ReverseRange(s, at, n);
  }

  /** The loop of strrev. */
  method ReverseRange(s: array<Byte>, at: nat, n: nat)
    requires at + n <= s.Length
    modifies s
    ensures s[at..at + n] == Reversed(old(s[at..at + n]))
    ensures forall k | 0 <= k < at || at + n <= k < s.Length :: s[k] == old(s[k])
  {
    ghost var was := s[at..at + n];
    assert forall k | at <= k < at + n :: s[k] == was[k - at];
    var beg: int, end: int := at, at + n;
    while beg + 1 < end
      invariant beg + end == 2 * at + n && at <= beg <= end + 1
      invariant forall k | beg <= k < end :: s[k] == was[k - at]
      invariant forall k | at <= k < beg || end <= k < at + n :: s[k] == was[n - 1 - (k - at)]
      invariant forall k | 0 <= k < at || at + n <= k < s.Length :: s[k] == old(s[k])
    {
      var tmp := s[end - 1];
      s[end - 1] := s[beg];
      s[beg] := tmp;
      beg := beg + 1;
      end := end - 1;
    }
    ReversedIs(was, s[at..at + n]);
  }

  lemma ReversedIs(was: seq<Byte>, now: seq<Byte>)
    requires |now| == |was| && forall i | 0 <= i < |was| :: now[i] == was[|was| - 1 - i]
    ensures now == Reversed(was)
  {
  }

  // ------------------------------------------------------------------ itoa

  /** The digits as the loop of itoa produces them, least significant first. */
  function Backwards(v: nat, radix: nat): (s: seq<Byte>)
    requires ValidRadix(radix)
    decreases v
  {
    if v == 0 then []
    else
      Smaller(v, radix);
      [Digit(v % radix)] + Backwards(v / radix, radix)
  }

  lemma {:induction false} ReversedBackwards(v: nat, radix: nat)
    requires ValidRadix(radix)
    ensures Reversed(Backwards(v, radix)) == Digits(v, radix)
    decreases v
  {
    if v > 0 {
      Smaller(v, radix);
      ReversedBackwards(v / radix, radix);
      var rest := Backwards(v / radix, radix);
      assert Reversed([Digit(v % radix)] + rest) == Reversed(rest) + [Digit(v % radix)];
    }
  }

  lemma {:induction false} BackwardsIsText(v: nat, radix: nat)
    requires ValidRadix(radix)
    ensures NUL !in Backwards(v, radix) && |Backwards(v, radix)| == |Digits(v, radix)|
    decreases v
  {
    if v > 0 {
      Smaller(v, radix);
      BackwardsIsText(v / radix, radix);
    }
  }

  /** Main result: itoa leaves the numeral of the value, NUL-terminated, at `buf + at`. */
  method Itoa(value: nat, buf: array<Byte>, at: nat, radix: nat)
    requires value < UINT_LIMIT && ValidRadix(radix)
    requires at + |Numeral(value, radix)| < buf.Length
    modifies buf
    ensures var n := |Numeral(value, radix)|; buf[at..at + n] == Numeral(value, radix) && buf[at + n] == NUL
    ensures forall k | 0 <= k < at || at + |Numeral(value, radix)| < k < buf.Length :: buf[k] == old(buf[k])
  {
    if value == 0 {
      WriteZero(buf, at);
    } else {
      ghost var numeral := WritePositive(value, buf, at, radix);
    }
  }

  method WritePositive(value: nat, buf: array<Byte>, at: nat, radix: nat) returns (ghost numeral: seq<Byte>)
    requires value > 0 && ValidRadix(radix)
    requires at + |Numeral(value, radix)| < buf.Length
    modifies buf
    ensures numeral == Numeral(value, radix)
    ensures buf[at..at + |numeral|] == numeral && buf[at + |numeral|] == NUL
    ensures forall k | 0 <= k < at || at + |numeral| < k < buf.Length :: buf[k] == old(buf[k])
  {
    numeral := Numeral(value, radix);
    ghost var text := Backwards(value, radix);
    BackwardsIsNumeral(value, radix, text);
    WriteReversed(value, buf, at, radix, text);
  }

  /** The digits backwards, then turned round. */
  method WriteReversed(value: nat, buf: array<Byte>, at: nat, radix: nat, ghost text: seq<Byte>)
    requires ValidRadix(radix) && text == Backwards(value, radix) && NUL !in text && at + |text| < buf.Length
    modifies buf
    ensures buf[at..at + |text|] == Reversed(text) && buf[at + |text|] == NUL
    ensures forall k | 0 <= k < at || at + |text| < k < buf.Length :: buf[k] == old(buf[k])
  {
    var _ := WriteBackwards(value, buf, at, radix);
    Strrev(buf, at, text);
  }

  method WriteZero(buf: array<Byte>, at: nat)
    requires at + 1 < buf.Length
    modifies buf
    ensures buf[at..at + 1] == [ZERO] && buf[at + 1] == NUL
    ensures forall k | 0 <= k < at || at + 1 < k < buf.Length :: buf[k] == old(buf[k])
  {
    buf[at] := ZERO;
    buf[at + 1] := NUL;
  }

  lemma BackwardsIsNumeral(v: nat, radix: nat, text: seq<Byte>)
    requires ValidRadix(radix) && v > 0 && text == Backwards(v, radix)
    ensures Reversed(text) == Numeral(v, radix) && |text| == |Numeral(v, radix)| && NUL !in text
  {
    BackwardsIsText(v, radix);
    ReversedBackwards(v, radix);
  }

  /** The digit loop of itoa and its terminating NUL. */
  method WriteBackwards(value: nat, buf: array<Byte>, at: nat, radix: nat) returns (n: nat)
    requires ValidRadix(radix) && at + |Backwards(value, radix)| < buf.Length
    modifies buf
    ensures n == |Backwards(value, radix)| && buf[at..at + n] == Backwards(value, radix) && buf[at + n] == NUL
    ensures forall k | 0 <= k < at || at + n < k < buf.Length :: buf[k] == old(buf[k])
  {
    n := 0;
    var newval: nat := value;
    ghost var text := Backwards(value, radix);
    while newval > 0
      invariant n <= |text| && Backwards(newval, radix) == text[n..]
      invariant forall k | at <= k < at + n :: buf[k] == text[k - at]
      invariant forall k | 0 <= k < at || at + n <= k < buf.Length :: buf[k] == old(buf[k])
    {
      Smaller(newval, radix);
      assert text[n..][0] == Digit(newval % radix) && text[n..][1..] == text[n + 1..];
      buf[at + n] := Digit(newval % radix);
      n := n + 1;
      newval := newval / radix;
    }
    buf[at + n] := NUL;
  }

  // ------------------------------------------------------------------ printf conversions

  /** The string that puts prints from `buf + at` on. */
  method StringAt(buf: array<Byte>, at: nat) returns (s: seq<Byte>)
    requires at < buf.Length && NUL in buf[at..]
    ensures s == CString(buf[at..])
  {
    var len := Strlen(buf[at..]);
    return buf[at..][..len];
  }

  /**
    printf's %#x: the numeral is written at conv_buf + 8 and zeros are filled in from the
    numeral's length up to 8.  Exactly eight digits come out, and they denote the value.
   */
  method HexPadded(value: nat, convBuf: array<Byte>) returns (s: seq<Byte>)
    requires value < UINT_LIMIT && convBuf.Length == 64
    modifies convBuf
    ensures |s| == 8 && Parse(s, 16) == value
    ensures forall c | c in s :: IsDigit(c, 16)
  {
    var start := WriteHex(value, convBuf);
    ghost var digits := Numeral(value, 16);
    FillZeros(convBuf, start);
    ghost var zeros := convBuf[start..8];
    NumeralRoundTrip(value, 16);
    LeadingZeros(zeros, digits, 16);
    NumeralIsText(value, 16);
    JoinText(convBuf[..], start, zeros, digits);
    s := StringAt(convBuf, start);
  }

  /** The numeral at conv_buf + 8, and its length. */
  method WriteHex(value: nat, convBuf: array<Byte>) returns (start: nat)
    requires value < UINT_LIMIT && convBuf.Length == 64
    modifies convBuf
    ensures start == |Numeral(value, 16)| <= 8
    ensures convBuf[8..8 + start] == Numeral(value, 16) && convBuf[8 + start] == NUL
  {
    HexFits(value);
    Itoa(value, convBuf, 8, 16);
    NumeralIsText(value, 16);
    IsTextAt(convBuf[..], 8, Numeral(value, 16));
    start := Strlen(convBuf[8..]);
  }

  method FillZeros(convBuf: array<Byte>, start: nat)
    requires start <= 8 <= convBuf.Length
    modifies convBuf
    ensures forall i | start <= i < 8 :: convBuf[i] == ZERO
    ensures forall k | 8 <= k < convBuf.Length :: convBuf[k] == old(convBuf[k])
  {
    var i := start;
    while i < 8
      invariant start <= i <= 8
      invariant forall k | start <= k < i :: convBuf[k] == ZERO
      invariant forall k | 8 <= k < convBuf.Length :: convBuf[k] == old(convBuf[k])
    {
      convBuf[i] := ZERO;
      i := i + 1;
    }
  }

  /** Two adjoining pieces of memory, the second NUL-terminated, are one string. */
  lemma JoinText(mem: seq<Byte>, at: nat, front: seq<Byte>, text: seq<Byte>)
    requires at + |front| + |text| < |mem| && NUL !in front && NUL !in text
    requires mem[at..at + |front|] == front && mem[at + |front|..at + |front| + |text|] == text
    requires mem[at + |front| + |text|] == NUL
    ensures NUL in mem[at..] && CString(mem[at..]) == front + text
  {
  }

  lemma HexFits(v: nat)
    requires v < UINT_LIMIT
    ensures 1 <= |Numeral(v, 16)| <= 8
  {
    Powers();
    AtMost(v, 16, 8);
  }

  lemma {:induction false} AllZeros(zeros: seq<Byte>, radix: nat)
    requires forall i | 0 <= i < |zeros| :: zeros[i] == ZERO
    ensures Parse(zeros, radix) == 0
  {
    if zeros != [] {
      AllZeros(zeros[..|zeros| - 1], radix);
    }
  }

  lemma {:induction false} LeadingZeros(zeros: seq<Byte>, s: seq<Byte>, radix: nat)
    requires forall i | 0 <= i < |zeros| :: zeros[i] == ZERO
    ensures Parse(zeros + s, radix) == Parse(s, radix)
  {
    if s == [] {
      assert zeros + s == zeros;
      AllZeros(zeros, radix);
    } else {
      assert (zeros + s)[..|zeros + s| - 1] == zeros + s[..|s| - 1];
      LeadingZeros(zeros, s[..|s| - 1], radix);
    }
  }

  /** printf's %d: a minus sign in front of the numeral of the negated value, also for the least int. */
  method SignedDecimal(value: int, convBuf: array<Byte>) returns (s: seq<Byte>)
    requires -0x8000_0000 <= value < 0x8000_0000 && convBuf.Length == 36
    modifies convBuf
    ensures value >= 0 ==> s == Numeral(value, 10)
    ensures value < 0 ==> s == [MINUS] + Numeral(-value, 10)
  {
    var magnitude := if value < 0 then -value else value;
    DecimalFits(magnitude);
    NumeralIsText(magnitude, 10);
    if value < 0 {
      convBuf[0] := MINUS;
      Itoa(magnitude, convBuf, 1, 10);
      assert convBuf[0..1 + |Numeral(magnitude, 10)|] == [MINUS] + Numeral(magnitude, 10);
      IsTextAt(convBuf[..], 0, [MINUS] + Numeral(magnitude, 10));
    } else {
      Itoa(magnitude, convBuf, 0, 10);
      IsTextAt(convBuf[..], 0, Numeral(magnitude, 10));
    }
    s := StringAt(convBuf, 0);
  }

  /** The decimal numeral of an unsigned word fits 32 characters. */
  lemma DecimalFits(v: nat)
    requires v < UINT_LIMIT
    ensures 1 <= |Numeral(v, 10)| <= 32
  {
    Powers();
    AtMostBits(v, 10, 32);
  }

  lemma NumeralIsText(v: nat, radix: nat)
    requires ValidRadix(radix)
    ensures NUL !in Numeral(v, radix)
  {
    NumeralRoundTrip(v, radix);
  }
}
