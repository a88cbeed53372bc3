/** Decimal digit strings and Go's 64-bit signed integers: the arithmetic that
    strconv.ParseInt, strconv.Atoi, fmt's %d and int64 overflow perform in the codecs. */
module Decimal {

  const MaxInt64: int := 0x7FFF_FFFF_FFFF_FFFF
  const MinInt64: int := -0x8000_0000_0000_0000
  const TwoTo64: int := 0x1_0000_0000_0000_0000

  predicate IsInt64(x: int) { MinInt64 <= x <= MaxInt64 }

  /** Two's-complement wrap-around: the int64 Go holds after an overflowing + or *. */
  function Wrap64(x: int): (r: int)
    ensures IsInt64(r)
    ensures IsInt64(x) ==> r == x
  {
    if IsInt64(x) then x else (x - MinInt64) % TwoTo64 + MinInt64
  }

  /** Wrapping only forgets multiples of 2^64. */
  lemma Wrap64Congruent(x: int)
    ensures (Wrap64(x) - x) % TwoTo64 == 0
  {
    if !IsInt64(x) {
      var q := (x - MinInt64) / TwoTo64;
      assert x - MinInt64 == q * TwoTo64 + (x - MinInt64) % TwoTo64;
      assert Wrap64(x) - x == -q * TwoTo64;
    }
  }

  predicate IsDigit(c: char) { '0' <= c <= '9' }

  predicate AllDigits(s: string) { forall i :: 0 <= i < |s| ==> IsDigit(s[i]) }

  function DigitValue(c: char): (d: nat)
    requires IsDigit(c)
    ensures d < 10
  {
    c as int - '0' as int
  }

  function DigitChar(d: nat): (c: char)
    requires d < 10
    ensures IsDigit(c) && DigitValue(c) == d
  {
    ('0' as int + d) as char
  }

  function Pow10(k: nat): (p: nat)
    ensures p >= 1
  {
    if k == 0 then 1 else 10 * Pow10(k - 1)
  }

  /** The number a string of decimal digits denotes (leading zeros allowed). */
  function ValueOf(s: string): nat
    requires AllDigits(s)
  {
    if |s| == 0 then 0 else ValueOf(s[..|s| - 1]) * 10 + DigitValue(s[|s| - 1])
  }

  /** A digit string of length k denotes a number below 10^k. */
  lemma {:induction false} ValueOfBound(s: string)
    requires AllDigits(s)
    ensures ValueOf(s) < Pow10(|s|)
  {
    if |s| > 0 {
      ValueOfBound(s[..|s| - 1]);
    }
  }

  /** Appending digits shifts the prefix's value left. */
  lemma {:induction false} ValueOfAppend(a: string, b: string)
    requires AllDigits(a) && AllDigits(b)
    ensures AllDigits(a + b)
    ensures ValueOf(a + b) == ValueOf(a) * Pow10(|b|) + ValueOf(b)
  {
    if |b| == 0 {
      assert a + b == a;
    } else {
      var b' := b[..|b| - 1];
      assert (a + b)[..|a + b| - 1] == a + b';
      ValueOfAppend(a, b');
      ShiftDigit(ValueOf(a), Pow10(|b'|), ValueOf(b'), DigitValue(b[|b| - 1]));
    }
  }

  lemma ShiftDigit(x: int, p: int, y: int, d: int)
    ensures (x * p + y) * 10 + d == x * (10 * p) + (y * 10 + d)
  {
  }

  /** fmt's %d of a natural number: the shortest digit string, without leading zeros. */
  function Show(n: nat): (s: string)
    ensures |s| > 0 && AllDigits(s)
    ensures |s| > 1 ==> s[0] != '0'
  {
    if n < 10 then [DigitChar(n)] else Show(n / 10) + [DigitChar(n % 10)]
  }

  /** ValueOf undoes Show. */
  lemma {:induction false} ValueOfShow(n: nat)
    ensures ValueOf(Show(n)) == n
  {
    if n >= 10 {
      ValueOfShow(n / 10);
      var s := Show(n);
      assert s[..|s| - 1] == Show(n / 10);
    }
  }

  /** fmt's %d of an int64: a minus sign before the digits of a negative number. */
  function ShowInt(x: int): (s: string)
    ensures x >= 0 ==> s == Show(x)
    ensures x < 0 ==> s == "-" + Show(-x)
  {
    if x < 0 then "-" + Show(-x) else Show(x)
  }

  /** k zeros. */
  function Zeros(k: nat): (z: string)
    ensures |z| == k && AllDigits(z)
  {
    if k == 0 then "" else Zeros(k - 1) + "0"
  }

  lemma {:induction false} ValueOfZeros(k: nat)
    ensures ValueOf(Zeros(k)) == 0
  {
    if k > 0 {
      var z := Zeros(k);
      assert z[..|z| - 1] == Zeros(k - 1);
      ValueOfZeros(k - 1);
      assert DigitValue(z[|z| - 1]) == 0;
    }
  }

  /** s, left-padded with zeros to at least k characters. */
  function PadLeft(s: string, k: nat): (r: string)
    requires AllDigits(s)
    ensures AllDigits(r) && |r| == if |s| < k then k else |s|
  {
    if |s| < k then Zeros(k - |s|) + s else s
  }

  /** Leading zeros do not change the value. */
  lemma PadLeftValue(s: string, k: nat)
    requires AllDigits(s)
    ensures ValueOf(PadLeft(s, k)) == ValueOf(s)
  {
    if |s| < k {
      var z := Zeros(k - |s|);
      ValueOfAppend(z, s);
      ValueOfZeros(k - |s|);
      assert ValueOf(z + s) == 0 * Pow10(|s|) + ValueOf(s);
    }
  }

  /** strconv.Atoi on a non-empty digit string: the value, clamped to MaxInt64 on
      overflow (Atoi returns the clamped value together with a range error). */
  function AtoiDigits(s: string): (r: int)
    requires AllDigits(s)
    ensures 0 <= r <= MaxInt64
    ensures ValueOf(s) <= MaxInt64 ==> r == ValueOf(s)
  {
    if ValueOf(s) <= MaxInt64 then ValueOf(s) else MaxInt64
  }
}
