/**
 * Decimal digit strings: Python's `str(n)` for a non-negative integer,
 * `int(s)` for a string of digits, and the fixed-width zero-padded
 * fields that `strftime` prints (`%d`, `%H`, `%Y`, ...).
 */
module Decimal {

  predicate IsDigit(c: char) {
    '0' <= c <= '9'
  }

  predicate AllDigits(s: string) {
    forall i :: 0 <= i < |s| ==> IsDigit(s[i])
  }

  function DigitChar(d: nat): (c: char)
    requires d < 10
    ensures IsDigit(c)
  {
    ('0' as int + d) as char
  }

  function DigitValue(c: char): (d: nat)
    requires IsDigit(c)
    ensures d < 10
  {
    c as int - '0' as int
  }

  function Pow10(k: nat): (p: nat)
    ensures p >= 1
  {
    if k == 0 then 1 else 10 * Pow10(k - 1)
  }

  /** `str(n)`: the decimal digits of `n`, most significant first, with no leading zero. */
  function DecimalString(n: nat): (s: string)
    ensures 1 <= |s| && AllDigits(s)
    ensures |s| > 1 ==> s[0] != '0'
    decreases n
  {
    if n < 10 then [DigitChar(n)] else DecimalString(n / 10) + [DigitChar(n % 10)]
  }

  /** `int(s)` for a string of decimal digits (the empty string reads as 0). */
  function DecimalValue(s: string): nat
    requires AllDigits(s)
  {
    if s == [] then 0 else 10 * DecimalValue(s[..|s| - 1]) + DigitValue(s[|s| - 1])
  }

  /** The low `width` decimal digits of `n`, zero-padded on the left (`%0<width>d` when `n` fits). */
  function ZeroPadded(n: nat, width: nat): (s: string)
    ensures |s| == width
  {
    if width == 0 then [] else ZeroPadded(n / 10, width - 1) + [DigitChar(n % 10)]
  }

  lemma {:induction false} ZeroPaddedDigits(n: nat, width: nat)
    ensures AllDigits(ZeroPadded(n, width))
  {
    if width > 0 {
      ZeroPaddedDigits(n / 10, width - 1);
    }
  }

  /** Reading back what `str` printed gives the number again. */
  lemma {:induction false} DecimalRoundTrip(n: nat)
    ensures DecimalValue(DecimalString(n)) == n
  {
    var s := DecimalString(n);
    if n >= 10 {
      assert s[..|s| - 1] == DecimalString(n / 10);
      DecimalRoundTrip(n / 10);
    }
  }

  /** The number of characters of `str(n)` tells which power of ten `n` is below. */
  lemma {:induction false} DecimalLength(n: nat)
    ensures |DecimalString(n)| == 1 <==> n < 10
    ensures |DecimalString(n)| == 2 <==> 10 <= n < 100
    ensures |DecimalString(n)| == 3 <==> 100 <= n < 1000
    ensures |DecimalString(n)| > 3 <==> 1000 <= n
  {
    if n >= 10 {
      DecimalLength(n / 10);
    }
  }

  /** A zero-padded field reads back as the number it printed, when the number fits. */
  lemma {:induction false} ZeroPaddedRoundTrip(n: nat, width: nat)
    requires n < Pow10(width)
    ensures AllDigits(ZeroPadded(n, width)) && DecimalValue(ZeroPadded(n, width)) == n
  {
    ZeroPaddedDigits(n, width);
    if width > 0 {
      var s := ZeroPadded(n, width);
      assert s[..|s| - 1] == ZeroPadded(n / 10, width - 1);
      ZeroPaddedRoundTrip(n / 10, width - 1);
    }
  }

  /** Parsing a digit field and printing it again at the same width gives the field back. */
  lemma {:induction false} DigitsRoundTrip(s: string)
    requires AllDigits(s)
    ensures DecimalValue(s) < Pow10(|s|)
    ensures ZeroPadded(DecimalValue(s), |s|) == s
  {
    if s != [] {
      var init := s[..|s| - 1];
      DigitsRoundTrip(init);
      var v := DecimalValue(s);
      assert v / 10 == DecimalValue(init);
      assert v % 10 == DigitValue(s[|s| - 1]);
      assert s == init + [s[|s| - 1]];
    }
  }
}
