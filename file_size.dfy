/**
 * `format_fsize`: a byte count as a five-character field, a three-character
 * number, a blank and a unit letter. Sizes are Python 2 integers, so each
 * scaling step is a floor division by 1024.
 */
module FileSize {
  import opened Wrappers
  import opened Decimal

  /** The unit letters, indexed by the number of divisions by 1024. */
  const Units: string := "BKMGTPE"

  /** The loop stops after `len(prefixes) - 1` divisions. */
  const MaxDivisions: nat := |Units| - 1

  /** The number of bytes in one unit `k`: 1024 to the power `k`. */
  function UnitBytes(k: nat): (p: nat)
    ensures p >= 1
  {
    if k == 0 then 1 else 1024 * UnitBytes(k - 1)
  }

  lemma MulMonotone(p: int, a: int, b: int)
    requires p > 0 && a <= b
    ensures p * a <= p * b
  {
    assert p * b - p * a == p * (b - a);
    assert p * (b - a) >= 0;
  }

  lemma DivisionUnique(n: int, d: int, q: int, r: int)
    requires d > 0 && n == d * q + r && 0 <= r < d
    ensures n / d == q
  {
    var q', r' := n / d, n % d;
    assert n == d * q' + r' && 0 <= r' < d;
    assert d * (q - q') == r' - r by {
      assert d * q - d * q' == r' - r;
    }
    if q - q' >= 1 {
      MulMonotone(d, 1, q - q');
      assert false;
    } else if q' - q >= 1 {
      MulMonotone(d, 1, q' - q);
      assert false;
    }
  }

  lemma DivDiv(n: int, p: int, c: int)
    requires n >= 0 && p > 0 && c > 0
    ensures n / p / c == n / (p * c)
  {
    var q, r := n / p, n % p;
    var q2, r2 := q / c, q % c;
    assert n == p * q + r;
    assert q == c * q2 + r2;
    assert p * q == (p * c) * q2 + p * r2 by {
      assert p * (c * q2 + r2) == p * (c * q2) + p * r2;
      assert p * (c * q2) == (p * c) * q2;
    }
    MulMonotone(p, r2, c - 1);
    assert p * (c - 1) + p == p * c;
    DivisionUnique(n, p * c, q2, p * r2 + r);
  }

  /** Dividing the value of unit `k` by 1024 once more gives the value of unit `k + 1`. */
  lemma DivideAgain(n: nat, k: nat)
    ensures n / UnitBytes(k) / 1024 == n / UnitBytes(k + 1)
  {
    DivDiv(n, UnitBytes(k), 1024);
  }

  /** A larger unit never gives a larger value. */
  lemma {:induction false} DivByLargerUnit(n: nat, k: nat, m: nat)
    requires k <= m
    ensures n / UnitBytes(m) <= n / UnitBytes(k)
    decreases m - k
  {
    if k < m {
      DivByLargerUnit(n, k, m - 1);
      DivideAgain(n, m - 1);
    }
  }

  lemma DivAtLeast(n: nat, p: nat, m: nat)
    requires p > 0
    ensures n / p >= m <==> n >= m * p
  {
    var q, r := n / p, n % p;
    assert n == p * q + r;
    if q >= m {
      MulMonotone(p, m, q);
    } else {
      MulMonotone(p, q + 1, m);
      assert p * (q + 1) == p * q + p;
    }
  }

  lemma DivMonotone(n: nat, m: nat, p: nat)
    requires n <= m && p > 0
    ensures n / p <= m / p
  {
    DivAtLeast(n, p, n / p);
    DivAtLeast(m, p, n / p);
    assert n / p * p <= n by {
      assert n == p * (n / p) + n % p;
    }
  }

  /** The least integer `round` cannot take: 2^1024 - 2^970, the top 54 of 1024 bits set.
      Python 2.7's `round` first converts its argument to a double, rounding to nearest
      with ties to even; from this value on that gives 2^1024, past the largest double
      (2^1024 - 2^971), and `OverflowError` is raised. Below it the converted value may
      differ from the integer (from 2^53 on), but then both have more than three digits,
      so the loop's test is decided by the integer alone. */
  const FloatOverflow: nat :=
    0xFFFFFFFFFFFFFC00_0000000000000000_0000000000000000_0000000000000000_0000000000000000_0000000000000000_0000000000000000_0000000000000000_0000000000000000_0000000000000000_0000000000000000_0000000000000000_0000000000000000_0000000000000000_0000000000000000_0000000000000000

  /** Every size that makes `round` raise is already past the six-division cap. */
  lemma FloatOverflowPastLastUnit()
    ensures 1000 * UnitBytes(MaxDivisions) < FloatOverflow
  {
    assert MaxDivisions == 6;
    assert UnitBytes(6) == 0x1000_0000_0000_0000;
  }

  /** The unit chosen for `n`: the smallest `k` at which `n / 1024^k` has at most
      three digits, and the last unit when even that many divisions do not suffice
      (`SizeUnitSpec`). */
  function SizeUnit(n: nat): (k: nat)
    ensures k <= MaxDivisions
  {
    UnitFrom(n, 0)
  }

  function UnitFrom(n: nat, k: nat): (u: nat)
    requires k <= MaxDivisions
    ensures k <= u <= MaxDivisions
    decreases MaxDivisions - k
  {
    if k == MaxDivisions || n / UnitBytes(k) < 1000 then k else UnitFrom(n, k + 1)
  }

  lemma {:induction false} UnitFromSpec(n: nat, k: nat)
    requires k <= MaxDivisions
    requires forall j :: 0 <= j < k ==> n / UnitBytes(j) >= 1000
    ensures var u := UnitFrom(n, k);
      && (forall j :: 0 <= j < u ==> n / UnitBytes(j) >= 1000)
      && (u < MaxDivisions ==> n / UnitBytes(u) < 1000)
    decreases MaxDivisions - k
  {
    if !(k == MaxDivisions || n / UnitBytes(k) < 1000) {
      UnitFromSpec(n, k + 1);
    }
  }

  /** Every unit below the chosen one still leaves four or more digits, and the chosen
      one leaves at most three unless it is the last. */
  lemma SizeUnitSpec(n: nat)
    ensures var k := SizeUnit(n);
      && (forall j :: 0 <= j < k ==> n / UnitBytes(j) >= 1000)
      && (k < MaxDivisions ==> n / UnitBytes(k) < 1000)
  {
    UnitFromSpec(n, 0);
  }

  /** The three properties of `SizeUnit` determine it. */
  lemma SizeUnitUnique(n: nat, k: nat)
    requires k <= MaxDivisions
    requires forall j :: 0 <= j < k ==> n / UnitBytes(j) >= 1000
    requires k < MaxDivisions ==> n / UnitBytes(k) < 1000
    ensures SizeUnit(n) == k
  {
    var u := SizeUnit(n);
    SizeUnitSpec(n);
    if u < k {
      assert false;
    } else if k < u {
      assert false;
    }
  }

  /** The number field and unit letter, by the digit count of the scaled value:
      `{:03.0f}` for three digits, `{: 3.0f}` (a blank for the sign) for two,
      `{:03.1f}` for one; with more digits no branch applies and the result is `None`. */
  function RenderSize(v: nat, unit: nat): Option<string>
    requires unit < |Units|
  {
    var digits := DecimalString(v);
    if |digits| == 3 then Some(digits + " " + [Units[unit]])
    else if |digits| == 2 then Some(" " + digits + " " + [Units[unit]])
    else if |digits| == 1 then Some(digits + ".0 " + [Units[unit]])
    else None
  }

  /** What `format_fsize(n)` returns. */
  function FormatSize(n: nat): Option<string> {
    var k := SizeUnit(n);
    RenderSize(n / UnitBytes(k), k)
  }

  /** `format_fsize` as written: divide while the value has more than three digits,
      at most `MaxDivisions` times, then pick the output branch by digit count.
      `overflow` reports the `OverflowError` that `round` raises in the loop's test. */
  method FormatFsize(size: nat) returns (r: Option<string>, overflow: bool)
    ensures overflow <==> size >= FloatOverflow
    ensures r == if overflow then None else FormatSize(size)
  {
    var fsize := size;
    var incr := 0;
    overflow := false;
    while true
      invariant incr < MaxDivisions
      invariant fsize == size / UnitBytes(incr) && fsize <= size
      invariant forall j :: 0 <= j < incr ==> size / UnitBytes(j) >= 1000
      invariant incr > 0 ==> size < FloatOverflow
      decreases MaxDivisions - incr
    {
      if fsize >= FloatOverflow {
        overflow := true;
        r := None;
        return;
      }
      if |DecimalString(fsize)| <= 3 {
        break;
      }
      DecimalLength(fsize);
      DivideAgain(size, incr);
      fsize := fsize / 1024;
      incr := incr + 1;
      if incr >= |Units| - 1 {
        break;
      }
    }
    DecimalLength(fsize);
    SizeUnitUnique(size, incr);
    var digits := DecimalString(fsize);
    if |digits| == 3 {
      r := Some(digits + " " + [Units[incr]]);
    } else if |digits| == 2 {
      r := Some(" " + digits + " " + [Units[incr]]);
    } else if |digits| == 1 {
      r := Some(digits + ".0 " + [Units[incr]]);
    } else {
      r := None;
    }
  }

  /** The output layout for one scaled value and unit. */
  lemma RenderSizeShape(v: nat, unit: nat)
    requires unit < |Units| && RenderSize(v, unit).Some?
    ensures var s := RenderSize(v, unit).value;
      && |s| == 5 && s[3] == ' ' && s[4] == Units[unit]
      && (100 <= v ==> s[..3] == DecimalString(v))
      && (10 <= v < 100 ==> s[0] == ' ' && s[1..3] == DecimalString(v))
      && (v < 10 ==> s[..1] == DecimalString(v) && s[1..3] == ".0")
  {
    DecimalLength(v);
    var d, s := DecimalString(v), RenderSize(v, unit).value;
    if |d| == 3 {
      assert s == d + " " + [Units[unit]];
      assert s[..3] == d;
    } else if |d| == 2 {
      assert s == " " + d + " " + [Units[unit]];
      assert s[1..3] == d;
    } else {
      assert s == d + ".0 " + [Units[unit]];
      assert s[..1] == d && s[1..3] == ".0";
    }
  }

  /** Every returned string has five characters: a number field of three, a blank and
      the unit letter. A value of 100..999 is printed as it is, 10..99 after one blank,
      and 0..9 followed by ".0". */
  lemma FormatSizeShape(n: nat)
    requires FormatSize(n).Some?
    ensures var s, k := FormatSize(n).value, SizeUnit(n);
      var v := n / UnitBytes(k);
      && |s| == 5 && s[3] == ' ' && s[4] == Units[k]
      && (100 <= v ==> s[..3] == DecimalString(v))
      && (10 <= v < 100 ==> s[0] == ' ' && s[1..3] == DecimalString(v))
      && (v < 10 ==> s[..1] == DecimalString(v) && s[1..3] == ".0")
  {
    RenderSizeShape(n / UnitBytes(SizeUnit(n)), SizeUnit(n));
  }

  /** The number field reads back, through `int`, as the scaled value. */
  lemma FormatSizeValue(n: nat)
    requires FormatSize(n).Some?
    ensures var s, v := FormatSize(n).value, n / UnitBytes(SizeUnit(n));
      var field := if v < 10 then s[..1] else if v < 100 then s[1..3] else s[..3];
      AllDigits(field) && DecimalValue(field) == v
  {
    FormatSizeShape(n);
    DecimalRoundTrip(n / UnitBytes(SizeUnit(n)));
  }

  /** `format_fsize` returns `None` exactly when six divisions by 1024 still leave more
      than three digits, that is, from 1000 * 1024^6 bytes on. */
  lemma FormatSizeNone(n: nat)
    ensures FormatSize(n).None? <==> n / UnitBytes(MaxDivisions) >= 1000
    ensures FormatSize(n).None? <==> n >= 1000 * UnitBytes(MaxDivisions)
  {
    var k := SizeUnit(n);
    var v := n / UnitBytes(k);
    SizeUnitSpec(n);
    DecimalLength(v);
    DivAtLeast(n, UnitBytes(MaxDivisions), 1000);
    if k < MaxDivisions {
      DivByLargerUnit(n, k, MaxDivisions);
    }
    assert FormatSize(n) == RenderSize(v, k);
  }

  /** `round` raises only for sizes where the branches would have fallen through anyway. */
  lemma OverflowOnlyPastFallThrough(n: nat)
    requires n >= FloatOverflow
    ensures FormatSize(n).None?
  {
    FloatOverflowPastLastUnit();
    FormatSizeNone(n);
  }

  /** Below 1000 bytes there is no division and the unit is `B`. */
  lemma SmallSizesInBytes(n: nat)
    requires n < 1000
    ensures SizeUnit(n) == 0
    ensures FormatSize(n).Some? && FormatSize(n).value[4] == 'B'
  {
    SizeUnitUnique(n, 0);
    assert n / UnitBytes(0) == n;
    DecimalLength(n);
    FormatSizeShape(n);
  }

  /** A larger size never gets a smaller unit. */
  lemma SizeUnitMonotone(n: nat, m: nat)
    requires n <= m
    ensures SizeUnit(n) <= SizeUnit(m)
  {
    var k := SizeUnit(m);
    if k < MaxDivisions {
      DivMonotone(n, m, UnitBytes(k));
      assert n / UnitBytes(k) < 1000;
    }
  }

  /** Sizes below 1000 bytes: no division, unit `B`. */
  lemma FormatSizeBytesExamples()
    ensures FormatSize(0) == Some("0.0 B")
    ensures FormatSize(999) == Some("999 B")
  {
    SizeUnitUnique(0, 0);
    SizeUnitUnique(999, 0);
    assert Units[0] == 'B';
    assert DecimalString(0) == "0";
    assert DecimalString(0) + ".0 " + [Units[0]] == "0.0 B";
    assert DecimalString(999) == "999";
    assert DecimalString(999) + " " + [Units[0]] == "999 B";
  }

  /** One division: 1024 bytes is one K, and the floor division turns 1000..1023 bytes into 0 K. */
  lemma FormatSizeKiloExamples()
    ensures FormatSize(1000) == Some("0.0 K")
    ensures FormatSize(1024) == Some("1.0 K")
    ensures FormatSize(43008) == Some(" 42 K")
  {
    assert UnitBytes(1) == 1024;
    SizeUnitUnique(1000, 1);
    SizeUnitUnique(1024, 1);
    SizeUnitUnique(43008, 1);
    assert Units[1] == 'K';
    assert DecimalString(0) == "0";
    assert DecimalString(0) + ".0 " + [Units[1]] == "0.0 K";
    assert DecimalString(1) == "1";
    assert DecimalString(1) + ".0 " + [Units[1]] == "1.0 K";
    assert DecimalString(42) == "42";
    assert " " + DecimalString(42) + " " + [Units[1]] == " 42 K";
  }

  /** Two divisions: 1048576 bytes is one M. */
  lemma FormatSizeMegaExample()
    ensures FormatSize(1048576) == Some("1.0 M")
  {
    assert UnitBytes(1) == 1024;
    assert UnitBytes(2) == 1048576;
    SizeUnitUnique(1048576, 2);
    assert Units[2] == 'M';
    assert DecimalString(1) == "1";
    assert DecimalString(1) + ".0 " + [Units[2]] == "1.0 M";
  }
}
