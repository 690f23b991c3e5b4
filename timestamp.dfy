/**
 * `format_timestring`: `datetime.strptime(dt, "%Y-%m-%dT%H:%M:%S.000Z")`
 * followed by `.strftime("%d-%b-%Y %H:%M:%S")`, under Python 2.7 and the
 * C locale. A raised `ValueError` is `None`.
 */
module Timestamp {
  import opened Wrappers
  import opened Decimal

  datatype DateTime = DateTime(year: nat, month: nat, day: nat, hour: nat, minute: nat, second: nat)

  /** `%b` in the C locale. */
  const MonthAbbrevs: seq<string> :=
    ["Jan", "Feb", "Mar", "Apr", "May", "Jun", "Jul", "Aug", "Sep", "Oct", "Nov", "Dec"]

  predicate IsLeapYear(y: nat) {
    y % 4 == 0 && (y % 100 != 0 || y % 400 == 0)
  }

  function DaysInMonth(y: nat, m: nat): nat
    requires 1 <= m <= 12
  {
    if m == 2 then (if IsLeapYear(y) then 29 else 28)
    else if m == 4 || m == 6 || m == 9 || m == 11 then 30
    else 31
  }

  /** What `datetime(...)` accepts: years 1..9999, a real day of the month, and
      hours, minutes and seconds in range (a leap second 60 is refused). */
  predicate ValidDateTime(t: DateTime) {
    && 1 <= t.year <= 9999
    && 1 <= t.month <= 12
    && 1 <= t.day <= DaysInMonth(t.year, t.month)
    && t.hour < 24 && t.minute < 60 && t.second < 60
  }

  /** The input layout with every field at its full width. The pattern is matched
      case-insensitively, so the literal letters may also be lower case. */
  predicate MatchesLayout(s: string) {
    && |s| == 24
    && AllDigits(s[0..4]) && s[4] == '-'
    && AllDigits(s[5..7]) && s[7] == '-'
    && AllDigits(s[8..10]) && (s[10] == 'T' || s[10] == 't')
    && AllDigits(s[11..13]) && s[13] == ':'
    && AllDigits(s[14..16]) && s[16] == ':'
    && AllDigits(s[17..19]) && s[19..23] == ".000"
    && (s[23] == 'Z' || s[23] == 'z')
  }

  function FieldsOf(s: string): DateTime
    requires MatchesLayout(s)
  {
    DateTime(DecimalValue(s[0..4]), DecimalValue(s[5..7]), DecimalValue(s[8..10]),
             DecimalValue(s[11..13]), DecimalValue(s[14..16]), DecimalValue(s[17..19]))
  }

  /** `datetime.strptime(s, "%Y-%m-%dT%H:%M:%S.000Z")`. */
  function Parse(s: string): (r: Option<DateTime>)
    ensures r.Some? ==> ValidDateTime(r.value)
  {
    if MatchesLayout(s) && ValidDateTime(FieldsOf(s)) then Some(FieldsOf(s)) else None
  }

  /** `%H:%M:%S`, the clock part of both the input and the output layout. */
  function ClockString(t: DateTime): string {
    ZeroPadded(t.hour, 2) + ":" + ZeroPadded(t.minute, 2) + ":" + ZeroPadded(t.second, 2)
  }

  /** `%d-%b-%Y`, the date part of the output layout. */
  function DisplayDate(t: DateTime): string
    requires 1 <= t.month <= 12
  {
    ZeroPadded(t.day, 2) + "-" + MonthAbbrevs[t.month - 1] + "-" + ZeroPadded(t.year, 4)
  }

  /** `t.strftime("%d-%b-%Y %H:%M:%S")`. */
  function Display(t: DateTime): string
    requires ValidDateTime(t)
  {
    DisplayDate(t) + " " + ClockString(t)
  }

  /** `%Y-%m-%d`, the date part of the input layout. */
  function IsoDate(t: DateTime): string {
    ZeroPadded(t.year, 4) + "-" + ZeroPadded(t.month, 2) + "-" + ZeroPadded(t.day, 2)
  }

  /** The canonical input form of `t`, as the storage listing writes it. */
  function IsoString(t: DateTime): string {
    IsoDate(t) + "T" + ClockString(t) + ".000Z"
  }

  /** `format_timestring(s)`. Python 2.7's `strftime` refuses years before 1900. */
  function FormatTimestring(s: string): Option<string> {
    match Parse(s)
    case None => None
    case Some(t) => if t.year < 1900 then None else Some(Display(t))
  }

  /** Every field of `t` fits the width the input layout gives it. */
  predicate FitsLayout(t: DateTime) {
    t.year < 10000 && t.month < 100 && t.day < 100 && t.hour < 100 && t.minute < 100 && t.second < 100
  }

  /** Where the parts of `a + [x] + b + [y] + c` lie. */
  lemma Fields5(a: string, x: char, b: string, y: char, c: string)
    ensures var s := a + [x] + b + [y] + c;
      var i, j := |a|, |a| + 1 + |b|;
      && |s| == j + 1 + |c|
      && s[0..i] == a && s[i] == x && s[i + 1..j] == b && s[j] == y && s[j + 1..|s|] == c
  {
    var s := a + [x] + b + [y] + c;
    var i, j := |a|, |a| + 1 + |b|;
    assert forall k :: 0 <= k < i ==> s[k] == a[k];
    assert forall k :: i + 1 <= k < j ==> s[k] == b[k - i - 1];
    assert forall k :: j + 1 <= k < |s| ==> s[k] == c[k - j - 1];
  }

  /** Where the parts of `a + [x] + b + c` lie. */
  lemma Fields4(a: string, x: char, b: string, c: string)
    ensures var s := a + [x] + b + c;
      var i, j := |a|, |a| + 1 + |b|;
      && |s| == j + |c|
      && s[0..i] == a && s[i] == x && s[i + 1..j] == b && s[j..|s|] == c
  {
    var s := a + [x] + b + c;
    var i, j := |a|, |a| + 1 + |b|;
    assert forall k :: 0 <= k < i ==> s[k] == a[k];
    assert forall k :: i + 1 <= k < j ==> s[k] == b[k - i - 1];
    assert forall k :: j <= k < |s| ==> s[k] == c[k - j];
  }

  lemma IsoDatePieces(t: DateTime)
    ensures var d := IsoDate(t);
      && |d| == 10 && d[4] == '-' && d[7] == '-'
      && d[0..4] == ZeroPadded(t.year, 4) && d[5..7] == ZeroPadded(t.month, 2)
      && d[8..10] == ZeroPadded(t.day, 2)
  {
    Fields5(ZeroPadded(t.year, 4), '-', ZeroPadded(t.month, 2), '-', ZeroPadded(t.day, 2));
  }

  lemma ClockPieces(t: DateTime)
    ensures var c := ClockString(t);
      && |c| == 8 && c[2] == ':' && c[5] == ':'
      && c[0..2] == ZeroPadded(t.hour, 2) && c[3..5] == ZeroPadded(t.minute, 2)
      && c[6..8] == ZeroPadded(t.second, 2)
  {
    Fields5(ZeroPadded(t.hour, 2), ':', ZeroPadded(t.minute, 2), ':', ZeroPadded(t.second, 2));
  }

  lemma IsoStringPieces(t: DateTime)
    ensures var s := IsoString(t);
      && |s| == 24 && s[0..10] == IsoDate(t) && s[10] == 'T'
      && s[11..19] == ClockString(t) && s[19..24] == ".000Z"
  {
    IsoDatePieces(t);
    ClockPieces(t);
    Fields4(IsoDate(t), 'T', ClockString(t), ".000Z");
  }

  lemma SliceOfSlice(s: string, i: nat, j: nat, k: nat, l: nat)
    requires i <= j <= |s| && k <= l <= j - i
    ensures s[i..j][k..l] == s[i + k..i + l]
  {
    assert forall m :: 0 <= m < l - k ==> s[i..j][k..l][m] == s[i + k + m];
  }

  /** Each field of `IsoString(t)` holds the zero-padded number it prints. */
  lemma IsoStringFields(t: DateTime)
    ensures var s := IsoString(t);
      && |s| == 24
      && s[0..4] == ZeroPadded(t.year, 4) && s[4] == '-'
      && s[5..7] == ZeroPadded(t.month, 2) && s[7] == '-'
      && s[8..10] == ZeroPadded(t.day, 2) && s[10] == 'T'
      && s[11..13] == ZeroPadded(t.hour, 2) && s[13] == ':'
      && s[14..16] == ZeroPadded(t.minute, 2) && s[16] == ':'
      && s[17..19] == ZeroPadded(t.second, 2)
      && s[19..23] == ".000" && s[23] == 'Z'
  {
    var s := IsoString(t);
    IsoStringPieces(t);
    IsoDatePieces(t);
    ClockPieces(t);
    SliceOfSlice(s, 0, 10, 0, 4);
    SliceOfSlice(s, 0, 10, 5, 7);
    SliceOfSlice(s, 0, 10, 8, 10);
    SliceOfSlice(s, 11, 19, 0, 2);
    SliceOfSlice(s, 11, 19, 3, 5);
    SliceOfSlice(s, 11, 19, 6, 8);
    SliceOfSlice(s, 19, 24, 0, 4);
    assert s[4] == s[0..10][4] && s[7] == s[0..10][7];
    assert s[13] == s[11..19][2] && s[16] == s[11..19][5];
    assert s[23] == s[19..24][4];
  }

  /** A date and time printed in the input layout parses back to itself when it is
      valid, and is refused when it is not. */
  lemma ParseIsoString(t: DateTime)
    requires FitsLayout(t)
    ensures Parse(IsoString(t)) == if ValidDateTime(t) then Some(t) else None
  {
    var s := IsoString(t);
    IsoStringFields(t);
    assert Pow10(2) == 100 && Pow10(4) == 10000;
    ZeroPaddedRoundTrip(t.year, 4);
    ZeroPaddedRoundTrip(t.month, 2);
    ZeroPaddedRoundTrip(t.day, 2);
    ZeroPaddedRoundTrip(t.hour, 2);
    ZeroPaddedRoundTrip(t.minute, 2);
    ZeroPaddedRoundTrip(t.second, 2);
    assert MatchesLayout(s);
    assert FieldsOf(s) == t;
  }

  /** The input with both layout letters in upper case: the form `IsoString` prints. */
  function Canonical(s: string): string
    requires |s| == 24
  {
    s[..10] + "T" + s[11..23] + "Z"
  }

  /** `Canonical` keeps every field and separator of the input in place. */
  lemma CanonicalSlices(s: string)
    requires |s| == 24
    ensures var c := Canonical(s);
      && |c| == 24 && c[10] == 'T' && c[23] == 'Z'
      && c[0..4] == s[0..4] && c[4] == s[4] && c[5..7] == s[5..7] && c[7] == s[7]
      && c[8..10] == s[8..10] && c[11..13] == s[11..13] && c[13] == s[13]
      && c[14..16] == s[14..16] && c[16] == s[16] && c[17..19] == s[17..19]
      && c[19..23] == s[19..23]
  {
    var c := Canonical(s);
    Fields4(s[..10], 'T', s[11..23], "Z");
    assert c[0..10] == s[0..10];
    SliceOfSlice(c, 0, 10, 0, 4);
    SliceOfSlice(s, 0, 10, 0, 4);
    SliceOfSlice(c, 0, 10, 5, 7);
    SliceOfSlice(s, 0, 10, 5, 7);
    SliceOfSlice(c, 0, 10, 8, 10);
    SliceOfSlice(s, 0, 10, 8, 10);
    SliceOfSlice(c, 11, 23, 0, 2);
    SliceOfSlice(s, 11, 23, 0, 2);
    SliceOfSlice(c, 11, 23, 3, 5);
    SliceOfSlice(s, 11, 23, 3, 5);
    SliceOfSlice(c, 11, 23, 6, 8);
    SliceOfSlice(s, 11, 23, 6, 8);
    SliceOfSlice(c, 11, 23, 8, 12);
    SliceOfSlice(s, 11, 23, 8, 12);
    assert c[4] == c[0..10][4] && c[7] == c[0..10][7];
    assert c[13] == c[11..23][2] && c[16] == c[11..23][5];
  }

  /** Equal slices agree at every index they cover. */
  lemma SliceAgree(s: string, u: string, a: nat, b: nat)
    requires a <= b <= |s| && b <= |u| && s[a..b] == u[a..b]
    ensures forall i :: a <= i < b ==> s[i] == u[i]
  {
    assert forall i :: a <= i < b ==> s[i] == s[a..b][i - a] && u[i] == u[a..b][i - a];
  }

  /** What `strptime` accepts is the printed form of the date and time it returns, up to
      the case of the two layout letters. */
  lemma ParsedIsCanonical(s: string)
    requires Parse(s).Some?
    ensures Canonical(s) == IsoString(Parse(s).value)
  {
    var t := FieldsOf(s);
    var c, u := Canonical(s), IsoString(t);
    DigitsRoundTrip(s[0..4]);
    DigitsRoundTrip(s[5..7]);
    DigitsRoundTrip(s[8..10]);
    DigitsRoundTrip(s[11..13]);
    DigitsRoundTrip(s[14..16]);
    DigitsRoundTrip(s[17..19]);
    IsoStringFields(t);
    CanonicalSlices(s);
    SliceAgree(c, u, 0, 4);
    SliceAgree(c, u, 5, 7);
    SliceAgree(c, u, 8, 10);
    SliceAgree(c, u, 11, 13);
    SliceAgree(c, u, 14, 16);
    SliceAgree(c, u, 17, 19);
    SliceAgree(c, u, 19, 23);
    assert forall i :: 0 <= i < 24 ==> c[i] == u[i];
  }

  /** An input whose canonical form prints `t` is parsed as `t`, when `t` is valid. */
  lemma CanonicalParses(s: string, t: DateTime)
    requires |s| == 24 && (s[10] == 'T' || s[10] == 't') && (s[23] == 'Z' || s[23] == 'z')
    requires ValidDateTime(t) && Canonical(s) == IsoString(t)
    ensures Parse(s) == Some(t)
  {
    ParseIsoString(t);
    CanonicalSlices(s);
    var u := IsoString(t);
    assert MatchesLayout(u) && FieldsOf(u) == t;
    assert s[0..4] == u[0..4] && s[5..7] == u[5..7] && s[8..10] == u[8..10];
    assert s[11..13] == u[11..13] && s[14..16] == u[14..16] && s[17..19] == u[17..19];
    assert MatchesLayout(s);
  }

  /** `format_timestring` succeeds exactly on the printed form of a valid date and time
      from 1900 on, with either case for the letters `T` and `Z`, and then displays that
      date and time. */
  lemma FormatTimestringSucceeds(s: string)
    ensures FormatTimestring(s).Some? <==>
      && |s| == 24 && (s[10] == 'T' || s[10] == 't') && (s[23] == 'Z' || s[23] == 'z')
      && exists t :: ValidDateTime(t) && t.year >= 1900 && Canonical(s) == IsoString(t)
    ensures FormatTimestring(s).Some? ==>
      FormatTimestring(s) == Some(Display(Parse(s).value))
  {
    if FormatTimestring(s).Some? {
      ParsedIsCanonical(s);
      var t := Parse(s).value;
      assert ValidDateTime(t) && t.year >= 1900 && Canonical(s) == IsoString(t);
    } else if |s| == 24 && (s[10] == 'T' || s[10] == 't') && (s[23] == 'Z' || s[23] == 'z') {
      forall t | ValidDateTime(t) && t.year >= 1900
        ensures Canonical(s) != IsoString(t)
      {
        if Canonical(s) == IsoString(t) {
          CanonicalParses(s, t);
        }
      }
    }
  }

  lemma ClockOfFields(s: string)
    requires MatchesLayout(s)
    ensures ClockString(FieldsOf(s)) == s[11..19]
  {
    DigitsRoundTrip(s[11..13]);
    DigitsRoundTrip(s[14..16]);
    DigitsRoundTrip(s[17..19]);
    ClockSlices(s);
  }

  lemma ClockSlices(s: string)
    requires |s| >= 19 && s[13] == ':' && s[16] == ':'
    ensures s[11..13] + ":" + s[14..16] + ":" + s[17..19] == s[11..19]
  {
    SliceSplit(s, 11, 13, 19);
    SliceSplit(s, 13, 14, 19);
    SliceSplit(s, 14, 16, 19);
    SliceSplit(s, 16, 17, 19);
    assert s[13..14] == ":" && s[16..17] == ":";
  }

  lemma SliceSplit(s: string, i: nat, j: nat, k: nat)
    requires i <= j <= k <= |s|
    ensures s[i..k] == s[i..j] + s[j..k]
  {
  }

  lemma DateOfFields(s: string)
    requires MatchesLayout(s) && 1 <= FieldsOf(s).month <= 12
    ensures DisplayDate(FieldsOf(s)) == s[8..10] + "-" + MonthAbbrevs[FieldsOf(s).month - 1] + "-" + s[0..4]
  {
    DigitsRoundTrip(s[8..10]);
    DigitsRoundTrip(s[0..4]);
  }

  /** On success `format_timestring` copies day, year and time field for field from the
      input, with the month as its English abbreviation. */
  lemma FormatTimestringFields(s: string)
    requires FormatTimestring(s).Some?
    ensures FormatTimestring(s).value
      == s[8..10] + "-" + MonthAbbrevs[FieldsOf(s).month - 1] + "-" + s[0..4] + " " + s[11..19]
  {
    ClockOfFields(s);
    DateOfFields(s);
  }

  lemma PaddedExamples()
    ensures ZeroPadded(1, 2) == "01" && ZeroPadded(2, 2) == "02" && ZeroPadded(3, 2) == "03"
    ensures ZeroPadded(4, 2) == "04" && ZeroPadded(5, 2) == "05" && ZeroPadded(2020, 4) == "2020"
  {
  }

  lemma ExampleClock(t: DateTime)
    requires t.hour == 3 && t.minute == 4 && t.second == 5
    ensures ClockString(t) == "03:04:05"
  {
    PaddedExamples();
  }

  lemma ExampleIsoDate(t: DateTime)
    requires t.year == 2020 && t.month == 1 && t.day == 2
    ensures IsoDate(t) == "2020-01-02"
  {
    PaddedExamples();
  }

  lemma ExampleDisplayDate(t: DateTime)
    requires t.year == 2020 && t.month == 1 && t.day == 2
    ensures DisplayDate(t) == "02-Jan-2020"
  {
    PaddedExamples();
    assert MonthAbbrevs[0] == "Jan";
  }

  lemma ExampleIsoPieces(s: string)
    requires s == "2020-01-02T03:04:05.000Z"
    ensures s[..10] == "2020-01-02" && s[10..11] == "T" && s[11..19] == "03:04:05" && s[19..] == ".000Z"
  {
  }

  lemma ExampleIso(s: string, t: DateTime)
    requires s == "2020-01-02T03:04:05.000Z" && t == DateTime(2020, 1, 2, 3, 4, 5)
    ensures IsoString(t) == s
  {
    ExampleClock(t);
    ExampleIsoDate(t);
    ExampleIsoPieces(s);
    assert s == s[..10] + s[10..11] + s[11..19] + s[19..];
  }

  lemma ExampleDisplay(t: DateTime)
    requires t == DateTime(2020, 1, 2, 3, 4, 5)
    ensures ValidDateTime(t) && Display(t) == "02-Jan-2020 03:04:05"
  {
    ExampleClock(t);
    ExampleDisplayDate(t);
  }

  /** `2020-01-02T03:04:05.000Z` becomes `02-Jan-2020 03:04:05`. */
  lemma FormatTimestringExample(s: string)
    requires s == "2020-01-02T03:04:05.000Z"
    ensures FormatTimestring(s) == Some("02-Jan-2020 03:04:05")
  {
    var t := DateTime(2020, 1, 2, 3, 4, 5);
    ExampleIso(s, t);
    ParseIsoString(t);
    ExampleDisplay(t);
  }

  /** A date and time printed in the input layout is displayed exactly when it is a
      real date and time from 1900 on. */
  lemma FormatTimestringIso(t: DateTime)
    requires FitsLayout(t)
    ensures FormatTimestring(IsoString(t))
         == if ValidDateTime(t) && t.year >= 1900 then Some(Display(t)) else None
  {
    ParseIsoString(t);
  }

  /** The Gregorian rule: every fourth year, but not centuries unless divisible by 400. */
  lemma LeapYearExamples()
    ensures IsLeapYear(2020) && IsLeapYear(2000)
    ensures !IsLeapYear(2019) && !IsLeapYear(1900)
  {
  }

  /** 29 February of a leap year from 1900 on is displayed. */
  lemma FormatTimestringLeapDay(t: DateTime)
    requires FitsLayout(t) && t.year >= 1900
    requires t.month == 2 && t.day == 29 && IsLeapYear(t.year)
    requires t.hour < 24 && t.minute < 60 && t.second < 60
    ensures FormatTimestring(IsoString(t)).Some?
  {
    FormatTimestringIso(t);
  }

  /** Refused: 29 February outside leap years, the 31st of a 30-day month, day or month
      zero, a month past 12, hour 24 or more, a leap second, and any year before 1900. */
  lemma FormatTimestringRejects(t: DateTime)
    requires FitsLayout(t)
    requires || (t.month == 2 && t.day == 29 && !IsLeapYear(t.year))
             || ((t.month == 4 || t.month == 6 || t.month == 9 || t.month == 11) && t.day == 31)
             || t.day == 0 || t.month == 0 || t.month > 12
             || t.hour >= 24 || t.minute >= 60 || t.second >= 60
             || t.year < 1900
    ensures FormatTimestring(IsoString(t)).None?
  {
    FormatTimestringIso(t);
  }
}
