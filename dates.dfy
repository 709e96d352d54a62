/** Calendar dates as `java.time.LocalDate` treats them: ISO `yyyy-MM-dd` input, the proleptic
    Gregorian calendar, chronological comparison, and the `MMM d yyyy` / `MMM dd yyyy` display
    patterns (English month abbreviations, year printed as a 4-digit year-of-era). */
module Dates {
  import opened Wrappers
  import opened JavaString

  datatype Date = Date(year: int, month: int, day: int)

  predicate IsLeapYear(y: int) { y % 4 == 0 && (y % 100 != 0 || y % 400 == 0) }

  function DaysInMonth(y: int, m: int): (n: int)
    requires 1 <= m <= 12
    ensures 28 <= n <= 31
    ensures n == 29 <==> m == 2 && IsLeapYear(y)
  {
    if m == 2 then (if IsLeapYear(y) then 29 else 28)
    else if m == 4 || m == 6 || m == 9 || m == 11 then 30
    else 31
  }

  /** A date with a 4-digit year: month 1 to 12, day 1 to the length of that month. */
  predicate ValidDate(d: Date)
  {
    0 <= d.year <= 9999 && 1 <= d.month <= 12 && 1 <= d.day <= DaysInMonth(d.year, d.month)
  }

  // ---------------------------------------------------------------------------------------------
  // ISO text

  /** `LocalDate.parse(s)` with the ISO formatter: exactly `dddd-dd-dd` in ASCII digits, naming a
      real date (no clamping of day 30 in February and the like). */
  function ParseIsoDate(s: string): (r: Option<Date>)
    ensures r.Some? ==> ValidDate(r.value) && |s| == 10 && s[4] == '-' && s[7] == '-'
  {
    if |s| == 10 && s[4] == '-' && s[7] == '-'
       && AllDigits(s[..4]) && AllDigits(s[5..7]) && AllDigits(s[8..])
    then
      var d := Date(DigitsValue(s[..4]), DigitsValue(s[5..7]), DigitsValue(s[8..]));
      if ValidDate(d) then Some(d) else None
    else None
  }

  lemma DigitsValue2(s: string)
    requires |s| == 2 && AllDigits(s)
    ensures DigitsValue(s) == 10 * (s[0] as int - '0' as int) + (s[1] as int - '0' as int)
  {
    var h := s[..1];
    assert h[..0] == [] && h[0] == s[0];
    assert DigitsValue(h) == s[0] as int - '0' as int;
  }

  lemma DigitsValue4(s: string)
    requires |s| == 4 && AllDigits(s)
    ensures DigitsValue(s) == 100 * DigitsValue(s[..2]) + DigitsValue(s[2..])
  {
    assert s[..3][..2] == s[..2];
    DigitsValue2(s[..2]);
    DigitsValue2(s[2..]);
  }

  /** `n` as exactly two digits, with a leading zero. */
  function Pad2(n: nat): (s: string)
    requires n < 100
    ensures |s| == 2 && AllDigits(s) && DigitsValue(s) == n
  {
    var s := [DigitChar(n / 10), DigitChar(n % 10)];
    DigitsValue2(s);
    s
  }

  /** `n` as exactly four digits, with leading zeros. */
  function Pad4(n: nat): (s: string)
    requires n < 10000
    ensures |s| == 4 && AllDigits(s) && DigitsValue(s) == n
  {
    var s := Pad2(n / 100) + Pad2(n % 100);
    assert s[..2] == Pad2(n / 100) && s[2..] == Pad2(n % 100);
    DigitsValue4(s);
    s
  }

  /** Two digits are the two-digit padding of their own value. */
  lemma Pad2OfDigits(s: string)
    requires |s| == 2 && AllDigits(s)
    ensures DigitsValue(s) < 100 && Pad2(DigitsValue(s)) == s
  {
    DigitsValue2(s);
  }

  /** Four digits are the four-digit padding of their own value. */
  lemma Pad4OfDigits(s: string)
    requires |s| == 4 && AllDigits(s)
    ensures DigitsValue(s) < 10000 && Pad4(DigitsValue(s)) == s
  {
    var a, b := s[..2], s[2..];
    DigitsValue4(s);
    Pad2OfDigits(a);
    Pad2OfDigits(b);
    var x, y := DigitsValue(a), DigitsValue(b);
    DivModHundred(x, y);
    assert Pad4(100 * x + y) == Pad2(x) + Pad2(y);
    assert s == a + b;
  }

  /** Splitting 100 * x + y back into x and y. */
  lemma DivModHundred(x: nat, y: nat)
    requires y < 100
    ensures (100 * x + y) / 100 == x && (100 * x + y) % 100 == y
  {
  }

  /** `LocalDate.toString()`: the ISO rendering of a 4-digit-year date. */
  function IsoText(d: Date): (s: string)
    requires ValidDate(d)
    ensures |s| == 10 && s[4] == '-' && s[7] == '-' && IsDigit(s[0]) && IsDigit(s[9])
  {
    Pad4(d.year) + "-" + Pad2(d.month) + "-" + Pad2(d.day)
  }

  /** Parsing the ISO text of a date gives the date back. */
  lemma ParseIsoText(d: Date)
    requires ValidDate(d)
    ensures ParseIsoDate(IsoText(d)) == Some(d)
  {
    var s := IsoText(d);
    assert s[..4] == Pad4(d.year);
    assert s[5..7] == Pad2(d.month);
    assert s[8..] == Pad2(d.day);
  }

  /** Every string that parses is the ISO text of the date it parses to. */
  lemma IsoTextOfParse(s: string)
    requires ParseIsoDate(s).Some?
    ensures IsoText(ParseIsoDate(s).value) == s
  {
    Pad4OfDigits(s[..4]);
    Pad2OfDigits(s[5..7]);
    Pad2OfDigits(s[8..]);
    assert s == s[..4] + [s[4]] + s[5..7] + [s[7]] + s[8..];
  }

  // ---------------------------------------------------------------------------------------------
  // Chronological order

  /** `LocalDate.isBefore`: year, then month, then day. */
  predicate IsBefore(a: Date, b: Date)
  {
    a.year < b.year || (a.year == b.year && (a.month < b.month || (a.month == b.month && a.day < b.day)))
  }

  function DaysInYear(y: int): int { if IsLeapYear(y) then 366 else 365 }

  /** Days from 1 January of year 0 to 1 January of year `y`. */
  function DaysBeforeYear(y: nat): nat
    decreases y
  {
    if y == 0 then 0 else DaysBeforeYear(y - 1) + DaysInYear(y - 1)
  }

  /** Days from 1 January of year `y` to the first of month `m`. */
  function DaysBeforeMonth(y: int, m: int): nat
    requires 1 <= m <= 12
  {
    [0, 31, 59, 90, 120, 151, 181, 212, 243, 273, 304, 334][m - 1]
      + (if m > 2 && IsLeapYear(y) then 1 else 0)
  }

  /** The number of days from 1 January of year 0 to `d`: an independent measure of time. */
  function DayNumber(d: Date): nat
    requires ValidDate(d)
  {
    DaysBeforeYear(d.year) + DaysBeforeMonth(d.year, d.month) + d.day - 1
  }

  lemma MonthFitsInYear(y: int, m: int)
    requires 1 <= m <= 12
    ensures DaysBeforeMonth(y, m) + DaysInMonth(y, m) <= DaysInYear(y)
  {
  }

  lemma MonthsInOrder(y: int, m: int, n: int)
    requires 1 <= m < n <= 12
    ensures DaysBeforeMonth(y, m) + DaysInMonth(y, m) <= DaysBeforeMonth(y, n)
  {
  }

  lemma {:induction false} YearsInOrder(a: nat, b: nat)
    requires a < b
    ensures DaysBeforeYear(a) + DaysInYear(a) <= DaysBeforeYear(b)
    decreases b
  {
    if a < b - 1 {
      YearsInOrder(a, b - 1);
    }
  }

  lemma EarlierDateSmallerNumber(a: Date, b: Date)
    requires ValidDate(a) && ValidDate(b) && IsBefore(a, b)
    ensures DayNumber(a) < DayNumber(b)
  {
    MonthFitsInYear(a.year, a.month);
    if a.year < b.year {
      YearsInOrder(a.year, b.year);
    } else if a.month < b.month {
      MonthsInOrder(a.year, a.month, b.month);
    }
  }

  /** `isBefore` is exactly the order of the day numbers, so it is a strict total order on dates
      and "on or after" is its complement. */
  lemma IsBeforeIffEarlier(a: Date, b: Date)
    requires ValidDate(a) && ValidDate(b)
    ensures IsBefore(a, b) <==> DayNumber(a) < DayNumber(b)
    ensures a == b <==> DayNumber(a) == DayNumber(b)
  {
    if IsBefore(a, b) {
      EarlierDateSmallerNumber(a, b);
    } else if IsBefore(b, a) {
      EarlierDateSmallerNumber(b, a);
    }
  }

  // ---------------------------------------------------------------------------------------------
  // Display

  const MonthNames: seq<string> :=
    ["Jan", "Feb", "Mar", "Apr", "May", "Jun", "Jul", "Aug", "Sep", "Oct", "Nov", "Dec"]

  /** The `MMM` field (English locale). */
  function MonthAbbrev(m: int): (s: string)
    requires 1 <= m <= 12
    ensures |s| == 3 && 'A' <= s[0] <= 'Z'
  {
    MonthNames[m - 1]
  }

  lemma MonthAbbrevInjective(m: int, n: int)
    requires 1 <= m <= 12 && 1 <= n <= 12
    requires MonthAbbrev(m) == MonthAbbrev(n)
    ensures m == n
  {
    assert MonthAbbrev(m)[..3] == MonthAbbrev(n)[..3];
  }

  /** The `yyyy` field prints the year-of-era: year 0 is 1 BCE and prints as 1. */
  function YearOfEra(y: int): (e: nat)
    ensures e >= 1
    ensures y >= 1 ==> e == y
  {
    if y >= 1 then y else 1 - y
  }

  /** The pattern `MMM d yyyy`: the day without padding. */
  function FormatShort(d: Date): (s: string)
    requires ValidDate(d)
    ensures 10 <= |s| <= 11 && s[3] == ' ' && s[|s| - 5] == ' '
    ensures 'A' <= s[0] <= 'Z' && IsDigit(s[|s| - 1])
  {
    NatToStringShort(d.day);
    MonthAbbrev(d.month) + " " + NatToString(d.day) + " " + Pad4(YearOfEra(d.year))
  }

  /** The pattern `MMM dd yyyy`: the day padded to two digits. */
  function FormatPadded(d: Date): (s: string)
    requires ValidDate(d)
    ensures |s| == 11 && s[3] == ' ' && s[6] == ' '
    ensures 'A' <= s[0] <= 'Z' && IsDigit(s[|s| - 1])
  {
    MonthAbbrev(d.month) + " " + Pad2(d.day) + " " + Pad4(YearOfEra(d.year))
  }

  lemma NatToStringShort(n: nat)
    requires 1 <= n <= 31
    ensures |NatToString(n)| == if n < 10 then 1 else 2
  {
  }

  /** Dates of year 1 or later are told apart by their `MMM d yyyy` text. */
  lemma FormatShortInjective(a: Date, b: Date)
    requires ValidDate(a) && ValidDate(b) && a.year >= 1 && b.year >= 1
    requires FormatShort(a) == FormatShort(b)
    ensures a == b
  {
    var s := FormatShort(a);
    var k := |NatToString(a.day)|;
    NatToStringShort(a.day);
    NatToStringShort(b.day);
    assert |NatToString(b.day)| == k;
    assert s[..3] == MonthAbbrev(a.month) == MonthAbbrev(b.month);
    MonthAbbrevInjective(a.month, b.month);
    assert s[4..4 + k] == NatToString(a.day) == NatToString(b.day);
    NatToStringValue(a.day);
    NatToStringValue(b.day);
    assert s[|s| - 4..] == Pad4(YearOfEra(a.year)) == Pad4(YearOfEra(b.year));
  }

  /** Dates of year 1 or later are told apart by their `MMM dd yyyy` text. */
  lemma FormatPaddedInjective(a: Date, b: Date)
    requires ValidDate(a) && ValidDate(b) && a.year >= 1 && b.year >= 1
    requires FormatPadded(a) == FormatPadded(b)
    ensures a == b
  {
    var s := FormatPadded(a);
    assert s[..3] == MonthAbbrev(a.month) == MonthAbbrev(b.month);
    MonthAbbrevInjective(a.month, b.month);
    assert s[4..6] == Pad2(a.day) == Pad2(b.day);
    assert s[7..] == Pad4(YearOfEra(a.year)) == Pad4(YearOfEra(b.year));
  }

  /** The era is not printed: year 0 (1 BCE) and year 1 share their display text. */
  lemma EraIsNotShown()
    ensures ValidDate(Date(0, 1, 1)) && ValidDate(Date(1, 1, 1))
    ensures FormatShort(Date(0, 1, 1)) == FormatShort(Date(1, 1, 1))
  {
  }

  /** A displayed date starts with a letter, so it is never ISO text. */
  lemma DisplayIsNotIso(d: Date)
    requires ValidDate(d)
    ensures ParseIsoDate(FormatShort(d)).None? && ParseIsoDate(FormatPadded(d)).None?
  {
    assert FormatShort(d)[..4][..3] == MonthAbbrev(d.month);
    assert FormatPadded(d)[..4][..3] == MonthAbbrev(d.month);
    assert !IsDigit(MonthAbbrev(d.month)[0]);
  }
}
