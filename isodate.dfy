/**
 * Calendar dates in the ISO form `YYYY-MM-DD`: the date prefix of a scratch
 * file name, how such a prefix is recognised, and how a date-only string is
 * read as an instant (UTC midnight, counted in days since 1970-01-01).
 */
module IsoDate {
  import opened Wrappers

  /** Milliseconds in one day, as the threshold computation writes it. */
  const MsPerDay: int := 86_400_000

  predicate IsDigit(c: char) { '0' <= c <= '9' }

  function DigitValue(c: char): (v: int)
    requires IsDigit(c)
    ensures 0 <= v <= 9
  {
    c as int - '0' as int
  }

  function DigitChar(v: int): (c: char)
    requires 0 <= v <= 9
    ensures IsDigit(c) && DigitValue(c) == v
  {
    (v + '0' as int) as char
  }

  /** A string of the exact form `DDDD-DD-DD`, D a decimal digit. */
  predicate IsDateShape(s: string) {
    |s| == 10 &&
    IsDigit(s[0]) && IsDigit(s[1]) && IsDigit(s[2]) && IsDigit(s[3]) &&
    s[4] == '-' && IsDigit(s[5]) && IsDigit(s[6]) &&
    s[7] == '-' && IsDigit(s[8]) && IsDigit(s[9])
  }

  /** The file detection pattern `^[0-9]{4}-[0-9]{2}-[0-9]{2}_`. */
  predicate MatchesScratchPattern(name: string) {
    |name| >= 11 &&
    IsDigit(name[0]) && IsDigit(name[1]) && IsDigit(name[2]) && IsDigit(name[3]) &&
    name[4] == '-' && IsDigit(name[5]) && IsDigit(name[6]) &&
    name[7] == '-' && IsDigit(name[8]) && IsDigit(name[9]) &&
    name[10] == '_'
  }

  /** The pattern is a date-shaped prefix followed by `_`. */
  lemma PatternIsDatePrefix(name: string)
    ensures MatchesScratchPattern(name) <==> |name| >= 11 && IsDateShape(name[..10]) && name[10] == '_'
  {
  }

  datatype Date = Date(year: int, month: int, day: int)

  predicate IsLeapYear(y: int) {
    y % 4 == 0 && (y % 100 != 0 || y % 400 == 0)
  }

  function DaysInYear(y: int): int {
    if IsLeapYear(y) then 366 else 365
  }

  function DaysInMonth(y: int, m: int): int
    requires 1 <= m <= 12
  {
    if m == 2 then (if IsLeapYear(y) then 29 else 28)
    else if m == 4 || m == 6 || m == 9 || m == 11 then 30
    else 31
  }

  /** A date as `YYYY-MM-DD` can write it that names an existing calendar day. */
  predicate IsValidDate(dt: Date) {
    0 <= dt.year <= 9999 && 1 <= dt.month <= 12 && 1 <= dt.day <= DaysInMonth(dt.year, dt.month)
  }

  /** Days from 0000-01-01 to the first day of year `y` (proleptic Gregorian). */
  function DaysBeforeYear(y: nat): int {
    365 * y + (y + 3) / 4 - (y + 99) / 100 + (y + 399) / 400
  }

  /** Days from the first day of year `y` to the first day of month `m`. */
  function DaysBeforeMonth(y: int, m: int): int
    requires 1 <= m <= 12
  {
    var cumulative := [0, 31, 59, 90, 120, 151, 181, 212, 243, 273, 304, 334];
    cumulative[m - 1] + (if m > 2 && IsLeapYear(y) then 1 else 0)
  }

  /** The day count of 1970-01-01 from 0000-01-01. */
  const EpochDays: int := DaysBeforeYear(1970)

  /** Days since 1970-01-01 of a valid date (negative before it). */
  function DaysFromCivil(dt: Date): int
    requires IsValidDate(dt)
  {
    DaysBeforeYear(dt.year) + DaysBeforeMonth(dt.year, dt.month) + dt.day - 1 - EpochDays
  }

  /** Reads the three numbers of a `DDDD-DD-DD` string. */
  function ParseFields(s: string): (r: Option<Date>)
    ensures r.Some? <==> IsDateShape(s)
    ensures r.Some? ==> 0 <= r.value.year <= 9999 && 0 <= r.value.month <= 99 && 0 <= r.value.day <= 99
  {
    if !IsDateShape(s) then None
    else Some(Date(
      DigitValue(s[0]) * 1000 + DigitValue(s[1]) * 100 + DigitValue(s[2]) * 10 + DigitValue(s[3]),
      DigitValue(s[5]) * 10 + DigitValue(s[6]),
      DigitValue(s[8]) * 10 + DigitValue(s[9])))
  }

  /**
   * `new Date(s)` for a ten-character date-only string: the day number of
   * UTC midnight of that date, or None where the engine yields an invalid
   * date (NaN).
   */
  function ParseIsoDate(s: string): (r: Option<int>)
    ensures r.Some? <==> ParseFields(s).Some? && IsValidDate(ParseFields(s).value)
    ensures r.Some? ==> r.value == DaysFromCivil(ParseFields(s).value)
  {
    match ParseFields(s)
    case None => None
    case Some(dt) => if IsValidDate(dt) then Some(DaysFromCivil(dt)) else None
  }

  /** `n` as two zero-padded decimal digits. */
  function Pad2(n: int): (r: string)
    requires 0 <= n <= 99
    ensures |r| == 2 && IsDigit(r[0]) && IsDigit(r[1])
    ensures DigitValue(r[0]) * 10 + DigitValue(r[1]) == n
  {
    [DigitChar(n / 10), DigitChar(n % 10)]
  }

  /** `n` as four zero-padded decimal digits. */
  function Pad4(n: int): (r: string)
    requires 0 <= n <= 9999
    ensures |r| == 4 && IsDigit(r[0]) && IsDigit(r[1]) && IsDigit(r[2]) && IsDigit(r[3])
    ensures DigitValue(r[0]) * 1000 + DigitValue(r[1]) * 100 + DigitValue(r[2]) * 10 + DigitValue(r[3]) == n
  {
    var hundreds := n % 1000;
    var tens := hundreds % 100;
    [DigitChar(n / 1000), DigitChar(hundreds / 100), DigitChar(tens / 10), DigitChar(tens % 10)]
  }

  /** The first ten characters of `toISOString` for an instant on the day `dt`. */
  function FormatIsoDate(dt: Date): (r: string)
    requires IsValidDate(dt)
    ensures IsDateShape(r)
  {
    Pad4(dt.year) + "-" + Pad2(dt.month) + "-" + Pad2(dt.day)
  }

  /** Reading a formatted date gives back the date it was formatted from. */
  lemma ParseFormatRoundTrip(dt: Date)
    requires IsValidDate(dt)
    ensures ParseFields(FormatIsoDate(dt)) == Some(dt)
    ensures ParseIsoDate(FormatIsoDate(dt)) == Some(DaysFromCivil(dt))
  {
    var s := FormatIsoDate(dt);
    assert s[0..4] == Pad4(dt.year) && s[5..7] == Pad2(dt.month) && s[8..10] == Pad2(dt.day);
  }

  /** Formatting what was read from a well-shaped date string gives that string back. */
  lemma FormatParseRoundTrip(s: string)
    requires ParseIsoDate(s).Some?
    ensures FormatIsoDate(ParseFields(s).value) == s
  {
    var dt := ParseFields(s).value;
    var f := FormatIsoDate(dt);
    assert f[0..4] == Pad4(dt.year) && f[5..7] == Pad2(dt.month) && f[8..10] == Pad2(dt.day);
    ParseFormatRoundTrip(dt);
    DigitsDetermine(f, s);
  }

  lemma DigitsDetermine(f: string, s: string)
    requires IsDateShape(f) && IsDateShape(s)
    requires ParseFields(f) == ParseFields(s)
    ensures f == s
  {
    FourDigits(DigitValue(f[0]), DigitValue(f[1]), DigitValue(f[2]), DigitValue(f[3]),
               DigitValue(s[0]), DigitValue(s[1]), DigitValue(s[2]), DigitValue(s[3]));
    TwoDigits(DigitValue(f[5]), DigitValue(f[6]), DigitValue(s[5]), DigitValue(s[6]));
    TwoDigits(DigitValue(f[8]), DigitValue(f[9]), DigitValue(s[8]), DigitValue(s[9]));
    forall i | 0 <= i < 10 ensures f[i] == s[i] {
      if i != 4 && i != 7 {
        DigitValueInjective(f[i], s[i]);
      }
    }
  }

  lemma DigitValueInjective(c: char, d: char)
    requires IsDigit(c) && IsDigit(d) && DigitValue(c) == DigitValue(d)
    ensures c == d
  {
  }

  lemma TwoDigits(a1: int, a0: int, b1: int, b0: int)
    requires 0 <= a0 <= 9 && 0 <= b0 <= 9
    requires a1 * 10 + a0 == b1 * 10 + b0
    ensures a1 == b1 && a0 == b0
  {
  }

  lemma FourDigits(a3: int, a2: int, a1: int, a0: int, b3: int, b2: int, b1: int, b0: int)
    requires 0 <= a0 <= 9 && 0 <= a1 <= 9 && 0 <= b0 <= 9 && 0 <= b1 <= 9
    requires 0 <= a2 <= 9 && 0 <= b2 <= 9
    requires a3 * 1000 + a2 * 100 + a1 * 10 + a0 == b3 * 1000 + b2 * 100 + b1 * 10 + b0
    ensures a3 == b3 && a2 == b2 && a1 == b1 && a0 == b0
  {
    var x, y := a3 * 10 + a2, a1 * 10 + a0;
    var u, v := b3 * 10 + b2, b1 * 10 + b0;
    assert x * 100 + y == u * 100 + v;
    assert x == u && y == v;
    TwoDigits(a3, a2, b3, b2);
    TwoDigits(a1, a0, b1, b0);
  }

  /** `a` is an earlier calendar day than `b`. */
  predicate Before(a: Date, b: Date) {
    a.year < b.year ||
    (a.year == b.year && (a.month < b.month || (a.month == b.month && a.day < b.day)))
  }

  /** The calendar day after `dt`. */
  function NextDate(dt: Date): (r: Date)
    requires IsValidDate(dt) && dt.year < 9999
    ensures IsValidDate(r) && Before(dt, r)
  {
    if dt.day < DaysInMonth(dt.year, dt.month) then Date(dt.year, dt.month, dt.day + 1)
    else if dt.month < 12 then Date(dt.year, dt.month + 1, 1)
    else Date(dt.year + 1, 1, 1)
  }

  lemma DaysBeforeYearStep(y: nat)
    ensures DaysBeforeYear(y + 1) == DaysBeforeYear(y) + DaysInYear(y)
  {
    assert (y + 4) / 4 - (y + 3) / 4 == if y % 4 == 0 then 1 else 0;
    assert (y + 100) / 100 - (y + 99) / 100 == if y % 100 == 0 then 1 else 0;
    assert (y + 400) / 400 - (y + 399) / 400 == if y % 400 == 0 then 1 else 0;
  }

  lemma {:induction false} DaysBeforeYearGrows(y1: nat, y2: nat)
    requires y1 < y2
    ensures DaysBeforeYear(y1) + DaysInYear(y1) <= DaysBeforeYear(y2)
    decreases y2 - y1
  {
    DaysBeforeYearStep(y1);
    if y1 + 1 < y2 {
      DaysBeforeYearGrows(y1 + 1, y2);
    }
  }

  lemma MonthsFitInYear(y: int, m: int)
    requires 1 <= m <= 12
    ensures DaysBeforeMonth(y, m) + DaysInMonth(y, m) == if m < 12 then DaysBeforeMonth(y, m + 1) else DaysInYear(y)
  {
  }

  lemma {:induction false} DaysBeforeMonthGrows(y: int, m1: int, m2: int)
    requires 1 <= m1 < m2 <= 12
    ensures DaysBeforeMonth(y, m1) + DaysInMonth(y, m1) <= DaysBeforeMonth(y, m2)
    decreases m2 - m1
  {
    MonthsFitInYear(y, m1);
    if m1 + 1 < m2 {
      DaysBeforeMonthGrows(y, m1 + 1, m2);
    }
  }

  /** 1970-01-01 is day zero. */
  lemma EpochIsDayZero()
    ensures DaysFromCivil(Date(1970, 1, 1)) == 0
  {
  }

  /** Consecutive calendar days have consecutive day numbers. */
  lemma DaysFromCivilNext(dt: Date)
    requires IsValidDate(dt) && dt.year < 9999
    ensures DaysFromCivil(NextDate(dt)) == DaysFromCivil(dt) + 1
  {
    MonthsFitInYear(dt.year, dt.month);
    DaysBeforeYearStep(dt.year);
  }

  /** Comparing day numbers is comparing calendar dates. */
  lemma DaysFromCivilOrder(a: Date, b: Date)
    requires IsValidDate(a) && IsValidDate(b)
    ensures Before(a, b) <==> DaysFromCivil(a) < DaysFromCivil(b)
    ensures a == b <==> DaysFromCivil(a) == DaysFromCivil(b)
  {
    if Before(a, b) {
      DaysFromCivilBefore(a, b);
    } else if Before(b, a) {
      DaysFromCivilBefore(b, a);
    } else {
      assert a == b;
    }
  }

  lemma DaysFromCivilBefore(a: Date, b: Date)
    requires IsValidDate(a) && IsValidDate(b) && Before(a, b)
    ensures DaysFromCivil(a) < DaysFromCivil(b)
  {
    MonthsFitInYear(a.year, a.month);
    if a.year < b.year {
      DaysBeforeYearGrows(a.year, b.year);
      if a.month < 12 {
        DaysBeforeMonthGrows(a.year, a.month, 12);
        MonthsFitInYear(a.year, 12);
      }
    } else if a.month < b.month {
      DaysBeforeMonthGrows(a.year, a.month, b.month);
    }
  }
}
