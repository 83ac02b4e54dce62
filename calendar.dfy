/**
 * Gregorian calendar dates, their day numbers and their ISO 8601 calendar-date
 * form YYYY-MM-DD (ISO 8601:2004, section 4.1.2.2), the form in which the
 * upstream provider writes a holiday's `date`.
 */
module Calendar {
  import opened Wrappers

  datatype Date = Date(year: int, month: int, day: int)

  predicate IsLeapYear(y: int) {
    y % 4 == 0 && (y % 100 != 0 || y % 400 == 0)
  }

  function DaysInYear(y: int): int {
    if IsLeapYear(y) then 366 else 365
  }

  function DaysInMonth(y: int, m: int): int {
    if m == 2 then (if IsLeapYear(y) then 29 else 28)
    else if m == 4 || m == 6 || m == 9 || m == 11 then 30
    else 31
  }

  /** A real calendar date that four decimal digits can write. */
  predicate IsValidDate(d: Date) {
    && 0 <= d.year <= 9999
    && 1 <= d.month <= 12
    && 1 <= d.day <= DaysInMonth(d.year, d.month)
  }

  /** Chronological order of dates: year, then month, then day. */
  predicate Before(a: Date, b: Date) {
    || a.year < b.year
    || (a.year == b.year && a.month < b.month)
    || (a.year == b.year && a.month == b.month && a.day < b.day)
  }

  /** The number of leap years among 0, 1, ..., y - 1 (for y >= 0). */
  function LeapYearsBefore(y: int): int {
    (y + 3) / 4 - (y + 99) / 100 + (y + 399) / 400
  }

  function DaysBeforeYear(y: int): int {
    365 * y + LeapYearsBefore(y)
  }

  /** Days of year y that lie before the first of month m. */
  function DaysBeforeMonth(y: int, m: int): int {
    var common :=
      if m <= 1 then 0 else if m == 2 then 31 else if m == 3 then 59
      else if m == 4 then 90 else if m == 5 then 120 else if m == 6 then 151
      else if m == 7 then 181 else if m == 8 then 212 else if m == 9 then 243
      else if m == 10 then 273 else if m == 11 then 304 else 334;
    common + (if m > 2 && IsLeapYear(y) then 1 else 0)
  }

  /** Days from 0000-01-01 to d in the proleptic Gregorian calendar. */
  function DayNumber(d: Date): int {
    DaysBeforeYear(d.year) + DaysBeforeMonth(d.year, d.month) + d.day - 1
  }

  lemma Step4(y: int)
    ensures (y + 1 + 3) / 4 == (y + 3) / 4 + (if y % 4 == 0 then 1 else 0)
  {
    var q, r := y / 4, y % 4;
    assert y == 4 * q + r && 0 <= r < 4;
    if r == 0 {
      assert (y + 3) / 4 == q && (y + 4) / 4 == q + 1;
    } else {
      assert (y + 3) / 4 == q + 1 && (y + 4) / 4 == q + 1;
    }
  }

  lemma Step100(y: int)
    ensures (y + 1 + 99) / 100 == (y + 99) / 100 + (if y % 100 == 0 then 1 else 0)
  {
    var q, r := y / 100, y % 100;
    assert y == 100 * q + r && 0 <= r < 100;
    if r == 0 {
      assert (y + 99) / 100 == q && (y + 100) / 100 == q + 1;
    } else {
      assert (y + 99) / 100 == q + 1 && (y + 100) / 100 == q + 1;
    }
  }

  lemma Step400(y: int)
    ensures (y + 1 + 399) / 400 == (y + 399) / 400 + (if y % 400 == 0 then 1 else 0)
  {
    var q, r := y / 400, y % 400;
    assert y == 400 * q + r && 0 <= r < 400;
    if r == 0 {
      assert (y + 399) / 400 == q && (y + 400) / 400 == q + 1;
    } else {
      assert (y + 399) / 400 == q + 1 && (y + 400) / 400 == q + 1;
    }
  }

  lemma LeapYearsStep(y: int)
    ensures LeapYearsBefore(y + 1) == LeapYearsBefore(y) + (if IsLeapYear(y) then 1 else 0)
  {
    Step4(y);
    Step100(y);
    Step400(y);
    CenturyDivisors(y);
  }

  /** A multiple of 400 is a multiple of 100, and a multiple of 100 one of 4. */
  lemma CenturyDivisors(y: int)
    ensures y % 400 == 0 ==> y % 100 == 0
    ensures y % 100 == 0 ==> y % 4 == 0
  {
    if y % 400 == 0 {
      assert y == 100 * (4 * (y / 400)) + 0;
      SplitHundreds(4 * (y / 400), 0);
    }
    if y % 100 == 0 {
      assert y == 4 * (25 * (y / 100)) + 0;
      SplitFours(25 * (y / 100), 0);
    }
  }

  lemma DaysBeforeNextYear(y: int)
    ensures DaysBeforeYear(y + 1) == DaysBeforeYear(y) + DaysInYear(y)
  {
    LeapYearsStep(y);
  }

  /** Year a ends no later than year b begins. */
  lemma {:induction false} YearsInOrder(a: int, b: int)
    requires a < b
    ensures DaysBeforeYear(a) + DaysInYear(a) <= DaysBeforeYear(b)
    decreases b - a
  {
    DaysBeforeNextYear(a);
    if a + 1 < b {
      YearsInOrder(a + 1, b);
    }
  }

  lemma MonthsInYear(y: int, m: int)
    requires 1 <= m <= 12
    ensures 0 <= DaysBeforeMonth(y, m)
    ensures DaysBeforeMonth(y, m) + DaysInMonth(y, m) <= DaysInYear(y)
  {
  }

  /** Month a ends no later than month b begins. */
  lemma MonthsInOrder(y: int, a: int, b: int)
    requires 1 <= a < b <= 12
    ensures DaysBeforeMonth(y, a) + DaysInMonth(y, a) <= DaysBeforeMonth(y, b)
  {
  }

  lemma DayNumberIncreasing(a: Date, b: Date)
    requires IsValidDate(a) && IsValidDate(b)
    requires Before(a, b)
    ensures DayNumber(a) < DayNumber(b)
  {
    MonthsInYear(a.year, a.month);
    MonthsInYear(b.year, b.month);
    if a.year < b.year {
      YearsInOrder(a.year, b.year);
    } else if a.month < b.month {
      MonthsInOrder(a.year, a.month, b.month);
    }
  }

  /** Day numbers order valid dates exactly as the calendar does, and name each one once. */
  lemma DayNumberOrder(a: Date, b: Date)
    requires IsValidDate(a) && IsValidDate(b)
    ensures DayNumber(a) < DayNumber(b) <==> Before(a, b)
    ensures DayNumber(a) == DayNumber(b) <==> a == b
  {
    if Before(a, b) {
      DayNumberIncreasing(a, b);
    } else if Before(b, a) {
      DayNumberIncreasing(b, a);
    }
  }

  predicate IsDigit(c: char) {
    '0' <= c <= '9'
  }

  function DigitChar(n: int): char
    requires 0 <= n <= 9
  {
    ('0' as int + n) as char
  }

  function DigitValue(c: char): int {
    c as int - '0' as int
  }

  /** The number written by the two decimal digits hi, lo. */
  function PairValue(hi: char, lo: char): int {
    10 * DigitValue(hi) + DigitValue(lo)
  }

  function TwoDigits(n: int): string {
    [DigitChar(n / 10 % 10), DigitChar(n % 10)]
  }

  function FourDigits(n: int): string {
    TwoDigits(n / 100 % 100) + TwoDigits(n % 100)
  }

  /** The ISO 8601 calendar-date string YYYY-MM-DD of d. */
  function ToIso(d: Date): string {
    FourDigits(d.year) + "-" + TwoDigits(d.month) + "-" + TwoDigits(d.day)
  }

  predicate IsIsoShape(s: string) {
    && |s| == 10 && s[4] == '-' && s[7] == '-'
    && IsDigit(s[0]) && IsDigit(s[1]) && IsDigit(s[2]) && IsDigit(s[3])
    && IsDigit(s[5]) && IsDigit(s[6]) && IsDigit(s[8]) && IsDigit(s[9])
  }

  /** Strict YYYY-MM-DD reading: the shape must match and the date must exist. */
  function ParseIso(s: string): Option<Date> {
    if IsIsoShape(s) then
      var d := Date(100 * PairValue(s[0], s[1]) + PairValue(s[2], s[3]), PairValue(s[5], s[6]), PairValue(s[8], s[9]));
      if IsValidDate(d) then Some(d) else None
    else
      None
  }

  /** Two digits of a number below 100 read back as that number. */
  lemma TwoDigitsValue(n: int)
    requires 0 <= n <= 99
    ensures IsDigit(TwoDigits(n)[0]) && IsDigit(TwoDigits(n)[1])
    ensures PairValue(TwoDigits(n)[0], TwoDigits(n)[1]) == n
  {
  }

  /** Two digits read as a number and written again are the same two digits. */
  lemma PairOfDigits(hi: char, lo: char)
    requires IsDigit(hi) && IsDigit(lo)
    ensures 0 <= PairValue(hi, lo) <= 99
    ensures TwoDigits(PairValue(hi, lo)) == [hi, lo]
  {
    var a, b := DigitValue(hi), DigitValue(lo);
    SplitTens(a, b);
    assert a % 10 == a;
    assert DigitChar(a) == hi && DigitChar(b) == lo;
  }

  lemma SplitHundreds(hi: int, lo: int)
    requires 0 <= lo < 100
    ensures (100 * hi + lo) / 100 == hi && (100 * hi + lo) % 100 == lo
  {
  }

  lemma SplitTens(hi: int, lo: int)
    requires 0 <= lo < 10
    ensures (10 * hi + lo) / 10 == hi && (10 * hi + lo) % 10 == lo
  {
  }

  lemma SplitFours(hi: int, lo: int)
    requires 0 <= lo < 4
    ensures (4 * hi + lo) / 4 == hi && (4 * hi + lo) % 4 == lo
  {
  }

  lemma FourDigitsOfPairs(hi: int, lo: int)
    requires 0 <= hi <= 99 && 0 <= lo <= 99
    ensures FourDigits(100 * hi + lo) == TwoDigits(hi) + TwoDigits(lo)
  {
    SplitHundreds(hi, lo);
    assert hi % 100 == hi;
  }

  /** Reading back what ToIso writes gives the date again. */
  lemma ParseToIso(d: Date)
    requires IsValidDate(d)
    ensures ParseIso(ToIso(d)) == Some(d)
  {
    var hi, lo := d.year / 100 % 100, d.year % 100;
    assert d.year / 100 < 100;
    assert 100 * hi + lo == d.year;
    TwoDigitsValue(hi);
    TwoDigitsValue(lo);
    TwoDigitsValue(d.month);
    TwoDigitsValue(d.day);
    var s := ToIso(d);
    assert s == TwoDigits(hi) + TwoDigits(lo) + "-" + TwoDigits(d.month) + "-" + TwoDigits(d.day);
    assert PairValue(s[0], s[1]) == hi && PairValue(s[2], s[3]) == lo;
    assert PairValue(s[5], s[6]) == d.month && PairValue(s[8], s[9]) == d.day;
  }

  /** A string that ParseIso accepts is exactly the ISO form of the date it reads. */
  lemma ToIsoOfParse(s: string, d: Date)
    requires ParseIso(s) == Some(d)
    ensures ToIso(d) == s
  {
    var hi, lo := PairValue(s[0], s[1]), PairValue(s[2], s[3]);
    PairOfDigits(s[0], s[1]);
    PairOfDigits(s[2], s[3]);
    PairOfDigits(s[5], s[6]);
    PairOfDigits(s[8], s[9]);
    FourDigitsOfPairs(hi, lo);
    assert ToIso(d) == [s[0], s[1]] + [s[2], s[3]] + "-" + [s[5], s[6]] + "-" + [s[8], s[9]];
    assert s == [s[0], s[1], s[2], s[3], '-', s[5], s[6], '-', s[8], s[9]];
  }

  /** Distinct valid dates have distinct ISO strings. */
  lemma ToIsoInjective(a: Date, b: Date)
    requires IsValidDate(a) && IsValidDate(b)
    ensures ToIso(a) == ToIso(b) <==> a == b
  {
    ParseToIso(a);
    ParseToIso(b);
  }
}
