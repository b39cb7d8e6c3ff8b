/**
 * The `deadline` field: a Python `date`, validated from and rendered as a
 * `YYYY-MM-DD` string. The textual form is the `full-date` of section 5.6 of
 * RFC 3339 and the day limits are those of section 5.7; the year range is
 * Python's, 1 to 9999.
 */
module Dates {
  import opened Wrappers

  datatype YearMonthDay = YearMonthDay(year: int, month: int, day: int)

  /** Gregorian leap years, section 5.7 of RFC 3339. */
  predicate IsLeapYear(y: int) {
    (y % 4 == 0 && y % 100 != 0) || y % 400 == 0
  }

  function DaysInMonth(y: int, m: int): (n: int)
    requires 1 <= m <= 12
    ensures 28 <= n <= 31
    ensures n == 29 <==> m == 2 && IsLeapYear(y)
  {
    if m == 2 then (if IsLeapYear(y) then 29 else 28)
    else if m == 4 || m == 6 || m == 9 || m == 11 then 30
    else 31
  }

  predicate IsCalendarDate(d: YearMonthDay) {
    1 <= d.year <= 9999 && 1 <= d.month <= 12 && 1 <= d.day <= DaysInMonth(d.year, d.month)
  }

  /** A Python `date`: always a real calendar date. */
  type Date = d: YearMonthDay | IsCalendarDate(d) witness YearMonthDay(1970, 1, 1)

  /** Chronological order, as `date.__lt__` compares. */
  predicate DateLess(a: Date, b: Date) {
    a.year < b.year || (a.year == b.year && (a.month < b.month || (a.month == b.month && a.day < b.day)))
  }

  /** Days since 0001-01-01, an independent measure of time. */
  function DayNumber(d: Date): (n: nat)
  {
    DaysBeforeYear(d.year) + DaysBeforeMonth(d.year, d.month) + (d.day - 1)
  }

  function DaysBeforeYear(y: int): (n: nat)
    requires 1 <= y
    decreases y
  {
    if y == 1 then 0 else DaysBeforeYear(y - 1) + (if IsLeapYear(y - 1) then 366 else 365)
  }

  /** Days in the months before `m`, as Python's `_DAYS_BEFORE_MONTH` table. */
  function DaysBeforeMonth(y: int, m: int): (n: nat)
    requires 1 <= m <= 12
  {
    [0, 31, 59, 90, 120, 151, 181, 212, 243, 273, 304, 334][m - 1]
      + (if m > 2 && IsLeapYear(y) then 1 else 0)
  }

  /** Consecutive entries of the table differ by the length of the month. */
  lemma DaysBeforeMonthStep(y: int, m: int)
    requires 1 <= m <= 12
    ensures m < 12 ==> DaysBeforeMonth(y, m) + DaysInMonth(y, m) == DaysBeforeMonth(y, m + 1)
    ensures m == 12 ==> DaysBeforeMonth(y, m) + DaysInMonth(y, m) == (if IsLeapYear(y) then 366 else 365)
  {
  }

  lemma {:induction false} DaysBeforeYearGrows(y1: int, y2: int)
    requires 1 <= y1 < y2
    ensures DaysBeforeYear(y1) + (if IsLeapYear(y1) then 366 else 365) <= DaysBeforeYear(y2)
  {
    if y1 + 1 < y2 {
      DaysBeforeYearGrows(y1, y2 - 1);
    }
  }

  lemma {:induction false} DaysBeforeMonthGrows(y: int, m1: int, m2: int)
    requires 1 <= m1 < m2 <= 12
    ensures DaysBeforeMonth(y, m1) + DaysInMonth(y, m1) <= DaysBeforeMonth(y, m2)
    decreases m2 - m1
  {
    DaysBeforeMonthStep(y, m1);
    if m1 + 1 < m2 {
      DaysBeforeMonthGrows(y, m1 + 1, m2);
      DaysBeforeMonthStep(y, m1 + 1);
    }
  }

  /** A date lies within its year. */
  lemma WithinYear(d: Date)
    ensures DaysBeforeMonth(d.year, d.month) + d.day <= (if IsLeapYear(d.year) then 366 else 365)
  {
    if d.month < 12 {
      DaysBeforeMonthGrows(d.year, d.month, 12);
    }
    DaysBeforeMonthStep(d.year, 12);
  }

  /** Comparing dates field by field is comparing them on the time line. */
  lemma DateLessIsChronological(a: Date, b: Date)
    ensures DateLess(a, b) <==> DayNumber(a) < DayNumber(b)
  {
    if a.year < b.year {
      DaysBeforeYearGrows(a.year, b.year);
      WithinYear(a);
    } else if b.year < a.year {
      DaysBeforeYearGrows(b.year, a.year);
      WithinYear(b);
    } else if a.month < b.month {
      DaysBeforeMonthGrows(a.year, a.month, b.month);
    } else if b.month < a.month {
      DaysBeforeMonthGrows(a.year, b.month, a.month);
    }
  }

  lemma DateLessIsStrictTotalOrder(a: Date, b: Date, c: Date)
    ensures !DateLess(a, a)
    ensures DateLess(a, b) && DateLess(b, c) ==> DateLess(a, c)
    ensures a == b || DateLess(a, b) || DateLess(b, a)
  {
  }

  // ---------------------------------------------------------------- digits

  predicate IsDigit(c: char) {
    '0' <= c <= '9'
  }

  predicate AllDigits(s: string) {
    forall i :: 0 <= i < |s| ==> IsDigit(s[i])
  }

  function Pow10(n: nat): (r: nat)
    ensures r >= 1
  {
    if n == 0 then 1 else 10 * Pow10(n - 1)
  }

  /** The decimal value of a digit string. */
  function DigitsValue(s: string): (n: nat)
    requires AllDigits(s)
    ensures n < Pow10(|s|)
  {
    if s == [] then 0
    else DigitsValue(s[..|s| - 1]) * 10 + (s[|s| - 1] as int - '0' as int)
  }

  /** `n` written with exactly `width` digits, zero-padded on the left. */
  function Digits(n: nat, width: nat): (s: string)
    requires n < Pow10(width)
    ensures |s| == width && AllDigits(s)
    ensures DigitsValue(s) == n
  {
    if width == 0 then []
    else
      DropDigit(n, width);
      var init := Digits(n / 10, width - 1);
      var s := init + [('0' as int + n % 10) as char];
      assert s[..|s| - 1] == init;
      s
  }

  /** Dropping the last digit of a `width`-digit number leaves a `width - 1`-digit one. */
  lemma DropDigit(n: nat, width: nat)
    requires 0 < width && n < Pow10(width)
    ensures n / 10 < Pow10(width - 1) && n / 10 * 10 + n % 10 == n
  {
  }

  lemma ShiftDigit(a: nat, d: int)
    requires 0 <= d < 10
    ensures (a * 10 + d) / 10 == a && (a * 10 + d) % 10 == d
  {
  }

  lemma {:induction false} DigitsOfValue(s: string)
    requires AllDigits(s)
    ensures Digits(DigitsValue(s), |s|) == s
  {
    if s != [] {
      var init := s[..|s| - 1];
      var last := s[|s| - 1];
      DigitsOfValue(init);
      var d := last as int - '0' as int;
      ShiftDigit(DigitsValue(init), d);
      assert Digits(DigitsValue(s), |s|) == Digits(DigitsValue(init), |s| - 1) + [('0' as int + d) as char];
      assert s == init + [last];
    }
  }

  // ---------------------------------------------------------------- text form

  /** `str(date)`: `YYYY-MM-DD`. */
  function FormatDate(d: Date): (s: string)
    ensures |s| == 10 && s[4] == '-' && s[7] == '-'
  {
    Digits(d.year, 4) + "-" + Digits(d.month, 2) + "-" + Digits(d.day, 2)
  }

  /** Validation of a deadline string: the `YYYY-MM-DD` form of a real date, or nothing. */
  function ParseDate(s: string): (r: Option<Date>)
    ensures r.Some? ==> |s| == 10 && s[4] == '-' && s[7] == '-'
  {
    if |s| == 10 && s[4] == '-' && s[7] == '-'
       && AllDigits(s[..4]) && AllDigits(s[5..7]) && AllDigits(s[8..])
    then
      var ymd := YearMonthDay(DigitsValue(s[..4]), DigitsValue(s[5..7]), DigitsValue(s[8..]));
      if IsCalendarDate(ymd) then Some(ymd) else None
    else
      None
  }

  /** Rendering a date and validating the text gives the date back. */
  lemma ParseFormat(d: Date)
    ensures ParseDate(FormatDate(d)) == Some(d)
  {
    var s := FormatDate(d);
    assert s[..4] == Digits(d.year, 4);
    assert s[5..7] == Digits(d.month, 2);
    assert s[8..] == Digits(d.day, 2);
  }

  /** A string that validates is exactly the rendering of its date. */
  lemma FormatParse(s: string)
    requires ParseDate(s).Some?
    ensures FormatDate(ParseDate(s).value) == s
  {
    DigitsOfValue(s[..4]);
    DigitsOfValue(s[5..7]);
    DigitsOfValue(s[8..]);
    assert s == s[..4] + "-" + s[5..7] + "-" + s[8..];
  }

  function DigitValue(c: char): int {
    c as int - '0' as int
  }

  lemma Value2(s: string)
    requires |s| == 2 && IsDigit(s[0]) && IsDigit(s[1])
    ensures AllDigits(s) && DigitsValue(s) == 10 * DigitValue(s[0]) + DigitValue(s[1])
  {
    assert s[..1][..0] == [];
  }

  lemma Value4(s: string)
    requires |s| == 4 && IsDigit(s[0]) && IsDigit(s[1]) && IsDigit(s[2]) && IsDigit(s[3])
    ensures AllDigits(s)
    ensures DigitsValue(s) == 1000 * DigitValue(s[0]) + 100 * DigitValue(s[1]) + 10 * DigitValue(s[2]) + DigitValue(s[3])
  {
    Value2(s[..2]);
    assert s[..3][..2] == s[..2];
  }

  /** Any text of the `YYYY-MM-DD` shape validates exactly when its numbers form a real date. */
  lemma ParseDigitFields(s: string)
    requires |s| == 10 && s[4] == '-' && s[7] == '-'
    requires IsDigit(s[0]) && IsDigit(s[1]) && IsDigit(s[2]) && IsDigit(s[3])
    requires IsDigit(s[5]) && IsDigit(s[6]) && IsDigit(s[8]) && IsDigit(s[9])
    ensures var ymd := YearMonthDay(
              1000 * DigitValue(s[0]) + 100 * DigitValue(s[1]) + 10 * DigitValue(s[2]) + DigitValue(s[3]),
              10 * DigitValue(s[5]) + DigitValue(s[6]),
              10 * DigitValue(s[8]) + DigitValue(s[9]));
            ParseDate(s) == if IsCalendarDate(ymd) then Some(ymd) else None
  {
    Value4(s[..4]);
    Value2(s[5..7]);
    Value2(s[8..]);
  }

  /** The deadline the test suite accepts. */
  lemma AcceptedDeadline()
    ensures ParseDate("2024-12-21") == Some(YearMonthDay(2024, 12, 21))
  {
    ParseDigitFields("2024-12-21");
  }

  /** The deadline the test suite rejects for its month out of range. */
  lemma MonthOutOfRange()
    ensures ParseDate("2024-20-08").None?
  {
    ParseDigitFields("2024-20-08");
  }

  /** The deadlines the test suite rejects for their shape: empty, or with the wrong separators. */
  lemma MalformedDeadlines()
    ensures ParseDate("").None?
    ensures ParseDate("2024 12 22").None?
    ensures ParseDate("2024:12:22").None?
  {
  }

  /** February 29th exists in a leap year. */
  lemma LeapDay()
    ensures ParseDate("2024-02-29").Some?
  {
    ParseDigitFields("2024-02-29");
  }

  /** February 29th does not exist in the year after. */
  lemma NoLeapDay()
    ensures ParseDate("2023-02-29").None?
  {
    ParseDigitFields("2023-02-29");
  }
}
