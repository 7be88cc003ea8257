/**
 * `get_month_range(year, month)`: the first and the last calendar day of a
 * month, formatted as `%Y-%m-%d`. The last day comes from
 * `calendar.monthrange`, which follows the Gregorian leap-year rule.
 */
module MonthRange {
  import opened Wrappers

  datatype Date = Date(year: int, month: int, day: int)

  /**
   * How `datetime(year, month, 1)` refuses its arguments. Both are first read
   * as C `int`s, year then month, and one that does not fit raises
   * `OverflowError`; then the year and the month are range-checked, in that
   * order, with `ValueError`.
   */
  datatype RangeError =
    | ArgumentOverflow(value: int)
    | YearOutOfRange(year: int)
    | MonthOutOfRange(month: int)

  const MinYear := 1
  const MaxYear := 9999

  /** The range of a 32-bit C `int`. */
  const IntMin := -0x8000_0000
  const IntMax := 0x7FFF_FFFF

  predicate FitsCInt(v: int)
  {
    IntMin <= v <= IntMax
  }

  /** `calendar.mdays`: month lengths of a common year, with a dummy entry for month 0. */
  const MonthDays: seq<int> := [0, 31, 28, 31, 30, 31, 30, 31, 31, 30, 31, 30, 31]

  /** `calendar.isleap`. */
  predicate IsLeap(year: int)
  {
    year % 4 == 0 && (year % 100 != 0 || year % 400 == 0)
  }

  /** The day count `calendar.monthrange` returns: February gains a day in leap years. */
  function DaysInMonth(year: int, month: int): (days: int)
    requires 1 <= month <= 12
    ensures 28 <= days <= 31
  {
    MonthDays[month] + if month == 2 && IsLeap(year) then 1 else 0
  }

  /** February has 29 days in leap years and 28 otherwise; April, June, September and November have 30; the rest 31. */
  lemma MonthLengths(year: int, month: int)
    requires 1 <= month <= 12
    ensures month == 2 ==> DaysInMonth(year, month) == if IsLeap(year) then 29 else 28
    ensures month in {4, 6, 9, 11} ==> DaysInMonth(year, month) == 30
    ensures month !in {2, 4, 6, 9, 11} ==> DaysInMonth(year, month) == 31
  {
  }

  /** The days of the months before `month`. */
  function DaysBefore(year: int, month: int): int
    requires 1 <= month <= 13
  {
    if month == 1 then 0 else DaysBefore(year, month - 1) + DaysInMonth(year, month - 1)
  }

  /** The twelve months add up to 366 days in a leap year and 365 otherwise. */
  lemma YearLength(year: int)
    ensures DaysBefore(year, 13) == if IsLeap(year) then 366 else 365
  {
    var leap := if IsLeap(year) then 1 else 0;
    assert DaysBefore(year, 2) == 31;
    assert DaysBefore(year, 3) == 59 + leap;
    assert DaysBefore(year, 4) == 90 + leap;
    assert DaysBefore(year, 5) == 120 + leap;
    assert DaysBefore(year, 6) == 151 + leap;
    assert DaysBefore(year, 7) == 181 + leap;
    assert DaysBefore(year, 8) == 212 + leap;
    assert DaysBefore(year, 9) == 243 + leap;
    assert DaysBefore(year, 10) == 273 + leap;
    assert DaysBefore(year, 11) == 304 + leap;
    assert DaysBefore(year, 12) == 334 + leap;
  }

  /** A date `datetime` accepts. */
  predicate ValidDate(d: Date)
  {
    && MinYear <= d.year <= MaxYear
    && 1 <= d.month <= 12
    && 1 <= d.day <= DaysInMonth(d.year, d.month)
  }

  /**
   * The first and the last day of the month, as the two `datetime` values of
   * `get_month_range`. Both are valid dates of that month and the first is
   * day 1. The last conjunct follows from `ValidDate`, which is written with
   * `DaysInMonth`: it says that the last date is the month's last valid day.
   */
  function MonthBounds(year: int, month: int): (r: Result<(Date, Date), RangeError>)
    ensures r.Success? <==> MinYear <= year <= MaxYear && 1 <= month <= 12
    ensures !FitsCInt(year) ==> r == Failure(ArgumentOverflow(year))
    ensures FitsCInt(year) && !FitsCInt(month) ==> r == Failure(ArgumentOverflow(month))
    ensures FitsCInt(year) && FitsCInt(month) && !(MinYear <= year <= MaxYear) ==>
      r == Failure(YearOutOfRange(year))
    ensures FitsCInt(year) && FitsCInt(month) && MinYear <= year <= MaxYear && !(1 <= month <= 12) ==>
      r == Failure(MonthOutOfRange(month))
    ensures r.Success? ==>
      && r.value.0 == Date(year, month, 1)
      && r.value.1.year == year && r.value.1.month == month
      && ValidDate(r.value.0) && ValidDate(r.value.1)
      && (forall day :: ValidDate(Date(year, month, day)) <==> r.value.0.day <= day <= r.value.1.day)
  {
    if !FitsCInt(year) then Failure(ArgumentOverflow(year))
    else if !FitsCInt(month) then Failure(ArgumentOverflow(month))
    else if !(MinYear <= year <= MaxYear) then Failure(YearOutOfRange(year))
    else if !(1 <= month <= 12) then Failure(MonthOutOfRange(month))
    else Success((Date(year, month, 1), Date(year, month, DaysInMonth(year, month))))
  }

  // ---------------------------------------------------------------- %Y-%m-%d

  function Digit(v: int): char
    requires 0 <= v <= 9
  {
    ('0' as int + v) as char
  }

  predicate IsDigit(c: char)
  {
    '0' <= c <= '9'
  }

  function DigitValue(c: char): int
    requires IsDigit(c)
  {
    c as int - '0' as int
  }

  /** `%02d`. */
  function Pad2(v: int): string
    requires 0 <= v <= 99
  {
    [Digit(v / 10), Digit(v % 10)]
  }

  /** `%04d`, written digit by digit from the right. */
  function Pad4(v: int): string
    requires 0 <= v <= 9999
  {
    var v1 := v / 10;
    var v2 := v1 / 10;
    [Digit(v2 / 10), Digit(v2 % 10), Digit(v1 % 10), Digit(v % 10)]
  }

  /** `strftime("%Y-%m-%d")`. */
  function FormatDate(d: Date): (s: string)
    requires ValidDate(d)
    ensures |s| == 10 && s[4] == '-' && s[7] == '-'
    ensures forall k :: 0 <= k < 10 && k != 4 && k != 7 ==> IsDigit(s[k])
  {
    Pad4(d.year) + "-" + Pad2(d.month) + "-" + Pad2(d.day)
  }

  /** The value of a string of decimal digits. */
  function Number(s: string): int
    requires forall k :: 0 <= k < |s| ==> IsDigit(s[k])
  {
    if s == [] then 0 else 10 * Number(s[..|s| - 1]) + DigitValue(s[|s| - 1])
  }

  /** `date.fromisoformat` restricted to `YYYY-MM-DD`, without the calendar check. */
  function ParseDate(s: string): Option<Date>
  {
    if |s| == 10 && s[4] == '-' && s[7] == '-'
       && (forall k :: 0 <= k < 10 && k != 4 && k != 7 ==> IsDigit(s[k]))
    then Some(Date(Number(s[..4]), Number(s[5..7]), Number(s[8..])))
    else None
  }

  lemma Number2(s: string)
    requires |s| == 2 && IsDigit(s[0]) && IsDigit(s[1])
    ensures Number(s) == 10 * DigitValue(s[0]) + DigitValue(s[1])
  {
    assert s[..1][..0] == [];
    assert Number(s[..1]) == DigitValue(s[0]);
    assert s[..|s| - 1] == s[..1];
  }

  lemma Pad2Value(v: int)
    requires 0 <= v <= 99
    ensures forall k :: 0 <= k < 2 ==> IsDigit(Pad2(v)[k])
    ensures Number(Pad2(v)) == v
  {
    Number2(Pad2(v));
    assert DigitValue(Digit(v / 10)) == v / 10;
    assert DigitValue(Digit(v % 10)) == v % 10;
  }

  lemma Pad4Value(v: int)
    requires 0 <= v <= 9999
    ensures forall k :: 0 <= k < 4 ==> IsDigit(Pad4(v)[k])
    ensures Number(Pad4(v)) == v
  {
    var s := Pad4(v);
    var v1 := v / 10;
    var v2 := v1 / 10;
    assert s[..3][..2] == s[..2];
    Number2(s[..2]);
    assert Number(s[..2]) == v2;
    assert Number(s[..3]) == 10 * v2 + v1 % 10 == v1;
  }

  /** Formatting a valid date and reading it back gives the same date. */
  lemma FormatDateRoundTrip(d: Date)
    requires ValidDate(d)
    ensures ParseDate(FormatDate(d)) == Some(d)
  {
    var s := FormatDate(d);
    Pad4Value(d.year);
    Pad2Value(d.month);
    Pad2Value(d.day);
    assert s[..4] == Pad4(d.year);
    assert s[5..7] == Pad2(d.month);
    assert s[8..] == Pad2(d.day);
  }

  /**
   * `get_month_range(year, month)`: the first and the last day of the month
   * as `YYYY-MM-DD` strings; they read back as day 1 and as the month's
   * length under the Gregorian rule.
   */
  function GetMonthRange(year: int, month: int): (r: Result<(string, string), RangeError>)
    ensures r.Success? <==> MinYear <= year <= MaxYear && 1 <= month <= 12
    ensures r.Failure? ==> MonthBounds(year, month) == Failure(r.error)
    ensures r.Success? ==>
      && ParseDate(r.value.0) == Some(Date(year, month, 1))
      && ParseDate(r.value.1) == Some(Date(year, month, DaysInMonth(year, month)))
  {
    match MonthBounds(year, month)
    case Failure(e) => Failure(e)
    case Success((start, end)) =>
      FormatDateRoundTrip(start);
      FormatDateRoundTrip(end);
      Success((FormatDate(start), FormatDate(end)))
  }
}
