/**
 * Calendar dates as java.time.LocalDate has them: the proleptic Gregorian calendar of
 * ISO 8601 (section 3.2.1 of ISO 8601:2004), years from -999,999,999 to 999,999,999.
 */
module Dates {
  import opened Errors

  const MinYear: int := -999_999_999
  const MaxYear: int := 999_999_999

  datatype Date = Date(year: int, month: int, day: int)

  predicate ValidYear(y: int) {
    MinYear <= y <= MaxYear
  }

  /** Gregorian leap-year rule (java.time.chrono.IsoChronology.isLeapYear). */
  predicate IsLeapYear(y: int) {
    y % 4 == 0 && (y % 100 != 0 || y % 400 == 0)
  }

  function MonthLength(y: int, m: int): (n: int)
    requires 1 <= m <= 12
    ensures 28 <= n <= 31
  {
    if m == 2 then (if IsLeapYear(y) then 29 else 28)
    else if m == 4 || m == 6 || m == 9 || m == 11 then 30
    else 31
  }

  predicate IsValid(d: Date) {
    ValidYear(d.year) && 1 <= d.month <= 12 && 1 <= d.day <= MonthLength(d.year, d.month)
  }

  /** A LocalDate value: a date that java.time can represent. */
  type LocalDate = d: Date | IsValid(d) witness Date(1970, 1, 1)

  /**
   * LocalDate.of(year, month, day): the year range is checked, then the month and the
   * day-of-month ranges, then the day against the length of that month.
   */
  function Of(year: int, month: int, day: int): (r: Result<LocalDate>)
    ensures r.Success? <==> IsValid(Date(year, month, day))
    ensures r.Success? ==> r.value == Date(year, month, day)
    ensures r.Failure? ==> r.error == DateTime
  {
    if !ValidYear(year) || !(1 <= month <= 12) || !(1 <= day <= 31) then Failure(DateTime)
    else if day > 28 && day > MonthLength(year, month) then Failure(DateTime)
    else Success(Date(year, month, day))
  }

  /** LocalDate.of(y, d.getMonth(), d.getDayOfMonth()): the same month and day in year y. */
  function WithYear(d: LocalDate, y: int): (r: Result<LocalDate>)
    ensures r.Success? <==> ValidYear(y) && !(d.month == 2 && d.day == 29 && !IsLeapYear(y))
    ensures r.Success? ==> r.value.year == y && r.value.month == d.month && r.value.day == d.day
    ensures r.Failure? ==> r.error == DateTime
  {
    Of(y, d.month, d.day)
  }

  /** Moving a date into the year it already has changes nothing. */
  lemma WithSameYear(d: LocalDate)
    ensures WithYear(d, d.year) == Success(d)
  {
  }

  /** Rewriting the year twice with the same target is rewriting it once. */
  lemma WithYearIdempotent(d: LocalDate, y: int)
    requires WithYear(d, y).Success?
    ensures WithYear(WithYear(d, y).value, y) == WithYear(d, y)
  {
  }

  /** LocalDate.compareTo: year first, then month, then day. */
  predicate Before(a: Date, b: Date) {
    a.year < b.year || (a.year == b.year && (a.month < b.month || (a.month == b.month && a.day < b.day)))
  }

  predicate LessEq(a: Date, b: Date) {
    Before(a, b) || a == b
  }

  // ---- An independent reference for the order: the running count of days ----

  function YearLength(y: int): int {
    if IsLeapYear(y) then 366 else 365
  }

  /** Days from 0000-01-01 to the first day of year y (negative before year 0). */
  function DaysBeforeYear(y: int): int
    decreases if y >= 0 then y else -y
  {
    if y == 0 then 0
    else if y > 0 then DaysBeforeYear(y - 1) + YearLength(y - 1)
    else DaysBeforeYear(y + 1) - YearLength(y)
  }

  /** Days of year y that precede the first day of month m. */
  function DaysBeforeMonth(y: int, m: int): int
    requires 1 <= m <= 12
  {
    var common := match m
      case 1 => 0 case 2 => 31 case 3 => 59 case 4 => 90 case 5 => 120 case 6 => 151
      case 7 => 181 case 8 => 212 case 9 => 243 case 10 => 273 case 11 => 304 case _ => 334;
    if m > 2 && IsLeapYear(y) then common + 1 else common
  }

  /** The position of a date on a single day line, one step per day. */
  function DayNumber(d: LocalDate): int {
    DaysBeforeYear(d.year) + DaysBeforeMonth(d.year, d.month) + d.day - 1
  }

  lemma NextYear(y: int)
    ensures DaysBeforeYear(y + 1) == DaysBeforeYear(y) + YearLength(y)
  {
  }

  lemma {:induction false} YearsAscend(a: int, b: int)
    requires a < b
    ensures DaysBeforeYear(a) + YearLength(a) <= DaysBeforeYear(b)
    decreases b - a
  {
    NextYear(a);
    if a + 1 < b {
      YearsAscend(a + 1, b);
      assert DaysBeforeYear(a + 1) <= DaysBeforeYear(a + 1) + YearLength(a + 1);
    }
  }

  lemma MonthsAscend(y: int, m1: int, m2: int)
    requires 1 <= m1 < m2 <= 12
    ensures DaysBeforeMonth(y, m1) + MonthLength(y, m1) <= DaysBeforeMonth(y, m2)
  {
  }

  lemma InsideYear(d: LocalDate)
    ensures DaysBeforeMonth(d.year, d.month) + d.day <= YearLength(d.year)
  {
  }

  lemma {:induction false} EarlierIsSmaller(a: LocalDate, b: LocalDate)
    requires Before(a, b)
    ensures DayNumber(a) < DayNumber(b)
  {
    if a.year < b.year {
      InsideYear(a);
      YearsAscend(a.year, b.year);
    } else if a.month < b.month {
      MonthsAscend(a.year, a.month, b.month);
    }
  }

  /** The field-by-field order of LocalDate is the chronological order of days. */
  lemma {:induction false} ChronologicalOrder(a: LocalDate, b: LocalDate)
    ensures LessEq(a, b) <==> DayNumber(a) <= DayNumber(b)
  {
    if Before(a, b) {
      EarlierIsSmaller(a, b);
    } else if a != b {
      assert Before(b, a);
      EarlierIsSmaller(b, a);
    }
  }

  /** December 31 and the following January 1 are consecutive days. */
  lemma YearBoundary(y: int)
    requires ValidYear(y) && ValidYear(y + 1)
    ensures DayNumber(Date(y + 1, 1, 1)) == DayNumber(Date(y, 12, 31)) + 1
  {
    NextYear(y);
  }

  /**
   * LocalDate.plusYears(n): the year is checked against the range, then the day is
   * clamped to the last valid day of the month (resolvePreviousValid).
   */
  function PlusYears(d: LocalDate, n: int): (r: Result<LocalDate>)
    ensures r.Success? <==> n == 0 || ValidYear(d.year + n)
    ensures r.Success? ==> r.value.year == d.year + n && r.value.month == d.month
    ensures r.Success? ==>
      r.value.day == if d.month == 2 && d.day == 29 && !IsLeapYear(d.year + n) then 28 else d.day
    ensures r.Failure? ==> r.error == DateTime
  {
    if n == 0 then Success(d)
    else if !ValidYear(d.year + n) then Failure(DateTime)
    else
      var y := d.year + n;
      var len := MonthLength(y, d.month);
      Success(Date(y, d.month, if d.day <= len then d.day else len))
  }

  /** LocalDate.minusYears(n), for the n the application uses. */
  function MinusYears(d: LocalDate, n: int): (r: Result<LocalDate>)
    ensures r.Success? <==> n == 0 || ValidYear(d.year - n)
    ensures r.Success? ==> r.value.year == d.year - n && r.value.month == d.month
    ensures r.Success? ==>
      r.value.day == if d.month == 2 && d.day == 29 && !IsLeapYear(d.year - n) then 28 else d.day
    ensures r.Failure? ==> r.error == DateTime
  {
    PlusYears(d, -n)
  }
}
