/**
 * The calendar arithmetic shared by both timestamp parsers: the Gregorian
 * leap-year rule, the day count from 1970 to the start of a year, and the
 * table of days before each month of a common year.
 */
module Calendar {

  /**
   * `is_leap_year`. Rust's `%` truncates toward zero and Dafny's is
   * Euclidean, but the two agree on whether the remainder is zero, which is
   * all the rule asks.
   */
  predicate IsLeapYear(year: int) {
    (year % 4 == 0 && year % 100 != 0) || year % 400 == 0
  }

  function DaysInYear(year: int): int {
    if IsLeapYear(year) then 366 else 365
  }

  /**
   * What `for y in 1970..year { days += if is_leap_year(y) { 366 } else { 365 } }`
   * adds up: the days from 1 January 1970 to 1 January `year`. The range is
   * empty for years up to 1970, so those contribute nothing.
   */
  function DaysBeforeYear(year: int): nat
    decreases year - 1970
  {
    if year <= 1970 then 0 else DaysBeforeYear(year - 1) + DaysInYear(year - 1)
  }

  /** `month_days`: the days of a common year before the first of each month. */
  const CumulativeMonthDays: seq<int> := [0, 31, 59, 90, 120, 151, 181, 212, 243, 273, 304, 334]

  /** The length of `month` (1..12) in a common or a leap year. */
  function MonthLength(month: int, leap: bool): int
    requires 1 <= month <= 12
  {
    if month == 2 then (if leap then 29 else 28)
    else if month == 4 || month == 6 || month == 9 || month == 11 then 30
    else 31
  }

  /** The table is the running sum of the common-year month lengths. */
  lemma CumulativeMonthDaysSumsLengths()
    ensures CumulativeMonthDays[0] == 0
    ensures forall m :: 1 <= m < 12 ==>
      CumulativeMonthDays[m] == CumulativeMonthDays[m - 1] + MonthLength(m, false)
    ensures CumulativeMonthDays[11] + MonthLength(12, false) == 365
  {
  }

  /** The leap years in 1..n-1 (zero for n <= 1), by the closed formula. */
  function LeapYearsBefore(n: int): int {
    if n <= 1 then 0 else (n - 1) / 4 - (n - 1) / 100 + (n - 1) / 400
  }

  /** Going from `y - 1` to `y` crosses a multiple of `k` exactly when `k` divides `y`. */
  lemma DivSteps(y: int)
    requires y >= 1
    ensures y / 4 - (y - 1) / 4 == (if y % 4 == 0 then 1 else 0)
    ensures y / 100 - (y - 1) / 100 == (if y % 100 == 0 then 1 else 0)
    ensures y / 400 - (y - 1) / 400 == (if y % 400 == 0 then 1 else 0)
  {
  }

  lemma DivisorChain(y: int)
    ensures y % 400 == 0 ==> y % 100 == 0
    ensures y % 100 == 0 ==> y % 4 == 0
  {
    if y % 400 == 0 {
      Multiple400(y);
    }
    if y % 100 == 0 {
      Multiple100(y);
    }
  }

  lemma Multiple400(y: int)
    requires y % 400 == 0
    ensures y % 100 == 0
  {
    var k := y / 400;
    assert y == 400 * k;
    assert y == 100 * (4 * k) + 0;
  }

  lemma Multiple100(y: int)
    requires y % 100 == 0
    ensures y % 4 == 0
  {
    var k := y / 100;
    assert y == 100 * k;
    assert y == 4 * (25 * k) + 0;
  }

  lemma LeapYearsStep(y: int)
    requires y >= 1
    ensures LeapYearsBefore(y + 1) == LeapYearsBefore(y) + (if IsLeapYear(y) then 1 else 0)
  {
    DivSteps(y);
    DivisorChain(y);
  }

  /**
   * The year loop in closed form: 365 days a year plus one per leap year in
   * between.
   */
  lemma {:induction false} DaysBeforeYearClosedForm(year: int)
    requires year >= 1970
    decreases year - 1970
    ensures DaysBeforeYear(year) == 365 * (year - 1970) + LeapYearsBefore(year) - LeapYearsBefore(1970)
  {
    if year > 1970 {
      DaysBeforeYearClosedForm(year - 1);
      LeapYearsStep(year - 1);
    }
  }

  /** The Gregorian cycle: any 400 consecutive years from 1970 on hold 146097 days. */
  lemma GregorianCycle(year: int)
    requires year >= 1970
    ensures DaysBeforeYear(year + 400) == DaysBeforeYear(year) + 146097
  {
    DaysBeforeYearClosedForm(year);
    DaysBeforeYearClosedForm(year + 400);
    var x := year - 1;
    assert (x + 400) / 4 == x / 4 + 100;
    assert (x + 400) / 100 == x / 100 + 4;
    assert (x + 400) / 400 == x / 400 + 1;
  }

  /**
   * The day of the year (counted from 0) that the parsers compute for a
   * month and a day: the month table, one more after February in a leap
   * year, and the day minus one.
   */
  function DayOfYear(year: int, month: int, day: int): int
    requires 1 <= month <= 12
  {
    CumulativeMonthDays[month - 1] + (if month > 2 && IsLeapYear(year) then 1 else 0) + day - 1
  }

  /** For a real calendar date the day of the year lies within that year. */
  lemma DayOfYearInYear(year: int, month: int, day: int)
    requires 1 <= month <= 12 && 1 <= day <= MonthLength(month, IsLeapYear(year))
    ensures 0 <= DayOfYear(year, month, day) < DaysInYear(year)
  {
    CumulativeMonthDaysSumsLengths();
  }
}
