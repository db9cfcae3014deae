/**
 * The proleptic Gregorian calendar as Python's `datetime.date` uses it: day numbers are
 * the ordinals of `date.toordinal()` (1 January of year 1 is day 1) and weekdays follow
 * `date.weekday()` (Monday is 0, Sunday is 6). Dates are compared field by field, as
 * Python compares `date` objects.
 */
module Calendar {

  /** Python's `datetime.MINYEAR` and `datetime.MAXYEAR`. */
  const MIN_YEAR := 1
  const MAX_YEAR := 9999

  const MONDAY := 0
  const SATURDAY := 5

  datatype Date = Date(year: int, month: int, day: int)

  predicate IsLeapYear(y: int)
  {
    y % 4 == 0 && (y % 100 != 0 || y % 400 == 0)
  }

  function DaysInYear(y: int): (n: int)
    ensures n == 365 || n == 366
  {
    if IsLeapYear(y) then 366 else 365
  }

  function DaysInMonth(y: int, m: int): (n: int)
    requires 1 <= m <= 12
    ensures 28 <= n <= 31
  {
    if m == 2 then (if IsLeapYear(y) then 29 else 28)
    else if m == 4 || m == 6 || m == 9 || m == 11 then 30
    else 31
  }

  /** A day of the proleptic Gregorian calendar from year 1 on, with no upper bound on the year. */
  predicate IsCalendarDate(d: Date)
  {
    d.year >= MIN_YEAR && 1 <= d.month <= 12 && 1 <= d.day <= DaysInMonth(d.year, d.month)
  }

  /** A date that Python's `datetime.date` can represent. */
  predicate IsValidDate(d: Date)
  {
    IsCalendarDate(d) && d.year <= MAX_YEAR
  }

  /** Days in the years before year `y`, counted year by year. */
  function DaysBeforeYear(y: int): (n: int)
    requires y >= MIN_YEAR
    ensures n >= 0
    decreases y
  {
    if y == MIN_YEAR then 0 else DaysBeforeYear(y - 1) + DaysInYear(y - 1)
  }

  /** Days in the months of year `y` before month `m`. */
  function DaysBeforeMonth(y: int, m: int): int
    requires 1 <= m <= 12
  {
    var leap := if IsLeapYear(y) then 1 else 0;
    if m == 1 then 0
    else if m == 2 then 31
    else if m == 3 then 59 + leap
    else if m == 4 then 90 + leap
    else if m == 5 then 120 + leap
    else if m == 6 then 151 + leap
    else if m == 7 then 181 + leap
    else if m == 8 then 212 + leap
    else if m == 9 then 243 + leap
    else if m == 10 then 273 + leap
    else if m == 11 then 304 + leap
    else 334 + leap
  }

  /** The ordinal of a date: 1 January of year 1 is day 1. */
  function DayNumber(d: Date): int
    requires IsCalendarDate(d)
  {
    DaysBeforeYear(d.year) + DaysBeforeMonth(d.year, d.month) + d.day
  }

  /** The weekday of an ordinal: Monday is 0, Sunday is 6. */
  function WeekdayOf(n: int): (w: int)
    ensures 0 <= w < 7
  {
    (n + 6) % 7
  }

  function Weekday(d: Date): (w: int)
    requires IsCalendarDate(d)
    ensures 0 <= w < 7
  {
    WeekdayOf(DayNumber(d))
  }

  predicate IsWeekend(d: Date)
    requires IsCalendarDate(d)
  {
    Weekday(d) >= SATURDAY
  }

  /** Python's `a < b` on dates: year first, then month, then day. */
  predicate Before(a: Date, b: Date)
  {
    a.year < b.year
    || (a.year == b.year && a.month < b.month)
    || (a.year == b.year && a.month == b.month && a.day < b.day)
  }

  /** The calendar day after `d`. */
  function NextDay(d: Date): (r: Date)
    requires IsCalendarDate(d)
    ensures IsCalendarDate(r)
    ensures DayNumber(r) == DayNumber(d) + 1
  {
    if d.day < DaysInMonth(d.year, d.month) then Date(d.year, d.month, d.day + 1)
    else if d.month < 12 then Date(d.year, d.month + 1, 1)
    else
      YearLength(d.year);
      Date(d.year + 1, 1, 1)
  }

  /** `d + timedelta(days=n)` for a non-negative `n`. */
  function AddDays(d: Date, n: nat): (r: Date)
    requires IsCalendarDate(d)
    ensures IsCalendarDate(r)
    ensures DayNumber(r) == DayNumber(d) + n
    decreases n
  {
    if n == 0 then d else AddDays(NextDay(d), n - 1)
  }

  /** A year holds exactly `DaysInYear` days: the next year starts right after its last day. */
  lemma YearLength(y: int)
    requires y >= MIN_YEAR
    ensures DaysBeforeYear(y + 1) == DaysBeforeYear(y) + DaysInYear(y)
    ensures DaysBeforeMonth(y, 12) + DaysInMonth(y, 12) == DaysInYear(y)
  {
  }

  /**
   * The closed form Python's `date.toordinal` uses: 365 days a year, plus a leap day every
   * fourth year except centuries not divisible by 400.
   */
  lemma {:induction false} DaysBeforeYearClosedForm(y: int)
    requires y >= MIN_YEAR
    ensures DaysBeforeYear(y) == 365 * (y - 1) + (y - 1) / 4 - (y - 1) / 100 + (y - 1) / 400
    decreases y
  {
    if y > MIN_YEAR {
      var p := y - 1;
      DaysBeforeYearClosedForm(p);
      QuotientSteps(p);
      MultiplesNest(p);
      assert DaysInYear(p) ==
        365 + (if p % 4 == 0 then 1 else 0) - (if p % 100 == 0 then 1 else 0) + (if p % 400 == 0 then 1 else 0);
    }
  }

  /** Each quotient in `DaysBeforeYear` grows by one exactly when the year reaches a multiple of its divisor. */
  lemma QuotientSteps(y: int)
    requires y >= 1
    ensures y / 4 == (y - 1) / 4 + (if y % 4 == 0 then 1 else 0)
    ensures y / 100 == (y - 1) / 100 + (if y % 100 == 0 then 1 else 0)
    ensures y / 400 == (y - 1) / 400 + (if y % 400 == 0 then 1 else 0)
  {
  }

  /** Multiples of 400 are multiples of 100, and multiples of 100 are multiples of 4. */
  lemma MultiplesNest(y: int)
    ensures y % 400 == 0 ==> y % 100 == 0
    ensures y % 100 == 0 ==> y % 4 == 0
  {
  }

  /** Every day of year `y` lies between the first and the last day number of that year. */
  lemma DayOfYearBounds(d: Date)
    requires IsCalendarDate(d)
    ensures DaysBeforeYear(d.year) < DayNumber(d) <= DaysBeforeYear(d.year) + DaysInYear(d.year)
  {
    YearLength(d.year);
  }

  /** Later years start later. */
  lemma {:induction false} YearsAreOrdered(y1: int, y2: int)
    requires MIN_YEAR <= y1 < y2
    ensures DaysBeforeYear(y1) + DaysInYear(y1) <= DaysBeforeYear(y2)
    decreases y2 - y1
  {
    YearLength(y1);
    if y1 + 1 < y2 {
      YearsAreOrdered(y1 + 1, y2);
    }
  }

  /** Comparing two dates as Python does agrees with comparing their ordinals. */
  lemma BeforeIffSmallerDayNumber(a: Date, b: Date)
    requires IsCalendarDate(a) && IsCalendarDate(b)
    ensures Before(a, b) <==> DayNumber(a) < DayNumber(b)
    ensures a == b <==> DayNumber(a) == DayNumber(b)
  {
    DayOfYearBounds(a);
    DayOfYearBounds(b);
    if a.year < b.year {
      YearsAreOrdered(a.year, b.year);
    } else if b.year < a.year {
      YearsAreOrdered(b.year, a.year);
    }
  }

  /** The last day Python can represent, 31 December 9999, is a Friday. */
  lemma LastDayIsFriday()
    ensures IsValidDate(Date(MAX_YEAR, 12, 31))
    ensures DayNumber(Date(MAX_YEAR, 12, 31)) == 3652059
    ensures Weekday(Date(MAX_YEAR, 12, 31)) == 4
  {
    DaysBeforeYearClosedForm(MAX_YEAR);
  }
}
