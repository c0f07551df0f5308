/**
 Day-granularity dates in the proleptic Gregorian calendar: month lengths,
 calendar-month addition with month-end clamping (the arithmetic of
 `relativedelta(months=n)` that `add_months_safe` delegates to), and the day
 ordinal used to count whole days between two dates.
 */
module Calendar {

  datatype Date = Date(year: int, month: int, day: int)

  /** The Gregorian leap-year rule. */
  predicate IsLeapYear(y: int) {
    y % 4 == 0 && (y % 100 != 0 || y % 400 == 0)
  }

  function DaysInMonth(y: int, m: int): (n: int)
    requires 1 <= m <= 12
    ensures 28 <= n <= 31
    ensures m == 2 ==> (n == 29 <==> IsLeapYear(y))
  {
    if m == 2 then (if IsLeapYear(y) then 29 else 28)
    else if m == 4 || m == 6 || m == 9 || m == 11 then 30
    else 31
  }

  function DaysInYear(y: int): int {
    if IsLeapYear(y) then 366 else 365
  }

  /** A date that exists in the calendar. */
  predicate Valid(d: Date) {
    1 <= d.month <= 12 && 1 <= d.day <= DaysInMonth(d.year, d.month)
  }

  /** Number of months since month 0 of year 0; consecutive months differ by one. */
  function MonthIndex(d: Date): int {
    d.year * 12 + (d.month - 1)
  }

  /** Strict chronological order, lexicographic on (year, month, day). */
  predicate Before(a: Date, b: Date) {
    a.year < b.year
    || (a.year == b.year && a.month < b.month)
    || (a.year == b.year && a.month == b.month && a.day < b.day)
  }

  function Min(a: int, b: int): int {
    if a <= b then a else b
  }

  // ---------------------------------------------------------------------------
  // Calendar-month addition
  // ---------------------------------------------------------------------------

  /** How a month offset is split into whole years and a remainder of at most
      11 months (same sign as the offset) before it is applied to a date. */
  function SplitMonths(n: int): (r: (int, int))
    ensures r.0 * 12 + r.1 == n
    ensures -11 <= r.1 <= 11
    ensures r.1 > 0 ==> n > 0
    ensures r.1 < 0 ==> n < 0
  {
    if n > 11 then (n / 12, n % 12)
    else if n < -11 then (-((-n) / 12), -((-n) % 12))
    else (0, n)
  }

  /** Adds `n` calendar months to `d`: years and months are added with a single
      carry, and the day of the month is kept when the target month has it and
      clamped to the target month's last day otherwise. */
  function AddMonths(d: Date, n: int): (r: Date)
    requires Valid(d)
    ensures Valid(r)
    ensures MonthIndex(r) == MonthIndex(d) + n
    ensures d.day <= DaysInMonth(r.year, r.month) ==> r.day == d.day
    ensures d.day > DaysInMonth(r.year, r.month) ==> r.day == DaysInMonth(r.year, r.month)
  {
    var (years, months) := SplitMonths(n);
    var y0 := d.year + years;
    var m0 := d.month + months;
    var (y, m) :=
      if months == 0 then (y0, d.month)
      else if m0 > 12 then (y0 + 1, m0 - 12)
      else if m0 < 1 then (y0 - 1, m0 + 12)
      else (y0, m0);
    Date(y, m, Min(DaysInMonth(y, m), d.day))
  }

  /** Two valid dates in the same month index lie in the same year and month. */
  lemma MonthIndexInjective(a: Date, b: Date)
    requires 1 <= a.month <= 12 && 1 <= b.month <= 12
    requires MonthIndex(a) == MonthIndex(b)
    ensures a.year == b.year && a.month == b.month
  {
  }

  /** A smaller month index means an earlier (year, month). */
  lemma MonthIndexOrder(a: Date, b: Date)
    requires 1 <= a.month <= 12 && 1 <= b.month <= 12
    requires MonthIndex(a) < MonthIndex(b)
    ensures a.year < b.year || (a.year == b.year && a.month < b.month)
  {
  }

  /** Adding zero months is the identity on valid dates. */
  lemma AddMonthsZero(d: Date)
    requires Valid(d)
    ensures AddMonths(d, 0) == d
  {
    var r := AddMonths(d, 0);
    MonthIndexInjective(r, d);
  }

  /** Month addition composes when no clamping can happen (day 28 or earlier
      exists in every month). */
  lemma AddMonthsCompose(d: Date, i: int, j: int)
    requires Valid(d) && d.day <= 28
    ensures AddMonths(AddMonths(d, i), j) == AddMonths(d, i + j)
  {
    var a := AddMonths(AddMonths(d, i), j);
    var b := AddMonths(d, i + j);
    MonthIndexInjective(a, b);
  }

  /** Adding more months always gives a strictly later date. */
  lemma AddMonthsIncreasing(d: Date, i: int, j: int)
    requires Valid(d) && i < j
    ensures Before(AddMonths(d, i), AddMonths(d, j))
    ensures DayNumber(AddMonths(d, i)) < DayNumber(AddMonths(d, j))
  {
    MonthIndexOrder(AddMonths(d, i), AddMonths(d, j));
    DayNumberOrder(AddMonths(d, i), AddMonths(d, j));
  }

  // ---------------------------------------------------------------------------
  // Day ordinals
  // ---------------------------------------------------------------------------

  /** Days in the years before `y` (counted from year 1, as Python's date ordinal). */
  function DaysBeforeYear(y: int): int {
    var p := y - 1;
    p * 365 + p / 4 - p / 100 + p / 400
  }

  /** Days in the months of year `y` before month `m`. */
  function DaysBeforeMonth(y: int, m: int): int
    requires 1 <= m <= 13
  {
    if m == 1 then 0 else DaysBeforeMonth(y, m - 1) + DaysInMonth(y, m - 1)
  }

  /** The day ordinal: 1 on 0001-01-01, one more on each following day. The
      number of whole days from `a` to `b` is DayNumber(b) - DayNumber(a). */
  function DayNumber(d: Date): int
    requires 1 <= d.month <= 12
  {
    DaysBeforeYear(d.year) + DaysBeforeMonth(d.year, d.month) + d.day
  }

  /** The calendar day after `d`. */
  function NextDay(d: Date): Date
    requires Valid(d)
  {
    if d.day < DaysInMonth(d.year, d.month) then Date(d.year, d.month, d.day + 1)
    else if d.month < 12 then Date(d.year, d.month + 1, 1)
    else Date(d.year + 1, 1, 1)
  }

  /** Each year contributes its own length to the days before the next one. */
  lemma DaysBeforeYearStep(y: int)
    ensures DaysBeforeYear(y + 1) == DaysBeforeYear(y) + DaysInYear(y)
  {
    // floor division steps up by one exactly at the multiples of the divisor
    var p := y - 1;
    assert y / 4 == p / 4 + (if y % 4 == 0 then 1 else 0);
    assert y / 100 == p / 100 + (if y % 100 == 0 then 1 else 0);
    assert y / 400 == p / 400 + (if y % 400 == 0 then 1 else 0);
  }

  /** Days before a later year cover at least the whole of an earlier year. */
  lemma {:induction false} DaysBeforeYearGap(y1: int, y2: int)
    requires y1 < y2
    ensures DaysBeforeYear(y1) + DaysInYear(y1) <= DaysBeforeYear(y2)
    decreases y2 - y1
  {
    DaysBeforeYearStep(y1);
    if y1 + 1 < y2 {
      DaysBeforeYearGap(y1 + 1, y2);
    }
  }

  /** The twelve months make up the whole year. */
  lemma MonthsMakeYear(y: int)
    ensures DaysBeforeMonth(y, 13) == DaysInYear(y)
  {
    var feb := DaysInMonth(y, 2);
    assert DaysBeforeMonth(y, 2) == 31;
    assert DaysBeforeMonth(y, 3) == 31 + feb;
    assert DaysBeforeMonth(y, 4) == 62 + feb;
    assert DaysBeforeMonth(y, 5) == 92 + feb;
    assert DaysBeforeMonth(y, 6) == 123 + feb;
    assert DaysBeforeMonth(y, 7) == 153 + feb;
    assert DaysBeforeMonth(y, 8) == 184 + feb;
    assert DaysBeforeMonth(y, 9) == 215 + feb;
    assert DaysBeforeMonth(y, 10) == 245 + feb;
    assert DaysBeforeMonth(y, 11) == 276 + feb;
    assert DaysBeforeMonth(y, 12) == 306 + feb;
    assert DaysBeforeMonth(y, 13) == 337 + feb;
  }

  /** Days before a later month cover at least the whole of an earlier month. */
  lemma {:induction false} DaysBeforeMonthGap(y: int, m1: int, m2: int)
    requires 1 <= m1 < m2 <= 13
    ensures DaysBeforeMonth(y, m1) + DaysInMonth(y, m1) <= DaysBeforeMonth(y, m2)
    decreases m2
  {
    if m1 + 1 < m2 {
      DaysBeforeMonthGap(y, m1, m2 - 1);
    }
  }

  /** A date's ordinal stays within its own year. */
  lemma DayNumberWithinYear(d: Date)
    requires Valid(d)
    ensures DaysBeforeYear(d.year) < DayNumber(d) <= DaysBeforeYear(d.year) + DaysInYear(d.year)
  {
    MonthsMakeYear(d.year);
    DaysBeforeMonthGap(d.year, d.month, 13);
    if d.month > 1 {
      DaysBeforeMonthGap(d.year, 1, d.month);
    }
  }

  /** Chronological order and ordinal order agree on valid dates. */
  lemma DayNumberOrder(a: Date, b: Date)
    requires Valid(a) && Valid(b)
    ensures Before(a, b) <==> DayNumber(a) < DayNumber(b)
  {
    if a.year < b.year {
      DayNumberIncreasing(a, b);
    } else if b.year < a.year {
      DayNumberIncreasing(b, a);
    } else if a.month < b.month {
      DaysBeforeMonthGap(a.year, a.month, b.month);
    } else if b.month < a.month {
      DaysBeforeMonthGap(a.year, b.month, a.month);
    }
  }

  lemma DayNumberIncreasing(a: Date, b: Date)
    requires Valid(a) && Valid(b) && a.year < b.year
    ensures DayNumber(a) < DayNumber(b)
  {
    DayNumberWithinYear(a);
    DayNumberWithinYear(b);
    DaysBeforeYearGap(a.year, b.year);
  }

  /** The ordinal counts days: the next calendar day has the next ordinal. */
  lemma DayNumberNextDay(d: Date)
    requires Valid(d)
    ensures Valid(NextDay(d))
    ensures DayNumber(NextDay(d)) == DayNumber(d) + 1
  {
    if d.day == DaysInMonth(d.year, d.month) && d.month == 12 {
      MonthsMakeYear(d.year);
      DaysBeforeYearStep(d.year);
    }
  }

  /** The ordinal agrees with Python's `date.toordinal` on its first day. */
  lemma DayNumberEpoch()
    ensures DayNumber(Date(1, 1, 1)) == 1
  {
  }

  /** A sale on 31 January 2024 falls due on 29 February (leap year, clamped),
      31 March and 30 April (clamped). */
  lemma MonthEndExamples()
    ensures AddMonths(Date(2024, 1, 31), 1) == Date(2024, 2, 29)
    ensures AddMonths(Date(2024, 1, 31), 2) == Date(2024, 3, 31)
    ensures AddMonths(Date(2024, 1, 31), 3) == Date(2024, 4, 30)
    ensures AddMonths(Date(2023, 1, 31), 1) == Date(2023, 2, 28)
    ensures AddMonths(Date(2024, 11, 15), 14) == Date(2026, 1, 15)
  {
  }

}
