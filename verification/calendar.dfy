/** A small proleptic-Gregorian calendar: enough to reproduce
    `date + pd.offsets.MonthEnd(0)` and `(month_end - date).days`. */
module Calendar {

  datatype Date = Date(year: int, month: int, day: int)

  predicate IsLeapYear(y: int)
  {
    y % 4 == 0 && (y % 100 != 0 || y % 400 == 0)
  }

  function DaysInMonth(y: int, m: int): (n: int)
    requires 1 <= m <= 12
    ensures 28 <= n <= 31
    ensures m == 2 ==> (n == 29 <==> IsLeapYear(y))
  {
    if m == 2 then (if IsLeapYear(y) then 29 else 28)
    else if m == 4 || m == 6 || m == 9 || m == 11 then 30
    else 31
  }

  predicate ValidDate(d: Date)
  {
    1 <= d.year && 1 <= d.month <= 12 && 1 <= d.day <= DaysInMonth(d.year, d.month)
  }

  /** Days in the years before `y` (year 1 starts at 0). */
  function DaysBeforeYear(y: int): (n: int)
    requires y >= 1
  {
    var p := y - 1;
    365 * p + p / 4 - p / 100 + p / 400
  }

  /** Days in the months of year `y` before month `m`. */
  function DaysBeforeMonth(y: int, m: int): (n: int)
    requires 1 <= m <= 12
    decreases m
  {
    if m == 1 then 0 else DaysBeforeMonth(y, m - 1) + DaysInMonth(y, m - 1)
  }

  /** The day's ordinal; subtracting two ordinals is what a pandas
      timestamp difference's `.days` gives for midnight timestamps. */
  function DayNumber(d: Date): int
    requires ValidDate(d)
  {
    DaysBeforeYear(d.year) + DaysBeforeMonth(d.year, d.month) + d.day
  }

  lemma DaysBeforeMonthStep(y: int, m: int)
    requires 1 <= m < 12
    ensures DaysBeforeMonth(y, m + 1) == DaysBeforeMonth(y, m) + DaysInMonth(y, m)
  {
  }

  lemma DaysBeforeDecember(y: int)
    ensures DaysBeforeMonth(y, 12) + 31 == (if IsLeapYear(y) then 366 else 365)
  {
  }

  lemma YearLength(y: int)
    requires y >= 1
    ensures DaysBeforeYear(y + 1) - DaysBeforeYear(y) == (if IsLeapYear(y) then 366 else 365)
  {
    var p := y - 1;
    assert (p + 1) / 4 - p / 4 == (if y % 4 == 0 then 1 else 0);
    assert (p + 1) / 100 - p / 100 == (if y % 100 == 0 then 1 else 0);
    assert (p + 1) / 400 - p / 400 == (if y % 400 == 0 then 1 else 0);
  }

  /** The next calendar day: within the month, or the first of the next
      month, or the first of January of the next year. */
  function NextDay(d: Date): (e: Date)
    requires ValidDate(d)
    ensures ValidDate(e)
  {
    if d.day < DaysInMonth(d.year, d.month) then Date(d.year, d.month, d.day + 1)
    else if d.month < 12 then Date(d.year, d.month + 1, 1)
    else Date(d.year + 1, 1, 1)
  }

  /** The ordinal has no gaps: the next day's number is one more, also
      across month and year boundaries. */
  lemma NextDayIsOneLater(d: Date)
    requires ValidDate(d)
    ensures DayNumber(NextDay(d)) == DayNumber(d) + 1
  {
    if d.day < DaysInMonth(d.year, d.month) {
    } else if d.month < 12 {
      DaysBeforeMonthStep(d.year, d.month);
    } else {
      DaysBeforeDecember(d.year);
      YearLength(d.year);
    }
  }

  /** `date + MonthEnd(0)`: the last day of the date's own month (a date
      already on its month end stays put). */
  function MonthEnd(d: Date): (e: Date)
    requires ValidDate(d)
    ensures ValidDate(e)
    ensures e.year == d.year && e.month == d.month && d.day <= e.day
    ensures NextDay(e).month != e.month
  {
    Date(d.year, d.month, DaysInMonth(d.year, d.month))
  }

  predicate IsMonthEnd(d: Date)
    requires ValidDate(d)
  {
    d == MonthEnd(d)
  }

  /** `(month_end - date).days`: the days still ahead in the month. */
  function DaysLeftInMonth(d: Date): (n: int)
    requires ValidDate(d)
    ensures n >= 0
    ensures n == 0 <==> IsMonthEnd(d)
    ensures n == MonthEnd(d).day - d.day
  {
    DayNumber(MonthEnd(d)) - DayNumber(d)
  }
}
