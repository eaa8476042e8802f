/** The parts of Python's `datetime.date` the address book relies on: the
    proleptic Gregorian calendar over years 1..9999, comparison, `toordinal()`,
    `weekday()` and adding one day. */
module Calendar {

  datatype Date = Date(year: int, month: int, day: int)

  const MinYear := 1
  const MaxYear := 9999

  /** The first date Python can represent, 0001-01-01. */
  const MinDate := Date(MinYear, 1, 1)

  /** The last date Python can represent, 9999-12-31, and its ordinal. */
  const MaxDate := Date(MaxYear, 12, 31)
  const MaxOrdinal := 3652059

  predicate IsLeapYear(year: int) {
    year % 4 == 0 && (year % 100 != 0 || year % 400 == 0)
  }

  function DaysInMonth(month: int, year: int): int {
    if month == 2 then (if IsLeapYear(year) then 29 else 28)
    else if month == 4 || month == 6 || month == 9 || month == 11 then 30
    else 31
  }

  function DaysInYear(year: int): int {
    if IsLeapYear(year) then 366 else 365
  }

  /** What `date(year, month, day)` accepts without raising ValueError. */
  predicate ValidDate(d: Date) {
    MinYear <= d.year <= MaxYear && 1 <= d.month <= 12 && 1 <= d.day <= DaysInMonth(d.month, d.year)
  }

  /** A date Python can hold. */
  type CalendarDate = d: Date | ValidDate(d) witness Date(1, 1, 1)

  /** `a < b` on dates: Python compares (year, month, day) lexicographically. */
  predicate Before(a: Date, b: Date) {
    a.year < b.year || (a.year == b.year && (a.month < b.month || (a.month == b.month && a.day < b.day)))
  }

  /** `a <= b` on dates. */
  predicate NotAfter(a: Date, b: Date) {
    !Before(b, a)
  }

  function DaysBeforeYear(year: int): int
    requires year >= 1
  {
    var y := year - 1;
    y * 365 + y / 4 - y / 100 + y / 400
  }

  function DaysBeforeMonth(month: int, year: int): int
    requires 1 <= month <= 12
  {
    var common := [0, 31, 59, 90, 120, 151, 181, 212, 243, 273, 304, 334];
    common[month - 1] + (if month > 2 && IsLeapYear(year) then 1 else 0)
  }

  /** `date.toordinal()`: 0001-01-01 is day 1. */
  function ToOrdinal(d: Date): (n: int)
    requires ValidDate(d)
    ensures n >= 1
  {
    DaysBeforeYear(d.year) + DaysBeforeMonth(d.month, d.year) + d.day
  }

  /** `date.weekday()`: Monday is 0 and Sunday is 6 (0001-01-01 was a Monday). */
  function Weekday(d: Date): (w: int)
    requires ValidDate(d)
    ensures 0 <= w <= 6
  {
    (ToOrdinal(d) + 6) % 7
  }

  /** The ordinal count of a year is the count of the year before plus that year's length. */
  lemma YearStep(year: int)
    requires year >= 1
    ensures DaysBeforeYear(year + 1) == DaysBeforeYear(year) + DaysInYear(year)
  {
    var y := year - 1;
    assert year / 4 == y / 4 + (if year % 4 == 0 then 1 else 0);
    assert year / 100 == y / 100 + (if year % 100 == 0 then 1 else 0);
    assert year / 400 == y / 400 + (if year % 400 == 0 then 1 else 0);
  }

  lemma {:induction false} DaysBeforeYearGrows(a: int, b: int)
    requires 1 <= a < b
    ensures DaysBeforeYear(a) + DaysInYear(a) <= DaysBeforeYear(b)
    decreases b - a
  {
    YearStep(a);
    if a + 1 < b {
      DaysBeforeYearGrows(a + 1, b);
    }
  }

  /** A valid date's ordinal lies within its year's block of ordinals. */
  lemma OrdinalWithinYear(d: Date)
    requires ValidDate(d)
    ensures DaysBeforeYear(d.year) < ToOrdinal(d) <= DaysBeforeYear(d.year) + DaysInYear(d.year)
  {
  }

  /** A valid date's ordinal lies within its month's block of ordinals. */
  lemma OrdinalWithinMonth(d: Date, m: int)
    requires ValidDate(d) && d.month < m <= 12
    ensures ToOrdinal(d) <= DaysBeforeYear(d.year) + DaysBeforeMonth(m, d.year)
  {
  }

  /** Comparing dates is comparing their ordinals, so `toordinal` is an
      order-preserving bijection between valid dates and 1..MaxOrdinal. */
  lemma OrdinalOrder(a: Date, b: Date)
    requires ValidDate(a) && ValidDate(b)
    ensures Before(a, b) <==> ToOrdinal(a) < ToOrdinal(b)
    ensures a == b <==> ToOrdinal(a) == ToOrdinal(b)
    ensures 1 <= ToOrdinal(a) <= MaxOrdinal
  {
    if Before(a, b) {
      OrdinalBefore(a, b);
    } else if Before(b, a) {
      OrdinalBefore(b, a);
    }
    OrdinalWithinYear(a);
    if a.year < MaxYear {
      DaysBeforeYearGrows(a.year, MaxYear);
    }
  }

  lemma OrdinalBefore(a: Date, b: Date)
    requires ValidDate(a) && ValidDate(b) && Before(a, b)
    ensures ToOrdinal(a) < ToOrdinal(b)
  {
    if a.year < b.year {
      OrdinalWithinYear(a);
      OrdinalWithinYear(b);
      DaysBeforeYearGrows(a.year, b.year);
    } else if a.month < b.month {
      OrdinalWithinMonth(a, b.month);
    }
  }

  lemma MonthStep(month: int, year: int)
    requires 1 <= month < 12
    ensures DaysBeforeMonth(month + 1, year) == DaysBeforeMonth(month, year) + DaysInMonth(month, year)
  {
  }

  /** The day after the last day of a month other than December is the
      first of the next month. */
  lemma MonthEndStep(d: Date)
    requires ValidDate(d) && d.day == DaysInMonth(d.month, d.year) && d.month < 12
    ensures ValidDate(Date(d.year, d.month + 1, 1)) && ToOrdinal(Date(d.year, d.month + 1, 1)) == ToOrdinal(d) + 1
  {
    MonthStep(d.month, d.year);
  }

  /** The day after 31 December of a year other than the last is 1 January. */
  lemma YearEndStep(d: Date)
    requires ValidDate(d) && d != MaxDate && d.day == DaysInMonth(d.month, d.year) && d.month == 12
    ensures ValidDate(Date(d.year + 1, 1, 1)) && ToOrdinal(Date(d.year + 1, 1, 1)) == ToOrdinal(d) + 1
  {
    YearStep(d.year);
  }

  lemma WeekdayStep(o: int)
    ensures (o + 1 + 6) % 7 == ((o + 6) % 7 + 1) % 7
  {
  }

  /** `d + timedelta(days=1)`, defined for every valid date but the last. */
  function NextDay(d: Date): (r: Date)
    requires ValidDate(d) && d != MaxDate
    ensures ValidDate(r) && ToOrdinal(r) == ToOrdinal(d) + 1
    ensures Weekday(r) == (Weekday(d) + 1) % 7
  {
    WeekdayStep(ToOrdinal(d));
    if d.day < DaysInMonth(d.month, d.year) then d.(day := d.day + 1)
    else if d.month < 12 then
      MonthEndStep(d);
      Date(d.year, d.month + 1, 1)
    else
      YearEndStep(d);
      Date(d.year + 1, 1, 1)
  }

  /** 0001-01-01 is day 1 of the ordinal count. */
  lemma FirstDayIsDayOne()
    ensures ValidDate(MinDate) && ToOrdinal(MinDate) == 1
  {
  }

  /** 0001-01-01 is a Monday. */
  lemma FirstDayWeekday()
    ensures ValidDate(MinDate) && Weekday(MinDate) == 0
  {
  }

  /** The first day of the calendar, 0001-01-01, is day 1 and a Monday. */
  lemma FirstDayIsMonday()
    ensures ValidDate(MinDate) && ToOrdinal(MinDate) == 1 && Weekday(MinDate) == 0
  {
    FirstDayIsDayOne();
    FirstDayWeekday();
  }

  /** 9999-12-31 is a Friday. */
  lemma MaxDateIsFriday()
    ensures ValidDate(MaxDate) && ToOrdinal(MaxDate) == MaxOrdinal && Weekday(MaxDate) == 4
  {
  }
}
