/** Calendar arithmetic standing in for the dayjs values the datepicker works on.

    A `DateTime` is a proleptic Gregorian calendar date plus the seconds elapsed
    since midnight; a `Moment` is either such a value or dayjs's "invalid date".
    Comparison at a granularity (year, month, day, second) compares integer keys
    obtained by truncating the value to that unit, which is what dayjs's
    `isSame`/`isBefore`/`isAfter` with a unit argument do. Every comparison that
    involves an invalid date is false, as in dayjs. */
module Dates {
  import opened Wrappers

  const SecondsPerDay: int := 86400
  const SecondsPerHour: int := 3600
  const SecondsPerMinute: int := 60

  predicate IsLeapYear(y: int) {
    y % 4 == 0 && (y % 100 != 0 || y % 400 == 0)
  }

  function YearLength(y: int): int {
    if IsLeapYear(y) then 366 else 365
  }

  function DaysInMonth(y: int, m: int): (n: int)
    ensures 28 <= n <= 31
    ensures m == 2 ==> (n == 29 <==> IsLeapYear(y))
  {
    if m == 2 then (if IsLeapYear(y) then 29 else 28)
    else if m == 4 || m == 6 || m == 9 || m == 11 then 30
    else 31
  }

  datatype Civil = Civil(year: int, month: int, day: int)

  /** A calendar date that exists in the proleptic Gregorian calendar. */
  type Date = c: Civil | 1 <= c.month <= 12 && 1 <= c.day <= DaysInMonth(c.year, c.month)
    witness Civil(1970, 1, 1)

  /** Seconds since midnight. */
  type TimeOfDay = s: int | 0 <= s < 86400

  datatype DateTime = DateTime(date: Date, secs: TimeOfDay)

  /** A dayjs value: a valid date-time, or the distinct "invalid date" state
      that a failed parse produces. */
  datatype Moment = Valid(at: DateTime) | Invalid

  datatype Granularity = Year | Month | Day | Second

  // ---------------------------------------------------------------------------
  // Day numbers

  /** Days from 0001-01-01 to January 1st of year `y`. */
  function DaysBeforeYear(y: int): int {
    365 * (y - 1) + (y - 1) / 4 - (y - 1) / 100 + (y - 1) / 400
  }

  const CumulativeDays: seq<int> := [0, 31, 59, 90, 120, 151, 181, 212, 243, 273, 304, 334]

  /** Days from January 1st of year `y` to the first day of month `m`. */
  function DaysBeforeMonth(y: int, m: int): int
    requires 1 <= m <= 12
  {
    CumulativeDays[m - 1] + (if m > 2 && IsLeapYear(y) then 1 else 0)
  }

  /** Days from 0001-01-01 to `d` (negative before it). */
  function DayNumber(d: Date): int {
    DaysBeforeYear(d.year) + DaysBeforeMonth(d.year, d.month) + d.day - 1
  }

  /** Day of the week, 0 = Sunday .. 6 = Saturday (dayjs's `day()`).
      0001-01-01 was a Monday. */
  function Weekday(d: Date): (w: int)
    ensures 0 <= w < 7
  {
    (DayNumber(d) + 1) % 7
  }

  lemma FloorStep4(x: int)
    ensures (x + 1) / 4 == x / 4 + (if (x + 1) % 4 == 0 then 1 else 0)
  {
  }

  lemma FloorStep100(x: int)
    ensures (x + 1) / 100 == x / 100 + (if (x + 1) % 100 == 0 then 1 else 0)
  {
  }

  lemma FloorStep400(x: int)
    ensures (x + 1) / 400 == x / 400 + (if (x + 1) % 400 == 0 then 1 else 0)
  {
  }

  lemma CenturiesAreQuadrennial(y: int)
    ensures y % 100 == 0 ==> y % 4 == 0
    ensures y % 400 == 0 ==> y % 100 == 0
  {
  }

  /** A year holds exactly YearLength days. */
  lemma YearStep(y: int)
    ensures DaysBeforeYear(y + 1) == DaysBeforeYear(y) + YearLength(y)
  {
    FloorStep4(y - 1);
    FloorStep100(y - 1);
    FloorStep400(y - 1);
    CenturiesAreQuadrennial(y);
  }

  lemma MonthStep(y: int, m: int)
    requires 1 <= m < 12
    ensures DaysBeforeMonth(y, m + 1) == DaysBeforeMonth(y, m) + DaysInMonth(y, m)
  {
  }

  lemma LastMonthFillsYear(y: int)
    ensures DaysBeforeMonth(y, 12) + DaysInMonth(y, 12) == YearLength(y)
  {
  }

  /** A date's day number lies within its year. */
  lemma DayNumberInYear(d: Date)
    ensures DaysBeforeYear(d.year) <= DayNumber(d) < DaysBeforeYear(d.year + 1)
  {
    YearStep(d.year);
    MonthsBeforeEnd(d.year, d.month);
  }

  lemma MonthsBeforeEnd(y: int, m: int)
    requires 1 <= m <= 12
    ensures DaysBeforeMonth(y, m) + DaysInMonth(y, m) <= YearLength(y)
  {
  }

  lemma {:induction false} DaysBeforeYearGrows(a: int, b: int)
    requires a < b
    ensures DaysBeforeYear(a) + 365 * (b - a) <= DaysBeforeYear(b)
    decreases b - a
  {
    YearStep(b - 1);
    if a < b - 1 {
      DaysBeforeYearGrows(a, b - 1);
    }
  }

  lemma {:induction false} MonthsAreOrdered(y: int, m1: int, m2: int)
    requires 1 <= m1 < m2 <= 12
    ensures DaysBeforeMonth(y, m1) + DaysInMonth(y, m1) <= DaysBeforeMonth(y, m2)
    decreases m2 - m1
  {
    MonthStep(y, m1);
    if m1 + 1 < m2 {
      MonthsAreOrdered(y, m1 + 1, m2);
      MonthStep(y, m1 + 1);
    }
  }

  /** Chronological (lexicographic) order of calendar dates. */
  predicate Precedes(a: Date, b: Date) {
    a.year < b.year
    || (a.year == b.year && a.month < b.month)
    || (a.year == b.year && a.month == b.month && a.day < b.day)
  }

  /** Day numbers follow the calendar order. */
  lemma DayNumberMonotone(a: Date, b: Date)
    requires Precedes(a, b)
    ensures DayNumber(a) < DayNumber(b)
  {
    if a.year < b.year {
      DayNumberInYear(a);
      DayNumberInYear(b);
      if a.year + 1 < b.year {
        DaysBeforeYearGrows(a.year + 1, b.year);
      }
    } else if a.month < b.month {
      MonthsAreOrdered(a.year, a.month, b.month);
    }
  }

  /** Distinct dates have distinct day numbers. */
  lemma DayNumberInjective(a: Date, b: Date)
    ensures DayNumber(a) == DayNumber(b) <==> a == b
  {
    if Precedes(a, b) {
      DayNumberMonotone(a, b);
    } else if Precedes(b, a) {
      DayNumberMonotone(b, a);
    }
  }

  /** An earlier month (year*12+month) holds only earlier days. */
  lemma MonthOrderRefinesDayOrder(a: Date, b: Date)
    requires a.year * 12 + a.month < b.year * 12 + b.month
    ensures DayNumber(a) < DayNumber(b)
  {
    DayNumberMonotone(a, b);
  }

  /** An earlier year holds only earlier months and days. */
  lemma YearOrderRefinesMonthOrder(a: Date, b: Date)
    requires a.year < b.year
    ensures a.year * 12 + a.month < b.year * 12 + b.month
  {
  }

  // ---------------------------------------------------------------------------
  // Day, month and second arithmetic

  /** The following calendar day (dayjs `add(1, 'day')`). */
  function NextDay(d: Date): (r: Date)
    ensures DayNumber(r) == DayNumber(d) + 1
  {
    if d.day < DaysInMonth(d.year, d.month) then
      Civil(d.year, d.month, d.day + 1)
    else if d.month < 12 then
      MonthStep(d.year, d.month);
      Civil(d.year, d.month + 1, 1)
    else
      LastMonthFillsYear(d.year);
      YearStep(d.year);
      Civil(d.year + 1, 1, 1)
  }

  /** The preceding calendar day (dayjs `subtract(1, 'day')`). */
  function PrevDay(d: Date): (r: Date)
    ensures DayNumber(r) == DayNumber(d) - 1
  {
    if d.day > 1 then
      Civil(d.year, d.month, d.day - 1)
    else if d.month > 1 then
      MonthStep(d.year, d.month - 1);
      Civil(d.year, d.month - 1, DaysInMonth(d.year, d.month - 1))
    else
      LastMonthFillsYear(d.year - 1);
      YearStep(d.year - 1);
      Civil(d.year - 1, 12, 31)
  }

  /** `d` moved by `n` days in either direction. */
  function AddDays(d: Date, n: int): (r: Date)
    ensures DayNumber(r) == DayNumber(d) + n
    decreases if n < 0 then -n else n
  {
    if n == 0 then d
    else if n > 0 then NextDay(AddDays(d, n - 1))
    else PrevDay(AddDays(d, n + 1))
  }

  /** Moving forward and back by the same number of days is the identity. */
  lemma AddDaysInverse(d: Date, n: int)
    ensures AddDays(AddDays(d, n), -n) == d
  {
    DayNumberInjective(AddDays(AddDays(d, n), -n), d);
  }

  /** The weekday advances by one per day, modulo 7. */
  lemma WeekdayAfter(d: Date, n: int)
    ensures Weekday(AddDays(d, n)) == (Weekday(d) + n) % 7
  {
    WeekdayShift(d, AddDays(d, n));
  }

  /** The weekday of `b` is that of `a` advanced by the days between them. */
  lemma WeekdayShift(a: Date, b: Date)
    ensures Weekday(b) == (Weekday(a) + (DayNumber(b) - DayNumber(a))) % 7
  {
    var x := DayNumber(a) + 1;
    var n := DayNumber(b) - DayNumber(a);
    ModSeven(x % 7 + n, x / 7);
    assert x + n == 7 * (x / 7) + (x % 7 + n);
  }

  lemma ModSeven(z: int, q: int)
    ensures (7 * q + z) % 7 == z % 7
  {
  }

  function Min(a: int, b: int): int {
    if a <= b then a else b
  }

  /** Index of a month counted from year 0 (dayjs compares months this way). */
  function MonthIndex(d: Date): int {
    d.year * 12 + d.month - 1
  }

  /** `t` moved by `n` calendar months, the day of month clamped to the target
      month's length (dayjs `add(n, 'month')`). */
  function AddMonths(t: DateTime, n: int): (r: DateTime)
    ensures MonthIndex(r.date) == MonthIndex(t.date) + n
    ensures r.secs == t.secs
    ensures r.date.day == Min(t.date.day, DaysInMonth(r.date.year, r.date.month))
  {
    var total := MonthIndex(t.date) + n;
    var y := total / 12;
    var m := total % 12 + 1;
    DateTime(Civil(y, m, Min(t.date.day, DaysInMonth(y, m))), t.secs)
  }

  /** `t` moved by `n` seconds, carrying into the date (dayjs `add(n, 'second')`
      on a calendar without daylight-saving jumps). */
  function AddSeconds(t: DateTime, n: int): (r: DateTime)
    ensures Key(r, Second) == Key(t, Second) + n
  {
    var total := t.secs + n;
    DateTime(AddDays(t.date, total / SecondsPerDay), total % SecondsPerDay)
  }

  /** Midnight starting the month of `t` (dayjs `startOf('month')`). */
  function StartOfMonth(t: DateTime): (r: DateTime)
    ensures MonthIndex(r.date) == MonthIndex(t.date) && r.date.day == 1 && r.secs == 0
  {
    DateTime(Civil(t.date.year, t.date.month, 1), 0)
  }

  /** Midnight starting January 1st of year `y`. */
  function StartOfYear(y: int): (r: DateTime)
    ensures r.date.year == y && r.date.month == 1 && r.date.day == 1 && r.secs == 0
  {
    DateTime(Civil(y, 1, 1), 0)
  }

  // ---------------------------------------------------------------------------
  // Comparison at a granularity

  /** The value of `t` truncated to unit `g`, as one integer. */
  function Key(t: DateTime, g: Granularity): int {
    match g
    case Year => t.date.year
    case Month => MonthIndex(t.date)
    case Day => DayNumber(t.date)
    case Second => DayNumber(t.date) * SecondsPerDay + t.secs
  }

  /** dayjs `a.isSame(b, g)`. */
  predicate IsSame(a: Moment, b: Moment, g: Granularity) {
    a.Valid? && b.Valid? && Key(a.at, g) == Key(b.at, g)
  }

  /** dayjs `a.isBefore(b, g)`. */
  predicate IsBefore(a: Moment, b: Moment, g: Granularity) {
    a.Valid? && b.Valid? && Key(a.at, g) < Key(b.at, g)
  }

  /** dayjs `a.isAfter(b, g)`. */
  predicate IsAfter(a: Moment, b: Moment, g: Granularity) {
    a.Valid? && b.Valid? && Key(a.at, g) > Key(b.at, g)
  }

  /** Two date-times are the same day exactly when their dates are equal. */
  lemma SameDayIsSameDate(a: DateTime, b: DateTime)
    ensures Key(a, Day) == Key(b, Day) <==> a.date == b.date
  {
    DayNumberInjective(a.date, b.date);
  }

  /** Two date-times are the same month exactly when year and month agree. */
  lemma SameMonthIsSameYearAndMonth(a: DateTime, b: DateTime)
    ensures Key(a, Month) == Key(b, Month) <==> a.date.year == b.date.year && a.date.month == b.date.month
  {
  }

  /** Comparison at the second is comparison of the whole value. */
  lemma SameSecondIsEqual(a: DateTime, b: DateTime)
    ensures Key(a, Second) == Key(b, Second) <==> a == b
  {
    if Key(a, Second) == Key(b, Second) {
      assert DayNumber(a.date) == DayNumber(b.date);
      DayNumberInjective(a.date, b.date);
    }
  }

  /** Adding then subtracting the same number of seconds is the identity. */
  lemma AddSecondsInverse(t: DateTime, n: int)
    ensures AddSeconds(AddSeconds(t, n), -n) == t
  {
    SameSecondIsEqual(AddSeconds(AddSeconds(t, n), -n), t);
  }

  // ---------------------------------------------------------------------------
  // Text

  /** The format/parse half of dayjs, left abstract: `render(t, fmt)` is
      `t.format(fmt)`, `parseStrict(s, fmt)` is `dayjs(s, fmt, true)` and
      `parseLoose(s, fmt)` is `dayjs(s, fmt)`, each parse yielding None where
      dayjs yields an invalid date. */
  datatype Codec = Codec(
    render: (DateTime, string) -> string,
    parseStrict: (string, string) -> Option<DateTime>,
    parseLoose: (string, string) -> Option<DateTime>)

  /** What dayjs's `format` returns for an invalid date. */
  const InvalidDateText: string := "Invalid Date"

  /** dayjs `m.format(fmt)`. */
  function Format(c: Codec, m: Moment, fmt: string): (r: string)
    ensures m.Invalid? ==> r == InvalidDateText
    ensures m.Valid? ==> r == c.render(m.at, fmt)
  {
    match m
    case Valid(t) => c.render(t, fmt)
    case Invalid => InvalidDateText
  }

  function ToMoment(p: Option<DateTime>): (m: Moment)
    ensures m.Valid? <==> p.Some?
    ensures p.Some? ==> m.at == p.value
  {
    match p
    case Some(t) => Valid(t)
    case None => Invalid
  }

  /** A format whose strict parse reads back every rendered value, and whose
      rendering is never empty. */
  ghost predicate RoundTrips(c: Codec, fmt: string) {
    forall t: DateTime :: c.parseStrict(c.render(t, fmt), fmt) == Some(t) && c.render(t, fmt) != ""
  }
}
