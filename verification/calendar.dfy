/** Local calendar instants and the period anchors the recurrence reset compares:
    start of day, start of a Monday-first week and start of month. An instant is
    kept as the local calendar fields a JavaScript `Date` reports (`getFullYear`,
    `getMonth() + 1`, `getDate`, and the milliseconds since local midnight); its
    time value is counted in local milliseconds from 1970-01-01 00:00, on the
    proleptic Gregorian calendar. */
module Calendar {

  const MsPerDay: int := 86_400_000

  datatype Instant = Instant(year: int, month: int, day: int, msOfDay: int)

  predicate IsLeapYear(y: int)
  {
    y % 4 == 0 && (y % 100 != 0 || y % 400 == 0)
  }

  function DaysInMonth(y: int, m: int): (n: int)
    ensures 28 <= n <= 31
  {
    if m == 2 then (if IsLeapYear(y) then 29 else 28)
    else if m == 4 || m == 6 || m == 9 || m == 11 then 30
    else 31
  }

  predicate ValidInstant(t: Instant)
  {
    && 1 <= t.month <= 12
    && 1 <= t.day <= DaysInMonth(t.year, t.month)
    && 0 <= t.msOfDay < MsPerDay
  }

  /** Days in year `y` before the first of month `m` (1 <= m <= 13). */
  function DaysBeforeMonth(y: int, m: int): int
  {
    var leap := if m > 2 && IsLeapYear(y) then 1 else 0;
    if m <= 1 then 0
    else if m == 2 then 31
    else if m == 3 then 59 + leap
    else if m == 4 then 90 + leap
    else if m == 5 then 120 + leap
    else if m == 6 then 151 + leap
    else if m == 7 then 181 + leap
    else if m == 8 then 212 + leap
    else if m == 9 then 243 + leap
    else if m == 10 then 273 + leap
    else if m == 11 then 304 + leap
    else if m == 12 then 334 + leap
    else 365 + leap
  }

  /** Number of leap years in [0, y), counted negatively below year 0. */
  function LeapYearsBefore(y: int): int
  {
    (y - 1) / 4 - (y - 1) / 100 + (y - 1) / 400
  }

  /** Days from 1970-01-01 to the first of January of year `y`. */
  function DaysBeforeYear(y: int): int
  {
    365 * (y - 1970) + LeapYearsBefore(y) - LeapYearsBefore(1970)
  }

  /** Days from 1970-01-01 to the given calendar date. */
  function DayNumber(y: int, m: int, d: int): int
  {
    DaysBeforeYear(y) + DaysBeforeMonth(y, m) + d - 1
  }

  function DayOf(t: Instant): int
  {
    DayNumber(t.year, t.month, t.day)
  }

  /** `getTime()` in local milliseconds. */
  function Time(t: Instant): int
  {
    DayOf(t) * MsPerDay + t.msOfDay
  }

  /** Day of the week, 0 = Monday … 6 = Sunday; day 0 (1970-01-01) was a Thursday. */
  function Weekday(day: int): (w: int)
    ensures 0 <= w < 7
  {
    (day + 3) % 7
  }

  /** The weekday numbering: 1970-01-01 was a Thursday (3), 2024-03-11 a Monday (0), and
      each day's weekday follows the previous day's, Sunday (6) wrapping to Monday (0). */
  lemma WeekdayIsMondayFirst(day: int)
    ensures Weekday(DayNumber(1970, 1, 1)) == 3
    ensures Weekday(DayNumber(2024, 3, 11)) == 0
    ensures Weekday(day + 1) == (Weekday(day) + 1) % 7
  {
    assert DayNumber(2024, 3, 11) == 19793;
  }

  /** The Monday that begins the week holding `day`. */
  function WeekStartDay(day: int): (r: int)
    ensures Weekday(r) == 0
    ensures day - 6 <= r <= day
  {
    day - Weekday(day)
  }

  /** `startOfDay(t)`: local midnight at the start of `t`'s day, as a time value. */
  function StartOfDay(t: Instant): (r: int)
    ensures r % MsPerDay == 0 && r / MsPerDay == DayOf(t)
    ensures ValidInstant(t) ==> r <= Time(t) < r + MsPerDay
  {
    DayOf(t) * MsPerDay
  }

  /** `startOfWeek(t, { weekStartsOn: 1 })`: midnight of the Monday on or before `t`'s day. */
  function StartOfWeek(t: Instant): (r: int)
    ensures Weekday(r / MsPerDay) == 0 && r % MsPerDay == 0
    ensures r <= StartOfDay(t) < r + 7 * MsPerDay
  {
    WeekStartDay(DayOf(t)) * MsPerDay
  }

  /** `startOfMonth(t)`: midnight of the first day of `t`'s month. */
  function StartOfMonth(t: Instant): (r: int)
    ensures ValidInstant(t) ==> r <= StartOfDay(t) && r == StartOfDay(t) - (t.day - 1) * MsPerDay
  {
    DayNumber(t.year, t.month, 1) * MsPerDay
  }

  /** Calendar order of two dates: year, then month, then day. */
  predicate DateBefore(a: Instant, b: Instant)
  {
    || a.year < b.year
    || (a.year == b.year && a.month < b.month)
    || (a.year == b.year && a.month == b.month && a.day < b.day)
  }

  predicate SameDate(a: Instant, b: Instant)
  {
    a.year == b.year && a.month == b.month && a.day == b.day
  }

  predicate MonthBefore(a: Instant, b: Instant)
  {
    a.year < b.year || (a.year == b.year && a.month < b.month)
  }

  lemma Div4Step(y: int)
    ensures y / 4 == (y - 1) / 4 + (if y % 4 == 0 then 1 else 0)
  {
  }

  lemma Div100Step(y: int)
    ensures y / 100 == (y - 1) / 100 + (if y % 100 == 0 then 1 else 0)
  {
  }

  lemma Div400Step(y: int)
    ensures y / 400 == (y - 1) / 400 + (if y % 400 == 0 then 1 else 0)
  {
  }

  lemma Mod100Mod4(y: int)
    requires y % 100 == 0
    ensures y % 4 == 0
  {
    assert y == 4 * (25 * (y / 100));
  }

  lemma Mod400Mod100(y: int)
    requires y % 400 == 0
    ensures y % 100 == 0
  {
    assert y == 100 * (4 * (y / 400));
  }

  lemma LeapYearsStep(y: int)
    ensures LeapYearsBefore(y + 1) == LeapYearsBefore(y) + (if IsLeapYear(y) then 1 else 0)
  {
    Div4Step(y);
    Div100Step(y);
    Div400Step(y);
    if y % 100 == 0 {
      Mod100Mod4(y);
    }
    if y % 400 == 0 {
      Mod400Mod100(y);
    }
  }

  /** A year has 366 days when it is a leap year and 365 otherwise. */
  lemma YearLength(y: int)
    ensures DaysBeforeYear(y + 1) == DaysBeforeYear(y) + DaysBeforeMonth(y, 13)
  {
    LeapYearsStep(y);
  }

  lemma {:induction false} DaysBeforeYearMonotone(y1: int, y2: int)
    requires y1 < y2
    ensures DaysBeforeYear(y1 + 1) <= DaysBeforeYear(y2)
    decreases y2 - y1
  {
    if y1 + 1 < y2 {
      DaysBeforeYearMonotone(y1 + 1, y2);
      YearLength(y1 + 1);
    }
  }

  /** A valid date's day number falls inside its month and inside its year. */
  lemma DateBounds(t: Instant)
    requires ValidInstant(t)
    ensures DaysBeforeYear(t.year) + DaysBeforeMonth(t.year, t.month) <= DayOf(t)
    ensures DayOf(t) < DaysBeforeYear(t.year) + DaysBeforeMonth(t.year, t.month + 1)
    ensures DayOf(t) < DaysBeforeYear(t.year + 1)
  {
    YearLength(t.year);
  }

  /** An instant on an earlier day is earlier in time. */
  lemma EarlierDayEarlierTime(a: Instant, b: Instant)
    requires ValidInstant(a) && ValidInstant(b)
    requires DayOf(a) < DayOf(b)
    ensures Time(a) < Time(b)
  {
    assert (DayOf(a) + 1) * MsPerDay <= DayOf(b) * MsPerDay;
  }

  /** A valid date in an earlier year has a smaller day number. */
  lemma EarlierYearSmallerDay(a: Instant, b: Instant)
    requires ValidInstant(a) && ValidInstant(b)
    requires a.year < b.year
    ensures DayOf(a) < DayOf(b)
  {
    DateBounds(a);
    DateBounds(b);
    DaysBeforeYearMonotone(a.year, b.year);
  }

  /** Within one year, day numbers order valid dates by month, then day. */
  lemma SameYearDayOrder(a: Instant, b: Instant)
    requires ValidInstant(a) && ValidInstant(b)
    requires a.year == b.year
    ensures DayOf(a) < DayOf(b) <==> DateBefore(a, b)
    ensures DayOf(a) == DayOf(b) <==> SameDate(a, b)
  {
    var base := DaysBeforeYear(a.year);
    assert DayOf(a) == base + DaysBeforeMonth(a.year, a.month) + a.day - 1;
    assert DayOf(b) == base + DaysBeforeMonth(a.year, b.month) + b.day - 1;
  }

  /** Day numbers order valid dates exactly as the calendar does. */
  lemma DayNumberOrder(a: Instant, b: Instant)
    requires ValidInstant(a) && ValidInstant(b)
    ensures DayOf(a) < DayOf(b) <==> DateBefore(a, b)
    ensures DayOf(a) == DayOf(b) <==> SameDate(a, b)
  {
    if a.year < b.year {
      EarlierYearSmallerDay(a, b);
    } else if b.year < a.year {
      EarlierYearSmallerDay(b, a);
    } else {
      SameYearDayOrder(a, b);
    }
  }
}
