/** The proleptic Gregorian calendar arithmetic that JavaScript's `Date` performs
    (the abstract operations of section 21.4.1 of ECMA-262; time values are
    section 21.4.1.1, "Time Values and Time Range"), in local time.
    A time value is an integer count of milliseconds; day 0 is 1 January 1970.
    Time zones and daylight saving are not modelled: local time is the only time. */
module Calendar {
  const MsPerDay: int := 86_400_000
  /** TimeClip's bound: 100,000,000 days either side of the epoch, in ms. */
  const MaxTimeMs: int := 8_640_000_000_000_000

  /** A `Date` object's time value: a finite count of ms, or NaN ("Invalid Date"). */
  datatype TimeValue = Finite(ms: int) | NaN

  /** A broken-down calendar date. `month` is 0-based, as `getMonth` returns it;
      `day` is the 1-based day of the month, as `getDate` returns it. */
  datatype Date = Date(year: int, month: int, day: int)

  predicate IsLeapYear(y: int) {
    y % 4 == 0 && (y % 100 != 0 || y % 400 == 0)
  }

  /** The day number of 1 January of year `y` (ECMA-262 DayFromYear). */
  function DayFromYear(y: int): int {
    365 * (y - 1970) + (y - 1969) / 4 - (y - 1901) / 100 + (y - 1601) / 400
  }

  /** The length of year `y`: the gap between two consecutive DayFromYear values
      is 366 exactly in the Gregorian leap years. */
  function DaysInYear(y: int): (n: int)
    ensures n == if IsLeapYear(y) then 366 else 365
  {
    LeapYearSteps(y);
    LeapDivisors(y);
    DayFromYear(y + 1) - DayFromYear(y)
  }

  /** A multiple of 400 is one of 100, and a multiple of 100 one of 4. */
  lemma LeapDivisors(y: int)
    ensures y % 400 == 0 ==> y % 100 == 0
    ensures y % 100 == 0 ==> y % 4 == 0
  {
    if y % 400 == 0 {
      var k := y / 400 * 4;
      assert y == k * 100;
    }
    if y % 100 == 0 {
      var k := y / 100 * 25;
      assert y == k * 4;
    }
  }

  /** How each of DayFromYear's three leap corrections steps from `y` to `y + 1`. */
  lemma LeapYearSteps(y: int)
    ensures (y - 1968) / 4 == (y - 1969) / 4 + (if y % 4 == 0 then 1 else 0)
    ensures (y - 1900) / 100 == (y - 1901) / 100 + (if y % 100 == 0 then 1 else 0)
    ensures (y - 1600) / 400 == (y - 1601) / 400 + (if y % 400 == 0 then 1 else 0)
  {
    assert (y - 1968) % 4 == y % 4;
    assert (y - 1900) % 100 == y % 100;
    assert (y - 1600) % 400 == y % 400;
  }

  /** Days before the first of each month of a common year, and the year's length. */
  const CumulativeDays: seq<int> := [0, 31, 59, 90, 120, 151, 181, 212, 243, 273, 304, 334, 365]

  /** Days of year `y` before the first of month `m` (0-based); `m == 12` gives the year's length. */
  function DaysBeforeMonth(y: int, m: int): (n: int)
    requires 0 <= m <= 12
    ensures m == 12 ==> n == DaysInYear(y)
  {
    CumulativeDays[m] + (if m >= 2 && IsLeapYear(y) then 1 else 0)
  }

  function DaysInMonth(y: int, m: int): (n: int)
    requires 0 <= m < 12
    ensures 28 <= n <= 31
    ensures m == 1 ==> (n == 29 <==> IsLeapYear(y))
  {
    DaysBeforeMonth(y, m + 1) - DaysBeforeMonth(y, m)
  }

  predicate ValidDate(d: Date) {
    0 <= d.month < 12 && 1 <= d.day <= DaysInMonth(d.year, d.month)
  }

  /** The day number of a date whose month is in range. */
  function DayNumber(d: Date): int
    requires 0 <= d.month < 12
  {
    DayFromYear(d.year) + DaysBeforeMonth(d.year, d.month) + d.day - 1
  }

  /** ECMA-262 MakeDay: the day number of day `date` of month `month` of `year`,
      where an out-of-range month carries into the year and an out-of-range day
      carries into the following or preceding months (Dafny's `/` and `%` by a
      positive divisor are the floor and the modulo the standard asks for). */
  function MakeDay(year: int, month: int, date: int): int {
    DayNumber(Date(year + month / 12, month % 12, date))
  }

  /** ECMA-262 MakeDate: a day number and a time of day to a time value. */
  function MakeDate(day: int, time: int): int {
    day * MsPerDay + time
  }

  /** ECMA-262 Day: the day number a time value falls on (floor division). */
  function Day(t: int): int {
    t / MsPerDay
  }

  /** ECMA-262 TimeWithinDay: milliseconds since midnight. */
  function TimeWithinDay(t: int): (ms: int)
    ensures 0 <= ms < MsPerDay && MakeDate(Day(t), ms) == t
  {
    t % MsPerDay
  }

  /** MakeDate and Day, TimeWithinDay undo each other. */
  lemma MakeDateParts(day: int, time: int)
    requires 0 <= time < MsPerDay
    ensures Day(MakeDate(day, time)) == day && TimeWithinDay(MakeDate(day, time)) == time
    ensures time == 0 ==> MakeDate(day, time) % MsPerDay == 0
  {
  }

  /** ECMA-262 TimeClip: a time value beyond 8.64e15 ms either way is NaN. */
  function TimeClip(t: int): (v: TimeValue)
    ensures v.Finite? <==> -MaxTimeMs <= t <= MaxTimeMs
    ensures v.Finite? ==> v.ms == t
  {
    if -MaxTimeMs <= t <= MaxTimeMs then Finite(t) else NaN
  }

  /** A time value TimeClip keeps. */
  predicate IsTimeValue(t: int) {
    -MaxTimeMs <= t <= MaxTimeMs
  }

  /** The Date constructor's year rule: years 0 to 99 stand for 1900 to 1999. */
  function MakeFullYear(year: int): int {
    if 0 <= year <= 99 then 1900 + year else year
  }

  /** `new Date(year, month, date)` in local time (ECMA-262 section 21.4.2.1):
      midnight of that day, after MakeDay's carries, or NaN out of range. */
  function NewDate(year: int, month: int, date: int): TimeValue {
    TimeClip(MakeDate(MakeDay(MakeFullYear(year), month, date), 0))
  }

  /** `setDate(dt)` on a Date holding `tv` (ECMA-262 section 21.4.4.20): the same
      time of day on day `dt` of the same month and year, with carries. The result
      moves the time value by whole days: `dt` minus the current day of the month. */
  function SetDate(tv: TimeValue, dt: int): (r: TimeValue)
    ensures tv.NaN? ==> r.NaN?
    ensures tv.Finite? ==> r == TimeClip(tv.ms + (dt - CivilFromTime(tv.ms).day) * MsPerDay)
  {
    match tv
    case NaN => NaN
    case Finite(t) =>
      var c := CivilFromTime(t);
      MakeDayInMonth(c, dt);
      MakeDateShift(t, dt - c.day);
      TimeClip(MakeDate(MakeDay(c.year, c.month, dt), TimeWithinDay(t)))
  }

  /** MakeDay on the year and month of a valid date counts from that date. */
  lemma MakeDayInMonth(c: Date, dt: int)
    requires ValidDate(c)
    ensures MakeDay(c.year, c.month, dt) == DayNumber(c) + dt - c.day
  {
    assert c.month / 12 == 0 && c.month % 12 == c.month;
    assert Date(c.year + c.month / 12, c.month % 12, dt) == Date(c.year, c.month, dt);
  }

  /** Keeping the time of day and moving the day by `k` moves the time value by `k` days. */
  lemma MakeDateShift(t: int, k: int)
    ensures MakeDate(Day(t) + k, TimeWithinDay(t)) == t + k * MsPerDay
  {
    assert MakeDate(Day(t), TimeWithinDay(t)) == t;
  }

  // ---------------------------------------------------------------------------
  // Day numbers back to calendar dates
  // ---------------------------------------------------------------------------

  /** Walks forward year by year from 1 January of `y` over `r` days; returns the
      year reached and the 0-based day within it. */
  function YearScan(y: int, r: nat): (p: (int, int))
    ensures y <= p.0 && 0 <= p.1 < DaysInYear(p.0)
    ensures DayFromYear(p.0) + p.1 == DayFromYear(y) + r
    decreases r
  {
    if r < DaysInYear(y) then (y, r) else YearScan(y + 1, r - DaysInYear(y))
  }

  /** Walks forward month by month from the first of month `m` of year `y` over
      `t` days, staying within the year. */
  function MonthScan(y: int, m: int, t: int): (d: Date)
    requires 0 <= m < 12 && 0 <= t && DaysBeforeMonth(y, m) + t < DaysInYear(y)
    ensures d.year == y && ValidDate(d) && m <= d.month
    ensures DaysBeforeMonth(y, d.month) + d.day - 1 == DaysBeforeMonth(y, m) + t
    decreases 12 - m
  {
    if t < DaysInMonth(y, m) then Date(y, m, t + 1)
    else MonthScan(y, m + 1, t - DaysInMonth(y, m))
  }

  /** YearFromTime, MonthFromTime and DateFromTime of ECMA-262, from a day number:
      the valid calendar date whose day number is `n`. */
  function CivilFromDays(n: int): (d: Date)
    ensures ValidDate(d) && DayNumber(d) == n
  {
    var q := n / 146097;
    DayFromYearCycles(q);
    var p := YearScan(1970 + 400 * q, n % 146097);
    var d := MonthScan(p.0, 0, p.1);
    d
  }

  /** The calendar date a time value falls on. */
  function CivilFromTime(t: int): (d: Date)
    ensures ValidDate(d) && DayNumber(d) == Day(t)
  {
    CivilFromDays(Day(t))
  }

  // ---------------------------------------------------------------------------
  // Lemmas
  // ---------------------------------------------------------------------------

  /** Every 400 years the Gregorian calendar repeats: 146097 days. */
  lemma DayFromYear400(y: int)
    ensures DayFromYear(y + 400) == DayFromYear(y) + 146097
  {
    assert (y + 400 - 1969) / 4 == (y - 1969) / 4 + 100;
    assert (y + 400 - 1901) / 100 == (y - 1901) / 100 + 4;
    assert (y + 400 - 1601) / 400 == (y - 1601) / 400 + 1;
  }

  lemma {:induction false} DayFromYearCycles(q: int)
    ensures DayFromYear(1970 + 400 * q) == 146097 * q
    decreases if q < 0 then -q else q
  {
    if q > 0 {
      DayFromYearCycles(q - 1);
      DayFromYear400(1970 + 400 * (q - 1));
    } else if q < 0 {
      DayFromYearCycles(q + 1);
      DayFromYear400(1970 + 400 * q);
    }
  }

  /** DayFromYear grows by 365 or 366 days a year. */
  lemma {:induction false} DayFromYearGrows(a: int, b: int)
    requires a <= b
    ensures DayFromYear(a) + 365 * (b - a) <= DayFromYear(b) <= DayFromYear(a) + 366 * (b - a)
    decreases b - a
  {
    if a < b {
      DayFromYearGrows(a, b - 1);
      assert 365 <= DaysInYear(b - 1) <= 366;
    }
  }

  lemma DaysBeforeMonthGrows(y: int, i: int, j: int)
    requires 0 <= i <= j <= 12
    ensures DaysBeforeMonth(y, i) <= DaysBeforeMonth(y, j)
    ensures i < j ==> DaysBeforeMonth(y, i + 1) <= DaysBeforeMonth(y, j)
  {
  }

  /** A valid date's day number lies within its own year. */
  lemma DayNumberWithinYear(d: Date)
    requires ValidDate(d)
    ensures DayFromYear(d.year) <= DayNumber(d) < DayFromYear(d.year + 1)
  {
    DaysBeforeMonthGrows(d.year, d.month + 1, 12);
  }

  /** Calendar order: earlier year, else earlier month, else earlier day. */
  predicate Before(a: Date, b: Date) {
    a.year < b.year || (a.year == b.year && (a.month < b.month || (a.month == b.month && a.day < b.day)))
  }

  /** Day numbers follow calendar order. */
  lemma DayNumberMonotone(a: Date, b: Date)
    requires ValidDate(a) && ValidDate(b) && Before(a, b)
    ensures DayNumber(a) < DayNumber(b)
  {
    if a.year < b.year {
      EarlierYear(a, b);
    } else if a.month < b.month {
      EarlierMonth(a, b);
    }
  }

  lemma EarlierYear(a: Date, b: Date)
    requires ValidDate(a) && ValidDate(b) && a.year < b.year
    ensures DayNumber(a) < DayNumber(b)
  {
    DayNumberWithinYear(a);
    DayNumberWithinYear(b);
    DayFromYearGrows(a.year + 1, b.year);
  }

  lemma EarlierMonth(a: Date, b: Date)
    requires ValidDate(a) && ValidDate(b) && a.year == b.year && a.month < b.month
    ensures DayNumber(a) < DayNumber(b)
  {
    var y := a.year;
    assert a.day <= DaysBeforeMonth(y, a.month + 1) - DaysBeforeMonth(y, a.month);
    DaysBeforeMonthGrows(y, a.month + 1, b.month);
  }

  /** Distinct valid dates have distinct day numbers. */
  lemma DayNumberInjective(a: Date, b: Date)
    requires ValidDate(a) && ValidDate(b) && DayNumber(a) == DayNumber(b)
    ensures a == b
  {
    if Before(a, b) {
      DayNumberMonotone(a, b);
      assert false;
    } else if Before(b, a) {
      DayNumberMonotone(b, a);
      assert false;
    }
  }

  /** For valid dates, comparing day numbers is comparing calendar order. */
  lemma DayNumberOrder(a: Date, b: Date)
    requires ValidDate(a) && ValidDate(b)
    ensures DayNumber(a) < DayNumber(b) <==> Before(a, b)
  {
    if Before(a, b) {
      DayNumberMonotone(a, b);
    } else if Before(b, a) {
      DayNumberMonotone(b, a);
    } else {
      assert a == b;
    }
  }

  /** Round trip: converting a valid date to its day number and back gives it again. */
  lemma CivilFromDayNumber(d: Date)
    requires ValidDate(d)
    ensures CivilFromDays(DayNumber(d)) == d
  {
    DayNumberInjective(CivilFromDays(DayNumber(d)), d);
  }

  /** `new Date(y, m, d)` for a valid date outside the years 0 to 99 is the
      midnight of that date, when it lies in range. */
  lemma NewDateOfCivil(d: Date)
    requires ValidDate(d) && !(0 <= d.year <= 99)
    requires IsTimeValue(DayNumber(d) * MsPerDay)
    ensures NewDate(d.year, d.month, d.day) == Finite(DayNumber(d) * MsPerDay)
  {
    assert d.month / 12 == 0 && d.month % 12 == d.month;
    assert MakeDay(d.year, d.month, d.day) == DayNumber(d);
  }

  /** `new Date(y, m, d)` for a year from 0 to 99 builds a date that reads back
      as day `d` of month `m` of the year 1900 + y. */
  lemma NewDateTwoDigitYear(year: int, month: int, date: int)
    requires 0 <= year <= 99 && ValidDate(Date(1900 + year, month, date))
    ensures NewDate(year, month, date).Finite?
    ensures CivilFromTime(NewDate(year, month, date).ms) == Date(1900 + year, month, date)
  {
    var c := Date(1900 + year, month, date);
    NewDateOfDay(year, c);
    CivilOfMidnight(c);
  }

  /** `new Date(y, m, d)` for a year from 0 to 99 is the midnight of the date in 1900 + y. */
  lemma NewDateOfDay(year: int, c: Date)
    requires 0 <= year <= 99 && c.year == 1900 + year && ValidDate(c)
    ensures NewDate(year, c.month, c.day) == Finite(DayNumber(c) * MsPerDay)
  {
    MakeDayInMonth(c, c.day);
    CenturyDays(c);
    MidnightInRange(DayNumber(c));
  }

  /** The days of the years 1900 to 1999 lie between 1 January 1900 and 1 January 2000. */
  lemma CenturyDays(c: Date)
    requires ValidDate(c) && 1900 <= c.year <= 1999
    ensures -25567 <= DayNumber(c) < 10957
  {
    DayNumberWithinYear(c);
    DayFromYearGrows(1900, c.year);
    DayFromYearGrows(c.year + 1, 2000);
    assert DayFromYear(1900) == -25567 && DayFromYear(2000) == 10957;
  }

  /** The midnight of a day within 10^8 days of the epoch is a time value. */
  lemma MidnightInRange(n: int)
    requires -100_000_000 <= n <= 100_000_000
    ensures TimeClip(MakeDate(n, 0)) == Finite(n * MsPerDay)
  {
  }

  /** The midnight of a valid date reads back as that date. */
  lemma CivilOfMidnight(d: Date)
    requires ValidDate(d)
    ensures CivilFromTime(DayNumber(d) * MsPerDay) == d
  {
    MakeDateParts(DayNumber(d), 0);
    CivilFromDayNumber(d);
  }
}
