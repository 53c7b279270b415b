/** The date and lifespan arithmetic of js/calculations.js. The current time,
    which the source reads with `new Date()`, is the parameter `now`. */
module Calculations {
  import opened Wrappers
  import opened Constants
  import opened Calendar

  // ---------------------------------------------------------------------------
  // Midnight truncation and days alive
  // ---------------------------------------------------------------------------

  /** Whether the date `t` falls on lies outside the years 0 to 99, which the
      Date constructor would read as 1900 to 1999. */
  predicate FourDigitEra(t: int) {
    var c := CivilFromTime(t);
    !(0 <= c.year <= 99)
  }

  /** `new Date(t.getFullYear(), t.getMonth(), t.getDate())`: the time of day is
      dropped. For a date in the years 0 to 99 the constructor moves it to 1900-1999. */
  function Midnight(t: int): (r: int)
    requires IsTimeValue(t)
    ensures IsTimeValue(r) && r % MsPerDay == 0
    ensures FourDigitEra(t) ==> r == Day(t) * MsPerDay && r <= t < r + MsPerDay
  {
    var c := CivilFromTime(t);
    NewDateOfMidnight(t);
    NewDate(c.year, c.month, c.day).ms
  }

  lemma NewDateOfMidnight(t: int)
    requires IsTimeValue(t)
    ensures var c := CivilFromTime(t);
      var v := NewDate(c.year, c.month, c.day);
      && v.Finite?
      && v.ms == MakeDay(MakeFullYear(c.year), c.month, c.day) * MsPerDay
      && (FourDigitEra(t) ==> v.ms == Day(t) * MsPerDay)
      && IsTimeValue(v.ms) && v.ms % MsPerDay == 0
  {
    var c := CivilFromTime(t);
    var day := MakeDay(MakeFullYear(c.year), c.month, c.day);
    MidnightDay(t);
    MakeDateParts(day, 0);
  }

  /** The day number `new Date(y, m, d)` lands on, for the parts of a time value. */
  lemma MidnightDay(t: int)
    requires IsTimeValue(t)
    ensures var c := CivilFromTime(t);
      var day := MakeDay(MakeFullYear(c.year), c.month, c.day);
      -100_000_000 <= day <= 100_000_000 && (FourDigitEra(t) ==> day == Day(t))
  {
    DayBounds(t);
    MakeDayOfCivil(CivilFromTime(t), Day(t));
  }

  /** The day number `new Date(y, m, d)` lands on for the parts of a valid date
      whose day number is `n`. */
  lemma MakeDayOfCivil(c: Date, n: int)
    requires ValidDate(c) && DayNumber(c) == n && -100_000_000 <= n <= 100_000_000
    ensures var day := MakeDay(MakeFullYear(c.year), c.month, c.day);
      -100_000_000 <= day <= 100_000_000 && (!(0 <= c.year <= 99) ==> day == n)
  {
    if 0 <= c.year <= 99 {
      TwoDigitYearDay(c);
    } else {
      MakeDayInMonth(c, c.day);
    }
  }

  /** A time value's day number lies within 10^8 days of the epoch. */
  lemma DayBounds(t: int)
    requires IsTimeValue(t)
    ensures -100_000_000 <= Day(t) <= 100_000_000
  {
  }

  lemma TwoDigitYearDay(c: Date)
    requires ValidDate(c) && 0 <= c.year <= 99
    ensures -100_000_000 <= MakeDay(MakeFullYear(c.year), c.month, c.day) <= 100_000_000
  {
    var ym := 1900 + c.year;
    assert c.month / 12 == 0 && c.month % 12 == c.month;
    assert MakeDay(MakeFullYear(c.year), c.month, c.day)
      == DayFromYear(ym) + DaysBeforeMonth(ym, c.month) + c.day - 1;
    CenturyYears(ym);
    DaysBeforeMonthGrows(ym, 0, c.month);
    DaysBeforeMonthGrows(ym, c.month, 12);
  }

  /** The years 1900 to 1999 start between 1 January 1900 and 1 January 2000. */
  lemma CenturyYears(y: int)
    requires 1900 <= y <= 1999
    ensures -25567 <= DayFromYear(y) && DayFromYear(y) + 365 <= 10957
  {
    DayFromYearGrows(1900, y);
    DayFromYearGrows(y, 2000);
    assert DayFromYear(1900) == -25567 && DayFromYear(2000) == 10957;
  }

  /** `daysAlive`: whole days from the midnight of `dob` to the midnight of `now`,
      by flooring the millisecond difference over the length of a day. */
  function DaysAlive(dob: int, now: int): (r: int)
    requires IsTimeValue(dob) && IsTimeValue(now)
    ensures FourDigitEra(dob) && FourDigitEra(now) ==> r == Day(now) - Day(dob)
  {
    FloorOfRatio(Midnight(now) - Midnight(dob), MsPerDay);
    ((Midnight(now) - Midnight(dob)) as real / MsPerDay as real).Floor
  }

  /** `Math.floor(a / b)` of two integers is their floor division. */
  lemma FloorOfRatio(a: int, b: int)
    requires b > 0
    ensures (a as real / b as real).Floor == a / b
  {
    var q, r := a / b, a % b;
    assert a == q * b + r && 0 <= r < b;
    assert (a as real) / (b as real) == q as real + (r as real) / (b as real);
    assert 0.0 <= (r as real) / (b as real) < 1.0;
  }

  /** Days alive is never negative when the birth is not after now. */
  lemma DaysAliveNonNegative(dob: int, now: int)
    requires IsTimeValue(dob) && IsTimeValue(now) && dob <= now
    requires FourDigitEra(dob) && FourDigitEra(now)
    ensures DaysAlive(dob, now) >= 0
  {
    assert Day(dob) <= Day(now);
  }

  /** Days alive counts the calendar days between the two dates, whatever the times of day. */
  lemma DaysAliveBetweenDates(born: Date, today: Date, bornMs: int, todayMs: int)
    requires ValidDate(born) && ValidDate(today)
    requires 0 <= bornMs < MsPerDay && 0 <= todayMs < MsPerDay
    requires !(0 <= born.year <= 99) && !(0 <= today.year <= 99)
    requires IsTimeValue(MakeDate(DayNumber(born), bornMs)) && IsTimeValue(MakeDate(DayNumber(today), todayMs))
    ensures DaysAlive(MakeDate(DayNumber(born), bornMs), MakeDate(DayNumber(today), todayMs))
         == DayNumber(today) - DayNumber(born)
  {
    var dob, now := MakeDate(DayNumber(born), bornMs), MakeDate(DayNumber(today), todayMs);
    assert Day(dob) == DayNumber(born) && Day(now) == DayNumber(today);
    CivilFromDayNumber(born);
    CivilFromDayNumber(today);
  }

  // ---------------------------------------------------------------------------
  // Cosmic distance
  // ---------------------------------------------------------------------------

  datatype CosmicDistance = CosmicDistance(totalHours: int, distanceKm: int, distanceLy: real, universeProportion: real)

  /** `cosmicDistance(days)`: how far Earth carries you in `days` days. */
  function Cosmic(days: int): (r: CosmicDistance)
    ensures r.totalHours == 24 * days
    ensures r.distanceKm == 31_968_000 * days
    ensures r.distanceLy * LightYearKm as real == r.distanceKm as real
    ensures r.universeProportion * ObservableUniverseLy as real == 100.0 * r.distanceLy
  {
    var totalHours := HoursPerDay * days;
    var distanceKm := totalHours * EarthSpeedKmh;
    var distanceLy := distanceKm as real / LightYearKm as real;
    var universeProportion := (distanceLy / ObservableUniverseLy as real) * 100.0;
    CosmicDistance(totalHours, distanceKm, distanceLy, universeProportion)
  }

  /** Every field of the cosmic distance grows with the number of days. */
  lemma CosmicMonotone(d1: int, d2: int)
    requires d1 <= d2
    ensures Cosmic(d1).totalHours <= Cosmic(d2).totalHours
    ensures Cosmic(d1).distanceKm <= Cosmic(d2).distanceKm
    ensures Cosmic(d1).distanceLy <= Cosmic(d2).distanceLy
    ensures Cosmic(d1).universeProportion <= Cosmic(d2).universeProportion
  {
    var a, b := Cosmic(d1), Cosmic(d2);
    assert a.distanceLy == a.distanceKm as real / LightYearKm as real;
    assert b.distanceLy == b.distanceKm as real / LightYearKm as real;
  }

  /** The universe proportion is positive exactly when some days have passed. */
  lemma CosmicPositive(days: int)
    ensures Cosmic(days).universeProportion > 0.0 <==> days > 0
  {
    var c := Cosmic(days);
    assert c.distanceLy == c.distanceKm as real / LightYearKm as real;
    assert c.universeProportion == c.distanceLy / ObservableUniverseLy as real * 100.0;
  }

  // ---------------------------------------------------------------------------
  // Proportions and orders of magnitude
  // ---------------------------------------------------------------------------

  /** `antProportion()`: a Pharaoh ant's length as a percentage of Earth's diameter. */
  function AntProportion(): (r: real)
    ensures r * EarthDiameterCm as real == 100.0 * AntCm
  {
    (AntCm / EarthDiameterCm as real) * 100.0
  }

  /** `cellProportion()`: a cell nucleus's diameter as a percentage of Earth's diameter. */
  function CellProportion(): (r: real)
    ensures r * EarthDiameterCm as real == 100.0 * CellNucleusCm
  {
    (CellNucleusCm / EarthDiameterCm as real) * 100.0
  }

  /** 10 to an integer power, as an exact real. */
  function Pow10(k: int): (r: real)
    ensures r > 0.0
    decreases if k < 0 then -k else k
  {
    if k == 0 then 1.0 else if k > 0 then 10.0 * Pow10(k - 1) else Pow10(k + 1) / 10.0
  }

  /** `k` is the order of magnitude of `n`: 10^k <= n < 10^(k+1). */
  predicate IsMagnitude(n: real, k: int) {
    Pow10(k) <= n < Pow10(k + 1)
  }

  /** `magnitude(n)`, i.e. floor(log10(n)); an error for a non-positive `n`. */
  function Magnitude(n: real): (r: Result<int>)
    ensures r.Ok? <==> n > 0.0
    ensures r.Ok? ==> IsMagnitude(n, r.value)
  {
    if n <= 0.0 then Err("magnitude requires a positive number")
    else if n >= 1.0 then Ok(MagnitudeAtLeastOne(n))
    else Ok(MagnitudeBelowOne(n))
  }

  function MagnitudeAtLeastOne(n: real): (k: int)
    requires n >= 1.0
    ensures k >= 0 && IsMagnitude(n, k)
    decreases n.Floor
  {
    if n < 10.0 then 0 else MagnitudeAtLeastOne(n / 10.0) + 1
  }

  function MagnitudeBelowOne(n: real): (k: int)
    requires 0.0 < n < 1.0
    ensures k < 0 && IsMagnitude(n, k)
    decreases (1.0 / n).Floor
  {
    if n * 10.0 >= 1.0 then -1
    else
      assert 1.0 / (n * 10.0) == (1.0 / n) / 10.0;
      MagnitudeBelowOne(n * 10.0) - 1
  }

  /** Powers of ten increase strictly. */
  lemma {:induction false} Pow10Increasing(i: int, j: int)
    requires i < j
    ensures Pow10(i) < Pow10(j)
    decreases j - i
  {
    Pow10Step(j - 1);
    if i < j - 1 {
      Pow10Increasing(i, j - 1);
    }
  }

  lemma {:induction false} Pow10Step(k: int)
    ensures Pow10(k + 1) == 10.0 * Pow10(k)
  {
  }

  /** The order of magnitude is unique, so `Magnitude` returns the one floor(log10(n)) denotes. */
  lemma MagnitudeUnique(n: real, k1: int, k2: int)
    requires IsMagnitude(n, k1) && IsMagnitude(n, k2)
    ensures k1 == k2
  {
    if k1 < k2 {
      if k1 + 1 < k2 { Pow10Increasing(k1 + 1, k2); }
      assert false;
    } else if k2 < k1 {
      if k2 + 1 < k1 { Pow10Increasing(k2 + 1, k1); }
      assert false;
    }
  }

  /** `Magnitude` returns the order of magnitude whenever there is one. */
  lemma MagnitudeIs(n: real, k: int)
    requires IsMagnitude(n, k)
    ensures Magnitude(n) == Ok(k)
  {
    MagnitudeUnique(n, Magnitude(n).value, k);
  }

  lemma MagnitudeExamples()
    ensures Magnitude(1.0) == Ok(0)
    ensures Magnitude(10.0) == Ok(1)
    ensures Magnitude(0.5) == Ok(-1)
    ensures Magnitude(0.0).Err? && Magnitude(-1.0).Err?
  {
    MagnitudeIs(1.0, 0);
    MagnitudeIs(10.0, 1);
    MagnitudeIs(0.5, -1);
  }

  lemma Pow10Values()
    ensures Pow10(-13) == 0.000_000_000_000_1 && Pow10(-12) == 0.000_000_000_001
    ensures Pow10(-10) == 0.000_000_000_1 && Pow10(-9) == 0.000_000_001
  {
  }

  /** An ant is of the order of 10^-10 of Earth's diameter, a cell nucleus of 10^-13. */
  lemma ProportionMagnitudes()
    ensures Magnitude(AntProportion() / 100.0) == Ok(-10)
    ensures Magnitude(CellProportion() / 100.0) == Ok(-13)
  {
    Pow10Values();
    MagnitudeIs(AntProportion() / 100.0, -10);
    MagnitudeIs(CellProportion() / 100.0, -13);
  }

  // ---------------------------------------------------------------------------
  // Dayversary
  // ---------------------------------------------------------------------------

  /** `Math.round(x)`: the nearest integer, halves rounded up. */
  function Round(x: real): int {
    (x + 0.5).Floor
  }

  /** Rounding a ratio of integers is a floor division. */
  lemma RoundRatio(a: int, b: int)
    requires b > 0
    ensures Round(a as real / b as real) == (2 * a + b) / (2 * b)
  {
    var x := a as real / b as real;
    var k := (2 * a + b) / (2 * b);
    assert 2 * a + b == 2 * b * k + (2 * a + b) % (2 * b);
    assert x * b as real == a as real;
    var y := x + 0.5;
    var m := (2 * b) as real;
    assert y * m == (2 * a + b) as real;
    assert (k as real) * m == (2 * b * k) as real;
    assert ((k + 1) as real) * m == (2 * b * k + 2 * b) as real;
    if y < k as real {
      MulMonotone(y, k as real, m);
      assert false;
    }
    if y >= (k + 1) as real {
      MulMonotone((k + 1) as real, y, m);
      assert false;
    }
  }

  lemma MulMonotone(x: real, y: real, c: real)
    requires c > 0.0 && x <= y
    ensures x * c <= y * c && (x < y ==> x * c < y * c)
  {
  }

  datatype Comparison = Past | Future | Today

  datatype Dayversary = Dayversary(date: TimeValue, ageYears: int, comparison: Comparison)

  /** `dayversaryDate(dob, days)`: the date `days` calendar days after the midnight
      of `dob`, the age then in years of 365.25 days, and whether that date is
      before, after or on the day of `now`. A shift beyond TimeClip's range gives
      an Invalid Date, which compares neither before nor after: "today". */
  method DayversaryDate(dob: int, days: int, now: int) returns (r: Dayversary)
    requires IsTimeValue(dob) && IsTimeValue(now)
    ensures r.date == TimeClip(Midnight(dob) + days * MsPerDay)
    ensures r.comparison == Past <==> r.date.Finite? && r.date.ms < Midnight(now)
    ensures r.comparison == Future <==> r.date.Finite? && r.date.ms > Midnight(now)
    ensures r.comparison == Today <==> r.date.NaN? || r.date.ms == Midnight(now)
    ensures r.ageYears == (8 * days + 1461) / 2922
  {
    r := DayversaryFrom(Midnight(dob), days, Midnight(now));
  }

  /** The steps of `dayversaryDate` once both midnights are taken. */
  method DayversaryFrom(start: int, days: int, todayDate: int) returns (r: Dayversary)
    ensures r.date == TimeClip(start + days * MsPerDay)
    ensures r.comparison == Past <==> r.date.Finite? && r.date.ms < todayDate
    ensures r.comparison == Future <==> r.date.Finite? && r.date.ms > todayDate
    ensures r.comparison == Today <==> r.date.NaN? || r.date.ms == todayDate
    ensures r.ageYears == (8 * days + 1461) / 2922
  {
    var result := Finite(start);
    result := AddDays(result, days);
    var comparison := Compare(result, todayDate);
    AgeYears(days);
    r := Dayversary(result, Round(days as real / DaysPerYear), comparison);
  }

  /** The `<` / `>` test of the shifted date against today's midnight; NaN fails
      both and falls through to "today". */
  method Compare(result: TimeValue, todayDate: int) returns (comparison: Comparison)
    ensures comparison == Past <==> result.Finite? && result.ms < todayDate
    ensures comparison == Future <==> result.Finite? && result.ms > todayDate
    ensures comparison == Today <==> result.NaN? || result.ms == todayDate
  {
    if result.Finite? && result.ms < todayDate {
      comparison := Past;
    } else if result.Finite? && result.ms > todayDate {
      comparison := Future;
    } else {
      comparison := Today;
    }
  }

  /** `result.setDate(result.getDate() + days)` on a valid Date: it moves by
      exactly `days` days. */
  method AddDays(result: TimeValue, days: int) returns (r: TimeValue)
    requires result.Finite?
    ensures r == TimeClip(result.ms + days * MsPerDay)
  {
    SetDateShifts(result.ms, days);
    r := SetDate(result, CivilFromTime(result.ms).day + days);
  }

  /** `setDate(getDate() + days)` moves a time value by exactly `days` days. */
  lemma SetDateShifts(t: int, days: int)
    ensures SetDate(Finite(t), CivilFromTime(t).day + days) == TimeClip(t + days * MsPerDay)
  {
  }

  /** Moving a midnight by whole days lands on the midnight that many days on. */
  lemma ShiftByDays(m: int, days: int)
    requires m % MsPerDay == 0
    ensures (m + days * MsPerDay) % MsPerDay == 0 && Day(m + days * MsPerDay) == Day(m) + days
  {
    assert m == MakeDate(Day(m), 0);
    assert m + days * MsPerDay == MakeDate(Day(m) + days, 0);
    MakeDateParts(Day(m) + days, 0);
  }

  /** `Math.round(days / 365.25)` as an integer division: 365.25 is 1461/4, and
      the numerator 8 * days + 1461 is odd, so no tie occurs. */
  lemma AgeYears(days: int)
    ensures Round(days as real / DaysPerYear) == (8 * days + 1461) / 2922
  {
    assert days as real / DaysPerYear == (4 * days) as real / 1461 as real;
    RoundRatio(4 * days, 1461);
  }

  /** Day 0 is the birthday itself. */
  lemma DayversaryZero(dob: int)
    requires IsTimeValue(dob) && FourDigitEra(dob)
    ensures TimeClip(Midnight(dob) + 0 * MsPerDay).Finite?
    ensures CivilFromTime(TimeClip(Midnight(dob) + 0 * MsPerDay).ms) == CivilFromTime(dob)
  {
    MakeDateParts(Day(dob), 0);
  }

  /** The dayversary of a birth date is the midnight of the day number `days`
      after the birth date's, across months and years. */
  lemma DayversaryCalendarDate(born: Date, days: int)
    requires ValidDate(born) && !(0 <= born.year <= 99)
    requires IsTimeValue(DayNumber(born) * MsPerDay)
    requires IsTimeValue((DayNumber(born) + days) * MsPerDay)
    ensures var dob := DayNumber(born) * MsPerDay;
      TimeClip(Midnight(dob) + days * MsPerDay) == Finite((DayNumber(born) + days) * MsPerDay)
  {
    MidnightOfCivil(born);
    ShiftClip(Midnight(DayNumber(born) * MsPerDay), DayNumber(born), days);
  }

  /** Moving the midnight of day `n` by `days` days in range gives the midnight of day `n + days`. */
  lemma ShiftClip(m: int, n: int, days: int)
    requires m == n * MsPerDay && IsTimeValue((n + days) * MsPerDay)
    ensures TimeClip(m + days * MsPerDay) == Finite((n + days) * MsPerDay)
  {
  }

  /** The midnight of a valid date's own midnight is that midnight. */
  lemma MidnightOfCivil(born: Date)
    requires ValidDate(born) && !(0 <= born.year <= 99)
    requires IsTimeValue(DayNumber(born) * MsPerDay)
    ensures Midnight(DayNumber(born) * MsPerDay) == DayNumber(born) * MsPerDay
  {
    CivilOfMidnight(born);
    MakeDateParts(DayNumber(born), 0);
  }

  /** A past dayversary is an earlier calendar date than today, a future one a later date. */
  lemma ComparisonIsCalendarOrder(date: int, now: int)
    requires IsTimeValue(now) && date % MsPerDay == 0
    requires FourDigitEra(now)
    ensures date < Midnight(now) <==> Before(CivilFromTime(date), CivilFromTime(now))
    ensures date > Midnight(now) <==> Before(CivilFromTime(now), CivilFromTime(date))
  {
    DayNumberOrder(CivilFromTime(date), CivilFromTime(now));
    DayNumberOrder(CivilFromTime(now), CivilFromTime(date));
    assert date == Day(date) * MsPerDay;
  }

  /** Age rounding never meets a tie, so the age is within half a year of days/365.25. */
  lemma AgeIsNearest(days: int)
    ensures var age := (8 * days + 1461) / 2922;
      -0.5 < days as real / DaysPerYear - age as real < 0.5
  {
    var n := 8 * days + 1461;
    var age, rem := n / 2922, n % 2922;
    assert n == 2922 * age + rem;
    assert rem != 0 && rem != 2922 - 0;
    assert days as real / DaysPerYear - age as real == (rem - 1461) as real / 2922.0;
  }

  // ---------------------------------------------------------------------------
  // Memento mori calendar
  // ---------------------------------------------------------------------------

  /** 80 years of 52 weeks: 4160 cells. */
  const WeeksMax: int := AverageLifespanYears * WeeksPerYear

  datatype CalendarMatrix = CalendarMatrix(z: seq<seq<int>>, xLabels: seq<int>, yLabels: seq<int>, xLabel: string, yLabel: string)

  /** The number of lived weeks the grid marks for the span `todayDate - dobDate`
      between two midnights: the span in weeks, capped at 4160, then rounded. */
  function LivedWeeks(span: int): (n: int)
    ensures n <= WeeksMax
  {
    var weeksLived := span as real / (MsPerDay * 7) as real;
    var weeks := if weeksLived <= WeeksMax as real then weeksLived else WeeksMax as real;
    Round(weeks)
  }

  /** The grid counts a partial week of 4 days or more as lived: it rounds, not
      floors, and from 29121 days on every cell is lived. */
  lemma LivedWeeksRounds(span: int)
    requires span % MsPerDay == 0
    ensures var d := span / MsPerDay;
      LivedWeeks(span) == if d <= 29120 then d / 7 + (if d % 7 >= 4 then 1 else 0) else WeeksMax
  {
    var d := span / MsPerDay;
    WeekRatio(span);
    if d <= 29120 {
      RoundRatio(d, 7);
      RoundSevenths(d);
    }
  }

  /** Two midnights are a whole number of days apart. */
  lemma WholeDaysDiff(a: int, b: int)
    requires a % MsPerDay == 0 && b % MsPerDay == 0
    ensures (a - b) % MsPerDay == 0
  {
    var p, q := a / MsPerDay, b / MsPerDay;
    assert a - b == (p - q) * MsPerDay;
  }

  /** A date of birth one to three days after today rounds to 0 weeks lived;
      four or more days after gives a negative count. */
  lemma FutureBirthWeeks(days: int)
    requires days >= 1
    ensures LivedWeeks(-days * MsPerDay) == 0 <==> days <= 3
    ensures days >= 4 ==> LivedWeeks(-days * MsPerDay) < 0
  {
    var span := -days * MsPerDay;
    assert span == (-days) * MsPerDay;
    assert span % MsPerDay == 0 && span / MsPerDay == -days;
    LivedWeeksRounds(span);
  }

  /** A whole number of days, measured in weeks. */
  lemma WeekRatio(span: int)
    requires span % MsPerDay == 0
    ensures span as real / (MsPerDay * 7) as real == (span / MsPerDay) as real / 7.0
    ensures span as real / (MsPerDay * 7) as real <= WeeksMax as real <==> span / MsPerDay <= 29120
  {
    var d := span / MsPerDay;
    assert span == d * MsPerDay;
    assert span as real == d as real * 86400000.0;
  }

  lemma RoundSevenths(d: int)
    ensures (2 * d + 7) / 14 == d / 7 + (if d % 7 >= 4 then 1 else 0)
  {
    var q, r := d / 7, d % 7;
    assert 2 * d + 7 == 14 * q + (2 * r + 7);
  }

  /** The rows-by-columns grid whose cells in row-major order are the first
      `lived` ones followed by zeros. */
  ghost predicate IsLifeGrid(z: seq<seq<int>>, lived: int) {
    |z| == AverageLifespanYears &&
    forall r :: 0 <= r < |z| ==>
      |z[r]| == WeeksPerYear &&
      forall c :: 0 <= c < WeeksPerYear ==> z[r][c] == if r * WeeksPerYear + c < lived then 1 else 0
  }

  /** The grid for `lived` weeks, row by row. */
  function LifeGrid(lived: int): seq<seq<int>> {
    seq(AverageLifespanYears, r =>
      seq(WeeksPerYear, c => if r * WeeksPerYear + c < lived then 1 else 0))
  }

  /** `LifeGrid` is the life grid: 80 rows of 52, the first `lived` cells set. */
  lemma LifeGridShape(lived: int)
    ensures IsLifeGrid(LifeGrid(lived), lived)
  {
  }

  /** A life grid is unique. */
  lemma SameLifeGrid(z1: seq<seq<int>>, z2: seq<seq<int>>, lived: int)
    requires IsLifeGrid(z1, lived) && IsLifeGrid(z2, lived)
    ensures z1 == z2
  {
    forall r | 0 <= r < |z1|
      ensures z1[r] == z2[r]
    {
    }
  }

  /** `arr.slice(a, b)`: JavaScript clamps the bounds to the array's length. */
  function Slice(s: seq<int>, a: nat, b: nat): (r: seq<int>)
    requires a <= b
    ensures b <= |s| ==> r == s[a..b]
  {
    if b <= |s| then s[a..b] else if a <= |s| then s[a..] else []
  }

  /** `Array.from({ length: n }, (_, i) => i + 1)`: the labels 1 to n. */
  function OneBased(n: nat): (r: seq<int>)
    ensures |r| == n && forall i :: 0 <= i < n ==> r[i] == i + 1
  {
    seq(n, i => i + 1)
  }

  /** `buildCalendarMatrix(dob)`: the 80-by-52 grid of lived (1) and remaining (0) weeks. */
  method BuildCalendarMatrix(dob: int, now: int) returns (m: CalendarMatrix)
    requires IsTimeValue(dob) && IsTimeValue(now)
    ensures m.z == LifeGrid(LivedWeeks(Midnight(now) - Midnight(dob)))
    ensures m.xLabels == OneBased(WeeksPerYear) && m.yLabels == OneBased(AverageLifespanYears)
    ensures m.xLabel == "Weeks in the year" && m.yLabel == "Years in your life"
  {
    var z := FillAndSlice(LivedWeeks(Midnight(now) - Midnight(dob)));
    var xLabels := OneBased(WeeksPerYear);
    var yLabels := OneBased(AverageLifespanYears);
    m := CalendarMatrix(z, xLabels, yLabels, "Weeks in the year", "Years in your life");
  }

  /** The loops of `buildCalendarMatrix` once the rounded week count `lived` is
      known: push `lived` ones and `4160 - lived` zeros, then cut 80 rows of 52. */
  method FillAndSlice(lived: int) returns (z: seq<seq<int>>)
    requires lived <= WeeksMax
    ensures z == LifeGrid(lived)
  {
    var flat := FillFlat(lived);
    z := SliceRows(flat);
    forall k, c | 0 <= k < AverageLifespanYears && 0 <= c < WeeksPerYear
      ensures z[k][c] == if k * WeeksPerYear + c < lived then 1 else 0
    {
      assert z[k][c] == flat[k * WeeksPerYear + c];
    }
    LifeGridShape(lived);
    SameLifeGrid(z, LifeGrid(lived), lived);
  }

  /** The two push loops: `lived` ones (none when `lived` is negative), then
      zeros up to `WeeksMax - lived` of them. */
  method FillFlat(lived: int) returns (flat: seq<int>)
    requires lived <= WeeksMax
    ensures |flat| == (if lived > 0 then lived else 0) + WeeksMax - lived
    ensures forall j :: 0 <= j < |flat| ==> flat[j] == if j < lived then 1 else 0
  {
    var weeksMax := AverageLifespanYears * WeeksPerYear;
    var weeksRem := weeksMax - lived;
    ghost var ones := if lived > 0 then lived else 0;

    flat := [];
    var i := 0;
    while i < lived
      invariant 0 <= i <= ones
      invariant flat == seq(i, _ => 1)
    {
      flat := flat + [1];
      i := i + 1;
    }
    i := 0;
    while i < weeksRem
      invariant 0 <= i <= weeksRem
      invariant flat == seq(ones, _ => 1) + seq(i, _ => 0)
    {
      flat := flat + [0];
      i := i + 1;
    }
  }

  /** The slice loop: row `k` is `flat[52k .. 52k + 52]`, for 80 rows, which is
      reshaping the first 4160 cells into 80 rows of 52. */
  method SliceRows(flat: seq<int>) returns (z: seq<seq<int>>)
    requires |flat| >= WeeksMax
    ensures |z| == AverageLifespanYears
    ensures forall k :: 0 <= k < |z| ==> z[k] == flat[k * WeeksPerYear..(k + 1) * WeeksPerYear]
    ensures z == Reshape(flat, AverageLifespanYears, WeeksPerYear)
  {
    var rows := AverageLifespanYears;
    var cols := WeeksPerYear;
    z := [];
    var r := 0;
    while r < rows
      invariant 0 <= r <= rows && |z| == r
      invariant forall k :: 0 <= k < r ==> z[k] == flat[k * cols..(k + 1) * cols]
    {
      z := z + [Slice(flat, r * cols, (r + 1) * cols)];
      r := r + 1;
    }
    forall k | 0 <= k < AverageLifespanYears
      ensures z[k] == Reshape(flat, AverageLifespanYears, WeeksPerYear)[k]
    {
      assert z[k] == RowSlice(flat, k, AverageLifespanYears, WeeksPerYear);
    }
  }

  /** Flattening rows back into one sequence, row after row. */
  function Flatten(z: seq<seq<int>>): (s: seq<int>)
  {
    if z == [] then [] else Flatten(z[..|z| - 1]) + z[|z| - 1]
  }

  /** Cutting `s` into `rows` rows of `cols` cells, as the slice loop does. */
  function Reshape(s: seq<int>, rows: nat, cols: nat): (z: seq<seq<int>>)
    requires rows * cols <= |s|
    ensures |z| == rows && forall r :: 0 <= r < rows ==> |z[r]| == cols
  {
    seq(rows, r requires 0 <= r < rows => RowSlice(s, r, rows, cols))
  }

  function RowSlice(s: seq<int>, r: nat, rows: nat, cols: nat): (row: seq<int>)
    requires r < rows && rows * cols <= |s|
    ensures |row| == cols
  {
    assert (r + 1) * cols <= rows * cols;
    s[r * cols..(r + 1) * cols]
  }

  /** Reshaping into rows and flattening again gives back the cells, in order. */
  lemma {:induction false} FlattenReshape(s: seq<int>, rows: nat, cols: nat)
    requires rows * cols <= |s|
    ensures Flatten(Reshape(s, rows, cols)) == s[..rows * cols]
    decreases rows
  {
    if rows > 0 {
      var z := Reshape(s, rows, cols);
      assert (rows - 1) * cols <= |s|;
      assert z[..rows - 1] == Reshape(s, rows - 1, cols);
      FlattenReshape(s, rows - 1, cols);
      assert s[..(rows - 1) * cols] + s[(rows - 1) * cols..rows * cols] == s[..rows * cols];
    }
  }

  /** The number of 1 cells. */
  function CountOnes(s: seq<int>): nat {
    if s == [] then 0 else CountOnes(s[..|s| - 1]) + (if s[|s| - 1] == 1 then 1 else 0)
  }

  /** A life grid's cells, read row after row, are `lived` ones then zeros, so it
      marks exactly `lived` weeks, clamped to 0..4160. */
  lemma LifeGridCount(lived: int)
    ensures Flatten(LifeGrid(lived)) == seq(WeeksMax, i => if i < lived then 1 else 0)
    ensures CountOnes(Flatten(LifeGrid(lived))) == if lived < 0 then 0 else if lived > WeeksMax then WeeksMax else lived
  {
    var z := LifeGrid(lived);
    LifeGridShape(lived);
    LifeGridRows(z, lived, |z|);
    assert z[..|z|] == z;
    PrefixCount(WeeksMax, lived);
  }

  lemma {:induction false} LifeGridRows(z: seq<seq<int>>, lived: int, k: nat)
    requires IsLifeGrid(z, lived) && k <= |z|
    ensures Flatten(z[..k]) == seq(k * WeeksPerYear, i => if i < lived then 1 else 0)
  {
    if k > 0 {
      LifeGridRows(z, lived, k - 1);
      assert z[..k][..k - 1] == z[..k - 1];
      var cols := WeeksPerYear;
      var prev := seq((k - 1) * cols, i => if i < lived then 1 else 0);
      var row := z[k - 1];
      assert forall c :: 0 <= c < cols ==> row[c] == if (k - 1) * cols + c < lived then 1 else 0;
      var all := seq(k * cols, i => if i < lived then 1 else 0);
      assert all == prev + row by {
        forall i | 0 <= i < k * cols ensures all[i] == (prev + row)[i] {
          if i >= (k - 1) * cols {
            assert (prev + row)[i] == row[i - (k - 1) * cols];
          }
        }
      }
    }
  }

  lemma {:induction false} PrefixCount(n: nat, lived: int)
    ensures CountOnes(seq(n, i => if i < lived then 1 else 0))
         == if lived < 0 then 0 else if lived > n then n else lived
  {
    if n > 0 {
      var s := seq(n, i => if i < lived then 1 else 0);
      assert s[..n - 1] == seq(n - 1, i => if i < lived then 1 else 0);
      PrefixCount(n - 1, lived);
    }
  }
}
