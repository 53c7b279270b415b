/** The decision and formatting logic of js/app.js: the date formatter, the
    date-of-birth parse in the submit handler, the tab switch, the dayversary
    input and message, and the lifespan message of the memento mori tab. */
module App {
  import opened Wrappers
  import opened Constants
  import opened Calendar
  import opened Decimal
  import opened Calculations

  // ---------------------------------------------------------------------------
  // fmtDate: dd-Mon-YYYY
  // ---------------------------------------------------------------------------

  /** The twelve three-letter month names, indexed by the 0-based month. */
  const MonthNames: seq<string> :=
    ["Jan", "Feb", "Mar", "Apr", "May", "Jun", "Jul", "Aug", "Sep", "Oct", "Nov", "Dec"]

  /** `fmtDate(d)` for a valid calendar date: the day padded to two digits, the
      month's name and the full year, joined by dashes. */
  function FmtCivil(d: Date): (s: string)
    requires ValidDate(d)
  {
    PadStart(NatToString(d.day), 2, '0') + "-" + MonthNames[d.month] + "-" + IntToString(d.year)
  }

  /** The formatted date always has a two-digit day, a dash, the month's
      three-letter name, a dash and the year. */
  lemma FmtCivilParts(d: Date)
    requires ValidDate(d)
    ensures var s := FmtCivil(d);
      && |s| >= 8 && s[2] == '-' && s[6] == '-'
      && AllDigits(s[..2]) && DigitsValue(s[..2]) == d.day
      && s[3..6] == MonthNames[d.month]
      && ToNumber(s[7..]) == Some(d.year)
  {
    DayDigits(d.day);
    MonthNameLength(d.month);
    ToNumberIntToString(d.year);
    FiveParts(PadStart(NatToString(d.day), 2, '0'), '-', MonthNames[d.month], '-', IntToString(d.year));
  }

  lemma MonthNameLength(m: int)
    requires 0 <= m < 12
    ensures |MonthNames[m]| == 3 && MonthIndex(MonthNames[m]) == m
  {
  }

  /** The slices of `a + [x] + b + [y] + c` for a two-character `a` and a
      three-character `b`. */
  lemma FiveParts(a: string, x: char, b: string, y: char, c: string)
    requires |a| == 2 && |b| == 3
    ensures var s := a + [x] + b + [y] + c;
      |s| == 7 + |c| && s[..2] == a && s[2] == x && s[3..6] == b && s[6] == y && s[7..] == c
  {
    var s := a + [x] + b + [y] + c;
    assert s[..2] == a;
    assert s[3..6] == b;
    assert s[7..] == c;
  }

  /** A day of the month, 1 to 31, is written as two digits. */
  lemma DayDigits(day: int)
    requires 1 <= day <= 31
    ensures var s := PadStart(NatToString(day), 2, '0');
      |s| == 2 && AllDigits(s) && DigitsValue(s) == day
  {
    ZeroPadValue(NatToString(day), 2);
    NatToStringValue(day);
    if day >= 10 {
      assert NatToString(day) == NatToString(day / 10) + [DigitChar(day % 10)];
    }
  }

  /** `fmtDate(d)` on a Date object: a two-digit day, a dash, the month's name
      from the table, a dash and the full year, which read back as the date the
      time value falls on; an Invalid Date prints its NaN parts. */
  function FmtDate(tv: TimeValue): (s: string)
    ensures tv.NaN? ==> s == "NaN-undefined-NaN"
    ensures tv.Finite? ==>
      && |s| >= 8 && s[2] == '-' && s[6] == '-' && AllDigits(s[..2])
      && s[3..6] == MonthNames[CivilFromTime(tv.ms).month]
      && ParseFmtDate(s) == Some(CivilFromTime(tv.ms))
  {
    match tv
    case NaN => "NaN-undefined-NaN"
    case Finite(ms) =>
      FmtCivilParts(CivilFromTime(ms));
      FmtDateRoundTrip(CivilFromTime(ms));
      FmtCivil(CivilFromTime(ms))
  }

  /** The position of a month name in the table, or -1. */
  function MonthIndex(name: string): (m: int)
    ensures -1 <= m < 12
    ensures m >= 0 ==> MonthNames[m] == name
    ensures m == -1 ==> name !in MonthNames
  {
    if name == "Jan" then 0 else if name == "Feb" then 1 else if name == "Mar" then 2
    else if name == "Apr" then 3 else if name == "May" then 4 else if name == "Jun" then 5
    else if name == "Jul" then 6 else if name == "Aug" then 7 else if name == "Sep" then 8
    else if name == "Oct" then 9 else if name == "Nov" then 10 else if name == "Dec" then 11
    else -1
  }

  /** Reading back a dd-Mon-YYYY string: the inverse of `FmtCivil`. */
  function ParseFmtDate(s: string): (r: Option<Date>)
    ensures r.Some? ==> 0 <= r.value.month < 12 && r.value.day >= 0
  {
    if |s| >= 8 && s[2] == '-' && s[6] == '-' && AllDigits(s[..2])
       && MonthIndex(s[3..6]) >= 0 && ToNumber(s[7..]).Some?
    then Some(Date(ToNumber(s[7..]).value, MonthIndex(s[3..6]), DigitsValue(s[..2])))
    else None
  }

  /** Formatting a date and reading it back gives the same date, for every year. */
  lemma FmtDateRoundTrip(d: Date)
    requires ValidDate(d)
    ensures ParseFmtDate(FmtCivil(d)) == Some(d)
  {
    FmtCivilParts(d);
    MonthNameLength(d.month);
  }

  // ---------------------------------------------------------------------------
  // The date of birth in the submit handler
  // ---------------------------------------------------------------------------

  /** `Number(parts[i])`; a missing part is `undefined`, whose number is NaN (`None`). */
  function NumberAt(parts: seq<string>, i: nat): Option<int> {
    if i < |parts| then ToNumber(parts[i]) else None
  }

  /** `new Date(y, m, d)` on numbers that may be NaN: any NaN argument gives an Invalid Date. */
  function NewDateOfNumbers(y: Option<int>, m: Option<int>, d: Option<int>): TimeValue {
    if y.Some? && m.Some? && d.Some? then NewDate(y.value, m.value, d.value) else NaN
  }

  /** The date of birth built from the input's value "YYYY-MM-DD": the pieces
      between dashes are the year, the 1-based month and the day. */
  function ParseDob(value: string): (r: TimeValue)
    ensures |Split(value, '-')| < 3 ==> r.NaN?
  {
    DobOfPieces(Split(value, '-'))
  }

  /** `new Date(parts[0], parts[1] - 1, parts[2])` after `Number` on each piece. */
  function DobOfPieces(parts: seq<string>): (r: TimeValue)
    ensures |parts| < 3 ==> r.NaN?
  {
    var month := NumberAt(parts, 1);
    NewDateOfNumbers(NumberAt(parts, 0), if month.Some? then Some(month.value - 1) else None, NumberAt(parts, 2))
  }

  /** The value an HTML date input holds for a date of a non-negative year. */
  function IsoDate(d: Date): string
    requires d.year >= 0 && 0 <= d.month < 12 && d.day >= 0
  {
    PadStart(NatToString(d.year), 4, '0') + "-" + PadStart(NatToString(d.month + 1), 2, '0')
      + "-" + PadStart(NatToString(d.day), 2, '0')
  }

  /** Splitting on the separator three pieces that hold none. */
  lemma SplitThree(a: string, b: string, c: string, sep: char)
    requires sep !in a && sep !in b && sep !in c
    ensures Split(a + [sep] + b + [sep] + c, sep) == [a, b, c]
  {
    var parts := [a, b, c];
    SplitJoin(parts, sep);
    assert parts[1..] == [b, c] && parts[2..] == [c];
    assert Join([c], sep) == c;
    assert Join([b, c], sep) == b + [sep] + c;
    assert Join(parts, sep) == a + [sep] + (b + [sep] + c);
    assert a + [sep] + b + [sep] + c == a + [sep] + (b + [sep] + c);
  }

  lemma PaddedNoDash(n: nat, width: nat)
    ensures '-' !in PadStart(NatToString(n), width, '0')
  {
    ZeroPadValue(NatToString(n), width);
  }

  /** A zero-padded decimal number reads back as that number. */
  lemma PaddedNumber(n: nat, width: nat)
    ensures AllDigits(PadStart(NatToString(n), width, '0'))
    ensures ToNumber(PadStart(NatToString(n), width, '0')) == Some(n)
  {
    var s := PadStart(NatToString(n), width, '0');
    ZeroPadValue(NatToString(n), width);
    NatToStringValue(n);
    assert IsDigit(s[0]);
  }

  /** A date typed into the date input becomes `new Date(year, month, day)` with
      the 0-based month. */
  lemma ParseIsoDate(d: Date)
    requires d.year >= 0 && 0 <= d.month < 12 && d.day >= 0
    ensures ParseDob(IsoDate(d)) == NewDate(d.year, d.month, d.day)
  {
    IsoDateSplit(d);
    PaddedNumber(d.year, 4);
    PaddedNumber(d.month + 1, 2);
    PaddedNumber(d.day, 2);
    DobOfParts(PadStart(NatToString(d.year), 4, '0'),
      PadStart(NatToString(d.month + 1), 2, '0'), PadStart(NatToString(d.day), 2, '0'),
      d.year, d.month + 1, d.day);
  }

  /** The input's value splits into the padded year, month and day. */
  lemma IsoDateSplit(d: Date)
    requires d.year >= 0 && 0 <= d.month < 12 && d.day >= 0
    ensures Split(IsoDate(d), '-') == [PadStart(NatToString(d.year), 4, '0'),
      PadStart(NatToString(d.month + 1), 2, '0'), PadStart(NatToString(d.day), 2, '0')]
  {
    var y := PadStart(NatToString(d.year), 4, '0');
    var m := PadStart(NatToString(d.month + 1), 2, '0');
    var day := PadStart(NatToString(d.day), 2, '0');
    PaddedNoDash(d.year, 4);
    PaddedNoDash(d.month + 1, 2);
    PaddedNoDash(d.day, 2);
    var s := IsoDate(d);
    assert s == y + ['-'] + m + ['-'] + day;
    SplitThree(y, m, day, '-');
  }

  /** The date of birth of three pieces, each a number. */
  lemma DobOfParts(y: string, m: string, d: string, year: int, month: int, day: int)
    requires ToNumber(y) == Some(year) && ToNumber(m) == Some(month) && ToNumber(d) == Some(day)
    ensures DobOfPieces([y, m, d]) == NewDate(year, month - 1, day)
  {
    PiecesAsNumbers([y, m, d], year, month, day);
  }

  /** Three pieces that are numbers give `new Date` of those numbers, month less one. */
  lemma PiecesAsNumbers(parts: seq<string>, year: int, month: int, day: int)
    requires NumberAt(parts, 0) == Some(year) && NumberAt(parts, 1) == Some(month)
    requires NumberAt(parts, 2) == Some(day)
    ensures DobOfPieces(parts) == NewDate(year, month - 1, day)
  {
  }

  /** For a year from 100 on, the parsed date of birth is midnight of that very
      calendar date, when it lies within the time value range. */
  lemma ParseIsoDateExact(d: Date)
    requires ValidDate(d) && d.year >= 100
    requires IsTimeValue(DayNumber(d) * MsPerDay)
    ensures ParseDob(IsoDate(d)) == Finite(DayNumber(d) * MsPerDay)
    ensures CivilFromTime(DayNumber(d) * MsPerDay) == d
  {
    ParseIsoDate(d);
    NewDateOfCivil(d);
    CivilOfMidnight(d);
  }

  /** The page's state the submit handler changes: the stored date of birth and
      the visibility of the results and of the tab bar. */
  class Page {
    var currentDob: Option<TimeValue>
    var resultsHidden: bool
    var navDisabled: bool

    constructor ()
      ensures currentDob == None && resultsHidden && navDisabled
    {
      currentDob := None;
      resultsHidden := true;
      navDisabled := true;
    }

    /** Submitting the form: an empty date of birth does nothing; otherwise the
        date is parsed and stored, and the results and the tab bar are shown. */
    method Submit(dobValue: string)
      modifies this
      ensures dobValue == "" ==> unchanged(this)
      ensures dobValue != "" ==>
        currentDob == Some(ParseDob(dobValue)) && !resultsHidden && !navDisabled
    {
      if dobValue == "" {
        return;
      }
      currentDob := Some(ParseDob(dobValue));
      resultsHidden := false;
      navDisabled := false;
    }
  }

  // ---------------------------------------------------------------------------
  // Tab switching
  // ---------------------------------------------------------------------------

  /** The first position of `x` in `s`, or -1: `document.getElementById`. */
  function IndexOf(s: seq<string>, x: string): (i: int)
    ensures -1 <= i < |s|
    ensures i >= 0 ==> s[i] == x && forall j :: 0 <= j < i ==> s[j] != x
    ensures i == -1 <==> x !in s
  {
    if s == [] then -1
    else if s[0] == x then 0
    else
      var k := IndexOf(s[1..], x);
      if k == -1 then -1 else k + 1
  }

  /** The number of `true` entries. */
  function CountTrue(s: seq<bool>): nat
    ensures CountTrue(s) <= |s|
  {
    if s == [] then 0 else CountTrue(s[..|s| - 1]) + (if s[|s| - 1] then 1 else 0)
  }

  /** A sequence true at exactly one position counts one. */
  lemma {:induction false} OneHot(s: seq<bool>, k: int)
    requires 0 <= k < |s|
    requires forall i :: 0 <= i < |s| ==> s[i] == (i == k)
    ensures CountTrue(s) == 1
  {
    var n := |s| - 1;
    if k < n {
      OneHot(s[..n], k);
    } else {
      NoneTrue(s[..n]);
    }
  }

  /** A sequence with no `true` entry counts zero. */
  lemma {:induction false} NoneTrue(s: seq<bool>)
    requires forall i :: 0 <= i < |s| ==> !s[i]
    ensures CountTrue(s) == 0
  {
    if s != [] {
      NoneTrue(s[..|s| - 1]);
    }
  }

  /** The bottom tab bar: each button names by its `data-tab` the panel it shows;
      each button and each panel carries the `active` class or not. */
  class TabBar {
    const tabs: seq<string>
    const panelIds: seq<string>
    const buttonActive: array<bool>
    const panelActive: array<bool>

    ghost predicate Valid()
      reads this
    {
      buttonActive.Length == |tabs| && panelActive.Length == |panelIds| && buttonActive != panelActive
    }

    constructor (tabs: seq<string>, panelIds: seq<string>)
      ensures Valid() && this.tabs == tabs && this.panelIds == panelIds
      ensures fresh(buttonActive) && fresh(panelActive)
      ensures forall i :: 0 <= i < buttonActive.Length ==> !buttonActive[i]
      ensures forall j :: 0 <= j < panelActive.Length ==> !panelActive[j]
    {
      this.tabs := tabs;
      this.panelIds := panelIds;
      buttonActive := new bool[|tabs|](_ => false);
      panelActive := new bool[|panelIds|](_ => false);
    }

    /** A click on button `b`: every button and panel loses `active`, then button
        `b` and the panel whose id is its `data-tab` gain it. Without such a panel
        the lookup yields null and the handler stops with an error (`ok` false)
        after activating the button. */
    method Click(b: nat) returns (ok: bool)
      requires Valid() && b < |tabs|
      modifies buttonActive, panelActive
      ensures ok <==> tabs[b] in panelIds
      ensures forall i :: 0 <= i < buttonActive.Length ==> buttonActive[i] == (i == b)
      ensures forall j :: 0 <= j < panelActive.Length ==>
        panelActive[j] == (j == IndexOf(panelIds, tabs[b]))
      ensures CountTrue(buttonActive[..]) == 1
      ensures CountTrue(panelActive[..]) == if ok then 1 else 0
    {
      var i := 0;
      while i < buttonActive.Length
        invariant 0 <= i <= buttonActive.Length
        invariant forall k :: 0 <= k < i ==> !buttonActive[k]
        modifies buttonActive
      {
        buttonActive[i] := false;
        i := i + 1;
      }
      var j := 0;
      while j < panelActive.Length
        invariant 0 <= j <= panelActive.Length
        invariant forall k :: 0 <= k < j ==> !panelActive[k]
        invariant forall k :: 0 <= k < buttonActive.Length ==> !buttonActive[k]
        modifies panelActive
      {
        panelActive[j] := false;
        j := j + 1;
      }
      buttonActive[b] := true;
      var p := IndexOf(panelIds, tabs[b]);
      if p >= 0 {
        panelActive[p] := true;
        ok := true;
        OneHot(panelActive[..], p);
      } else {
        ok := false;
        NoneTrue(panelActive[..]);
      }
      OneHot(buttonActive[..], b);
    }
  }

  // ---------------------------------------------------------------------------
  // Dayversary tab
  // ---------------------------------------------------------------------------

  /** `Number(daysInput.value) || 0`: a value that is not a number, and zero, both give 0. */
  function DaysFromInput(value: string): (days: int)
    ensures ToNumber(value).None? ==> days == 0
    ensures ToNumber(value).Some? ==> days == ToNumber(value).value
  {
    var n := ToNumber(value);
    if n.Some? && n.value != 0 then n.value else 0
  }

  /** An empty input is 0 days; a number typed in is read back exactly. */
  lemma DaysFromInputValues(n: int)
    ensures DaysFromInput("") == 0
    ensures DaysFromInput(IntToString(n)) == n
  {
    ToNumberIntToString(n);
  }

  datatype Headline = WasOn(days: int, date: TimeValue) | WillBeOn(days: int, date: TimeValue) | Hooray

  datatype DayversaryText = DayversaryText(headline: Headline, ageLine: string)

  /** The two lines `renderDayversary` writes for a dayversary: what day it falls
      on and the age then, or the "today" greeting with no age line. */
  function DayversaryMessage(days: int, r: Dayversary): (t: DayversaryText)
    ensures t.headline.WasOn? <==> r.comparison == Past
    ensures t.headline.WillBeOn? <==> r.comparison == Future
    ensures t.headline.Hooray? <==> r.comparison == Today
    ensures !t.headline.Hooray? ==> t.headline.days == days && t.headline.date == r.date
    ensures t.ageLine == "" <==> r.comparison == Today
  {
    match r.comparison
    case Past => DayversaryText(WasOn(days, r.date), "and you were about " + IntToString(r.ageYears) + " years old")
    case Future => DayversaryText(WillBeOn(days, r.date), "and you will be about " + IntToString(r.ageYears) + " years old")
    case Today => DayversaryText(Hooray, "")
  }

  /** The age the message shows reads back as the dayversary's age. */
  lemma AgeLineReadsBack(days: int, r: Dayversary)
    requires r.comparison != Today
    ensures var line := DayversaryMessage(days, r).ageLine;
      var start := if r.comparison == Past then 19 else 22;
      |line| >= start + 10 && ToNumber(line[start..|line| - 10]) == Some(r.ageYears)
  {
    var line := DayversaryMessage(days, r).ageLine;
    var start := if r.comparison == Past then 19 else 22;
    assert line[start..|line| - 10] == IntToString(r.ageYears);
    ToNumberIntToString(r.ageYears);
  }

  /** `renderDayversary(dob)`: read the days input, compute the dayversary and
      choose the message. */
  method RenderDayversary(dob: int, daysValue: string, now: int) returns (t: DayversaryText)
    requires IsTimeValue(dob) && IsTimeValue(now)
    ensures var days := DaysFromInput(daysValue);
      var date := TimeClip(Midnight(dob) + days * MsPerDay);
      && (t.headline.WasOn? <==> date.Finite? && date.ms < Midnight(now))
      && (t.headline.WillBeOn? <==> date.Finite? && date.ms > Midnight(now))
      && (t.ageLine == "" <==> date.NaN? || date.ms == Midnight(now))
  {
    var days := DaysFromInput(daysValue);
    var result := DayversaryDate(dob, days, now);
    t := DayversaryMessage(days, result);
  }

  // ---------------------------------------------------------------------------
  // Memento mori tab: years left
  // ---------------------------------------------------------------------------

  /** The age in years of 365.25 days for a span of milliseconds between the
      midnight of the date of birth and today's. */
  function UserAgeYears(span: int): real {
    span as real / MsPerDay as real / DaysPerYear
  }

  /** `yearsLeft`: what remains of an 80-year life, never negative. */
  function YearsLeft(age: real): (r: real)
    ensures r >= 0.0
    ensures age <= AverageLifespanYears as real ==> r + age == AverageLifespanYears as real
    ensures age > AverageLifespanYears as real ==> r == 0.0
  {
    if age <= AverageLifespanYears as real then AverageLifespanYears as real - age else 0.0
  }

  datatype LifespanInfo = YearsLeftToLive(years: int) | LivedThatLong

  /** The lifespan message: the rounded years left when the age is under 80,
      otherwise the congratulation. */
  function LifespanMessage(span: int): (m: LifespanInfo)
    ensures m.YearsLeftToLive? <==> UserAgeYears(span) < AverageLifespanYears as real
    ensures m.YearsLeftToLive? ==> m.years >= 0
  {
    var age := UserAgeYears(span);
    if age < AverageLifespanYears as real then YearsLeftToLive(Round(YearsLeft(age))) else LivedThatLong
  }

  /** Between midnights a whole number of days apart, the years-left message is
      chosen exactly before the 29220th day, 80 years of 365.25 days; the years
      left then number at most 80. */
  lemma LifespanByDays(span: int)
    requires span % MsPerDay == 0
    ensures LifespanMessage(span).YearsLeftToLive? <==> span / MsPerDay < 29220
    ensures span >= 0 && span / MsPerDay < 29220 ==> LifespanMessage(span).years <= AverageLifespanYears
  {
    var d := span / MsPerDay;
    assert span as real == d as real * MsPerDay as real;
    assert UserAgeYears(span) == d as real / DaysPerYear;
  }

  /** `todayDate - dobDate` on the page is a span between two midnights (what
      `Midnight` returns: multiples of a day). It is a whole number of days, so
      the grid's weeks lived are those of `LivedWeeksRounds` and the years-left
      message is chosen exactly before the 29220th day. */
  lemma MidnightSpans(todayDate: int, dobDate: int)
    requires todayDate % MsPerDay == 0 && dobDate % MsPerDay == 0
    ensures var span := todayDate - dobDate;
      var d := span / MsPerDay;
      && span % MsPerDay == 0
      && LivedWeeks(span) == (if d <= 29120 then d / 7 + (if d % 7 >= 4 then 1 else 0) else WeeksMax)
      && (LifespanMessage(span).YearsLeftToLive? <==> d < 29220)
  {
    WholeDaysDiff(todayDate, dobDate);
    LivedWeeksRounds(todayDate - dobDate);
    LifespanByDays(todayDate - dobDate);
  }

  // ---------------------------------------------------------------------------
  // Space journey tab: orders of magnitude
  // ---------------------------------------------------------------------------

  function Abs(x: int): int {
    if x < 0 then -x else x
  }

  /** `ordersDiff`: how many orders of magnitude apart the explored share of the
      universe and the ant's share of Earth are. `magnitude` fails on a
      proportion of zero, so a date of birth of today makes it fail. */
  function OrdersDiff(days: int): (r: Result<int>)
    ensures r.Ok? <==> days > 0
    ensures r.Ok? ==> (IsMagnitude(Cosmic(days).universeProportion / 100.0, -10 - r.value)
                    || IsMagnitude(Cosmic(days).universeProportion / 100.0, -10 + r.value))
  {
    CosmicPositive(days);
    ProportionMagnitudes();
    var explored := Magnitude(Cosmic(days).universeProportion / 100.0);
    var ant := Magnitude(AntProportion() / 100.0);
    if explored.Err? then Err(explored.message) else Ok(Abs(explored.value - ant.value))
  }

  /** Forty years of days put the explored share at 10^-13 of the universe: three
      orders of magnitude below the ant's. */
  lemma OrdersDiffForty()
    ensures OrdersDiff(14610) == Ok(3)
  {
    var c := Cosmic(14610);
    assert c.distanceKm == 467_052_480_000;
    assert c.universeProportion / 100.0 == 467_052_480_000.0 / 9_461_000_000_000.0 / 92_000_000_000.0;
    Pow10Values();
    MagnitudeIs(c.universeProportion / 100.0, -13);
    ProportionMagnitudes();
  }
}
