# memento-js in Dafny

memento-js is a small browser page. From a date of birth it shows three tabs:

- **A Space Journey**: the days alive, and the distance Earth has carried you, set against the observable universe and compared with an ant and a cell nucleus.
- **Dayversary**: the date on which you are, or were, a given number of days old.
- **Memento Mori**: a heatmap of an 80-year life, 80 rows of 52 weeks, with the weeks already lived filled in.

This project models the computation behind those tabs and proves properties of it:

- the date and lifespan arithmetic of `js/calculations.js`;
- the formatting and decision logic of `js/app.js`;
- the sizing and gridline logic of `js/chart.js`.

**Time.** JavaScript `Date` values are modelled as ECMA-262 time values (section 21.4.1.1 of ECMA-262): integer milliseconds, or NaN for an Invalid Date (`Calendar.TimeValue`). The calendar arithmetic follows ECMA-262:

- DayFromYear, MakeDay, MakeDate and TimeClip, the abstract operations of section 21.4.1;
- the Date constructor's mapping of years 0 to 99 onto 1900 to 1999 (section 21.4.2.1);
- `setDate`, whose day overflow carries into the month and the year (section 21.4.4.20).

Calendar dates are proleptic Gregorian `(year, 0-based month, day)` triples. `Calendar.CivilFromDays` and `Calendar.DayNumber` convert between them and day numbers.

**Local time only.** All times are local time, and time zones and daylight saving are not modelled. The current moment (`new Date()`), the container's `clientWidth` and the window's `innerHeight` are parameters.

**Numbers.** Counts of days, hours and kilometres are exact integers. Proportions and chart sizes are exact reals.

**Form.** The model follows the source's form:

- pure expressions are functions;
- the push loops of `buildCalendarMatrix` and of the gridlines are methods with loops;
- the submit handler updates a `Page` object;
- the tab handler clears and sets `active` flags in two arrays of a `TabBar` object.

**Modules:**

- `Wrappers`: `Option` and `Result`.
- `Constants`: the constants of `js/constants.js`.
- `Calendar`: time values and the Gregorian calendar.
- `Decimal`: `String(n)`, `Number(s)`, `padStart`, `split` and `join` on decimal strings.
- `Calculations`: the functions of `js/calculations.js`.
- `App`: the pieces of `js/app.js`.
- `Chart`: the pieces of `js/chart.js`.

The lifespan grid counts weeks as the code does:

- The "weeks lived" of the lifespan grid are ROUNDED (`Math.round`), not floored. See `Calculations.LivedWeeksRounds`.
- Only the upper cap of 4160 weeks is applied. A date of birth four or more days after today gives a negative count, while one to three days after rounds to 0 (`Calculations.FutureBirthWeeks`). Either way no cell is filled.
- With a negative count the flat array is longer than 4160 entries (`Calculations.FillFlat`). Only its first 4160 entries are sliced, so the grid is still 80 × 52.

## Model

| member | source | states |
|---|---|---|
| Calendar.DaysInYear | js/calculations.js:22-23 | the gap between consecutive ECMA-262 DayFromYear values, the year length behind the Date constructor's day numbers, is 366 exactly in Gregorian leap years and 365 otherwise |
| Calendar.SetDate | js/calculations.js:72 | `setDate(dt)` keeps the time of day and moves the time value by `dt` minus the current day of the month, in whole days; month and year overflow carries; NaN stays NaN |
| Calendar.CivilFromTime | js/calculations.js:22-23 | `getFullYear`/`getMonth`/`getDate` of a time value give a valid calendar date whose day number is the time value's day |
| Calendar.DayNumberOrder | js/calculations.js:77-80 | one valid date has a smaller day number than another exactly when it comes first by year, then month, then day |
| Calendar.DayNumberInjective | js/calculations.js:22-23 | two valid calendar dates with the same day number are the same date |
| Calendar.CivilFromDayNumber | js/calculations.js:22-23 | reading back the day number of a valid calendar date gives that date |
| Calendar.NewDateOfCivil | js/app.js:91 | `new Date(y, m, d)` for a valid date outside the years 0-99 is the midnight of that date's day number |
| Calendar.NewDateTwoDigitYear | js/app.js:91 | `new Date(y, m, d)` with a year from 0 to 99 is a valid Date that reads back as day d of month m of the year 1900 + y |
| Calendar.CivilOfMidnight | js/calculations.js:23 | the midnight of a valid date reads back as that date |
| Calendar.DayFromYearGrows | js/calculations.js:22-23 | over b − a years DayFromYear grows by between 365 and 366 days per year |
| Decimal.ToNumberIntToString | js/app.js:158 | `Number(String(n)) == n` for every integer |
| Decimal.SplitJoin | js/app.js:90 | splitting the join of separator-free pieces gives the pieces back |
| Decimal.JoinSplit | js/app.js:90 | joining the pieces of a split gives the string back |
| Decimal.ZeroPadValue | js/app.js:31 | zero-padding a digit string keeps its value |
| Calculations.Midnight | js/calculations.js:22-23 | `new Date(getFullYear(), getMonth(), getDate())` is a valid midnight; outside the years 0-99 it is the midnight of the same day, at or before the time and less than a day before it |
| Calculations.DaysAlive | js/calculations.js:19-25 | `daysAlive` is the difference of the day numbers of today and of the date of birth |
| Calculations.DaysAliveNonNegative | js/calculations.js:19-25 | a date of birth not after today gives a non-negative number of days |
| Calculations.DaysAliveBetweenDates | js/calculations.js:19-25 | for any times of day, `daysAlive` between two calendar dates is the difference of their day numbers |
| Calculations.Cosmic | js/calculations.js:32-38 | totalHours = 24·days; distanceKm = 31,968,000·days; distanceLy·LIGHT_YEAR_KM = distanceKm; universeProportion·OBSERVABLE_UNIVERSE_LY = 100·distanceLy |
| Calculations.CosmicMonotone | js/calculations.js:32-38 | every field is non-decreasing in days |
| Calculations.CosmicPositive | js/calculations.js:36 | the explored share is positive exactly when days is positive |
| Calculations.AntProportion | js/calculations.js:43-45 | antProportion·EARTH_DIAMETER_CM = 100·ANT_CM |
| Calculations.CellProportion | js/calculations.js:50-52 | cellProportion·EARTH_DIAMETER_CM = 100·CELL_NUCLEUS_CM |
| Calculations.Magnitude | js/calculations.js:59-62 | fails exactly when n ≤ 0; otherwise it returns the k with 10^k ≤ n < 10^(k+1) |
| Calculations.MagnitudeUnique | js/calculations.js:61 | that k is unique, so `magnitude` is floor(log10 n) |
| Calculations.MagnitudeExamples | js/calculations.js:59-62 | magnitude(1) = 0, magnitude(10) = 1, magnitude(0.5) = -1; 0 and -1 fail |
| Calculations.ProportionMagnitudes | js/calculations.js:43-52 | the ant's share of Earth's diameter is of magnitude -10 and the cell nucleus's of -13 |
| Calculations.Pow10Increasing | js/calculations.js:61 | powers of ten strictly increase with the exponent |
| Calculations.RoundRatio | js/calculations.js:82 | `Math.round(a/b)` (half up) equals ⌊(2a + b)/(2b)⌋ |
| Calculations.DayversaryDate | js/calculations.js:70-83 | the date is TimeClip(midnight of dob + days·day); past, future and today hold exactly when it is before, after or equal to (or NaN) today's midnight; ageYears = ⌊(8·days + 1461)/2922⌋ |
| Calculations.DayversaryFrom | js/calculations.js:71-82 | the same steps once both midnights are taken: the shift, the three-way comparison and the age |
| Calculations.AddDays | js/calculations.js:72 | `setDate(getDate() + days)` on a valid Date moves it by exactly `days` days, clipped to the time range |
| Calculations.Compare | js/calculations.js:77-80 | the comparison is past, future or today exactly when the date is before, after, or equal to (or NaN against) today |
| Calculations.SetDateShifts | js/calculations.js:72 | `setDate(getDate() + days)` moves a time value by `days`·86,400,000 ms |
| Calculations.ShiftByDays | js/calculations.js:71-72 | a midnight moved by whole days is the midnight of the day that many days on |
| Calculations.AgeYears | js/calculations.js:82 | Math.round(days/365.25) = ⌊(8·days + 1461)/2922⌋ |
| Calculations.AgeIsNearest | js/calculations.js:82 | that age is strictly within half a year of days/365.25: a tie never occurs |
| Calculations.DayversaryZero | js/calculations.js:71-72 | zero days gives a valid Date on the date of birth's own calendar date |
| Calculations.DayversaryCalendarDate | js/calculations.js:71-72 | for a date of birth given as a calendar date, the dayversary is the midnight of the day `days` days later, across months and years |
| Calculations.ComparisonIsCalendarOrder | js/calculations.js:77-80 | for a midnight, "before today's midnight" is "an earlier calendar date than today", and "after" is "a later one" |
| Calculations.LivedWeeks | js/calculations.js:97-100 | the rounded weeks lived never exceed 4160 |
| Calculations.LivedWeeksRounds | js/calculations.js:97-100 | over d whole days, the weeks lived are d/7 rounded half up, i.e. ⌊d/7⌋ + (1 if d mod 7 ≥ 4), capped at 4160 once d > 29120 |
| Calculations.FutureBirthWeeks | js/calculations.js:99-100 | a date of birth 1 to 3 days after today gives 0 weeks lived, and 4 or more days after gives a negative count |
| Calculations.BuildCalendarMatrix | js/calculations.js:92-117 | z is the 80 × 52 life grid of the rounded weeks lived between the two midnights; xLabels = [1..52], yLabels = [1..80]; the axis titles |
| Calculations.FillAndSlice | js/calculations.js:100-113 | the two push loops and the slice loop build exactly the life grid of `lived` weeks |
| Calculations.FillFlat | js/calculations.js:100-105 | ones below `lived` and zeros from there on; its length is exactly max(lived, 0) + 4160 - lived, so 4160 when `lived` ≥ 0 and longer when it is negative |
| Calculations.SliceRows | js/calculations.js:107-113 | 80 rows, row k being flat[52k .. 52k + 52]: the first 4160 cells reshaped into 80 rows of 52 (`Calculations.Reshape`) |
| Calculations.LifeGridShape | js/calculations.js:108-113 | the grid has 80 rows of 52 cells, and cell (r, c) is 1 exactly when 52r + c < lived |
| Calculations.SameLifeGrid | js/calculations.js:108-113 | those two facts determine the grid |
| Calculations.OneBased | js/calculations.js:114-115 | the labels are n long and entry i is i + 1 |
| Calculations.FlattenReshape | js/calculations.js:111-113 | reshaping into rows × cols, which is what the slice loop does (`Calculations.SliceRows`), and flattening gives back the first rows·cols entries |
| Calculations.LifeGridCount | js/calculations.js:99-113 | the flattened grid is a row-major prefix of ones, and the count of ones is `lived` clamped to [0, 4160] |
| App.FmtDate | js/app.js:29-33 | an Invalid Date formats as "NaN-undefined-NaN"; a valid one as a two-character day, a dash, its month's name from the 12-entry table, a dash and the year, which parses back to the calendar date the time value falls on |
| App.FmtCivilParts | js/app.js:29-33 | the output is a two-digit day of the date's value, a dash, the month's name from the 12-entry table, a dash and the full year |
| App.MonthNameLength | js/app.js:30 | each month name has three letters and names only its own month |
| App.FmtDateRoundTrip | js/app.js:29-33 | the formatted date parses back to the same calendar date |
| App.MonthIndex | js/app.js:30 | finds a month name's position in the table, or reports that it is absent |
| App.ParseDob | js/app.js:90-91 | a value with fewer than three dash-separated pieces is an Invalid Date, since `Number(undefined)` is NaN (the pieces are read by `App.NumberAt` and built by `App.NewDateOfNumbers`); `App.ParseIsoDate` and `App.DobOfParts` state the three-piece case |
| App.ParseIsoDate | js/app.js:89-91 | a "YYYY-MM-DD" value becomes `new Date(YYYY, MM - 1, DD)`: the year, the zero-based month and the day |
| App.ParseIsoDateExact | js/app.js:89-91 | for years from 100 on, that is the midnight of that calendar date, which reads back as the same date |
| App.IsoDateSplit | js/app.js:90 | the input value splits on '-' into the padded year, month and day |
| App.DobOfParts | js/app.js:91 | three numeric pieces give `new Date(year, month - 1, day)` |
| App.PaddedNumber | js/app.js:91 | `Number` of a zero-padded numeral is the number |
| App.Page.Submit | js/app.js:82-101 | an empty value changes nothing; otherwise the parsed date of birth is stored and the results and the tab bar are shown |
| App.TabBar.Click | js/app.js:70-77 | after a click only the clicked button is active, and only the panel named by its `data-tab` (the first with that id); exactly one button and, when that panel exists, exactly one panel are active |
| App.IndexOf | js/app.js:75 | the first position of the id, or -1 exactly when it is absent |
| App.OneHot | js/app.js:72-75 | a flag array true at one position only has exactly one true flag |
| App.DaysFromInput | js/app.js:158 | `Number(value) \|\| 0`: a non-numeric value gives 0, a numeric one its number |
| App.DaysFromInputValues | js/app.js:158 | an empty input is 0 days; a typed integer is read back exactly |
| App.DayversaryMessage | js/app.js:164-173 | "was on" exactly for past, "will be on" exactly for future, the Hooray text exactly for today; the age line is empty exactly for today |
| App.AgeLineReadsBack | js/app.js:166-169 | the age shown in the age line reads back as the dayversary's age |
| App.RenderDayversary | js/app.js:157-174 | the headline and age line chosen for the typed days match the comparison of the shifted date with today's midnight |
| App.YearsLeft | js/app.js:189 | never negative; 80 − age when age ≤ 80 and 0 otherwise |
| App.LifespanMessage | js/app.js:188-201 | the years-left message is chosen exactly when the age is under 80, with a non-negative count |
| App.LifespanByDays | js/app.js:188-201 | between midnights, the years-left message is chosen exactly before day 29220, with at most 80 years left |
| App.MidnightSpans | js/calculations.js:95-100 | a span between two midnights (`todayDate - dobDate`) is a whole number of days, so the grid's weeks lived are d/7 rounded half up (capped at 4160) and the years-left message is chosen exactly before day 29220 |
| App.OrdersDiff | js/app.js:111 | fails exactly when days ≤ 0, where `magnitude` throws; otherwise it is the distance between the explored share's magnitude and the ant's (-10) |
| App.OrdersDiffForty | js/app.js:111 | forty years of days are three orders of magnitude from the ant |
| Chart.FitChartFits | js/chart.js:29-35 | the cells fit the room between the margins both ways and fill it one way; the width and height fit the available width and 80% of the window's height; removing the margins leaves numCols and numRows cells of the same size, so the cells are square; a container reporting a width of 0 (`clientWidth \|\| 600`) gives a chart at most 600 pixels wide |
| Chart.FitSides | js/chart.js:31-35 | the same facts over any available lengths and cell counts |
| Chart.SquareSide | js/chart.js:31-35 | along one side, a cell no larger than the room per cell fits, and the side less its margins is n cells |
| Chart.GridLines | js/chart.js:37-58 | numCols vertical lines at x = 0.5 + i spanning 0.5 to numRows + 0.5, followed by numRows horizontal lines at y = 0.5 + i spanning 0.5 to numCols + 0.5 |
| Chart.CellsFramed | js/chart.js:41-57 | among the lines the loops draw, every cell has one on its left and one above it, each spanning the cell; it has one on its right only when it is not in the last column, and one below it only when it is not in the last row |
| Chart.OuterEdgesOpen | js/chart.js:41-57 | no drawn line lies on the right edge of the last column (x = numCols + 0.5) or on the bottom edge of the last row (y = numRows + 0.5): every line starts left of and above them |
| Chart.RenderMementoMori | js/chart.js:8-58 | the matrix of `buildCalendarMatrix`, the chart's size for 52 × 80 cells, and 132 gridlines, the first 52 vertical and the last 80 horizontal |

## Left out

- `sw.js`: the service worker's cache and network handlers are browser I/O with no logic of their own.
- `Plotly.newPlot` and the trace and layout objects (js/chart.js:11-19, 60-78): a foreign library.
- DOM reads and writes in js/app.js are not modelled:
  - `innerHTML` and `textContent`;
  - `scrollIntoView`;
  - the focus/blur trick that switches the input's type;
  - the `max` attribute;
  - service-worker registration.
  The strings the page shows are modelled only where a property is stated about them: the date format and the age line.
- `fmt`, `dayOfWeek` and `fmtDateISO` wrap `toLocaleString`/`toLocaleDateString`, which depend on locale data.
  - In messages, a date shown by `fmtDateISO` is carried as its time value (`App.Headline`).
- The module-level `currentDob` and the live-update listener are event plumbing.
  - `App.Page.Submit` stores the parsed date.
  - The other handlers take the date of birth as a parameter.
- IEEE floating point is replaced by exact reals. This covers:
  - `toFixed`;
  - `Math.log10`'s inaccuracy near exact powers of ten;
  - the binary rounding of `distanceLy`, `universeProportion` and the chart sizes.
- Time zones and daylight saving: every time is local time. The one-hour gaps and overlaps that can shift `daysAlive` by one day are not modelled.
- `Number(s)` is modelled for the empty string and for an optional sign followed by decimal digits. Every other string is NaN: decimals, exponents, hexadecimal, surrounding whitespace, "Infinity".
  - A whole number written with a decimal point or an exponent ("7.0", "1e3") is read as 7 or 1000 by the page but becomes NaN in the model, so `App.DaysFromInput` gives 0 days for it.
  - A fractional number of days is not modelled either.
- When the days alive are 0 or fewer, `magnitude` throws in `renderSpaceJourney` (js/app.js:111). The exception leaves the submit handler, so `renderDayversary`, `renderMementoTab` and `scrollIntoView` (js/app.js:97-100) never run. `App.OrdersDiff` models the error, but `App.Page.Submit` does not model the rest of the handler being skipped.
- Invalid Date inputs to the calculations:
  - `Calculations.DaysAlive`, `Calculations.DayversaryDate` and `Calculations.BuildCalendarMatrix` take a finite time value as the date of birth and as today;
  - `App.ParseDob` may yield an Invalid Date, but passing it on is not modelled.
- Calculations.DaysAlive: the day-number difference is stated only when neither date falls in the years 0 to 99. In those years the source's own `new Date(y, m, d)` moves the date to 1900-1999, which the model computes but does not describe further.
- Calculations.Midnight: likewise, "same day" is stated only outside the years 0 to 99.
- Chart.FitChartFits: requires at least one column and one row. The page always has 52 and 80.
- App.TabBar.Click: `getElementById` is modelled as the first panel whose id matches. A missing panel makes the source throw after activating the button, modelled as `ok` false.
- App.RenderDayversary: states the choice of headline and the emptiness of the age line. The age line's content is stated by `App.AgeLineReadsBack` and `App.DayversaryMessage`.
