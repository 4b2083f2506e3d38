# Month calendar of `renderCalendar`, modelled in Dafny

`renderCalendar` (js/main.js) renders a month grid into the page element `calendar` once the
page has loaded. It reads the year and month from the clock. It asks the JavaScript `Date` object
for two things: the weekday of the 1st (`new Date(year, month, 1).getDay()`) and the length of the
month (`new Date(year, month + 1, 0).getDate()`). It then builds the markup in a string:

- a heading `<h6>Mon year</h6>`;
- a table with a fixed weekday header row;
- one empty cell per weekday before the 1st;
- one cell per day, with a row break `</tr><tr>` in front of every day whose running index
  `firstDay + day - 1` is a multiple of seven;
- the closing tags.

Finally it writes the string into the element.

The model is split into six modules:

- `Gregorian` (gregorian.dfy) holds the reference rules of the proleptic Gregorian calendar: the
  leap-year rule, month and year lengths, and Sakamoto's weekday formula.
- `JsDate` (jsdate.dfy) holds the day arithmetic of the ECMAScript `Date` object, counted in days
  since 1970-01-01. It covers DayFromYear, MakeDay (which carries a month outside 0..11 into the
  year and takes the date as an offset), the reading of years 0..99 as 1900..1999, WeekDay, and
  YearFromTime/MonthFromTime/DateFromTime. `JsDate.NewDate` is the `new Date(year, month, day)`
  of js/main.js:8-9. The module proves that the getters invert MakeDay and that the two `Date`
  idioms of the script give the Gregorian weekday and month length.
- `Decimal` (decimal.dfy) spells numbers the way `'' + n` does, with a parser and both round
  trips. `Decimal.IntToString` spells the year of the heading (js/main.js:11) and
  `Decimal.NatToString` the day numbers of the cells (js/main.js:16).
- `CalendarGrid` (grid.dfy) holds the cells of the month, the rows the row breaks cut them into,
  and where every blank and every day lands. `CalendarGrid.Rows` is the grid that the blank loop
  and the day loop of js/main.js:12-16 write out.
- `CalendarHtml` (calendar.dfy) holds the markup as a function of the grid and the method
  `BuildCalendarHtml`. `CalendarHtml.Heading` is the heading of js/main.js:11 and
  `CalendarHtml.CalendarPage` the whole string of js/main.js:11-18. `BuildCalendarHtml` builds
  that string in two loops, in the script's own steps, and is proved equal to `CalendarPage`.
  This module also holds the page element as a class with a mutable `innerHtml` field, and
  `RenderCalendar`, which writes into it.
- `CalendarReadBack` (readback.dfy) is a parser for the table body. Its helper `TrailingDigits`
  measures the day number at the end of a cell. The module proves that the body of every page
  reads back as the month's grid, so no two grids share one markup.

The script reads the year and the month from the current date; here they are parameters of
`RenderCalendar`. `getMonth()` always returns a month in 0..11, so `0 <= month < 12` is required
of callers.

js/main.js emits no cells after the last day: the table closes right after the last day's cell
(`CalendarGrid.EndsWithLastDay`).

## Model

| member | source | states |
|---|---|---|
| Gregorian.DaysInMonth | js/main.js:9 | every month has 28 to 31 days |
| Gregorian.FebruaryLength | js/main.js:9 | February has 29 days in leap years and 28 otherwise |
| Gregorian.MonthsFillYear | js/main.js:9 | the twelve month lengths add up to the year's length |
| Gregorian.LeapsThroughStep | js/main.js:8-9 | the count of leap years grows by one exactly at a leap year |
| Gregorian.DayOfWeek | js/main.js:8 | the reference weekday is always in 0..6 |
| Gregorian.DayOfWeekFromFirst | js/main.js:8-15 | day d of a month falls d - 1 weekdays after the 1st, modulo 7 |
| JsDate.WeekDay | js/main.js:8 | getDay yields a weekday in 0..6 |
| JsDate.DaysBeforeMonth | js/main.js:9 | the offset of a month's 1st lies between 0 and the year's length |
| JsDate.DayFromYearStep | js/main.js:8-9 | consecutive DayFromYear values differ by the Gregorian year length |
| JsDate.DayFromYearByLeaps | js/main.js:8-9 | DayFromYear is 365 days a year since 1970 plus the leap days before the year |
| JsDate.YearFromDay | js/main.js:9 | YearFromTime returns the year whose span of days contains the day |
| JsDate.YearFromDayUnique | js/main.js:9 | that year is the only one whose span contains the day |
| JsDate.MonthSearch | js/main.js:9 | MonthFromTime returns the month whose span contains the day of the year |
| JsDate.MonthSearchUnique | js/main.js:9 | that month is the only one whose span contains the day of the year |
| JsDate.ToCivil | js/main.js:9 | every day number is read as a valid Gregorian date |
| JsDate.DateFromDay | js/main.js:9 | getDate yields a day of the month in 1..31 |
| JsDate.MakeDayInYear | js/main.js:8 | for a month in 0..11, MakeDay carries nothing into the year |
| JsDate.DayOfToCivil | js/main.js:9 | making a day from the date read off day t gives t back |
| JsDate.ToCivilOfDay | js/main.js:9 | reading the date of a valid date's day number gives that date back |
| JsDate.DayOfCivilInjective | js/main.js:9 | two valid dates with the same day number are equal |
| JsDate.DateInSpans | js/main.js:9 | a valid date's day number lies in its year's span and its month's span |
| JsDate.DayZeroIsLastDay | js/main.js:9 | day 0 of month m + 1 is the last day of month m, December included, as the month carries into the next year |
| JsDate.LastDayOfMonth | js/main.js:9 | `new Date(y, m + 1, 0)` reads back as the last date of month m, and its getDate is the month's Gregorian length |
| JsDate.WeekDayOfDate | js/main.js:8 | getDay of `new Date(y, m, d)` equals Sakamoto's Gregorian weekday |
| JsDate.NewYear2024 | js/main.js:8 | 1 January 2024 is day 19723 and a Monday; 1 February 2024 is a Thursday |
| Decimal.DigitValue | js/main.js:16 | a digit's value spells back as that digit |
| Decimal.NatToStringRoundTrip | js/main.js:16 | a number's spelling is a canonical numeral that parses back to the number |
| Decimal.ParseDigitsRoundTrip | js/main.js:16 | every canonical numeral is the spelling of its value |
| Decimal.NatToStringInjective | js/main.js:16 | different day numbers are spelled differently |
| Decimal.IntToStringInjective | js/main.js:11 | different years are spelled differently in the heading |
| CalendarGrid.ChunksFlatten | js/main.js:14-17 | cutting cells into rows of seven loses and adds no cell |
| CalendarGrid.ChunksShape | js/main.js:14-17 | the rows have 1 to 7 cells, all but the last are full, and the last holds the remainder |
| CalendarGrid.ChunksAppend | js/main.js:15-16 | a new cell opens a row when the cell count is a multiple of seven, and otherwise extends the last row |
| CalendarGrid.RowsContent | js/main.js:13-17 | read row by row, the body holds exactly firstDay blanks and then the days 1..n in increasing order |
| CalendarGrid.RowsWidth | js/main.js:14-18 | no row holds more than 7 cells, every row between the first and the last is full, and the number of rows follows from firstDay and n |
| CalendarGrid.DayPlacement | js/main.js:14-16 | day d sits in row Lead + (firstDay + d - 1) / 7, in column (firstDay + d - 1) % 7 |
| CalendarGrid.BlankPlacement | js/main.js:13 | the first firstDay cells of the first row are blanks |
| CalendarGrid.RowStartsWithDay | js/main.js:15 | a row begins with day d if and only if (firstDay + d - 1) % 7 == 0 |
| CalendarGrid.EndsWithLastDay | js/main.js:17-18 | the last cell of the body is the last day: nothing pads the final row |
| CalendarGrid.SundayStart | js/main.js:12-15 | a month starting on a Sunday opens with an empty row, and day 1 starts the next row |
| CalendarGrid.CellsGrow | js/main.js:14 | the cells up to day d are those up to day d - 1 followed by day d |
| CalendarGrid.RowsGrow | js/main.js:14-16 | adding day d opens a new row holding it exactly when (firstDay + d - 1) % 7 == 0, and otherwise appends it to the last row |
| CalendarHtml.BuildCalendarHtml | js/main.js:5-18 | the string built step by step is the month's page: heading, table header, body rows of the Gregorian grid, closing tags |
| CalendarHtml.AppendMonthTable | js/main.js:12-18 | the two loops append the table header, the markup of the rows of firstDay blanks and daysInMonth days, and the closing tags |
| CalendarHtml.BlanksGrow | js/main.js:13 | each pass of the blank loop adds one empty cell |
| CalendarHtml.BlanksOpenGrid | js/main.js:13 | after the blank loop the markup is that of the grid with no days |
| CalendarHtml.RowsHtmlSnoc | js/main.js:15 | a further row is joined to the markup with one row break |
| CalendarHtml.RowsHtmlExtendLast | js/main.js:16 | a cell added to the last row is appended at the end of the markup |
| CalendarHtml.GridBreaks | js/main.js:15-16 | when (firstDay + day - 1) % 7 == 0, day `day` adds a row break and then its cell to the markup |
| CalendarHtml.GridContinues | js/main.js:16 | otherwise day `day` adds only its cell |
| CalendarHtml.DayAppended | js/main.js:14-16 | one pass of the day loop turns the markup of days 1..day - 1 into that of days 1..day |
| CalendarHtml.PageFrame | js/main.js:11-18 | the page starts with the heading and the table header and ends with the closing tags |
| CalendarHtml.DateArithmetic | js/main.js:8-9 | the script's firstDay is the Gregorian weekday of the 1st and its daysInMonth the Gregorian month length (28..31), December included |
| CalendarHtml.DayUnderItsWeekday | js/main.js:8-16 | every day of the month is shown in the column of its own Gregorian weekday |
| CalendarHtml.TwoDigitYear | js/main.js:8-11 | for a year 0..99 the grid is laid out for the year 1900 + year, while the heading prints the year as given |
| CalendarHtml.January99 | js/main.js:8-11 | the page for January of year 99 lays out January 1999 (starting on a Friday, 31 days) under the heading "Jan 99" |
| CalendarHtml.January2024 | js/main.js:8-9 | January 2024 starts on a Monday (1) and has 31 days |
| CalendarHtml.February2024 | js/main.js:8-9 | February 2024 starts on a Thursday (4) and has 29 days |
| CalendarHtml.Year2023 | js/main.js:9 | February 2023 has 28 days and December 2023 has 31 |
| CalendarHtml.RenderCalendar | js/main.js:1-19 | without a calendar element nothing is written; with one, its content becomes the month's page |
| CalendarHtml.RenderTwice | js/main.js:19 | rendering the same month twice writes identical markup |
| CalendarReadBack.ReadBlank | js/main.js:13 | reading an empty cell puts a blank at the end of the last row |
| CalendarReadBack.ReadDay | js/main.js:16 | reading a day's cell puts that day at the end of the last row |
| CalendarReadBack.ReadBreak | js/main.js:15 | reading a row break opens a new, empty row |
| CalendarReadBack.ReadRow | js/main.js:13-16 | reading a row's cells appends them to the last row |
| CalendarReadBack.BodyRoundTrip | js/main.js:13-17 | the markup of any non-empty list of rows parses back to those rows |
| CalendarReadBack.BodyInjective | js/main.js:13-17 | two different grids never produce the same body markup |
| CalendarReadBack.PageReadsBack | js/main.js:11-18 | the text between the table header and the closing tags of a month's page parses back to the month's grid |

## Left out

- The clock: `new Date()` at js/main.js:5 and its getters at line 7 become the parameters `year` and
  `month` of `RenderCalendar`.
- The local time zone: every date is taken at midnight UTC. The calendar only compares whole
  days of one zone, so the zone's offset does not change firstDay or daysInMonth.
- Milliseconds, the time-value range of ±8.64e15 ms and NaN dates: the model counts whole days on
  unbounded integers. The year and month the clock yields are always in range.
- The page: `document.getElementById('calendar')` is modelled as an optional `Container` object,
  and `innerHTML` as its string field. The browser's parsing and display of the markup is not
  modelled; only its text is.
- The `DOMContentLoaded` listener at js/main.js:22 is left out. It is page-lifecycle wiring that
  calls `renderCalendar` once.
- The script writes the two table loops inline. The model puts them in a method of their own,
  `AppendMonthTable`, which `BuildCalendarHtml` calls, so that each proof stays small.
