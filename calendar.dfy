/** The month calendar of `renderCalendar` (js/main.js): the markup it builds for a year and a
    month, the method that builds it step by step as the script does, and the write into the
    page's container element. The clock is replaced by the year and month parameters. */
module CalendarHtml {
  import opened CalendarGrid
  import Decimal
  import Gregorian
  import JsDate

  /** Short English month names, indexed by month 0..11. */
  const MonthNames: seq<string> :=
    ["Jan", "Feb", "Mar", "Apr", "May", "Jun", "Jul", "Aug", "Sep", "Oct", "Nov", "Dec"]

  /** The table opening with its fixed weekday header row, and the opening of the first body row. */
  const TableHead: string :=
    "<table class=\"table table-bordered table-sm\"><thead><tr><th>Su</th><th>Mo</th><th>Tu</th>"
    + "<th>We</th><th>Th</th><th>Fr</th><th>Sa</th></tr></thead><tbody><tr>"

  const TableFoot: string := "</tr></tbody></table>"
  const RowBreak: string := "</tr><tr>"
  const BlankCell: string := "<td></td>"

  function DayCell(d: nat): string {
    "<td>" + Decimal.NatToString(d) + "</td>"
  }

  function CellHtml(c: Cell): string {
    match c
    case Blank => BlankCell
    case Day(d) => DayCell(d)
  }

  /** The cells of one row, one after another. */
  function RowHtml(row: seq<Cell>): string
    decreases |row|
  {
    if row == [] then "" else RowHtml(row[..|row| - 1]) + CellHtml(row[|row| - 1])
  }

  /** The body rows, separated by row breaks; the first row's opening tag belongs to TableHead
      and the last row's closing tag to TableFoot. */
  function RowsHtml(rows: seq<seq<Cell>>): string
    decreases |rows|
  {
    if rows == [] then ""
    else if |rows| == 1 then RowHtml(rows[0])
    else RowsHtml(rows[..|rows| - 1]) + RowBreak + RowHtml(rows[|rows| - 1])
  }

  function Heading(year: int, month: int): string
    requires 0 <= month < 12
  {
    "<h6>" + MonthNames[month] + " " + Decimal.IntToString(year) + "</h6>"
  }

  /** The year the Date constructor works in: a year 0..99 is read as 1900..1999. */
  function CalendarYear(year: int): int {
    JsDate.DateYear(year)
  }

  /** Weekday of the 1st of the month, 0 = Sunday. */
  function FirstWeekday(year: int, month: int): nat
    requires 0 <= month < 12
  {
    Gregorian.DayOfWeek(CalendarYear(year), month, 1)
  }

  function MonthLength(year: int, month: int): nat
    requires 0 <= month < 12
  {
    Gregorian.DaysInMonth(CalendarYear(year), month)
  }

  /** The month's grid: FirstWeekday blanks, then the days in rows of seven. */
  function MonthRows(year: int, month: int): seq<seq<Cell>>
    requires 0 <= month < 12
  {
    Rows(FirstWeekday(year, month), MonthLength(year, month))
  }

  /** The complete markup for the month: heading, table header, the rows, table end. */
  function CalendarPage(year: int, month: int): string
    requires 0 <= month < 12
  {
    Heading(year, month) + TableHead + RowsHtml(MonthRows(year, month)) + TableFoot
  }

  /** Builds the markup the way js/main.js does: the weekday of the 1st and the month length
      come from Date arithmetic, the heading names the month and the year, and the table is
      appended to it. */
  method BuildCalendarHtml(year: int, month: int) returns (html: string)
    requires 0 <= month < 12
    ensures html == CalendarPage(year, month)
  {
    var firstDay := JsDate.WeekDay(JsDate.NewDate(year, month, 1));
    var daysInMonth := JsDate.DateFromDay(JsDate.NewDate(year, month + 1, 0));
    DateArithmetic(year, month);
    html := "<h6>" + MonthNames[month] + " " + Decimal.IntToString(year) + "</h6>";
    html := AppendMonthTable(html, firstDay, daysInMonth);
  }

  /** Appends the table to html: the header, one blank cell per leading blank, then one cell
      per day with a row break in front of every day whose running index firstDay + day - 1
      is a multiple of seven, and the closing tags. */
  method AppendMonthTable(prefix: string, firstDay: nat, daysInMonth: nat) returns (html: string)
    requires firstDay < Week
    ensures html == prefix + TableHead + RowsHtml(Rows(firstDay, daysInMonth)) + TableFoot
  {
    html := prefix + TableHead;
    ghost var head := html;
    for i := 0 to firstDay
      invariant html == head + RowHtml(Blanks(i))
    {
      BlanksGrow(i);
      Assoc(head, RowHtml(Blanks(i)), BlankCell);
      html := html + BlankCell;
    }
    BlanksOpenGrid(firstDay);
    for day := 1 to daysInMonth + 1
      invariant html == head + RowsHtml(Rows(firstDay, day - 1))
    {
      DayAppended(head, firstDay, day);
      if (firstDay + day - 1) % Week == 0 {
        html := html + RowBreak;
      }
      html := html + DayCell(day);
    }
    html := html + TableFoot;
  }

  // ----- How the markup grows -----

  lemma BlanksGrow(i: nat)
    ensures RowHtml(Blanks(i + 1)) == RowHtml(Blanks(i)) + BlankCell
  {
    assert Blanks(i + 1)[..i] == Blanks(i);
  }

  /** After the leading blanks the markup is that of the grid with no days yet. */
  lemma BlanksOpenGrid(f: nat)
    requires f < Week
    ensures RowsHtml(Rows(f, 0)) == RowHtml(Blanks(f))
  {
    assert Cells(f, 0) == Blanks(f);
    if f > 0 {
      assert Chunks(Blanks(f)) == [Blanks(f)];
    }
  }

  lemma RowHtmlAppend(row: seq<Cell>, c: Cell)
    ensures RowHtml(row + [c]) == RowHtml(row) + CellHtml(c)
  {
    assert (row + [c])[..|row|] == row;
  }

  /** A further row is joined on with a row break. */
  lemma RowsHtmlSnoc(rows: seq<seq<Cell>>, row: seq<Cell>)
    requires rows != []
    ensures RowsHtml(rows + [row]) == RowsHtml(rows) + RowBreak + RowHtml(row)
  {
    assert (rows + [row])[..|rows|] == rows;
  }

  lemma RowsHtmlNewRow(rows: seq<seq<Cell>>, c: Cell)
    requires rows != []
    ensures RowsHtml(rows + [[c]]) == RowsHtml(rows) + RowBreak + CellHtml(c)
  {
    RowsHtmlSnoc(rows, [c]);
    RowHtmlAppend([], c);
  }

  /** A cell added to the last row lands at the end of the markup. */
  lemma RowsHtmlExtendLast(init: seq<seq<Cell>>, last: seq<Cell>, c: Cell)
    ensures RowsHtml(init + [last + [c]]) == RowsHtml(init + [last]) + CellHtml(c)
  {
    RowHtmlAppend(last, c);
    if init == [] {
      assert init + [last + [c]] == [last + [c]];
      assert init + [last] == [last];
    } else {
      RowsHtmlSnoc(init, last);
      RowsHtmlSnoc(init, last + [c]);
      Assoc(RowsHtml(init) + RowBreak, RowHtml(last), CellHtml(c));
    }
  }

  /** Regrouping concatenations; stated once so that the markup's literals are not compared
      character by character. */
  lemma Assoc(a: string, b: string, c: string)
    ensures a + (b + c) == (a + b) + c
  {
  }

  /** Adding day `day` to the grid when its running index f + day - 1 is a multiple of seven
      adds a row break and then the day's cell. */
  lemma GridBreaks(f: nat, day: nat)
    requires f < Week && day >= 1 && (f + day - 1) % Week == 0
    ensures RowsHtml(Rows(f, day)) == RowsHtml(Rows(f, day - 1)) + RowBreak + DayCell(day)
  {
    RowsGrow(f, day);
    RowsHtmlNewRow(Rows(f, day - 1), Day(day));
  }

  /** Otherwise it adds only the day's cell. */
  lemma GridContinues(f: nat, day: nat)
    requires f < Week && day >= 1 && (f + day - 1) % Week != 0
    ensures RowsHtml(Rows(f, day)) == RowsHtml(Rows(f, day - 1)) + DayCell(day)
  {
    RowsGrow(f, day);
    var r := Rows(f, day - 1);
    RowsHtmlExtendLast(r[..|r| - 1], r[|r| - 1], Day(day));
    LastSplit(r);
  }

  /** The markup up to day - 1, extended as the loop body does, is the markup up to day. */
  lemma DayAppended(head: string, f: nat, day: nat)
    requires f < Week && day >= 1
    ensures (f + day - 1) % Week == 0 ==>
      head + RowsHtml(Rows(f, day - 1)) + RowBreak + DayCell(day) == head + RowsHtml(Rows(f, day))
    ensures (f + day - 1) % Week != 0 ==>
      head + RowsHtml(Rows(f, day - 1)) + DayCell(day) == head + RowsHtml(Rows(f, day))
  {
    var sofar := RowsHtml(Rows(f, day - 1));
    if (f + day - 1) % Week == 0 {
      GridBreaks(f, day);
      Assoc(head, sofar, RowBreak);
      Assoc(head, sofar + RowBreak, DayCell(day));
    } else {
      GridContinues(f, day);
      Assoc(head, sofar, DayCell(day));
    }
  }

  // ----- What the page shows -----

  /** The two parts of a concatenation are its prefix and its suffix. */
  lemma Split(a: string, b: string)
    ensures (a + b)[..|a|] == a && (a + b)[|a|..] == b
  {
  }

  /** The page opens with the heading `<h6>Mon year</h6>` followed by the table and its fixed
      weekday header row, and it closes the last row, the body and the table. */
  lemma PageFrame(year: int, month: int)
    requires 0 <= month < 12
    ensures var page := CalendarPage(year, month);
      var opening := Heading(year, month) + TableHead;
      |opening| + |TableFoot| <= |page|
      && page[..|opening|] == opening
      && page[|page| - |TableFoot|..] == TableFoot
  {
    var opening := Heading(year, month) + TableHead;
    var body := RowsHtml(MonthRows(year, month));
    Assoc(opening, body, TableFoot);
    Split(opening, body + TableFoot);
    Split(opening + body, TableFoot);
  }

  /** The Date arithmetic of the script yields the Gregorian weekday of the 1st and the
      Gregorian month length, December included. */
  lemma DateArithmetic(year: int, month: int)
    requires 0 <= month < 12
    ensures JsDate.WeekDay(JsDate.NewDate(year, month, 1)) == FirstWeekday(year, month)
    ensures JsDate.DateFromDay(JsDate.NewDate(year, month + 1, 0)) == MonthLength(year, month)
    ensures 0 <= FirstWeekday(year, month) < 7 && 28 <= MonthLength(year, month) <= 31
  {
    JsDate.WeekDayOfDate(CalendarYear(year), month, 1);
    JsDate.LastDayOfMonth(CalendarYear(year), month);
  }

  /** Every day of the month is shown in the column of its own weekday. */
  lemma DayUnderItsWeekday(year: int, month: int, d: nat)
    requires 0 <= month < 12 && 1 <= d <= MonthLength(year, month)
    ensures var rows := MonthRows(year, month);
      var r := RowOfDay(FirstWeekday(year, month), d);
      var col := Gregorian.DayOfWeek(CalendarYear(year), month, d);
      r < |rows| && col < |rows[r]| && rows[r][col] == Day(d)
  {
    DayPlacement(FirstWeekday(year, month), MonthLength(year, month), d);
    Gregorian.DayOfWeekFromFirst(CalendarYear(year), month, d);
  }

  /** A year 0..99 is laid out as the year 1900 + year, as the Date constructor reads it,
      while the heading prints the year as given. */
  lemma TwoDigitYear(year: int, month: int)
    requires 0 <= year <= 99 && 0 <= month < 12
    ensures FirstWeekday(year, month) == Gregorian.DayOfWeek(1900 + year, month, 1)
    ensures MonthLength(year, month) == Gregorian.DaysInMonth(1900 + year, month)
    ensures Heading(year, month) == "<h6>" + MonthNames[month] + " " + Decimal.NatToString(year) + "</h6>"
  {
  }

  /** The page for January of year 99 shows January 1999, which starts on a Friday, under the
      heading "Jan 99". */
  lemma January99()
    ensures FirstWeekday(99, 0) == 5 && MonthLength(99, 0) == 31
    ensures Heading(99, 0) == "<h6>Jan 99</h6>"
  {
    TwoDigitYear(99, 0);
    assert Gregorian.LeapsThrough(1998) == 484;
    assert Decimal.NatToString(99) == "99";
  }

  /** January 2024 starts on a Monday and has 31 days. */
  lemma January2024()
    ensures FirstWeekday(2024, 0) == 1 && MonthLength(2024, 0) == 31
  {
    assert CalendarYear(2024) == 2024;
    assert Gregorian.LeapsThrough(2023) == 490;
  }

  /** February 2024, in a leap year, starts on a Thursday and has 29 days. */
  lemma February2024()
    ensures FirstWeekday(2024, 1) == 4 && MonthLength(2024, 1) == 29
  {
    assert CalendarYear(2024) == 2024;
    assert Gregorian.LeapsThrough(2023) == 490;
  }

  /** February 2023 has 28 days, December 2023 has 31. */
  lemma Year2023()
    ensures MonthLength(2023, 1) == 28 && MonthLength(2023, 11) == 31
  {
    assert CalendarYear(2023) == 2023;
  }

  // ----- The page element -----

  /** A page element whose content the calendar replaces. */
  class Container {
    var innerHtml: string

    constructor (content: string)
      ensures innerHtml == content
    {
      innerHtml := content;
    }
  }

  /** `renderCalendar`: when the page has a calendar element, its content becomes the
      month's markup; without one, nothing is written. */
  method RenderCalendar(calendarEl: Container?, year: int, month: int)
    requires 0 <= month < 12
    modifies calendarEl
    ensures calendarEl != null ==> calendarEl.innerHtml == CalendarPage(year, month)
  {
    if calendarEl == null {
      return;
    }
    var html := BuildCalendarHtml(year, month);
    calendarEl.innerHtml := html;
  }

  /** Rendering the same month twice writes the same markup both times. */
  method RenderTwice(calendarEl: Container, year: int, month: int) returns (first: string, second: string)
    requires 0 <= month < 12
    modifies calendarEl
    ensures first == second && calendarEl.innerHtml == second
  {
    RenderCalendar(calendarEl, year, month);
    first := calendarEl.innerHtml;
    RenderCalendar(calendarEl, year, month);
    second := calendarEl.innerHtml;
  }
}
