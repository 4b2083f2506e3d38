/** Reading the table body back: a parser for the markup between the table header and the
    table end, and the proof that it recovers the grid the markup was built from. This is what
    makes the rendering faithful: no two grids are written the same way, and what a browser
    finds in the body is exactly the month's cells, row by row. */
module CalendarReadBack {
  import opened CalendarGrid
  import opened CalendarHtml
  import Decimal

  datatype Option<T> = None | Some(value: T)

  const CellOpen: string := "<td>"
  const CellClose: string := "</td>"

  predicate EndsWith(s: string, t: string) {
    |t| <= |s| && s[|s| - |t|..] == t
  }

  /** The length of the run of digits at the end of s. */
  function TrailingDigits(s: string): (k: nat)
    ensures k <= |s|
    ensures forall i :: |s| - k <= i < |s| ==> Decimal.IsDigit(s[i])
    ensures k < |s| ==> !Decimal.IsDigit(s[|s| - k - 1])
    decreases |s|
  {
    if s == [] || !Decimal.IsDigit(s[|s| - 1]) then 0 else TrailingDigits(s[..|s| - 1]) + 1
  }

  /** Puts a cell at the end of the last row. */
  function AddCell(r: Option<seq<seq<Cell>>>, c: Cell): Option<seq<seq<Cell>>> {
    match r
    case Some(rows) =>
      if rows == [] then None else Some(rows[..|rows| - 1] + [rows[|rows| - 1] + [c]])
    case None => None
  }

  /** Opens a new, empty row. */
  function AddRow(r: Option<seq<seq<Cell>>>): Option<seq<seq<Cell>>> {
    match r
    case Some(rows) => Some(rows + [[]])
    case None => None
  }

  /** The rows written in s, read from the end: a cell closes with `</td>`, a row break starts
      a new row, and anything else is malformed. */
  function ParseBody(s: string): Option<seq<seq<Cell>>>
    decreases |s|, 1
  {
    if s == [] then Some([[]])
    else if EndsWith(s, CellClose) then ParseCell(s[..|s| - |CellClose|])
    else if EndsWith(s, RowBreak) then AddRow(ParseBody(s[..|s| - |RowBreak|]))
    else None
  }

  /** The rows of `inner + </td>`: the cell opened last is either empty or holds a run of
      digits, and it goes at the end of the rows before it. */
  function ParseCell(inner: string): Option<seq<seq<Cell>>>
    decreases |inner|, 0
  {
    if EndsWith(inner, CellOpen) then AddCell(ParseBody(inner[..|inner| - |CellOpen|]), Blank)
    else
      var k := TrailingDigits(inner);
      var before := inner[..|inner| - k];
      if k > 0 && EndsWith(before, CellOpen) then
        AddCell(ParseBody(before[..|before| - |CellOpen|]), Day(Decimal.ParseDigits(inner[|inner| - k..])))
      else None
  }

  // ----- Reading back one piece at a time -----

  /** Digits after a non-digit: the trailing run is exactly the digits. */
  lemma {:induction false} TrailingDigitsAfter(a: string, d: string)
    requires a != [] && !Decimal.IsDigit(a[|a| - 1])
    requires forall i :: 0 <= i < |d| ==> Decimal.IsDigit(d[i])
    ensures TrailingDigits(a + d) == |d|
    decreases |d|
  {
    if d == [] {
      assert a + d == a;
    } else {
      var d' := d[..|d| - 1];
      assert (a + d)[..|a + d| - 1] == a + d';
      TrailingDigitsAfter(a, d');
    }
  }

  lemma ReadBlank(q: string)
    ensures ParseBody(q + BlankCell) == AddCell(ParseBody(q), Blank)
  {
    var s := q + BlankCell;
    assert BlankCell == CellOpen + CellClose;
    Assoc(q, CellOpen, CellClose);
    Split(q + CellOpen, CellClose);
    Split(q, CellOpen);
  }

  lemma ReadDay(q: string, n: nat)
    ensures ParseBody(q + DayCell(n)) == AddCell(ParseBody(q), Day(n))
  {
    var digits := Decimal.NatToString(n);
    Decimal.NatToStringRoundTrip(n);
    var before := q + CellOpen;
    var inner := before + digits;
    var s := inner + CellClose;
    assert q + DayCell(n) == s by {
      Assoc(q, CellOpen + digits, CellClose);
      Assoc(q, CellOpen, digits);
    }
    Split(inner, CellClose);
    assert ParseBody(s) == ParseCell(inner);
    assert !EndsWith(inner, CellOpen) by {
      assert inner[|inner| - 1] == digits[|digits| - 1];
    }
    TrailingDigitsAfter(before, digits);
    Split(before, digits);
    Split(q, CellOpen);
    assert ParseCell(inner) == AddCell(ParseBody(q), Day(Decimal.ParseDigits(digits)));
  }

  lemma ReadCell(q: string, c: Cell)
    ensures ParseBody(q + CellHtml(c)) == AddCell(ParseBody(q), c)
  {
    match c
    case Blank => ReadBlank(q);
    case Day(n) => ReadDay(q, n);
  }

  lemma ReadBreak(q: string)
    ensures ParseBody(q + RowBreak) == AddRow(ParseBody(q))
  {
    var s := q + RowBreak;
    Split(q, RowBreak);
    assert s[|s| - |CellClose|..] == RowBreak[4..];
  }

  /** Reading a row's cells after q appends them to the last row read from q. */
  lemma {:induction false} ReadRow(q: string, rows: seq<seq<Cell>>, row: seq<Cell>)
    requires ParseBody(q) == Some(rows) && rows != []
    ensures ParseBody(q + RowHtml(row)) == Some(rows[..|rows| - 1] + [rows[|rows| - 1] + row])
    decreases |row|
  {
    if row == [] {
      assert q + RowHtml(row) == q;
      assert rows[|rows| - 1] + row == rows[|rows| - 1];
      assert rows[..|rows| - 1] + [rows[|rows| - 1]] == rows;
    } else {
      var init, c := row[..|row| - 1], row[|row| - 1];
      ReadRow(q, rows, init);
      var p := q + RowHtml(init);
      assert q + RowHtml(row) == p + CellHtml(c) by {
        Assoc(q, RowHtml(init), CellHtml(c));
      }
      ReadCell(p, c);
      ExtendLastRow(rows, init, c);
      LastSplit(row);
    }
  }

  lemma ExtendLastRow(rows: seq<seq<Cell>>, init: seq<Cell>, c: Cell)
    requires rows != []
    ensures AddCell(Some(rows[..|rows| - 1] + [rows[|rows| - 1] + init]), c)
         == Some(rows[..|rows| - 1] + [rows[|rows| - 1] + (init + [c])])
  {
    var r' := rows[..|rows| - 1] + [rows[|rows| - 1] + init];
    assert r'[..|r'| - 1] == rows[..|rows| - 1];
    assert r'[|r'| - 1] + [c] == rows[|rows| - 1] + (init + [c]);
  }

  // ----- The round trip -----

  /** The body markup of any non-empty list of rows reads back as those rows. */
  lemma {:induction false} BodyRoundTrip(rows: seq<seq<Cell>>)
    requires rows != []
    ensures ParseBody(RowsHtml(rows)) == Some(rows)
    decreases |rows|
  {
    var e: seq<Cell> := [];
    if |rows| == 1 {
      var r := rows[0];
      ReadRow("", [e], r);
      assert "" + RowHtml(r) == RowHtml(r);
      assert e + r == r;
      assert [e][..0] + [e + r] == [r];
      assert rows == [r];
    } else {
      var init, last := rows[..|rows| - 1], rows[|rows| - 1];
      BodyRoundTrip(init);
      ReadBreak(RowsHtml(init));
      ReadRow(RowsHtml(init) + RowBreak, init + [e], last);
      assert (init + [e])[..|init|] == init;
      assert (init + [e])[|init|] == e;
      assert e + last == last;
      assert rows == init + [last];
    }
  }

  /** Distinct non-empty grids are written differently. */
  lemma BodyInjective(a: seq<seq<Cell>>, b: seq<seq<Cell>>)
    requires a != [] && b != [] && RowsHtml(a) == RowsHtml(b)
    ensures a == b
  {
    BodyRoundTrip(a);
    BodyRoundTrip(b);
  }

  /** The text between the table header and the table end of a month's page reads back as
      the month's grid. */
  lemma PageReadsBack(year: int, month: int)
    requires 0 <= month < 12
    ensures var page := CalendarPage(year, month);
      var opening := Heading(year, month) + TableHead;
      |opening| + |TableFoot| <= |page|
      && ParseBody(page[|opening|..|page| - |TableFoot|]) == Some(MonthRows(year, month))
  {
    var opening := Heading(year, month) + TableHead;
    var body := RowsHtml(MonthRows(year, month));
    var page := CalendarPage(year, month);
    assert page == (opening + body) + TableFoot;
    Split(opening + body, TableFoot);
    Split(opening, body);
    assert page[|opening|..|page| - |TableFoot|] == (opening + body)[|opening|..];
    var f := FirstWeekday(year, month);
    assert MonthRows(year, month) != [] by {
      if f > 0 {
        assert Cells(f, MonthLength(year, month)) != [] by {
          assert |Blanks(f)| == f;
        }
      }
    }
    BodyRoundTrip(MonthRows(year, month));
  }
}
