/** The month grid: the cells of the table body and how the row breaks split them into rows.
    A month starting on weekday f (0 = Sunday) with n days has f blank cells and then the days
    1..n, seven cells to a week. */
module CalendarGrid {

  datatype Cell = Blank | Day(n: nat)

  /** The width of the grid: one column per weekday. */
  const Week: nat := 7

  function Blanks(k: nat): seq<Cell> {
    seq(k, _ => Blank)
  }

  /** The numbered cells 1..n. */
  function DayRun(n: nat): seq<Cell> {
    seq(n, (i: nat) => Day(i + 1))
  }

  /** All cells of the month in reading order. */
  function Cells(f: nat, n: nat): seq<Cell> {
    Blanks(f) + DayRun(n)
  }

  /** Consecutive runs of Week elements; only the last run may be shorter. */
  function Chunks<T>(s: seq<T>): seq<seq<T>>
    decreases |s|
  {
    if |s| <= Week then (if s == [] then [] else [s])
    else [s[..Week]] + Chunks(s[Week..])
  }

  /** The rows of the table body, as the row markup delimits them. A row is broken before
      every cell whose running index is a multiple of Week, except before a blank (the source
      only breaks in front of days). When the month starts on a Sunday the break falls in front
      of day 1, right after the row was opened, so the body starts with an empty row. */
  function Rows(f: nat, n: nat): seq<seq<Cell>>
    requires f < Week
  {
    (if f == 0 then [[]] else []) + Chunks(Cells(f, n))
  }

  function Flatten<T>(rows: seq<seq<T>>): seq<T>
    decreases |rows|
  {
    if rows == [] then [] else rows[0] + Flatten(rows[1..])
  }

  /** Number of rows before the first cell: the empty row of a month starting on a Sunday. */
  function Lead(f: nat): nat {
    if f == 0 then 1 else 0
  }

  /** The row holding day d. */
  function RowOfDay(f: nat, d: nat): nat
    requires d >= 1
  {
    Lead(f) + (f + d - 1) / Week
  }

  // ----- Chunks -----

  /** Reading the runs one after another gives back the sequence. */
  lemma {:induction false} ChunksFlatten<T>(s: seq<T>)
    ensures Flatten(Chunks(s)) == s
    decreases |s|
  {
    if |s| > Week {
      ChunksFlatten(s[Week..]);
      assert s == s[..Week] + s[Week..];
    }
  }

  /** Every run is non-empty and at most Week long; all runs but the last are full. */
  lemma {:induction false} ChunksShape<T>(s: seq<T>)
    ensures |Chunks(s)| == (|s| + Week - 1) / Week
    ensures forall r :: 0 <= r < |Chunks(s)| ==> 0 < |Chunks(s)[r]| <= Week
    ensures forall r :: 0 <= r < |Chunks(s)| - 1 ==> |Chunks(s)[r]| == Week
    ensures s != [] ==> |Chunks(s)[|Chunks(s)| - 1]| == |s| - Week * (|Chunks(s)| - 1)
    decreases |s|
  {
    if |s| > Week {
      ChunksShape(s[Week..]);
      var c := Chunks(s);
      assert c[1..] == Chunks(s[Week..]);
      forall r | 0 < r < |c|
        ensures c[r] == Chunks(s[Week..])[r - 1]
      {
      }
    }
  }

  lemma ChunksNonEmpty<T>(s: seq<T>)
    requires s != []
    ensures Chunks(s) != []
  {
  }

  lemma LastSplit<T>(s: seq<T>)
    requires s != []
    ensures s[..|s| - 1] + [s[|s| - 1]] == s
  {
  }

  /** Element p sits in run p / Week, at position p % Week. */
  lemma {:induction false} ChunksAt<T>(s: seq<T>, p: nat)
    requires p < |s|
    ensures p / Week < |Chunks(s)| && p % Week < |Chunks(s)[p / Week]|
    ensures Chunks(s)[p / Week][p % Week] == s[p]
    decreases |s|
  {
    if p < Week {
      assert p / Week == 0 && p % Week == p;
      ChunksNonEmpty(s);
      assert Chunks(s)[0] == if |s| <= Week then s else s[..Week];
    } else {
      var p' := p - Week;
      ChunksAt(s[Week..], p');
      assert p / Week == p' / Week + 1 && p % Week == p' % Week;
      assert Chunks(s)[p / Week] == Chunks(s[Week..])[p' / Week];
    }
  }

  /** Run r starts with element r * Week. */
  lemma {:induction false} ChunkStart<T>(s: seq<T>, r: nat)
    requires r < |Chunks(s)|
    ensures r * Week < |s| && Chunks(s)[r] != [] && Chunks(s)[r][0] == s[r * Week]
    decreases |s|
  {
    if r > 0 {
      assert |s| > Week;
      ChunkStart(s[Week..], r - 1);
    }
  }

  /** Appending one element either opens a new run (the previous ones being full) or
      extends the last run. */
  lemma {:induction false} ChunksAppend<T>(s: seq<T>, x: T)
    ensures |s| % Week == 0 ==> Chunks(s + [x]) == Chunks(s) + [[x]]
    ensures |s| % Week != 0 ==>
      && Chunks(s) != []
      && Chunks(s + [x]) == Chunks(s)[..|Chunks(s)| - 1] + [Chunks(s)[|Chunks(s)| - 1] + [x]]
    decreases |s|
  {
    if |s| > Week {
      ChunksAppend(s[Week..], x);
      assert (s + [x])[..Week] == s[..Week];
      assert (s + [x])[Week..] == s[Week..] + [x];
    } else if |s| == Week {
      assert (s + [x])[..Week] == s;
      assert (s + [x])[Week..] == [x];
      assert Chunks(s) == [s];
      assert Chunks([x]) == [[x]];
      assert Chunks(s + [x]) == [(s + [x])[..Week]] + Chunks((s + [x])[Week..]);
    } else if s == [] {
      assert s + [x] == [x];
    }
  }

  // ----- The rows of the month -----

  lemma FlattenPrefixEmpty<T>(rows: seq<seq<T>>)
    ensures Flatten([[]] + rows) == Flatten(rows)
  {
    assert ([[]] + rows)[1..] == rows;
  }

  /** Read row by row, the grid shows exactly f blanks and then the days 1..n in order. */
  lemma RowsContent(f: nat, n: nat)
    requires f < Week
    ensures Flatten(Rows(f, n)) == Blanks(f) + DayRun(n)
  {
    ChunksFlatten(Cells(f, n));
    if f == 0 {
      FlattenPrefixEmpty(Chunks(Cells(f, n)));
    } else {
      assert Rows(f, n) == Chunks(Cells(f, n));
    }
  }

  /** No row holds more than Week cells, and every row between the leading empty row
      (if any) and the last one is a full week. */
  lemma RowsWidth(f: nat, n: nat)
    requires f < Week
    ensures forall r :: 0 <= r < |Rows(f, n)| ==> |Rows(f, n)[r]| <= Week
    ensures forall r :: Lead(f) <= r < |Rows(f, n)| - 1 ==> |Rows(f, n)[r]| == Week
    ensures |Rows(f, n)| == Lead(f) + (f + n + Week - 1) / Week
  {
    var c := Chunks(Cells(f, n));
    ChunksShape(Cells(f, n));
    assert forall r :: Lead(f) <= r < |Rows(f, n)| ==> Rows(f, n)[r] == c[r - Lead(f)];
  }

  /** Day d sits in row RowOfDay(f, d), in column (f + d - 1) % Week. */
  lemma DayPlacement(f: nat, n: nat, d: nat)
    requires f < Week && 1 <= d <= n
    ensures RowOfDay(f, d) < |Rows(f, n)|
    ensures (f + d - 1) % Week < |Rows(f, n)[RowOfDay(f, d)]|
    ensures Rows(f, n)[RowOfDay(f, d)][(f + d - 1) % Week] == Day(d)
  {
    var s := Cells(f, n);
    ChunksAt(s, f + d - 1);
    assert Rows(f, n)[RowOfDay(f, d)] == Chunks(s)[(f + d - 1) / Week];
  }

  /** The first row that holds cells starts with the f blanks. */
  lemma BlankPlacement(f: nat, n: nat, i: nat)
    requires i < f < Week
    ensures Rows(f, n) != [] && i < |Rows(f, n)[0]| && Rows(f, n)[0][i] == Blank
  {
    ChunksAt(Cells(f, n), i);
  }

  /** A row begins with day d exactly when (f + d - 1) % Week == 0: the row break of the
      source is emitted in front of precisely those days. */
  lemma RowStartsWithDay(f: nat, n: nat, d: nat)
    requires f < Week && 1 <= d <= n
    ensures (exists r :: 0 <= r < |Rows(f, n)| && Rows(f, n)[r] != [] && Rows(f, n)[r][0] == Day(d))
        <==> (f + d - 1) % Week == 0
  {
    var rows := Rows(f, n);
    var s := Cells(f, n);
    var c := Chunks(s);
    if (f + d - 1) % Week == 0 {
      DayPlacement(f, n, d);
    } else {
      forall r | 0 <= r < |rows| && rows[r] != []
        ensures rows[r][0] != Day(d)
      {
        var k := r - Lead(f);
        assert rows[r] == c[k];
        ChunkStart(s, k);
        assert rows[r][0] == s[k * Week];
      }
    }
  }

  /** The grid ends with the last day: no padding follows it. */
  lemma EndsWithLastDay(f: nat, n: nat)
    requires f < Week && n > 0
    ensures Rows(f, n) != [] && Rows(f, n)[|Rows(f, n)| - 1] != []
    ensures Rows(f, n)[|Rows(f, n)| - 1][|Rows(f, n)[|Rows(f, n)| - 1]| - 1] == Day(n)
  {
    var rows := Rows(f, n);
    var s := Cells(f, n);
    RowsWidth(f, n);
    ChunksShape(s);
    ChunksAt(s, f + n - 1);
    var last := |rows| - 1;
    var r := (f + n - 1) / Week;
    assert last == Lead(f) + r;
    var col := (f + n - 1) % Week;
    assert rows[last] == Chunks(s)[r];
    assert |rows[last]| == col + 1;
  }

  /** A month starting on a Sunday opens with an empty row, and day 1 starts the next one. */
  lemma SundayStart(n: nat)
    requires n > 0
    ensures Rows(0, n)[0] == []
    ensures |Rows(0, n)| > 1 && Rows(0, n)[1] != [] && Rows(0, n)[1][0] == Day(1)
  {
    DayPlacement(0, n, 1);
  }

  /** Day `day` is the cell after the first day - 1 days. */
  lemma CellsGrow(f: nat, day: nat)
    requires day >= 1
    ensures Cells(f, day) == Cells(f, day - 1) + [Day(day)]
    ensures |Cells(f, day - 1)| == f + day - 1
  {
    assert DayRun(day) == DayRun(day - 1) + [Day(day)];
  }

  /** Adding day `day` to the grid opens a new row holding it when its running index
      f + day - 1 is a multiple of Week, and otherwise appends it to the last row. */
  lemma RowsGrow(f: nat, day: nat)
    requires f < Week && day >= 1
    ensures Rows(f, day - 1) != []
    ensures (f + day - 1) % Week == 0 ==> Rows(f, day) == Rows(f, day - 1) + [[Day(day)]]
    ensures (f + day - 1) % Week != 0 ==>
      var r := Rows(f, day - 1);
      Rows(f, day) == r[..|r| - 1] + [r[|r| - 1] + [Day(day)]]
  {
    var s := Cells(f, day - 1);
    var x := Day(day);
    CellsGrow(f, day);
    ChunksAppend(s, x);
    var lead: seq<seq<Cell>> := if f == 0 then [[]] else [];
    var c := Chunks(s);
    var r := Rows(f, day - 1);
    assert r == lead + c;
    assert Rows(f, day) == lead + Chunks(s + [x]);
    if f > 0 {
      ChunksNonEmpty(s);
    }
    if (f + day - 1) % Week == 0 {
      assert lead + (c + [[x]]) == r + [[x]];
    } else {
      assert r[..|r| - 1] == lead + c[..|c| - 1];
      assert r[|r| - 1] == c[|c| - 1];
    }
  }
}
