/** The Close price table of one index and the cleaning passes that
    `get_breadth_data` runs on it before any average is taken: dropping
    tickers with no price at all, dropping market holidays, and carrying the
    last known price forward over single-stock suspensions. */
module Prices {
  import opened Wrappers
  import opened Masks

  /** One close; `None` is pandas' NaN. */
  type Cell = Option<real>

  /** The closes of all tickers on one date, in column order. */
  type Row = seq<Cell>

  /** Columns are tickers, rows are dates (a date is an opaque label). */
  datatype PriceTable = PriceTable(tickers: seq<string>, dates: seq<int>, rows: seq<Row>)

  /** Every row has one cell per ticker and one date. */
  predicate Rectangular(t: PriceTable) {
    |t.rows| == |t.dates| && Width(t.rows, |t.tickers|)
  }

  predicate Width(rows: seq<Row>, n: nat) {
    forall i :: 0 <= i < |rows| ==> |rows[i]| == n
  }

  predicate ColumnHasPrice(rows: seq<Row>, j: int) {
    exists i :: 0 <= i < |rows| && 0 <= j < |rows[i]| && rows[i][j].Some?
  }

  predicate RowHasPrice(row: Row) {
    exists j :: 0 <= j < |row| && row[j].Some?
  }

  // ---------------------------------------------------------------------
  // Step 1 and 2: dropna(axis=1, how='all'), then dropna(axis=0, how='all')
  // ---------------------------------------------------------------------

  /** The columns that hold at least one price, in their original order. */
  function KeptColumns(t: PriceTable): (keep: seq<nat>)
    ensures forall k :: 0 <= k < |keep| ==> keep[k] < |t.tickers| && ColumnHasPrice(t.rows, keep[k])
    ensures forall j :: 0 <= j < |t.tickers| && ColumnHasPrice(t.rows, j) ==> j in keep
    ensures forall k, m :: 0 <= k < m < |keep| ==> keep[k] < keep[m]
  {
    var mask := seq(|t.tickers|, j => ColumnHasPrice(t.rows, j));
    TrueIndices(mask)
  }

  /** The dates on which at least one ticker has a price, in their original order. */
  function KeptRows(t: PriceTable): (keep: seq<nat>)
    ensures forall k :: 0 <= k < |keep| ==> keep[k] < |t.rows| && RowHasPrice(t.rows[keep[k]])
    ensures forall i :: 0 <= i < |t.rows| && RowHasPrice(t.rows[i]) ==> i in keep
    ensures forall k, m :: 0 <= k < m < |keep| ==> keep[k] < keep[m]
  {
    TrueIndices(RowMask(t.rows))
  }

  function RowMask(rows: seq<Row>): (mask: seq<bool>)
    ensures |mask| == |rows|
    ensures forall i :: 0 <= i < |rows| ==> mask[i] == RowHasPrice(rows[i])
  {
    seq(|rows|, i requires 0 <= i < |rows| => RowHasPrice(rows[i]))
  }

  /** dropna(axis=1, how='all'): the table restricted to `KeptColumns`. */
  function DropEmptyColumns(t: PriceTable): (c: PriceTable)
    requires Rectangular(t)
    ensures Rectangular(c) && c.dates == t.dates && |c.rows| == |t.rows|
    ensures c.tickers == Select(t.tickers, KeptColumns(t))
    ensures forall i, k :: 0 <= i < |c.rows| && 0 <= k < |c.tickers| ==>
      c.rows[i][k] == t.rows[i][KeptColumns(t)[k]]
  {
    var keep := KeptColumns(t);
    PriceTable(Select(t.tickers, keep), t.dates,
               seq(|t.rows|, i requires 0 <= i < |t.rows| => Select(t.rows[i], keep)))
  }

  /** dropna(axis=0, how='all'): the table restricted to the rows with a price. */
  function DropHolidays(t: PriceTable): (h: PriceTable)
    requires Rectangular(t)
    ensures Rectangular(h) && h.tickers == t.tickers
    ensures h.dates == Select(t.dates, KeptRows(t)) && h.rows == Select(t.rows, KeptRows(t))
  {
    var keep := KeptRows(t);
    PriceTable(t.tickers, Select(t.dates, keep), Select(t.rows, keep))
  }

  /** Lines 126-134: drop empty columns, give up ("no data") if the frame is
      then empty, otherwise drop the holiday rows. */
  function Prune(t: PriceTable): (r: Option<PriceTable>)
    requires Rectangular(t)
    ensures r.None? <==> |KeptColumns(t)| == 0
    ensures r.Some? ==> Rectangular(r.value) && r.value.tickers == Select(t.tickers, KeptColumns(t))
  {
    var c := DropEmptyColumns(t);
    if |c.tickers| == 0 || |c.rows| == 0 then None
    else Some(DropHolidays(c))
  }

  /** Dropping all-empty columns does not change whether row `i` is empty. */
  lemma DropEmptyColumnsKeepsRow(t: PriceTable, i: nat)
    requires Rectangular(t) && i < |t.rows|
    ensures RowHasPrice(DropEmptyColumns(t).rows[i]) == RowHasPrice(t.rows[i])
  {
    var keep := KeptColumns(t);
    var row := Select(t.rows[i], keep);
    assert DropEmptyColumns(t).rows[i] == row;
    if RowHasPrice(row) {
      var k :| 0 <= k < |row| && row[k].Some?;
      assert t.rows[i][keep[k]].Some?;
    }
    if RowHasPrice(t.rows[i]) {
      var j :| 0 <= j < |t.rows[i]| && t.rows[i][j].Some?;
      assert ColumnHasPrice(t.rows, j);
      var k :| 0 <= k < |keep| && keep[k] == j;
      assert row[k].Some?;
    }
  }

  /** Dropping all-empty columns does not change which rows are empty. */
  lemma DropEmptyColumnsKeepsRowMask(t: PriceTable)
    requires Rectangular(t)
    ensures RowMask(DropEmptyColumns(t).rows) == RowMask(t.rows)
    ensures KeptRows(DropEmptyColumns(t)) == KeptRows(t)
  {
    var c := DropEmptyColumns(t);
    forall i | 0 <= i < |t.rows|
      ensures RowMask(c.rows)[i] == RowMask(t.rows)[i]
    {
      DropEmptyColumnsKeepsRow(t, i);
    }
  }

  /** Pruning reports "no data" exactly when no ticker has a single price. */
  lemma PruneNone(t: PriceTable)
    requires Rectangular(t)
    ensures Prune(t).None? <==> forall j :: 0 <= j < |t.tickers| ==> !ColumnHasPrice(t.rows, j)
  {
    var keep := KeptColumns(t);
    if |keep| > 0 {
      var j := keep[0];
      assert ColumnHasPrice(t.rows, j);
      var i :| 0 <= i < |t.rows| && 0 <= j < |t.rows[i]| && t.rows[i][j].Some?;
      assert |DropEmptyColumns(t).rows| > 0;
    }
  }

  /** A pruned table is the original restricted to the columns with a price
      and the rows with a price, each kept in its original order
      (`KeptColumns` and `KeptRows` are increasing). */
  lemma PruneSelects(t: PriceTable)
    requires Rectangular(t) && Prune(t).Some?
    ensures var p := Prune(t).value;
      && Rectangular(p)
      && p.tickers == Select(t.tickers, KeptColumns(t))
      && p.dates == Select(t.dates, KeptRows(t))
      && |p.rows| == |KeptRows(t)|
      && (forall a, k :: 0 <= a < |p.rows| && 0 <= k < |p.tickers| ==>
            p.rows[a][k] == t.rows[KeptRows(t)[a]][KeptColumns(t)[k]])
  {
    DropEmptyColumnsKeepsRowMask(t);
  }

  /** Column `k` of the pruned table still holds a price: the row that gave
      its ticker a price is not a holiday. */
  lemma PrunedColumnHasPrice(t: PriceTable, k: nat)
    requires Rectangular(t) && Prune(t).Some? && k < |Prune(t).value.tickers|
    ensures ColumnHasPrice(Prune(t).value.rows, k)
  {
    var c := DropEmptyColumns(t);
    var p := Prune(t).value;
    assert p == DropHolidays(c);
    var rk := KeptRows(c);
    var j := KeptColumns(t)[k];
    var i :| 0 <= i < |t.rows| && 0 <= j < |t.rows[i]| && t.rows[i][j].Some?;
    assert c.rows[i][k].Some?;
    assert RowHasPrice(c.rows[i]);
    var a :| 0 <= a < |rk| && rk[a] == i;
    assert p.rows[a][k].Some?;
  }

  /** After pruning the table is not empty and every remaining column and
      every remaining row holds at least one price. */
  lemma PruneLeavesNoEmptyLine(t: PriceTable)
    requires Rectangular(t) && Prune(t).Some?
    ensures var p := Prune(t).value;
      && |p.tickers| > 0 && |p.rows| > 0
      && (forall k :: 0 <= k < |p.tickers| ==> ColumnHasPrice(p.rows, k))
      && (forall a :: 0 <= a < |p.rows| ==> RowHasPrice(p.rows[a]))
  {
    var p := Prune(t).value;
    assert p == DropHolidays(DropEmptyColumns(t));
    forall k | 0 <= k < |p.tickers|
      ensures ColumnHasPrice(p.rows, k)
    {
      PrunedColumnHasPrice(t, k);
    }
    PrunedColumnHasPrice(t, 0);
  }

  // ---------------------------------------------------------------------
  // Step 3: ffill()
  // ---------------------------------------------------------------------

  function Nulls(n: nat): (r: Row)
    ensures |r| == n && forall j :: 0 <= j < n ==> r[j].None?
  {
    seq(n, _ => None)
  }

  /** One row of the fill: a known close stays, a missing one takes the
      previous filled row's value. */
  function Carry(row: Row, prev: Row): (r: Row)
    requires |row| == |prev|
    ensures |r| == |row|
    ensures forall j :: 0 <= j < |row| ==> r[j] == if row[j].Some? then row[j] else prev[j]
  {
    seq(|row|, j requires 0 <= j < |row| => if row[j].Some? then row[j] else prev[j])
  }

  /** ffill() as one pass down the rows: each row is carried over the
      previous filled row, the first over a row of nulls. */
  function FFill(rows: seq<Row>, n: nat): (f: seq<Row>)
    requires Width(rows, n)
    ensures |f| == |rows| && Width(f, n)
  {
    if rows == [] then []
    else
      var front := FFill(rows[..|rows| - 1], n);
      var prev := if front == [] then Nulls(n) else front[|front| - 1];
      front + [Carry(rows[|rows| - 1], prev)]
  }

  /** The fill is one pass: row `i` is row `i` of the input carried over
      the filled row `i - 1` (over nulls for the first row). */
  lemma {:induction false} FFillStep(rows: seq<Row>, n: nat, i: nat)
    requires Width(rows, n) && i < |rows|
    ensures FFill(rows, n)[i] == Carry(rows[i], if i == 0 then Nulls(n) else FFill(rows, n)[i - 1])
    decreases |rows|
  {
    var last := |rows| - 1;
    var init := rows[..last];
    var front := FFill(init, n);
    assert FFill(rows, n)[..last] == front;
    if i < last {
      FFillStep(init, n, i);
      assert init[i] == rows[i];
    }
  }

  /** One cell of the fill: a known close, else the filled cell above it
      (null on the first row). */
  lemma FFillCell(rows: seq<Row>, n: nat, i: nat, j: nat)
    requires Width(rows, n) && i < |rows| && j < n
    ensures FFill(rows, n)[i][j] ==
      if rows[i][j].Some? then rows[i][j] else if i == 0 then None else FFill(rows, n)[i - 1][j]
  {
    FFillStep(rows, n, i);
  }

  /** The fill never alters a known close. */
  lemma FFillKeepsKnown(rows: seq<Row>, n: nat, i: nat, j: nat)
    requires Width(rows, n) && i < |rows| && j < n && rows[i][j].Some?
    ensures FFill(rows, n)[i][j] == rows[i][j]
  {
    FFillCell(rows, n, i, j);
  }

  /** A filled cell stays null exactly when the ticker has no close up to
      that row. */
  lemma {:induction false} FFillNullIffNoEarlierClose(rows: seq<Row>, n: nat, i: nat, j: nat)
    requires Width(rows, n) && i < |rows| && j < n
    ensures FFill(rows, n)[i][j].None? <==> forall k :: 0 <= k <= i ==> rows[k][j].None?
  {
    FFillCell(rows, n, i, j);
    if i > 0 {
      FFillNullIffNoEarlierClose(rows, n, i - 1, j);
    }
  }

  /** A missing close becomes the most recent earlier close of the same
      ticker: if row `k` holds the last close up to row `i`, the filled cell
      at row `i` is that close. */
  lemma {:induction false} FFillTakesLatestClose(rows: seq<Row>, n: nat, i: nat, j: nat, k: nat)
    requires Width(rows, n) && k <= i < |rows| && j < n
    requires rows[k][j].Some? && forall m :: k < m <= i ==> rows[m][j].None?
    ensures FFill(rows, n)[i][j] == rows[k][j]
  {
    FFillCell(rows, n, i, j);
    if k < i {
      FFillTakesLatestClose(rows, n, i - 1, j, k);
    }
  }

  /** `later` has a close wherever `earlier` has one. */
  predicate KnownStaysKnown(earlier: Row, later: Row) {
    forall j :: 0 <= j < |earlier| && j < |later| && earlier[j].Some? ==> later[j].Some?
  }

  /** After the fill, nulls sit only at the top of a column: once a ticker
      has a close, every later row has one. */
  predicate NullsOnlyLeading(rows: seq<Row>) {
    forall i, i' :: 0 <= i <= i' < |rows| ==> KnownStaysKnown(rows[i], rows[i'])
  }

  lemma FFillNullsOnlyLeading(rows: seq<Row>, n: nat)
    requires Width(rows, n)
    ensures NullsOnlyLeading(FFill(rows, n))
  {
    var f: seq<Row> := FFill(rows, n);
    forall i: nat, i': nat, j: nat | i <= i' < |f| && j < n && f[i][j].Some?
      ensures f[i'][j].Some?
    {
      FFillNullIffNoEarlierClose(rows, n, i, j);
      FFillNullIffNoEarlierClose(rows, n, i', j);
    }
  }
}
