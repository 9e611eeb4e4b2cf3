/** Trailing simple moving averages, `rolling(window=w).mean()` with pandas'
    default `min_periods = w`. */
module Rolling {
  import opened Wrappers
  import opened Prices

  predicate AllKnown(s: seq<Cell>) {
    forall k :: 0 <= k < |s| ==> s[k].Some?
  }

  /** How many cells of `s` hold a close (pandas' `nobs` of a window). */
  function KnownCount(s: seq<Cell>): (c: nat)
    ensures c <= |s|
    ensures c == |s| <==> AllKnown(s)
  {
    if s == [] then 0
    else KnownCount(s[..|s| - 1]) + (if s[|s| - 1].Some? then 1 else 0)
  }

  /** The sum of the closes in `s`, skipping missing ones. */
  function KnownSum(s: seq<Cell>): real {
    if s == [] then 0.0
    else KnownSum(s[..|s| - 1]) + (if s[|s| - 1].Some? then s[|s| - 1].value else 0.0)
  }

  /** The first row of the length-`w` window ending at row `i`, cut off at
      the top of the table. */
  function WindowStart(i: nat, w: nat): nat {
    if i + 1 >= w then i + 1 - w else 0
  }

  /** The average at row `i` of one ticker's column: the window counts its
      known closes, and the mean exists only when at least `w` of them are
      known. Its meaning: defined exactly when the `w` rows ending at `i` all
      hold a close, and then it is their sum divided by `w`. */
  function RollingMean(col: seq<Cell>, i: nat, w: nat): (m: Option<real>)
    requires i < |col| && w >= 1
    ensures m.Some? <==> w <= i + 1 && AllKnown(col[i + 1 - w .. i + 1])
    ensures m.Some? ==> w <= i + 1 && m.value == KnownSum(col[i + 1 - w .. i + 1]) / w as real
  {
    var window := col[WindowStart(i, w) .. i + 1];
    var nobs := KnownCount(window);
    if nobs >= w then Some(KnownSum(window) / nobs as real) else None
  }

  function Column(rows: seq<Row>, n: nat, j: nat): (col: seq<Cell>)
    requires Width(rows, n) && j < n
    ensures |col| == |rows| && forall i :: 0 <= i < |rows| ==> col[i] == rows[i][j]
  {
    seq(|rows|, i requires 0 <= i < |rows| => rows[i][j])
  }

  /** `df.rolling(window=w).mean()`: a table of averages of the same shape. */
  function MovingAverage(rows: seq<Row>, n: nat, w: nat): (ma: seq<Row>)
    requires Width(rows, n) && w >= 1
    ensures |ma| == |rows| && Width(ma, n)
  {
    seq(|rows|, i requires 0 <= i < |rows| =>
      seq(n, j requires 0 <= j < n => RollingMean(Column(rows, n, j), i, w)))
  }

  /** The window-`w` average of ticker `j` at row `i` exists exactly when
      rows `i - w + 1 .. i` of that column all hold a close. */
  lemma MovingAverageDefined(rows: seq<Row>, n: nat, w: nat, i: nat, j: nat)
    requires Width(rows, n) && w >= 1 && i < |rows| && j < n
    ensures MovingAverage(rows, n, w)[i][j].Some? <==>
      w <= i + 1 && forall k :: i + 1 - w <= k <= i ==> rows[k][j].Some?
  {
    var col := Column(rows, n, j);
    assert MovingAverage(rows, n, w)[i][j] == RollingMean(col, i, w);
    if w <= i + 1 {
      var win := col[i + 1 - w .. i + 1];
      assert forall k :: i + 1 - w <= k <= i ==> win[k - (i + 1 - w)] == rows[k][j];
    }
  }

  /** When it exists, the window-`w` average is the sum of those `w` closes
      divided by `w`. */
  lemma MovingAverageValue(rows: seq<Row>, n: nat, w: nat, i: nat, j: nat)
    requires Width(rows, n) && w >= 1 && i < |rows| && j < n
    requires MovingAverage(rows, n, w)[i][j].Some?
    ensures w <= i + 1
    ensures MovingAverage(rows, n, w)[i][j].value == KnownSum(Column(rows, n, j)[i + 1 - w .. i + 1]) / w as real
  {
    assert MovingAverage(rows, n, w)[i][j] == RollingMean(Column(rows, n, j), i, w);
  }

  /** A close is known wherever one of its averages is: every window ends at
      its own row. */
  lemma AverageNeedsClose(rows: seq<Row>, n: nat, w: nat, i: nat, j: nat)
    requires Width(rows, n) && w >= 1 && i < |rows| && j < n
    ensures MovingAverage(rows, n, w)[i][j].Some? ==> rows[i][j].Some?
  {
    MovingAverageDefined(rows, n, w, i, j);
  }

  /** A longer average exists only where every shorter one does. */
  lemma LongerWindowNeedsShorter(rows: seq<Row>, n: nat, w1: nat, w2: nat, i: nat, j: nat)
    requires Width(rows, n) && 1 <= w1 <= w2 && i < |rows| && j < n
    ensures MovingAverage(rows, n, w2)[i][j].Some? ==> MovingAverage(rows, n, w1)[i][j].Some?
  {
    MovingAverageDefined(rows, n, w1, i, j);
    MovingAverageDefined(rows, n, w2, i, j);
  }

  /** On a forward-filled table an average, once it exists, exists on every
      later row. */
  lemma AverageStaysDefined(rows: seq<Row>, n: nat, w: nat, i: nat, i': nat, j: nat)
    requires Width(rows, n) && NullsOnlyLeading(rows) && w >= 1 && i <= i' < |rows| && j < n
    ensures MovingAverage(rows, n, w)[i][j].Some? ==> MovingAverage(rows, n, w)[i'][j].Some?
  {
    if MovingAverage(rows, n, w)[i][j].Some? {
      MovingAverageDefined(rows, n, w, i, j);
      assert rows[i][j].Some?;
      forall k | i' + 1 - w <= k <= i' ensures rows[k][j].Some? {
        if k > i {
          assert KnownStaysKnown(rows[i], rows[k]);
        }
      }
      MovingAverageDefined(rows, n, w, i', j);
    }
  }
}
