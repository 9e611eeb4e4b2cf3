/** The breadth statistics of `get_breadth_data`: per trading day, the share
    of an index's tickers whose close is above its 20-, 50- and 200-day
    moving average, the history of the days with enough tickers, and the
    latest-day snapshot. */
module Breadth {
  import opened Wrappers
  import opened Masks
  import opened Prices
  import opened Rolling

  /** A day enters the history only if this many tickers have a 20-day average. */
  const MinStocks: nat := 5

  // ---------------------------------------------------------------------
  // Counting and percentages (lines 147-158)
  // ---------------------------------------------------------------------

  /** `ma.count(axis=1)` on one row: the number of defined averages. */
  function CountDefined(r: Row): (c: nat)
    ensures c <= |r|
  {
    if r == [] then 0
    else CountDefined(r[..|r| - 1]) + (if r[|r| - 1].Some? then 1 else 0)
  }

  /** `df_close > ma` compares as false whenever either side is NaN. */
  predicate Above(close: Cell, avg: Cell)
    ensures Above(close, avg) ==> close.Some? && avg.Some?
    ensures close.Some? && avg.Some? ==> (Above(close, avg) <==> close.value > avg.value)
  {
    close.Some? && avg.Some? && close.value > avg.value
  }

  /** `(df_close > ma).sum(axis=1)` on one row. A ticker counts only if its
      average is defined and its close is strictly above it, so the count
      never exceeds the number of defined averages. */
  function CountAbove(close: Row, avg: Row): (c: nat)
    requires |close| == |avg|
    ensures c <= CountDefined(avg)
  {
    if close == [] then 0
    else
      CountAbove(close[..|close| - 1], avg[..|avg| - 1])
        + (if Above(close[|close| - 1], avg[|avg| - 1]) then 1 else 0)
  }

  /** The tickers a row counts as defined. */
  function DefinedSet(r: Row): set<nat> {
    set j: nat | j < |r| && r[j].Some?
  }

  /** The tickers a row counts as above their average. */
  function AboveSet(close: Row, avg: Row): set<nat>
    requires |close| == |avg|
  {
    set j: nat | j < |close| && Above(close[j], avg[j])
  }

  /** `count(axis=1)` is the number of tickers with a defined average. */
  lemma {:induction false} CountDefinedIsSize(r: Row)
    ensures CountDefined(r) == |DefinedSet(r)|
  {
    if r != [] {
      var m := |r| - 1;
      CountDefinedIsSize(r[..m]);
      var front := DefinedSet(r[..m]);
      assert m !in front;
      if r[m].Some? {
        assert DefinedSet(r) == front + {m};
      } else {
        assert DefinedSet(r) == front;
      }
    }
  }

  /** `(df_close > ma).sum(axis=1)` is the number of tickers strictly above
      their defined average. */
  lemma {:induction false} CountAboveIsSize(close: Row, avg: Row)
    requires |close| == |avg|
    ensures CountAbove(close, avg) == |AboveSet(close, avg)|
  {
    if close != [] {
      var m := |close| - 1;
      CountAboveIsSize(close[..m], avg[..m]);
      var front := AboveSet(close[..m], avg[..m]);
      assert m !in front;
      if Above(close[m], avg[m]) {
        assert AboveSet(close, avg) == front + {m};
      } else {
        assert AboveSet(close, avg) == front;
      }
    }
  }

  /** Counting defined cells is monotone: a row defined wherever another is
      counts at least as many. */
  lemma {:induction false} CountDefinedMonotone(a: Row, b: Row)
    requires |a| == |b| && KnownStaysKnown(a, b)
    ensures CountDefined(a) <= CountDefined(b)
  {
    if a != [] {
      var m := |a| - 1;
      assert KnownStaysKnown(a[..m], b[..m]);
      CountDefinedMonotone(a[..m], b[..m]);
    }
  }

  /** `above / count * 100`; NaN (here `None`) when no average is defined. */
  function Percent(above: nat, count: nat): (p: Option<real>)
    ensures p.Some? <==> count > 0
    ensures p.Some? ==> p.value * count as real == above as real * 100.0
    ensures p.Some? && above <= count ==> 0.0 <= p.value <= 100.0
  {
    if count == 0 then None else Some(above as real / count as real * 100.0)
  }

  // ---------------------------------------------------------------------
  // The per-day series of a pruned table
  // ---------------------------------------------------------------------

  /** `df_close.ffill()` of a pruned table. */
  function FilledCloses(p: PriceTable): (f: seq<Row>)
    requires Rectangular(p)
    ensures |f| == |p.rows| && Width(f, |p.tickers|)
  {
    FFill(p.rows, |p.tickers|)
  }

  function Averages(p: PriceTable, w: nat): (ma: seq<Row>)
    requires Rectangular(p) && w >= 1
    ensures |ma| == |p.rows| && Width(ma, |p.tickers|)
  {
    MovingAverage(FilledCloses(p), |p.tickers|, w)
  }

  /** `count_w`: the dynamic denominator of each day, the number of tickers
      whose window-`w` average is defined on that day. */
  function Counts(p: PriceTable, w: nat): (c: seq<nat>)
    requires Rectangular(p) && w >= 1
    ensures |c| == |p.rows|
    ensures forall i :: 0 <= i < |c| ==> c[i] == CountDefined(Averages(p, w)[i]) && c[i] <= |p.tickers|
  {
    var ma := Averages(p, w);
    seq(|ma|, i requires 0 <= i < |ma| => CountDefined(ma[i]))
  }

  /** `above_w`: the numerator of each day. */
  function Aboves(p: PriceTable, w: nat): (a: seq<nat>)
    requires Rectangular(p) && w >= 1
    ensures |a| == |p.rows|
    ensures forall i :: 0 <= i < |a| ==> a[i] == CountAbove(FilledCloses(p)[i], Averages(p, w)[i])
    ensures forall i :: 0 <= i < |a| ==> a[i] <= Counts(p, w)[i]
  {
    var close := FilledCloses(p);
    var ma := Averages(p, w);
    seq(|ma|, i requires 0 <= i < |ma| => CountAbove(close[i], ma[i]))
  }

  /** `pct_w`: the breadth percentage of each day. */
  function Percents(p: PriceTable, w: nat): (r: seq<Option<real>>)
    requires Rectangular(p) && w >= 1
    ensures |r| == |p.rows|
    ensures forall i :: 0 <= i < |r| ==> r[i] == Percent(Aboves(p, w)[i], Counts(p, w)[i])
    ensures forall i :: 0 <= i < |r| ==> (r[i].Some? <==> Counts(p, w)[i] > 0)
    ensures forall i :: 0 <= i < |r| && r[i].Some? ==> 0.0 <= r[i].value <= 100.0
  {
    var above := Aboves(p, w);
    var count := Counts(p, w);
    seq(|count|, i requires 0 <= i < |count| => Percent(above[i], count[i]))
  }

  // ---------------------------------------------------------------------
  // History and snapshot (lines 162-178)
  // ---------------------------------------------------------------------

  datatype HistoryRow = HistoryRow(date: int, pct20: real, pct50: real, pct200: real)

  datatype Snapshot = Snapshot(indexName: string, pct20: real, pct50: real, pct200: real)

  datatype BreadthData = BreadthData(latest: Snapshot, history: seq<HistoryRow>)

  /** `fillna(0)`: a defined value is kept, an undefined one becomes 0. */
  function FillNa(p: Option<real>): (r: real)
    ensures p.Some? ==> r == p.value
    ensures p.None? ==> r == 0.0
  {
    if p.Some? then p.value else 0.0
  }

  /** `count_20 >= min_stocks`: the days that enter the history. */
  function ValidDays(p: PriceTable): (days: seq<nat>)
    requires Rectangular(p)
    ensures forall k :: 0 <= k < |days| ==> days[k] < |p.rows| && Counts(p, 20)[days[k]] >= MinStocks
    ensures forall i :: 0 <= i < |p.rows| && Counts(p, 20)[i] >= MinStocks ==> i in days
    ensures forall k, m :: 0 <= k < m < |days| ==> days[k] < days[m]
    ensures days == [] <==> forall i :: 0 <= i < |p.rows| ==> Counts(p, 20)[i] < MinStocks
  {
    var c20 := Counts(p, 20);
    TrueIndices(seq(|c20|, i requires 0 <= i < |c20| => c20[i] >= MinStocks))
  }

  /** The history frame: the three percentages of the valid days, in date
      order, with undefined percentages stored as 0. */
  function History(p: PriceTable): (h: seq<HistoryRow>)
    requires Rectangular(p)
    ensures |h| == |ValidDays(p)|
    ensures forall k :: 0 <= k < |h| ==> h[k].date == p.dates[ValidDays(p)[k]]
  {
    var days := ValidDays(p);
    var p20, p50, p200 := Percents(p, 20), Percents(p, 50), Percents(p, 200);
    seq(|days|, k requires 0 <= k < |days| =>
      var i := days[k];
      HistoryRow(p.dates[i], FillNa(p20[i]), FillNa(p50[i]), FillNa(p200[i])))
  }

  /** The `latest` record: the index name with the last history row's three
      values, or zeros when the history is empty. */
  function Latest(indexName: string, history: seq<HistoryRow>): (s: Snapshot)
    ensures s.indexName == indexName
    ensures |history| == 0 ==> s.pct20 == 0.0 && s.pct50 == 0.0 && s.pct200 == 0.0
    ensures |history| > 0 ==>
      var last := history[|history| - 1];
      s.pct20 == last.pct20 && s.pct50 == last.pct50 && s.pct200 == last.pct200
  {
    if |history| == 0 then Snapshot(indexName, 0.0, 0.0, 0.0)
    else
      var last := history[|history| - 1];
      Snapshot(indexName, last.pct20, last.pct50, last.pct200)
  }

  /** Lines 136-178 on a pruned table: the snapshot carries the index name
      and, like every history row, values in [0, 100]. */
  function BreadthOf(indexName: string, p: PriceTable): (r: BreadthData)
    requires Rectangular(p)
    ensures r.history == History(p)
    ensures r.latest == Latest(indexName, r.history)
    ensures r.latest.indexName == indexName
    ensures 0.0 <= r.latest.pct20 <= 100.0 && 0.0 <= r.latest.pct50 <= 100.0 && 0.0 <= r.latest.pct200 <= 100.0
  {
    var history := History(p);
    HistoryInRange(p);
    BreadthData(Latest(indexName, history), history)
  }

  /** `get_breadth_data(index_name, tickers)`. `download` is what the price
      download returned for `tickers`, `None` when it raised (the broad
      `except` that answers `(None, None)`). The result is "no data" exactly
      when the ticker list is empty, the download failed, or no ticker has a
      single price. */
  function GetBreadthData(indexName: string, tickers: seq<string>, download: Option<PriceTable>): (r: Option<BreadthData>)
    requires download.Some? ==> Rectangular(download.value)
    ensures r.None? <==>
      || |tickers| == 0
      || download.None?
      || forall j :: 0 <= j < |download.value.tickers| ==> !ColumnHasPrice(download.value.rows, j)
    ensures r.Some? ==> r.value == BreadthOf(indexName, Prune(download.value).value)
    ensures r.Some? ==> r.value.latest.indexName == indexName
  {
    if |tickers| == 0 then None
    else match download
      case None => None
      case Some(t) =>
        PruneNone(t);
        match Prune(t)
        case None => None
        case Some(p) => Some(BreadthOf(indexName, p))
  }

  // ---------------------------------------------------------------------
  // Properties of the pipeline
  // ---------------------------------------------------------------------

  /** On every day `count_200 <= count_50 <= count_20 <= number of tickers`. */
  lemma CountsOrdered(p: PriceTable, i: nat)
    requires Rectangular(p) && i < |p.rows|
    ensures Counts(p, 200)[i] <= Counts(p, 50)[i] <= Counts(p, 20)[i] <= |p.tickers|
  {
    var n := |p.tickers|;
    var close := FilledCloses(p);
    forall j | 0 <= j < n
      ensures (Averages(p, 200)[i][j].Some? ==> Averages(p, 50)[i][j].Some?)
           && (Averages(p, 50)[i][j].Some? ==> Averages(p, 20)[i][j].Some?)
    {
      LongerWindowNeedsShorter(close, n, 50, 200, i, j);
      LongerWindowNeedsShorter(close, n, 20, 50, i, j);
    }
    CountDefinedMonotone(Averages(p, 200)[i], Averages(p, 50)[i]);
    CountDefinedMonotone(Averages(p, 50)[i], Averages(p, 20)[i]);
  }

  /** Because the fill leaves nulls only at the top of a column, each day's
      count of defined averages is at least the previous day's. */
  lemma CountsNonDecreasing(p: PriceTable, w: nat, i: nat, i': nat)
    requires Rectangular(p) && w >= 1 && i <= i' < |p.rows|
    ensures Counts(p, w)[i] <= Counts(p, w)[i']
  {
    var n := |p.tickers|;
    var close := FilledCloses(p);
    var ma: seq<Row> := Averages(p, w);
    FFillNullsOnlyLeading(p.rows, n);
    forall j | 0 <= j < n && ma[i][j].Some?
      ensures ma[i'][j].Some?
    {
      AverageStaysDefined(close, n, w, i, i', j);
    }
    CountDefinedMonotone(ma[i], ma[i']);
  }

  /** History row `k` is the `k`-th valid day: its date, each defined
      percentage of that day, and 0 for each undefined one. */
  lemma HistoryRowOfValidDay(p: PriceTable, k: nat)
    requires Rectangular(p) && k < |History(p)|
    ensures var h, i := History(p)[k], ValidDays(p)[k];
      && h.date == p.dates[i]
      && (Counts(p, 20)[i] > 0 && h.pct20 == Percents(p, 20)[i].value)
      && (if Counts(p, 50)[i] > 0 then h.pct50 == Percents(p, 50)[i].value else h.pct50 == 0.0)
      && (if Counts(p, 200)[i] > 0 then h.pct200 == Percents(p, 200)[i].value else h.pct200 == 0.0)
  {
  }

  /** Every value stored in the history lies in [0, 100]. */
  lemma HistoryInRange(p: PriceTable)
    requires Rectangular(p)
    ensures forall k :: 0 <= k < |History(p)| ==>
      var h := History(p)[k];
      0.0 <= h.pct20 <= 100.0 && 0.0 <= h.pct50 <= 100.0 && 0.0 <= h.pct200 <= 100.0
  {
    var h := History(p);
    var days := ValidDays(p);
    var p20, p50, p200 := Percents(p, 20), Percents(p, 50), Percents(p, 200);
    forall k | 0 <= k < |h|
      ensures 0.0 <= h[k].pct20 <= 100.0 && 0.0 <= h[k].pct50 <= 100.0 && 0.0 <= h[k].pct200 <= 100.0
    {
      var i := days[k];
      assert h[k] == HistoryRow(p.dates[i], FillNa(p20[i]), FillNa(p50[i]), FillNa(p200[i]));
    }
  }

  /** Market holidays never reach the history: every history date is the
      date of a row of the downloaded table that holds at least one price. */
  lemma HolidaysNotInHistory(indexName: string, tickers: seq<string>, t: PriceTable)
    requires Rectangular(t) && GetBreadthData(indexName, tickers, Some(t)).Some?
    ensures var h := GetBreadthData(indexName, tickers, Some(t)).value.history;
      forall k :: 0 <= k < |h| ==>
        exists i :: 0 <= i < |t.rows| && RowHasPrice(t.rows[i]) && h[k].date == t.dates[i]
  {
    var p := Prune(t).value;
    PruneSelects(t);
    var h := History(p);
    var days := ValidDays(p);
    var rk := KeptRows(t);
    forall k | 0 <= k < |h|
      ensures exists i :: 0 <= i < |t.rows| && RowHasPrice(t.rows[i]) && h[k].date == t.dates[i]
    {
      HistoryRowOfValidDay(p, k);
      var i := rk[days[k]];
      assert h[k].date == t.dates[i];
    }
  }

  /** With fewer than five tickers no day reaches `min_stocks`. */
  lemma FewTickersEmptyHistory(p: PriceTable)
    requires Rectangular(p) && |p.tickers| < MinStocks
    ensures History(p) == []
  {
    forall i | 0 <= i < |p.rows| ensures Counts(p, 20)[i] < MinStocks {
      assert Counts(p, 20)[i] == CountDefined(Averages(p, 20)[i]);
    }
  }

  /** When no day has `min_stocks` tickers with a 20-day average, the result
      is an empty history with a snapshot of zeros, not "no data". */
  lemma NoValidDayGivesZeroSnapshot(indexName: string, tickers: seq<string>, t: PriceTable)
    requires Rectangular(t) && |tickers| > 0 && Prune(t).Some?
    requires forall i :: 0 <= i < |Prune(t).value.rows| ==> Counts(Prune(t).value, 20)[i] < MinStocks
    ensures GetBreadthData(indexName, tickers, Some(t))
         == Some(BreadthData(Snapshot(indexName, 0.0, 0.0, 0.0), []))
  {
    var p := Prune(t).value;
    assert ValidDays(p) == [];
    assert History(p) == [];
    assert GetBreadthData(indexName, tickers, Some(t)) == Some(BreadthOf(indexName, p));
  }

  /** With fewer than five priced tickers no day reaches `min_stocks`, and
      the result is an empty history with a snapshot of zeros, not "no
      data". */
  lemma FewTickersGiveZeroSnapshot(indexName: string, tickers: seq<string>, t: PriceTable)
    requires Rectangular(t) && |tickers| > 0
    requires 0 < |KeptColumns(t)| < MinStocks
    ensures GetBreadthData(indexName, tickers, Some(t))
         == Some(BreadthData(Snapshot(indexName, 0.0, 0.0, 0.0), []))
  {
    var keep := KeptColumns(t);
    PruneNone(t);
    assert ColumnHasPrice(t.rows, keep[0]);
    var p := Prune(t).value;
    assert |p.tickers| == |keep|;
    FewTickersEmptyHistory(p);
    assert GetBreadthData(indexName, tickers, Some(t)) == Some(BreadthOf(indexName, p));
  }
}
