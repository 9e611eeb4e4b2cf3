# Market breadth of an index, modelled in Dafny

This project models the calculation core of the stockMAbreadth dashboard
(`dashboard.py`): the function `get_breadth_data`, which turns a table of
daily closing prices for an index's constituents into a daily history of
"% of tickers whose close is above their 20-, 50- and 200-day moving
average" plus a latest-day snapshot, and the helper `clean_us_ticker`,
which rewrites US ticker symbols to the market-data provider's spelling.

The pandas pipeline is restated as explicit functions over sequences:

- `Prices` — the Close table (`PriceTable`: tickers, dates, rows of
  `Option<real>` where `None` is NaN), column pruning (`dropna(axis=1,
  how='all')`), the "no data" check, holiday-row pruning (`dropna(axis=0,
  how='all')`) and the forward fill (`ffill()`, one pass down the rows).
- `Rolling` — `rolling(window=w).mean()` with pandas' default
  `min_periods = w`, computed as pandas does (count the known closes of the
  last `w` rows, average them if at least `w` are known).
- `Breadth` — the dynamic denominators `count_w`, the numerators `above_w`,
  the percentages, the `count_20 >= 5` filter with `fillna(0)`, the snapshot
  and the whole `get_breadth_data`.
- `Masks` — boolean-mask selection, the one selection primitive all the
  pruning and filtering steps use.
- `Tickers` — `clean_us_ticker`.

The price download is a parameter of `Breadth.GetBreadthData`: the table
the download produced, or `None` when it raised. All functions are pure, as
the source is (its dataframe operations never update in place).

One behaviour of the code is easy to misread and the model follows the
code: when no day has at least five tickers with a 20-day average,
`get_breadth_data` does not answer "no data" `(None, None)`; it returns a
snapshot of zeros together with an empty history
(`Breadth.NoValidDayGivesZeroSnapshot`; `Breadth.FewTickersGiveZeroSnapshot`
is the special case of one to four priced tickers).

## Model

| member | source | states |
|---|---|---|
| `Tickers.CleanUsTicker` | dashboard.py:13-14 | same length as the input, no '.' left, every '.' becomes '-', every other character unchanged |
| `Tickers.CleanUsTickerIdempotent` | dashboard.py:13-14 | cleaning a cleaned ticker changes nothing |
| `Tickers.CleanUsTickerCollision` | dashboard.py:13-14 | two tickers clean to the same symbol only if they have equal length and differ only by '.' versus '-' |
| `Masks.Select` | dashboard.py:163-168 | selecting positions keeps one entry per position, each the entry of the input at that position, in the order given |
| `Masks.TrueIndices` | dashboard.py:163-168 | boolean-mask selection keeps exactly the positions where the mask is true, in increasing (original) order |
| `Prices.KeptColumns` | dashboard.py:126 | the kept columns are exactly the tickers with at least one price, in their original order |
| `Prices.KeptRows` | dashboard.py:134 | the kept rows are exactly the dates with at least one price, in their original order |
| `Prices.DropEmptyColumns` | dashboard.py:126 | the result is rectangular, keeps every date, and each cell is the original cell of the kept column |
| `Prices.DropHolidays` | dashboard.py:134 | the result keeps the tickers and is the original restricted to the rows holding a price |
| `Prices.Prune` | dashboard.py:126-134 | "no data" exactly when no column is kept; otherwise a rectangular table whose tickers are the kept columns' tickers in order |
| `Prices.DropEmptyColumnsKeepsRow` | dashboard.py:126-134 | a row holds a price after the column drop exactly when it held one before |
| `Prices.DropEmptyColumnsKeepsRowMask` | dashboard.py:126-134 | dropping all-null columns first does not change which rows are all-null |
| `Prices.PruneNone` | dashboard.py:126-129 | "no data" exactly when no ticker has a single price |
| `Prices.PruneSelects` | dashboard.py:126-134 | the pruned table is the original restricted to the priced columns and priced rows, both in original order |
| `Prices.PrunedColumnHasPrice` | dashboard.py:126-134 | each pruned column still holds a price after the holiday rows are dropped |
| `Prices.PruneLeavesNoEmptyLine` | dashboard.py:126-134 | after pruning the table is non-empty and every column and every row holds a price |
| `Prices.Carry` | dashboard.py:138 | one fill step keeps a known close and takes the previous filled value for a missing one |
| `Prices.FFill` | dashboard.py:138 | the fill keeps the table's shape (its cell-by-cell meaning is stated by the three `FFill…` lemmas below) |
| `Prices.FFillStep` | dashboard.py:138 | each filled row is the input row carried over the previous filled row (over nulls for the first) |
| `Prices.FFillKeepsKnown` | dashboard.py:138 | the fill never alters a known close |
| `Prices.FFillTakesLatestClose` | dashboard.py:138 | a null becomes the most recent earlier close of the same ticker |
| `Prices.FFillNullIffNoEarlierClose` | dashboard.py:138 | a filled cell stays null exactly when the ticker has no close up to that row |
| `Prices.FFillNullsOnlyLeading` | dashboard.py:138 | after the fill, once a ticker has a close every later row has one |
| `Rolling.KnownCount` | dashboard.py:141-143 | the window's count of known closes is at most its length, and equal to it exactly when every close is known |
| `Rolling.RollingMean` | dashboard.py:141-143 | the average at row i is defined exactly when rows i-w+1..i are all known, and then equals their sum divided by w |
| `Rolling.MovingAverage` | dashboard.py:141-143 | the table of averages has the shape of the close table (cell meaning in the next two rows) |
| `Rolling.MovingAverageDefined` | dashboard.py:141-143 | the table of averages: cell (i, j) is defined exactly when ticker j has closes on all of rows i-w+1..i |
| `Rolling.MovingAverageValue` | dashboard.py:141-143 | a defined average is the sum of the w closes ending at that row divided by w |
| `Rolling.AverageNeedsClose` | dashboard.py:141-154 | a defined average implies a known close on the same row, so `above_w` never compares against a missing close |
| `Rolling.LongerWindowNeedsShorter` | dashboard.py:141-149 | a 200-day (longer) average is defined only where the 50-day (shorter) one is |
| `Rolling.AverageStaysDefined` | dashboard.py:138-143 | on a forward-filled table an average, once defined, stays defined on every later row |
| `Breadth.FilledCloses` | dashboard.py:138 | the forward-filled closes of a pruned table keep its shape |
| `Breadth.Averages` | dashboard.py:141-143 | the window-w averages of the forward-filled closes keep the table's shape |
| `Breadth.Above` | dashboard.py:152-154 | a comparison with a missing close or average is false; otherwise it is the strict `close > average` |
| `Breadth.CountDefined` | dashboard.py:147-149 | `count_w` of a row never exceeds the number of tickers |
| `Breadth.CountDefinedIsSize` | dashboard.py:147-149 | `count_w` is the number of tickers whose average is defined on that day |
| `Breadth.CountDefinedMonotone` | dashboard.py:147-149 | a row defined wherever another is has at least as large a count |
| `Breadth.CountAbove` | dashboard.py:152-154 | `above_w` never exceeds `count_w` |
| `Breadth.CountAboveIsSize` | dashboard.py:152-154 | `above_w` is the number of tickers with a defined average and a close strictly above it (an equal close does not count) |
| `Breadth.Counts` | dashboard.py:147-149 | each day's `count_w` is the count of defined window-w averages of that day, at most the number of tickers |
| `Breadth.Aboves` | dashboard.py:152-154 | each day's `above_w` counts the tickers strictly above their average that day, and `above_w <= count_w` |
| `Breadth.Percent` | dashboard.py:156-158 | defined exactly when the count is positive; the value times the count is above times 100; it lies in [0, 100] when above <= count |
| `Breadth.Percents` | dashboard.py:156-158 | each day's percentage is `Percent(above_w, count_w)`: defined exactly when `count_w > 0` and then in [0, 100] |
| `Breadth.CountsOrdered` | dashboard.py:141-149 | on every day `count_200 <= count_50 <= count_20 <= number of tickers` |
| `Breadth.CountsNonDecreasing` | dashboard.py:138-149 | `count_w` never decreases from one day to a later day |
| `Breadth.ValidDays` | dashboard.py:162-163 | the history days are exactly the days with `count_20 >= 5`, in date order |
| `Breadth.FillNa` | dashboard.py:169 | a defined percentage is kept and an undefined one becomes 0 |
| `Breadth.History` | dashboard.py:162-169 | one history row per valid day, carrying that day's date |
| `Breadth.HistoryRowOfValidDay` | dashboard.py:162-169 | history row k carries the date of the k-th valid day, its three percentages, and 0 for each that is undefined |
| `Breadth.HistoryInRange` | dashboard.py:165-169 | every stored history value lies in [0, 100] |
| `Breadth.Latest` | dashboard.py:171-176 | the snapshot carries the index name and the last history row's three values, or zeros for an empty history |
| `Breadth.BreadthOf` | dashboard.py:136-178 | the history is the filtered history, the snapshot is its last row's values (or zeros) under the index name, with values in [0, 100] |
| `Breadth.GetBreadthData` | dashboard.py:108-181 | "no data" exactly when the ticker list is empty, the download failed, or no ticker has a price; otherwise the breadth of the pruned table, under the index name |
| `Breadth.HolidaysNotInHistory` | dashboard.py:131-169 | every history date is the date of a downloaded row holding at least one price, so a holiday never appears, not even as a zero row |
| `Breadth.NoValidDayGivesZeroSnapshot` | dashboard.py:160-178 | whenever no day has `count_20 >= 5`, the result is an empty history and a zero snapshot, not "no data" |
| `Breadth.FewTickersEmptyHistory` | dashboard.py:160-169 | with fewer than five tickers the history is empty |
| `Breadth.FewTickersGiveZeroSnapshot` | dashboard.py:160-178 | with between one and four priced tickers the result is an empty history and a zero snapshot, not "no data" |

## Left out

- The price download `yf.download(...)` and the reshaping of its result into a Close table (dashboard.py:115-123): a network call and third-party dataframe shapes; the model takes the resulting table, or a failed download, as a parameter.
- Exceptions raised inside the pandas steps themselves: only a failed download is modelled as the `(None, None)` outcome of the broad `except` (dashboard.py:180-181).
- The Wikipedia scraping of S&P 500 and Nasdaq-100 constituents with hardcoded fallbacks, and the static constituent lists (dashboard.py:17-104): HTTP, HTML parsing and constant data.
- `st.cache_data` time-to-live caching, the refresh button and `st.rerun`: framework state; the model's functions are pure, so recomputing on the same table yields the same result by construction.
- `round(..., 2)` of the snapshot values (dashboard.py:173-175): float presentation; the snapshot keeps exact values.
- Floating-point arithmetic: prices, sums and averages are exact `real`s, so pandas' rounding in its running window sums is not modelled.
- Dates are opaque integer labels; calendar arithmetic plays no part in the core.
- `Tickers.CleanUsTicker`: the `str(...)` conversion of a non-string input is not modelled; the input is already a string.
- All Streamlit and Plotly rendering, including the colour rule and the chart (dashboard.py:184-294), and the download's thread pool.
