# Closer Than You Think: the time heatmap reshaping, in Dafny

This project models the data-reshaping core of a two-person call-log
dashboard. It covers `data_transformation.py`, which turns a table of calls
into the 7 x 24 weekday-by-hour grid behind the heatmap. Each call carries
a start and an end in two local views, Singapore (SG) and New Zealand (NZ).

- `split_call_by_hour` spreads one call over the hourly grid that
  `pd.date_range(start, end, freq='h')` builds.
- `transform_for_time_heatmap` splits every call in both views. It derives
  each piece's weekday (Sunday = 0) and hour, and sums minutes per
  (weekday, hour) for each view. It then left-joins both sums onto the
  fixed `itertools.product(range 7, range 24)` grid.

Modules, one per concern of the source:

- `Clock` (`clock.dfy`): `dt.dayofweek`, the shifted weekday and `dt.hour`
  on timestamps that are whole seconds since 1970-01-01 (a Thursday).
- `Splitter` (`splitter.dfy`): the `date_range` grid and the split loop. The
  loop is the method `SplitCallByHour`, proved equal to the function
  `HourlySplit`. `HourlySplit` follows the code as written, pair by pair,
  and lemmas give its closed form.
- `Tables` (`tables.dfy`): group-by-sum, `itertools.product` and the left
  merge, as functions over sequences of rows, with their lemmas.
- `Heatmap` (`heatmap.dfy`): the loop over the call rows is the method
  `CollectMinutes`. Together with the whole-table steps it makes up
  `TransformForTimeHeatmap`, which is proved equal to the function `TimeHeatmap`.
  This module also holds the error path, the 168-cell theorem, independence
  from the order of the call rows (any reordering of the same rows) and
  minute conservation.

Timestamps are `int` seconds. Minutes are `real` (Dafny's reals are exact):
a piece's minutes are its overlap in seconds divided by 60, as
`total_seconds() / 60` computes them. A missing cell (`NaN`) is `None`.

## Where the code differs from what one might expect

The model follows the code, which in these places does not do what a reader
of the dashboard might assume:

- Hour snapping. One might expect a call to be split at wall-clock hour
  boundaries. The code does not split it there: the grid is start, start + 1h, start + 2h,
  and so on, up to end. Every piece is therefore exactly 60 minutes and
  starts at start + i hours. A call from 10:30 to 12:15 gives one 60-minute
  piece at 10:30, not 30 + 60 + 15 minutes at 10:00, 11:00 and 12:00
  (`Splitter.SplitExamples`).
- Minute conservation. One might expect a call's pieces to add up to its
  duration. In the code the remainder under an hour is dropped
  (`Splitter.SplitTotalMinutes`). A call shorter than an hour yields nothing
  (`Splitter.ShortCallsVanish`). The aggregation step does conserve minutes
  (`Heatmap.GridConservesMinutes`).
- Empty input. One might expect an empty call set to give 168 empty cells.
  In the code, a view whose contribution list is empty builds a frame
  with no `time_bucket` column, and the next line raises. The model returns
  `Failure(MissingTimeBucket(zone))`. SG is checked first, because line 50
  comes before line 51 (`Heatmap.TimeHeatmapOutcome`, `Heatmap.EmptyLogFails`).
  A day of calls that are all shorter than an hour therefore raises as well.
- Invalid intervals. One might expect a call with end <= start to be
  rejected. The code has no guard, and such a call simply yields nothing.

## Model

| member | source | states |
|---|---|---|
| `Clock.DayOfWeek` | data_transformation.py:50-51 | pandas `dayofweek` of a timestamp lies in 0..6 (Monday = 0), counted from a Thursday epoch |
| `Clock.Weekday` | data_transformation.py:50-51 | the derived `Weekday` column `(dayofweek + 1) % 7` lies in 0..6 |
| `Clock.Hour` | data_transformation.py:54-55 | the derived `Hour` column lies in 0..23 |
| `Clock.WeekdayShift` | data_transformation.py:49-51 | Sunday maps to weekday 0 and Saturday to 6, in both directions; every other day moves up by one |
| `Clock.HourOfDay` | data_transformation.py:54-55 | `Hour` equals the seconds since that day's midnight, in whole hours |
| `Clock.NextDay` | data_transformation.py:50-55 | one day later gives the next weekday (Saturday wraps to Sunday) and the same hour |
| `Clock.NextHour` | data_transformation.py:54-55 | one hour later gives the next hour of the day, wrapping 23 to 0 |
| `Clock.CalendarAnchors` | data_transformation.py:50-55 | 1970-01-01 is a Thursday (weekday 4); 2024-01-06 gives 6 (Saturday) and 2024-01-07 gives 0 (Sunday) |
| `Splitter.DateRange` | data_transformation.py:6 | the grid's k-th point is start + k hours and is at most end, and no further hourly point fits before end; the grid is empty when end < start |
| `Splitter.PairCount` | data_transformation.py:9 | the number of neighbouring grid pairs `range(len(time_range) - 1)` visits, none for an empty grid; see `PiecesUpToShape` |
| `Splitter.PiecesUpTo` | data_transformation.py:9-25 | `split_minutes` after the loop has visited the first n pairs, with the max/min overlap and the `> 0` guard; see `PiecesUpToShape` |
| `Splitter.HourlySplit` | data_transformation.py:5-27 | the list `split_call_by_hour` returns, pair by pair as written; its closed form is `HourlySplitShape` |
| `Splitter.SplitCallByHour` | data_transformation.py:5-27 | the index loop over neighbouring grid pairs, with its max/min overlap and its `> 0` guard, returns exactly the list `HourlySplit` describes |
| `Splitter.PiecesUpToShape` | data_transformation.py:9-25 | after n visited pairs the list holds n pieces, the i-th being 60 minutes at start + i hours in the given zone |
| `Splitter.HourlySplitShape` | data_transformation.py:5-27 | the split has `FullHours(start, end)` pieces, and piece i is 60 minutes at start + i hours tagged with the zone argument |
| `Splitter.SplitPiecesAreFullHours` | data_transformation.py:14-24 | every emitted piece has exactly 60 minutes and the zone it was given |
| `Splitter.ShortCallsVanish` | data_transformation.py:6-9 | the split is empty if and only if the call lasts less than an hour; this covers start == end and end < start |
| `Splitter.SplitBucketsSpaced` | data_transformation.py:10-22 | the first bucket is the call's start, and consecutive buckets are exactly one hour apart and strictly increasing |
| `Splitter.SplitTotalMinutes` | data_transformation.py:6-20 | the pieces total 60 minutes per whole hour; this never exceeds the duration, falls short of it by less than 60 minutes, and equals it exactly when the duration is a whole number of hours |
| `Splitter.SplitExamples` | data_transformation.py:5-27 | 10:00-11:00 gives one piece at 10:00; 10:30-12:15 gives a single 60-minute piece at 10:30; 09:15-09:45 gives nothing |
| `Tables.SumMatchingConcat` | data_transformation.py:58 | a group's sum over two blocks of rows is the sum of the blocks' group sums |
| `Tables.HasKeyConcat` | data_transformation.py:58 | a key appears in two blocks of rows if and only if it appears in one of them |
| `Tables.CellConcatSwap` | data_transformation.py:58-63 | swapping two neighbouring blocks of rows, anywhere in the table, leaves the summed value of every key unchanged |
| `Tables.CellConcat` | data_transformation.py:58-63 | the summed value of a key in two blocks together is both blocks' sums added, whichever block has the key, or `NaN` when neither has it |
| `Tables.AddTo` | data_transformation.py:58 | one row folded into a sorted grouped table; pinned down by `AddToKeys`, `AddToSums` and `AddToSorted` |
| `Tables.GroupBySum` | data_transformation.py:58 | `groupby(['Weekday', 'Hour']).agg({'minutes': 'sum'}).reset_index()`; see `GroupBySumSpec` |
| `Tables.AddToKeys` | data_transformation.py:58 | after adding a row, a key has a group if and only if it had one before or is the row's key |
| `Tables.AddToSums` | data_transformation.py:58 | adding a row adds its minutes to its own key's group and leaves every other group's sum unchanged |
| `Tables.AddToSorted` | data_transformation.py:58 | adding a row to groups with strictly increasing keys keeps the keys strictly increasing |
| `Tables.GroupBySumSpec` | data_transformation.py:58-65 | the grouped table is sorted with unique keys, holds exactly the keys present in the rows, and each group's minutes are the sum of its rows' minutes |
| `Tables.GroupBySumCell` | data_transformation.py:58-65 | looking a key up in the grouped table gives the same value (sum or `NaN`) as summing that key's raw rows |
| `Tables.Matches` | data_transformation.py:86-98 | the right rows, in order, that one left row is joined with by `pd.merge(..., how='left')`; see `MatchesUnique` |
| `Tables.MergeLeft` | data_transformation.py:86-98 | `pd.merge(..., how='left')` on the key columns, one output row per match and one `NaN` row per unmatched left row; see `MergeLeftUnique` |
| `Tables.MatchesUnique` | data_transformation.py:86-98 | on unique right keys a left key matches at most one right row, namely that key's group, and matches none when the key is absent |
| `Tables.MergeLeftUnique` | data_transformation.py:86-100 | when the right keys are unique, the left merge keeps the left table's row count and order, and appends to each row its key's group sum or `NaN` |
| `Tables.Range` | data_transformation.py:68-71 | `list(range(n))`, the weekday list 0..6 and the hour list 0..23; see `WeekCombinationsAt` |
| `Tables.Product` | data_transformation.py:74 | `list(itertools.product(xs, ys))`; see `ProductLength` and `ProductAt` |
| `Tables.ProductLength` | data_transformation.py:74 | `itertools.product(xs, ys)` has `|xs| * |ys|` entries |
| `Tables.ProductAt` | data_transformation.py:74 | position `i * |ys| + j` of the product holds `(xs[i], ys[j])`, so the order is first component major, second minor |
| `Heatmap.CallStart` | data_transformation.py:38-43 | the row's `Start_Datetime_SG` or `Start_Datetime_NZ`, whichever view is asked for; see `ZoneContributionsOwnView` |
| `Heatmap.CallEnd` | data_transformation.py:38-43 | the row's `End_Datetime_SG` or `End_Datetime_NZ`, whichever view is asked for; see `ZoneContributionsOwnView` |
| `Heatmap.RowSplits` | data_transformation.py:38-43 | each call row's split in one view, in row order; see `ZoneContributionsStep` |
| `Heatmap.Flatten` | data_transformation.py:38-43 | the lists joined end to end, as repeated `extend` builds them; see `FlattenAppend` |
| `Heatmap.ZoneContributions` | data_transformation.py:34-43 | `sg_minutes` or `nz_minutes` after the row loop; see `ZoneContributionsAppend`, `ZoneContributionsEmpty` and `ZoneContributionsTotal` |
| `Heatmap.WithWeekdayHour` | data_transformation.py:46-55 | the contributions frame with its `Weekday` and `Hour` columns added; see `WithWeekdayHourCell` and `WithWeekdayHourInRange` |
| `Heatmap.WeekCombinations` | data_transformation.py:67-77 | `df_week_combinations`: the product of weekdays 0..6 and hours 0..23; see `WeekCombinationsAt` |
| `Heatmap.WeekFrame` | data_transformation.py:77 | `pd.DataFrame(week_combinations, columns=['Day_of_Week', 'Hour'])`: one key row per combination, no value columns yet; see `MergedGridAt` |
| `Heatmap.ToHeatmapRow` | data_transformation.py:92-102 | a merged row with both `Weekday` columns dropped: day, hour, SG minutes, NZ minutes, as returned; see `GridCells` |
| `Heatmap.MergedGrid` | data_transformation.py:86-100 | the key grid after the SG merge and then the NZ merge, extra key columns dropped; see `MergedGridAt` |
| `Heatmap.BuildGrid` | data_transformation.py:46-102 | everything after the row loop, with the `KeyError` of an empty view as a `Failure`, SG first; see `GridCells` and `BuildGridByCells` |
| `Heatmap.TimeHeatmap` | data_transformation.py:31-102 | what `transform_for_time_heatmap` returns or raises; see `TimeHeatmapOutcome`, `TimeHeatmapCells`, `TimeHeatmapPermutation` |
| `Heatmap.CollectMinutes` | data_transformation.py:34-43 | the loop over the call rows, splitting each in both views and extending both lists, ends with exactly each view's concatenated splits in row order |
| `Heatmap.TransformForTimeHeatmap` | data_transformation.py:31-102 | the row loop followed by the table steps returns exactly `TimeHeatmap(rows)` |
| `Heatmap.ZoneContributionsStep` | data_transformation.py:38-43 | handling one more row extends a view's list by exactly that row's split in that view |
| `Heatmap.ZoneContributionsLast` | data_transformation.py:38-43 | the split of the last row comes last in a view's list |
| `Heatmap.FlattenAppend` | data_transformation.py:38-43 | extending by the splits of two runs of rows gives the two runs' results one after the other |
| `Heatmap.ZoneContributionsAppend` | data_transformation.py:38-43 | the list for a run of rows is the lists for its parts, concatenated in input-row order |
| `Heatmap.ZoneContributionsOwnView` | data_transformation.py:38-43 | the SG list depends only on the SG start/end pairs, and the NZ list only on the NZ pairs |
| `Heatmap.ZoneContributionsTagged` | data_transformation.py:40-43 | every contribution in a view's list carries that view's tag and has 60 minutes |
| `Heatmap.ZoneContributionsEmpty` | data_transformation.py:38-47 | a view's list is empty if and only if every call in that view is shorter than an hour; this includes an empty frame |
| `Heatmap.WithWeekdayHourInRange` | data_transformation.py:50-55 | every derived Weekday lies in 0..6 and every Hour in 0..23 |
| `Heatmap.WithWeekdayHourCell` | data_transformation.py:50-65 | grouping by the derived Weekday and Hour and looking up (d, h) gives the sum of the contributions whose bucket falls on weekday d at hour h, or nothing if there are none |
| `Heatmap.WeekCombinationsAt` | data_transformation.py:67-77 | the key grid has 168 entries, and entry i is (i / 24, i % 24): every (weekday, hour) once, day-major and hour-minor |
| `Heatmap.FirstMergeAt` | data_transformation.py:86-92 | the SG merge onto the key grid keeps its 168 rows in order and gives row i the SG value of key (i / 24, i % 24) |
| `Heatmap.MergedGridAt` | data_transformation.py:86-100 | after both merges, row i keeps key (i / 24, i % 24) and holds that key's SG value, then its NZ value |
| `Heatmap.GridCells` | data_transformation.py:46-102 | with both lists non-empty the result is 168 rows in product order; each zone's cell is the sum of that zone's contributions in that cell, or `NaN` when there are none |
| `Heatmap.TimeHeatmapOutcome` | data_transformation.py:46-51 | the SG error occurs if and only if every SG call is shorter than an hour; the NZ error if and only if some SG call is not and every NZ call is; otherwise a grid is returned |
| `Heatmap.EmptyLogFails` | data_transformation.py:46-50 | an empty call table raises (SG first) instead of returning 168 empty cells |
| `Heatmap.TimeHeatmapCells` | data_transformation.py:31-102 | a returned grid has 168 rows, and row i holds weekday i / 24, hour i % 24 and the per-view sums of all calls' contributions falling there |
| `Heatmap.ExpectedCellSwap` | data_transformation.py:50-65 | swapping two neighbouring blocks of contributions, anywhere in the list, changes no (weekday, hour) cell |
| `Heatmap.ExpectedCellConcat` | data_transformation.py:50-65 | a cell of two lists of contributions together is determined by that cell in each |
| `Heatmap.BuildGridByCells` | data_transformation.py:46-102 | two pairs of lists that agree on emptiness and on every cell give the same grid or the same error |
| `Heatmap.TimeHeatmapOrderIndependent` | data_transformation.py:31-102 | a corollary of `TimeHeatmapPermutation`: swapping two neighbouring blocks of call rows, anywhere in the table, gives the same grid or the same error |
| `Heatmap.ZoneCellsMoveToEnd` | data_transformation.py:38-43 | moving one call row from the middle to the end changes no cell of a view's list and not its length |
| `Heatmap.ZoneCellsAppendRow` | data_transformation.py:38-65 | two tables whose lists agree on length and on every cell still agree after the same call row is appended to both |
| `Heatmap.ZoneCellsPermutation` | data_transformation.py:31-65 | any reordering of the call rows (the same rows, each as often) leaves a view's list with the same length and every cell of it unchanged |
| `Heatmap.TimeHeatmapPermutation` | data_transformation.py:31-102 | the result does not depend on the order of the call rows: any two tables holding the same rows, each as often, give the same grid or the same error |
| `Heatmap.ExpectedCellOrZero` | data_transformation.py:86-100 | a `NaN` cell is exactly a cell that no contribution reaches, so its value read as 0 equals the cell's sum |
| `Heatmap.ShareUpToOneCell` | data_transformation.py:50-58 | each contribution falls in exactly one grid cell, number 24 * weekday + hour |
| `Heatmap.CellsUpToAll` | data_transformation.py:58-65 | summed over all 168 cells, the per-cell sums give back every contribution's minutes |
| `Heatmap.GridConservesMinutes` | data_transformation.py:46-102 | each view's column of the grid, with `NaN` skipped, totals exactly that view's emitted minutes |
| `Heatmap.ZoneContributionsTotal` | data_transformation.py:38-43 | a view's list totals 60 minutes per whole hour logged in that view |
| `Heatmap.TimeHeatmapTotals` | data_transformation.py:31-102 | each column of a returned grid totals 60 minutes per whole hour logged in its view |
| `Heatmap.MondayCallPieces` | data_transformation.py:38-43 | a two-hour call from 09:15 SG time on Monday 2024-01-01 yields two 60-minute pieces per view, one hour apart |
| `Heatmap.MondayCallExample` | data_transformation.py:31-102 | that call fills Monday 9:00 and 10:00 in SG and Monday 14:00 in NZ with 60 minutes each; Monday 11:00 is `NaN` in both views |

## Left out

- Time-zone conversion and daylight saving time. Each view's start and end
  are already-local integer seconds, and the core never converts between
  zones. Sub-second timestamps are not modelled.
- Floating point. Minutes are exact reals. The rounding of
  `total_seconds() / 60` and of pandas' float `sum` is not modelled. Here
  every piece is exactly 60.
- `time_zone` is an arbitrary string in the source. It is modelled as the
  two values the caller passes, `SG` and `NZ`.
- Heatmap.WithWeekdayHour: adds the `Weekday` and `Hour` columns as a
  function returning the widened frame, not as an in-place update. The
  frame is a local value, so no aliasing is lost.
- pandas DataFrame internals: dtypes, index, column names, and the unused
  `time_zone` column. Frames are sequences of rows, and `NaN` is `None`.
- Rows with missing (`NaT`) timestamps are not modelled. The source has no
  handling for them.
- Tables.MergeLeft: models a left merge against any right table, including
  one with duplicate keys. Its lemmas cover only unique right keys, the only
  case `groupby` produces.
- All of `main.py`: page layout, CSS and HTML, charts, parquet loading and
  caching, summary statistics, the month-range filter, and the calendar and
  trend pivots. They are presentation and I/O with no contract to state. The
  `fill_value=0` step that shows `NaN` cells as 0 belongs to that layer.
