/** `transform_for_time_heatmap`: split every call in both views, derive
    each piece's weekday (Sunday = 0) and hour, sum minutes per
    (weekday, hour) for each view, and left-join both sums onto the fixed
    7 x 24 grid of (Day_of_Week, Hour). */
module Heatmap {
  import opened Clock
  import opened Splitter
  import opened Tables

  /** One row of `df_combined`: the call's start and end in the SG view and in the NZ view. */
  datatype CallRow = CallRow(startSG: int, endSG: int, startNZ: int, endNZ: int)

  /** A frame built from an empty list has no `time_bucket` column, so deriving
      that zone's Weekday column raises. */
  datatype HeatmapError = MissingTimeBucket(zone: Zone)

  datatype Result<T> = Success(value: T) | Failure(error: HeatmapError)

  /** One row of the returned frame: Day_of_Week, Hour, minutes_SG, minutes_NZ (`NaN` is `None`). */
  datatype HeatmapRow = HeatmapRow(dayOfWeek: int, hour: int, minutesSG: Option<real>, minutesNZ: Option<real>)

  function CallStart(row: CallRow, zone: Zone): int
  {
    match zone
    case SG => row.startSG
    case NZ => row.startNZ
  }

  function CallEnd(row: CallRow, zone: Zone): int
  {
    match zone
    case SG => row.endSG
    case NZ => row.endNZ
  }

  /** The lists in order, joined end to end: what repeated `extend` builds. */
  function Flatten(parts: seq<seq<Contribution>>): seq<Contribution>
  {
    if parts == [] then [] else Flatten(parts[..|parts| - 1]) + parts[|parts| - 1]
  }

  /** Each row's split in one view. */
  function RowSplits(rows: seq<CallRow>, zone: Zone): seq<seq<Contribution>>
  {
    seq(|rows|, i requires 0 <= i < |rows| => HourlySplit(CallStart(rows[i], zone), CallEnd(rows[i], zone), zone))
  }

  /** `sg_minutes` (or `nz_minutes`) once the loop has seen `rows`: each row's split in that
      view, extended in row order. */
  function ZoneContributions(rows: seq<CallRow>, zone: Zone): seq<Contribution>
  {
    Flatten(RowSplits(rows, zone))
  }

  /** The frame of contributions with its Weekday and Hour columns added. */
  function WithWeekdayHour(cs: seq<Contribution>): seq<Entry>
  {
    seq(|cs|, i requires 0 <= i < |cs| => Entry(Key(Weekday(cs[i].timeBucket), Hour(cs[i].timeBucket)), cs[i].minutes))
  }

  /** `itertools.product(days_of_week, hours_of_day)` with days 0..6 and hours 0..23. */
  function WeekCombinations(): seq<Key>
  {
    Product(Range(7), Range(24))
  }

  /** The merged row with both Weekday columns dropped. */
  function ToHeatmapRow(r: Row): HeatmapRow
  {
    HeatmapRow(r.key.day, r.key.hour,
               if |r.cols| > 0 then r.cols[0] else None,
               if |r.cols| > 1 then r.cols[1] else None)
  }

  /** `df_week_combinations`: one row per key, no value columns yet. */
  function WeekFrame(): seq<Row>
  {
    var keys := WeekCombinations();
    seq(|keys|, i requires 0 <= i < |keys| => Row(keys[i], []))
  }

  /** The key frame after the merge with the grouped SG table and then with the grouped NZ table. */
  function MergedGrid(sgAgg: seq<Entry>, nzAgg: seq<Entry>): seq<Row>
  {
    MergeLeft(MergeLeft(WeekFrame(), sgAgg), nzAgg)
  }

  /** Everything after the loop: the SG frame is touched first, so an empty SG list
      fails before an empty NZ list is looked at. */
  function BuildGrid(sg: seq<Contribution>, nz: seq<Contribution>): Result<seq<HeatmapRow>>
  {
    if sg == [] then Failure(MissingTimeBucket(SG))
    else if nz == [] then Failure(MissingTimeBucket(NZ))
    else
      var merged := MergedGrid(GroupBySum(WithWeekdayHour(sg)), GroupBySum(WithWeekdayHour(nz)));
      Success(seq(|merged|, i requires 0 <= i < |merged| => ToHeatmapRow(merged[i])))
  }

  /** What `transform_for_time_heatmap(df_combined)` returns or raises. */
  function TimeHeatmap(rows: seq<CallRow>): Result<seq<HeatmapRow>>
  {
    BuildGrid(ZoneContributions(rows, SG), ZoneContributions(rows, NZ))
  }

  /** The loop over `df_combined.iterrows()`: both views' lists, extended row by row. */
  method CollectMinutes(rows: seq<CallRow>) returns (sgMinutes: seq<Contribution>, nzMinutes: seq<Contribution>)
    ensures sgMinutes == ZoneContributions(rows, SG)
    ensures nzMinutes == ZoneContributions(rows, NZ)
  {
    sgMinutes, nzMinutes := [], [];
    var i := 0;
    while i < |rows|
      invariant 0 <= i <= |rows|
      invariant sgMinutes == ZoneContributions(rows[..i], SG)
      invariant nzMinutes == ZoneContributions(rows[..i], NZ)
    {
      var row := rows[i];
      var sg := SplitCallByHour(row.startSG, row.endSG, SG);
      sgMinutes := sgMinutes + sg;
      var nz := SplitCallByHour(row.startNZ, row.endNZ, NZ);
      nzMinutes := nzMinutes + nz;
      ZoneContributionsStep(rows, i, SG);
      ZoneContributionsStep(rows, i, NZ);
      i := i + 1;
    }
    assert rows[..|rows|] == rows;
  }

  /** `transform_for_time_heatmap(df_combined)`: the row loop followed by the whole-table steps. */
  method TransformForTimeHeatmap(rows: seq<CallRow>) returns (result: Result<seq<HeatmapRow>>)
    ensures result == TimeHeatmap(rows)
  {
    var sgMinutes, nzMinutes := CollectMinutes(rows);
    result := BuildGrid(sgMinutes, nzMinutes);
  }

  // ---------------------------------------------------------------------------
  // The reference meaning of a cell, stated on contributions directly.

  predicate InCell(c: Contribution, d: int, h: int)
  {
    Weekday(c.timeBucket) == d && Hour(c.timeBucket) == h
  }

  /** Minutes of the contributions whose bucket falls on weekday `d` at hour `h`. */
  function CellMinutes(cs: seq<Contribution>, d: int, h: int): real
  {
    if cs == [] then 0.0
    else CellMinutes(cs[..|cs| - 1], d, h) + (if InCell(cs[|cs| - 1], d, h) then cs[|cs| - 1].minutes else 0.0)
  }

  /** The value a heatmap cell holds for one zone: that sum, or nothing when no
      contribution falls in the cell. */
  function ExpectedCell(cs: seq<Contribution>, d: int, h: int): Option<real>
  {
    if exists i :: 0 <= i < |cs| && InCell(cs[i], d, h) then Some(CellMinutes(cs, d, h)) else None
  }

  // ---------------------------------------------------------------------------
  // Properties of the per-row loop.

  /** One more row extends a view's list by that row's split. */
  lemma ZoneContributionsStep(rows: seq<CallRow>, i: nat, zone: Zone)
    requires i < |rows|
    ensures ZoneContributions(rows[..i + 1], zone)
      == ZoneContributions(rows[..i], zone) + HourlySplit(CallStart(rows[i], zone), CallEnd(rows[i], zone), zone)
  {
    assert RowSplits(rows[..i + 1], zone)[..i] == RowSplits(rows[..i], zone);
  }

  /** The last row's split comes last. */
  lemma ZoneContributionsLast(rows: seq<CallRow>, zone: Zone)
    requires rows != []
    ensures ZoneContributions(rows, zone) == ZoneContributions(rows[..|rows| - 1], zone)
      + HourlySplit(CallStart(rows[|rows| - 1], zone), CallEnd(rows[|rows| - 1], zone), zone)
  {
    assert RowSplits(rows, zone)[..|rows| - 1] == RowSplits(rows[..|rows| - 1], zone);
  }

  lemma {:induction false} FlattenAppend(p: seq<seq<Contribution>>, q: seq<seq<Contribution>>)
    ensures Flatten(p + q) == Flatten(p) + Flatten(q)
  {
    if q == [] {
      assert p + q == p;
    } else {
      var init := q[..|q| - 1];
      assert (p + q)[..|p + q| - 1] == p + init;
      assert (p + q)[|p + q| - 1] == q[|q| - 1];
      FlattenAppend(p, init);
    }
  }

  /** Extending row by row keeps the input-row order. */
  lemma ZoneContributionsAppend(a: seq<CallRow>, b: seq<CallRow>, zone: Zone)
    ensures ZoneContributions(a + b, zone) == ZoneContributions(a, zone) + ZoneContributions(b, zone)
  {
    assert RowSplits(a + b, zone) == RowSplits(a, zone) + RowSplits(b, zone);
    FlattenAppend(RowSplits(a, zone), RowSplits(b, zone));
  }

  /** A view's list is built from that view's start and end only: rows that agree on
      that pair give the same list, whatever their other view holds. */
  lemma ZoneContributionsOwnView(a: seq<CallRow>, b: seq<CallRow>, zone: Zone)
    requires |a| == |b|
    requires forall i :: 0 <= i < |a| ==>
      CallStart(a[i], zone) == CallStart(b[i], zone) && CallEnd(a[i], zone) == CallEnd(b[i], zone)
    ensures ZoneContributions(a, zone) == ZoneContributions(b, zone)
  {
    assert RowSplits(a, zone) == RowSplits(b, zone);
  }

  /** Every contribution of a view is a full hour tagged with that view. */
  lemma {:induction false} ZoneContributionsTagged(rows: seq<CallRow>, zone: Zone)
    ensures forall c :: c in ZoneContributions(rows, zone) ==> c.timeZone == zone && c.minutes == 60.0
  {
    if rows != [] {
      var last := rows[|rows| - 1];
      ZoneContributionsTagged(rows[..|rows| - 1], zone);
      ZoneContributionsLast(rows, zone);
      SplitPiecesAreFullHours(CallStart(last, zone), CallEnd(last, zone), zone);
    }
  }

  /** A view's list is empty exactly when every call in that view is shorter than an
      hour (an empty frame included). */
  lemma {:induction false} ZoneContributionsEmpty(rows: seq<CallRow>, zone: Zone)
    ensures ZoneContributions(rows, zone) == [] <==>
      forall i :: 0 <= i < |rows| ==> CallEnd(rows[i], zone) - CallStart(rows[i], zone) < SecondsPerHour
  {
    if rows != [] {
      var last := rows[|rows| - 1];
      ZoneContributionsEmpty(rows[..|rows| - 1], zone);
      ZoneContributionsLast(rows, zone);
      ShortCallsVanish(CallStart(last, zone), CallEnd(last, zone), zone);
      assert forall i :: 0 <= i < |rows| - 1 ==> rows[..|rows| - 1][i] == rows[i];
    }
  }

  // ---------------------------------------------------------------------------
  // Properties of the whole-table steps.

  lemma WithWeekdayHourConcat(a: seq<Contribution>, b: seq<Contribution>)
    ensures WithWeekdayHour(a + b) == WithWeekdayHour(a) + WithWeekdayHour(b)
  {
  }

  /** The derived Weekday and Hour columns lie in 0..6 and 0..23. */
  lemma WithWeekdayHourInRange(cs: seq<Contribution>)
    ensures forall e :: e in WithWeekdayHour(cs) ==> 0 <= e.key.day < 7 && 0 <= e.key.hour < 24
  {
  }

  lemma {:induction false} WithWeekdayHourSum(cs: seq<Contribution>, d: int, h: int)
    ensures SumMatching(WithWeekdayHour(cs), Key(d, h)) == CellMinutes(cs, d, h)
  {
    if cs != [] {
      var init, last := cs[..|cs| - 1], cs[|cs| - 1];
      assert cs == init + [last];
      WithWeekdayHourSum(init, d, h);
      WithWeekdayHourConcat(init, [last]);
      var e := WithWeekdayHour([last]);
      assert e[1..] == [];
      SumMatchingConcat(WithWeekdayHour(init), e, Key(d, h));
    }
  }

  /** Grouping the Weekday/Hour frame and looking up a key gives the reference cell. */
  lemma WithWeekdayHourCell(cs: seq<Contribution>, d: int, h: int)
    ensures Cell(WithWeekdayHour(cs), Key(d, h)) == ExpectedCell(cs, d, h)
  {
    WithWeekdayHourSum(cs, d, h);
    var rows := WithWeekdayHour(cs);
    assert forall i :: 0 <= i < |cs| ==> (rows[i].key == Key(d, h) <==> InCell(cs[i], d, h));
  }

  /** The grid keys: 168 of them, position i holding (i / 24, i % 24), so every
      (weekday, hour) appears once, day-major and hour-minor. */
  lemma WeekCombinationsAt()
    ensures |WeekCombinations()| == 168
    ensures forall i :: 0 <= i < 168 ==> WeekCombinations()[i] == Key(i / 24, i % 24)
  {
    ProductLength(Range(7), Range(24));
    forall i | 0 <= i < 168 ensures WeekCombinations()[i] == Key(i / 24, i % 24) {
      ProductAt(Range(7), Range(24), i / 24, i % 24);
      assert (i / 24) * 24 + i % 24 == i;
    }
  }

  /** The first merge keeps the 168 key rows in order and gives each the value of its key. */
  lemma FirstMergeAt(sgAgg: seq<Entry>)
    requires SortedKeys(sgAgg)
    ensures |MergeLeft(WeekFrame(), sgAgg)| == 168
    ensures forall i :: 0 <= i < 168 ==>
      MergeLeft(WeekFrame(), sgAgg)[i] == Row(Key(i / 24, i % 24), [Cell(sgAgg, Key(i / 24, i % 24))])
  {
    WeekCombinationsAt();
    MergeLeftUnique(WeekFrame(), sgAgg);
  }

  /** Both merges keep the 168 key rows in order and append the SG and then the NZ
      value of each key. */
  lemma MergedGridAt(sgAgg: seq<Entry>, nzAgg: seq<Entry>)
    requires SortedKeys(sgAgg) && SortedKeys(nzAgg)
    ensures |MergedGrid(sgAgg, nzAgg)| == 168
    ensures forall i :: 0 <= i < 168 ==>
      MergedGrid(sgAgg, nzAgg)[i] == Row(Key(i / 24, i % 24), [Cell(sgAgg, Key(i / 24, i % 24)), Cell(nzAgg, Key(i / 24, i % 24))])
  {
    FirstMergeAt(sgAgg);
    MergeLeftUnique(MergeLeft(WeekFrame(), sgAgg), nzAgg);
  }

  /** When both lists are non-empty the result has exactly 168 rows in product order, and
      each zone's cell holds the sum of that zone's contributions falling on that weekday
      and hour, or nothing when there are none. */
  lemma GridCells(sg: seq<Contribution>, nz: seq<Contribution>)
    requires sg != [] && nz != []
    ensures BuildGrid(sg, nz).Success?
    ensures |BuildGrid(sg, nz).value| == 168
    ensures forall i :: 0 <= i < 168 ==>
      BuildGrid(sg, nz).value[i] == HeatmapRow(i / 24, i % 24, ExpectedCell(sg, i / 24, i % 24), ExpectedCell(nz, i / 24, i % 24))
  {
    var sgRows, nzRows := WithWeekdayHour(sg), WithWeekdayHour(nz);
    GroupBySumCell(sgRows);
    GroupBySumCell(nzRows);
    MergedGridAt(GroupBySum(sgRows), GroupBySum(nzRows));
    forall i | 0 <= i < 168
      ensures BuildGrid(sg, nz).value[i]
        == HeatmapRow(i / 24, i % 24, ExpectedCell(sg, i / 24, i % 24), ExpectedCell(nz, i / 24, i % 24))
    {
      WithWeekdayHourCell(sg, i / 24, i % 24);
      WithWeekdayHourCell(nz, i / 24, i % 24);
    }
  }

  /** The error path: the SG view fails first, when every SG call is shorter than an
      hour; otherwise the NZ view fails when every NZ call is; otherwise a grid comes back. */
  lemma TimeHeatmapOutcome(rows: seq<CallRow>)
    ensures TimeHeatmap(rows) == Failure(MissingTimeBucket(SG)) <==>
      forall i :: 0 <= i < |rows| ==> rows[i].endSG - rows[i].startSG < SecondsPerHour
    ensures TimeHeatmap(rows) == Failure(MissingTimeBucket(NZ)) <==>
      (exists i :: 0 <= i < |rows| && rows[i].endSG - rows[i].startSG >= SecondsPerHour) &&
      (forall i :: 0 <= i < |rows| ==> rows[i].endNZ - rows[i].startNZ < SecondsPerHour)
    ensures TimeHeatmap(rows).Success? <==>
      (exists i :: 0 <= i < |rows| && rows[i].endSG - rows[i].startSG >= SecondsPerHour) &&
      (exists i :: 0 <= i < |rows| && rows[i].endNZ - rows[i].startNZ >= SecondsPerHour)
  {
    ZoneContributionsEmpty(rows, SG);
    ZoneContributionsEmpty(rows, NZ);
  }

  /** An empty call log raises rather than returning a grid of 168 empty cells. */
  lemma EmptyLogFails()
    ensures TimeHeatmap([]) == Failure(MissingTimeBucket(SG))
  {
    TimeHeatmapOutcome([]);
  }

  /** The result of a call log: 168 rows, row i for weekday i / 24 and hour i % 24, whose
      two cells sum the SG and the NZ contributions of all calls falling there. */
  lemma TimeHeatmapCells(rows: seq<CallRow>)
    requires TimeHeatmap(rows).Success?
    ensures |TimeHeatmap(rows).value| == 168
    ensures forall i :: 0 <= i < 168 ==> TimeHeatmap(rows).value[i] == HeatmapRow(i / 24, i % 24,
      ExpectedCell(ZoneContributions(rows, SG), i / 24, i % 24),
      ExpectedCell(ZoneContributions(rows, NZ), i / 24, i % 24))
  {
    GridCells(ZoneContributions(rows, SG), ZoneContributions(rows, NZ));
  }

  /** Swapping two neighbouring blocks of contributions, anywhere in the list, changes no cell. */
  lemma ExpectedCellSwap(p: seq<Contribution>, a: seq<Contribution>, b: seq<Contribution>, q: seq<Contribution>, d: int, h: int)
    ensures ExpectedCell(p + a + b + q, d, h) == ExpectedCell(p + b + a + q, d, h)
  {
    WithWeekdayHourCell(p + a + b + q, d, h);
    WithWeekdayHourCell(p + b + a + q, d, h);
    WithWeekdayHourConcat(p + a + b, q);
    WithWeekdayHourConcat(p + a, b);
    WithWeekdayHourConcat(p, a);
    WithWeekdayHourConcat(p + b + a, q);
    WithWeekdayHourConcat(p + b, a);
    WithWeekdayHourConcat(p, b);
    CellConcatSwap(WithWeekdayHour(p), WithWeekdayHour(a), WithWeekdayHour(b), WithWeekdayHour(q), Key(d, h));
  }

  /** A cell of two lists together is determined by that cell in each. */
  lemma ExpectedCellConcat(a: seq<Contribution>, b: seq<Contribution>, d: int, h: int)
    ensures ExpectedCell(a + b, d, h) == CombineCells(ExpectedCell(a, d, h), ExpectedCell(b, d, h))
  {
    WithWeekdayHourCell(a + b, d, h);
    WithWeekdayHourCell(a, d, h);
    WithWeekdayHourCell(b, d, h);
    WithWeekdayHourConcat(a, b);
    CellConcat(WithWeekdayHour(a), WithWeekdayHour(b), Key(d, h));
  }

  /** The grid, or the error, depends on each view's list only through whether it is
      empty and what each (weekday, hour) cell of it adds up to. */
  lemma BuildGridByCells(sg1: seq<Contribution>, nz1: seq<Contribution>, sg2: seq<Contribution>, nz2: seq<Contribution>)
    requires (sg1 == []) == (sg2 == []) && (nz1 == []) == (nz2 == [])
    requires forall d, h :: ExpectedCell(sg1, d, h) == ExpectedCell(sg2, d, h)
    requires forall d, h :: ExpectedCell(nz1, d, h) == ExpectedCell(nz2, d, h)
    ensures BuildGrid(sg1, nz1) == BuildGrid(sg2, nz2)
  {
    if sg1 != [] && nz1 != [] {
      GridCells(sg1, nz1);
      GridCells(sg2, nz2);
      var g1, g2 := BuildGrid(sg1, nz1).value, BuildGrid(sg2, nz2).value;
      forall i | 0 <= i < 168 ensures g1[i] == g2[i] {
        assert ExpectedCell(sg1, i / 24, i % 24) == ExpectedCell(sg2, i / 24, i % 24);
        assert ExpectedCell(nz1, i / 24, i % 24) == ExpectedCell(nz2, i / 24, i % 24);
      }
      assert g1 == g2;
    }
  }

  /** Moving one row from the middle of the table to its end changes no cell of a view's
      list and not its length. */
  lemma ZoneCellsMoveToEnd(u: seq<CallRow>, x: CallRow, v: seq<CallRow>, zone: Zone)
    ensures |ZoneContributions(u + [x] + v, zone)| == |ZoneContributions(u + v + [x], zone)|
    ensures forall d, h ::
      ExpectedCell(ZoneContributions(u + [x] + v, zone), d, h) == ExpectedCell(ZoneContributions(u + v + [x], zone), d, h)
  {
    var cu, cx, cv := ZoneContributions(u, zone), ZoneContributions([x], zone), ZoneContributions(v, zone);
    ZoneContributionsAppend(u + [x], v, zone);
    ZoneContributionsAppend(u, [x], zone);
    ZoneContributionsAppend(u + v, [x], zone);
    ZoneContributionsAppend(u, v, zone);
    forall d, h ensures ExpectedCell(cu + cx + cv, d, h) == ExpectedCell(cu + cv + cx, d, h) {
      ExpectedCellSwap(cu, cx, cv, [], d, h);
      assert cu + cx + cv + [] == cu + cx + cv;
      assert cu + cv + cx + [] == cu + cv + cx;
    }
  }

  /** Taking the last row off one table and a copy of it off another that holds the
      same rows leaves two tables that still hold the same rows. */
  lemma MultisetRemoveLast(r1: seq<CallRow>, r2: seq<CallRow>, j: nat)
    requires multiset(r1) == multiset(r2) && r1 != []
    requires j < |r2| && r2[j] == r1[|r1| - 1]
    ensures multiset(r1[..|r1| - 1]) == multiset(r2[..j] + r2[j + 1..])
  {
    var n, x := |r1| - 1, r1[|r1| - 1];
    var u, v := r2[..j], r2[j + 1..];
    assert r1 == r1[..n] + [x];
    assert r2 == u + [x] + v;
    assert multiset(r1) == multiset(r1[..n]) + multiset{x};
    assert multiset(r2) == multiset(u) + multiset{x} + multiset(v);
    assert multiset(u + v) == multiset(u) + multiset(v);
    assert multiset(r1[..n]) == multiset(r1) - multiset{x};
    assert multiset(u + v) == multiset(r2) - multiset{x};
  }

  /** Two tables whose lists agree on length and on every cell still agree once the
      same row is appended to both. */
  lemma ZoneCellsAppendRow(r1: seq<CallRow>, r2: seq<CallRow>, x: CallRow, zone: Zone)
    requires |ZoneContributions(r1, zone)| == |ZoneContributions(r2, zone)|
    requires forall d, h :: ExpectedCell(ZoneContributions(r1, zone), d, h) == ExpectedCell(ZoneContributions(r2, zone), d, h)
    ensures |ZoneContributions(r1 + [x], zone)| == |ZoneContributions(r2 + [x], zone)|
    ensures forall d, h ::
      ExpectedCell(ZoneContributions(r1 + [x], zone), d, h) == ExpectedCell(ZoneContributions(r2 + [x], zone), d, h)
  {
    var c1, c2, cx := ZoneContributions(r1, zone), ZoneContributions(r2, zone), ZoneContributions([x], zone);
    ZoneContributionsAppend(r1, [x], zone);
    ZoneContributionsAppend(r2, [x], zone);
    forall d, h ensures ExpectedCell(c1 + cx, d, h) == ExpectedCell(c2 + cx, d, h) {
      ExpectedCellConcat(c1, cx, d, h);
      ExpectedCellConcat(c2, cx, d, h);
    }
  }

  /** Any reordering of the call rows (the same rows, each as often) leaves every cell
      of each view's list, and whether the list is empty, unchanged. */
  lemma {:induction false} ZoneCellsPermutation(r1: seq<CallRow>, r2: seq<CallRow>, zone: Zone)
    requires multiset(r1) == multiset(r2)
    ensures |ZoneContributions(r1, zone)| == |ZoneContributions(r2, zone)|
    ensures forall d, h :: ExpectedCell(ZoneContributions(r1, zone), d, h) == ExpectedCell(ZoneContributions(r2, zone), d, h)
    decreases |r1|
  {
    if r1 == [] {
      assert |multiset(r2)| == 0;
      assert r2 == [];
    } else {
      var n := |r1| - 1;
      var init, x := r1[..n], r1[n];
      assert x in multiset(r2);
      var j :| 0 <= j < |r2| && r2[j] == x;
      var u, v := r2[..j], r2[j + 1..];
      assert r1 == init + [x];
      assert r2 == u + [x] + v;
      MultisetRemoveLast(r1, r2, j);
      ZoneCellsPermutation(init, u + v, zone);
      ZoneCellsAppendRow(init, u + v, x, zone);
      ZoneCellsMoveToEnd(u, x, v, zone);
      var c1, c2, c3 := ZoneContributions(init + [x], zone), ZoneContributions(u + v + [x], zone), ZoneContributions(u + [x] + v, zone);
      forall d, h ensures ExpectedCell(ZoneContributions(r1, zone), d, h) == ExpectedCell(ZoneContributions(r2, zone), d, h) {
        assert ExpectedCell(c1, d, h) == ExpectedCell(c2, d, h);
        assert ExpectedCell(c3, d, h) == ExpectedCell(c2, d, h);
      }
    }
  }

  /** The result does not depend on the order of the call rows: any two tables holding
      the same rows, each as often, give the same grid or the same error. */
  lemma TimeHeatmapPermutation(r1: seq<CallRow>, r2: seq<CallRow>)
    requires multiset(r1) == multiset(r2)
    ensures TimeHeatmap(r1) == TimeHeatmap(r2)
  {
    ZoneCellsPermutation(r1, r2, SG);
    ZoneCellsPermutation(r1, r2, NZ);
    BuildGridByCells(ZoneContributions(r1, SG), ZoneContributions(r1, NZ), ZoneContributions(r2, SG), ZoneContributions(r2, NZ));
  }

  /** A corollary: swapping two neighbouring blocks of call rows, anywhere in the table,
      gives the same grid or the same error. */
  lemma TimeHeatmapOrderIndependent(p: seq<CallRow>, a: seq<CallRow>, b: seq<CallRow>, q: seq<CallRow>)
    ensures TimeHeatmap(p + a + b + q) == TimeHeatmap(p + b + a + q)
  {
    assert multiset(p + a + b + q) == multiset(p + b + a + q);
    TimeHeatmapPermutation(p + a + b + q, p + b + a + q);
  }

  // ---------------------------------------------------------------------------
  // No minute is lost or counted twice by the aggregation.

  function ZoneColumn(r: HeatmapRow, zone: Zone): Option<real>
  {
    match zone
    case SG => r.minutesSG
    case NZ => r.minutesNZ
  }

  function OrZero(v: Option<real>): real
  {
    match v
    case Some(x) => x
    case None => 0.0
  }

  /** A column's total with the `NaN` cells skipped. */
  function ColumnTotal(g: seq<HeatmapRow>, zone: Zone): real
  {
    if g == [] then 0.0 else ColumnTotal(g[..|g| - 1], zone) + OrZero(ZoneColumn(g[|g| - 1], zone))
  }

  /** Minutes of `c` that land in grid cell `i` (weekday i / 24, hour i % 24). */
  function CellShare(c: Contribution, i: int): real
  {
    if InCell(c, i / 24, i % 24) then c.minutes else 0.0
  }

  /** Minutes of `c` over grid cells 0 .. n - 1. */
  function ShareUpTo(c: Contribution, n: nat): real
  {
    if n == 0 then 0.0 else ShareUpTo(c, n - 1) + CellShare(c, n - 1)
  }

  /** Minutes of `cs` over grid cells 0 .. n - 1. */
  function CellsUpTo(cs: seq<Contribution>, n: nat): real
  {
    if n == 0 then 0.0 else CellsUpTo(cs, n - 1) + CellMinutes(cs, (n - 1) / 24, (n - 1) % 24)
  }

  lemma {:induction false} CellMinutesAbsent(cs: seq<Contribution>, d: int, h: int)
    requires forall i :: 0 <= i < |cs| ==> !InCell(cs[i], d, h)
    ensures CellMinutes(cs, d, h) == 0.0
  {
    if cs != [] {
      CellMinutesAbsent(cs[..|cs| - 1], d, h);
    }
  }

  lemma ExpectedCellOrZero(cs: seq<Contribution>, d: int, h: int)
    ensures OrZero(ExpectedCell(cs, d, h)) == CellMinutes(cs, d, h)
  {
    if !exists i :: 0 <= i < |cs| && InCell(cs[i], d, h) {
      CellMinutesAbsent(cs, d, h);
    }
  }

  /** A contribution falls in exactly one cell, number 24 * weekday + hour. */
  lemma {:induction false} ShareUpToOneCell(c: Contribution, n: nat)
    ensures ShareUpTo(c, n) == if 24 * Weekday(c.timeBucket) + Hour(c.timeBucket) < n then c.minutes else 0.0
  {
    if n > 0 {
      ShareUpToOneCell(c, n - 1);
      var w, h := Weekday(c.timeBucket), Hour(c.timeBucket);
      assert InCell(c, (n - 1) / 24, (n - 1) % 24) <==> n - 1 == 24 * w + h;
    }
  }

  lemma {:induction false} CellsUpToSnoc(cs: seq<Contribution>, n: nat)
    requires cs != []
    ensures CellsUpTo(cs, n) == CellsUpTo(cs[..|cs| - 1], n) + ShareUpTo(cs[|cs| - 1], n)
  {
    if n > 0 {
      CellsUpToSnoc(cs, n - 1);
    }
  }

  /** Summed over the whole grid, the cells give back every contribution's minutes. */
  lemma {:induction false} CellsUpToAll(cs: seq<Contribution>)
    ensures CellsUpTo(cs, 168) == TotalMinutes(cs)
  {
    if cs == [] {
      CellsUpToEmpty(168);
    } else {
      CellsUpToAll(cs[..|cs| - 1]);
      CellsUpToSnoc(cs, 168);
      ShareUpToOneCell(cs[|cs| - 1], 168);
    }
  }

  lemma {:induction false} CellsUpToEmpty(n: nat)
    ensures CellsUpTo([], n) == 0.0
  {
    if n > 0 {
      CellsUpToEmpty(n - 1);
    }
  }

  lemma {:induction false} ColumnTotalPrefix(g: seq<HeatmapRow>, cs: seq<Contribution>, zone: Zone, n: nat)
    requires n <= |g|
    requires forall i :: 0 <= i < n ==> OrZero(ZoneColumn(g[i], zone)) == CellMinutes(cs, i / 24, i % 24)
    ensures ColumnTotal(g[..n], zone) == CellsUpTo(cs, n)
  {
    if n > 0 {
      assert g[..n][..n - 1] == g[..n - 1];
      ColumnTotalPrefix(g, cs, zone, n - 1);
    }
  }

  /** Minute conservation in the aggregation: each zone's column of the grid totals
      exactly that zone's emitted minutes. */
  lemma GridConservesMinutes(sg: seq<Contribution>, nz: seq<Contribution>)
    requires sg != [] && nz != []
    ensures BuildGrid(sg, nz).Success?
    ensures ColumnTotal(BuildGrid(sg, nz).value, SG) == TotalMinutes(sg)
    ensures ColumnTotal(BuildGrid(sg, nz).value, NZ) == TotalMinutes(nz)
  {
    GridCells(sg, nz);
    var g := BuildGrid(sg, nz).value;
    forall i | 0 <= i < 168
      ensures OrZero(ZoneColumn(g[i], SG)) == CellMinutes(sg, i / 24, i % 24)
      ensures OrZero(ZoneColumn(g[i], NZ)) == CellMinutes(nz, i / 24, i % 24)
    {
      ExpectedCellOrZero(sg, i / 24, i % 24);
      ExpectedCellOrZero(nz, i / 24, i % 24);
    }
    assert g[..168] == g;
    ColumnTotalPrefix(g, sg, SG, 168);
    ColumnTotalPrefix(g, nz, NZ, 168);
    CellsUpToAll(sg);
    CellsUpToAll(nz);
  }

  /** Whole hours logged in one view over all calls. */
  function LoggedHours(rows: seq<CallRow>, zone: Zone): nat
  {
    if rows == [] then 0
    else
      var last := rows[|rows| - 1];
      LoggedHours(rows[..|rows| - 1], zone) + FullHours(CallStart(last, zone), CallEnd(last, zone))
  }

  lemma {:induction false} TotalMinutesConcat(a: seq<Contribution>, b: seq<Contribution>)
    ensures TotalMinutes(a + b) == TotalMinutes(a) + TotalMinutes(b)
  {
    if b == [] {
      assert a + b == a;
    } else {
      assert (a + b)[..|a + b| - 1] == a + b[..|b| - 1];
      TotalMinutesConcat(a, b[..|b| - 1]);
    }
  }

  lemma {:induction false} ZoneContributionsTotal(rows: seq<CallRow>, zone: Zone)
    ensures TotalMinutes(ZoneContributions(rows, zone)) == 60.0 * LoggedHours(rows, zone) as real
  {
    if rows != [] {
      var last := rows[|rows| - 1];
      ZoneContributionsTotal(rows[..|rows| - 1], zone);
      ZoneContributionsLast(rows, zone);
      SplitTotalMinutes(CallStart(last, zone), CallEnd(last, zone), zone);
      TotalMinutesConcat(ZoneContributions(rows[..|rows| - 1], zone), HourlySplit(CallStart(last, zone), CallEnd(last, zone), zone));
    }
  }

  /** Each column of a returned grid totals 60 minutes per whole hour logged in its view. */
  lemma TimeHeatmapTotals(rows: seq<CallRow>)
    requires TimeHeatmap(rows).Success?
    ensures ColumnTotal(TimeHeatmap(rows).value, SG) == 60.0 * LoggedHours(rows, SG) as real
    ensures ColumnTotal(TimeHeatmap(rows).value, NZ) == 60.0 * LoggedHours(rows, NZ) as real
  {
    GridConservesMinutes(ZoneContributions(rows, SG), ZoneContributions(rows, NZ));
    ZoneContributionsTotal(rows, SG);
    ZoneContributionsTotal(rows, NZ);
  }

  /** 2024-01-01 09:15, a Monday, in seconds since the epoch. */
  const MondayStart: int := 1704100500

  /** A two-hour call on Monday 2024-01-01 from 09:15 SG time, 14:15 NZ time. */
  function MondayCall(): seq<CallRow>
  {
    [CallRow(MondayStart, MondayStart + 7200, MondayStart + 18000, MondayStart + 25200)]
  }

  /** The call's four hourly buckets fall on Monday at 9, 10, 14 and 15 o'clock. */
  lemma MondayBuckets()
    ensures MondayStart == 19723 * SecondsPerDay + 9 * SecondsPerHour + 15 * SecondsPerMinute
    ensures Weekday(MondayStart) == 1 && Hour(MondayStart) == 9
    ensures Weekday(MondayStart + 3600) == 1 && Hour(MondayStart + 3600) == 10
    ensures Weekday(MondayStart + 18000) == 1 && Hour(MondayStart + 18000) == 14
    ensures Weekday(MondayStart + 21600) == 1 && Hour(MondayStart + 21600) == 15
  {
  }

  lemma MondayCallPieces()
    ensures ZoneContributions(MondayCall(), SG)
      == [Contribution(MondayStart, 60.0, SG), Contribution(MondayStart + 3600, 60.0, SG)]
    ensures ZoneContributions(MondayCall(), NZ)
      == [Contribution(MondayStart + 18000, 60.0, NZ), Contribution(MondayStart + 21600, 60.0, NZ)]
  {
    var s := MondayStart;
    var rows := MondayCall();
    assert rows[..0] == [];
    assert ZoneContributions(rows[..0], SG) == [] && ZoneContributions(rows[..0], NZ) == [];
    HourlySplitShape(s, s + 7200, SG);
    HourlySplitShape(s + 18000, s + 25200, NZ);
    assert FullHours(s, s + 7200) == 2 && FullHours(s + 18000, s + 25200) == 2;
  }

  lemma {:induction false} TwoPieceCell(c0: Contribution, c1: Contribution, d: int, h: int)
    ensures ExpectedCell([c0, c1], d, h) ==
      if InCell(c0, d, h) || InCell(c1, d, h)
      then Some((if InCell(c0, d, h) then c0.minutes else 0.0) + (if InCell(c1, d, h) then c1.minutes else 0.0))
      else None
  {
    var cs := [c0, c1];
    assert cs[..1] == [c0] && [c0][..0] == [];
    assert cs[0] == c0 && cs[1] == c1;
    assert CellMinutes([c0], d, h) == 0.0 + (if InCell(c0, d, h) then c0.minutes else 0.0);
  }

  /** The per-view cells the call reaches, and some it does not. */
  lemma MondayCells()
    ensures ExpectedCell(ZoneContributions(MondayCall(), SG), 1, 9) == Some(60.0)
    ensures ExpectedCell(ZoneContributions(MondayCall(), SG), 1, 10) == Some(60.0)
    ensures ExpectedCell(ZoneContributions(MondayCall(), SG), 1, 11) == None
    ensures ExpectedCell(ZoneContributions(MondayCall(), SG), 1, 14) == None
    ensures ExpectedCell(ZoneContributions(MondayCall(), NZ), 1, 9) == None
    ensures ExpectedCell(ZoneContributions(MondayCall(), NZ), 1, 10) == None
    ensures ExpectedCell(ZoneContributions(MondayCall(), NZ), 1, 11) == None
    ensures ExpectedCell(ZoneContributions(MondayCall(), NZ), 1, 14) == Some(60.0)
  {
    MondayCallPieces();
    MondayBuckets();
    var sg, nz := ZoneContributions(MondayCall(), SG), ZoneContributions(MondayCall(), NZ);
    TwoPieceCell(sg[0], sg[1], 1, 9);
    TwoPieceCell(sg[0], sg[1], 1, 10);
    TwoPieceCell(sg[0], sg[1], 1, 11);
    TwoPieceCell(sg[0], sg[1], 1, 14);
    TwoPieceCell(nz[0], nz[1], 1, 9);
    TwoPieceCell(nz[0], nz[1], 1, 10);
    TwoPieceCell(nz[0], nz[1], 1, 11);
    TwoPieceCell(nz[0], nz[1], 1, 14);
  }

  /** The call fills Monday 9:00 and 10:00 in SG and Monday 14:00 in NZ with 60 minutes
      each; Monday 11:00 stays empty in both views. */
  lemma MondayCallExample()
    ensures TimeHeatmap(MondayCall()).Success? && |TimeHeatmap(MondayCall()).value| == 168
    ensures TimeHeatmap(MondayCall()).value[33] == HeatmapRow(1, 9, Some(60.0), None)
    ensures TimeHeatmap(MondayCall()).value[34] == HeatmapRow(1, 10, Some(60.0), None)
    ensures TimeHeatmap(MondayCall()).value[35] == HeatmapRow(1, 11, None, None)
    ensures TimeHeatmap(MondayCall()).value[38] == HeatmapRow(1, 14, None, Some(60.0))
  {
    MondayCallPieces();
    MondayCells();
    TimeHeatmapCells(MondayCall());
  }
}
