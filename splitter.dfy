/** `split_call_by_hour`: spread one call over the hourly grid that
    `pd.date_range(start, end, freq='h')` builds. The grid is NOT snapped to
    the clock hour: it is start, start + 1h, start + 2h, ... up to end, so
    every emitted piece is a full hour that begins at start + i hours, and
    whatever is left after the last full hour is dropped. */
module Splitter {
  import opened Clock

  /** The two time-zone views of a call (the `time_zone` tag). */
  datatype Zone = SG | NZ

  /** One `{time_bucket, minutes, time_zone}` record. */
  datatype Contribution = Contribution(timeBucket: int, minutes: real, timeZone: Zone)

  function Max(a: int, b: int): int { if a < b then b else a }
  function Min(a: int, b: int): int { if a < b then a else b }

  /** `pd.date_range(start, end, freq='h')`: every start + k hours that is at most end. */
  function DateRange(start: int, end: int): (r: seq<int>)
    ensures forall k :: 0 <= k < |r| ==> r[k] == start + k * SecondsPerHour && r[k] <= end
    ensures start + |r| * SecondsPerHour > end
  {
    var n := if start <= end then (end - start) / SecondsPerHour + 1 else 0;
    seq(n, k => start + k * SecondsPerHour)
  }

  /** What the loop has appended to `split_minutes` after visiting the first
      `n` pairs of neighbouring grid points. */
  function PiecesUpTo(grid: seq<int>, start: int, end: int, zone: Zone, n: nat): seq<Contribution>
    requires n == 0 || n < |grid|
  {
    if n == 0 then []
    else
      var startInHour := Max(start, grid[n - 1]);
      var endInHour := Min(end, grid[n]);
      var minutes := (endInHour - startInHour) as real / SecondsPerMinute as real;
      PiecesUpTo(grid, start, end, zone, n - 1)
        + (if minutes > 0.0 then [Contribution(startInHour, minutes, zone)] else [])
  }

  /** Number of neighbouring pairs the loop visits: `range(len(time_range) - 1)`. */
  function PairCount(grid: seq<int>): nat
  {
    if |grid| == 0 then 0 else |grid| - 1
  }

  /** The list `split_call_by_hour(start, end, zone)` returns, as written. */
  function HourlySplit(start: int, end: int, zone: Zone): seq<Contribution>
  {
    var grid := DateRange(start, end);
    PiecesUpTo(grid, start, end, zone, PairCount(grid))
  }

  /** Whole hours from start to end; zero when end is not after start. */
  function FullHours(start: int, end: int): nat
  {
    if start <= end then (end - start) / SecondsPerHour else 0
  }

  /** Sum of the `minutes` of a list of contributions. */
  function TotalMinutes(cs: seq<Contribution>): real
  {
    if cs == [] then 0.0 else TotalMinutes(cs[..|cs| - 1]) + cs[|cs| - 1].minutes
  }

  /** The loop of `split_call_by_hour`. */
  method SplitCallByHour(start: int, end: int, zone: Zone) returns (splitMinutes: seq<Contribution>)
    ensures splitMinutes == HourlySplit(start, end, zone)
  {
    var timeRange := DateRange(start, end);
    splitMinutes := [];
    var i := 0;
    while i < |timeRange| - 1
      invariant 0 <= i <= PairCount(timeRange)
      invariant splitMinutes == PiecesUpTo(timeRange, start, end, zone, i)
    {
      var startInterval := timeRange[i];
      var endInterval := timeRange[i + 1];
      var startInThisHour := Max(start, startInterval);
      var endInThisHour := Min(end, endInterval);
      var minutesInThisHour := (endInThisHour - startInThisHour) as real / SecondsPerMinute as real;
      if minutesInThisHour > 0.0 {
        splitMinutes := splitMinutes + [Contribution(startInThisHour, minutesInThisHour, zone)];
      }
      i := i + 1;
    }
  }

  /** Every visited pair lies inside [start, end], so each overlap is the full hour
      from the left grid point to the right one. */
  lemma {:induction false} PiecesUpToShape(start: int, end: int, zone: Zone, n: nat)
    requires n == 0 || n < |DateRange(start, end)|
    ensures |PiecesUpTo(DateRange(start, end), start, end, zone, n)| == n
    ensures forall i :: 0 <= i < n ==>
      PiecesUpTo(DateRange(start, end), start, end, zone, n)[i]
        == Contribution(start + i * SecondsPerHour, 60.0, zone)
  {
    if n > 0 {
      var grid := DateRange(start, end);
      PiecesUpToShape(start, end, zone, n - 1);
      assert grid[n - 1] == start + (n - 1) * SecondsPerHour;
      assert grid[n] == grid[n - 1] + SecondsPerHour;
      assert Max(start, grid[n - 1]) == grid[n - 1];
      assert Min(end, grid[n]) == grid[n];
    }
  }

  /** The closed form of the split: `FullHours` pieces, the i-th a 60-minute
      piece at start + i hours tagged with the zone it was given. */
  lemma HourlySplitShape(start: int, end: int, zone: Zone)
    ensures |HourlySplit(start, end, zone)| == FullHours(start, end)
    ensures forall i :: 0 <= i < |HourlySplit(start, end, zone)| ==>
      HourlySplit(start, end, zone)[i] == Contribution(start + i * SecondsPerHour, 60.0, zone)
  {
    var grid := DateRange(start, end);
    PiecesUpToShape(start, end, zone, PairCount(grid));
  }

  /** Every piece is exactly 60 minutes and carries the zone argument unchanged. */
  lemma SplitPiecesAreFullHours(start: int, end: int, zone: Zone)
    ensures forall c :: c in HourlySplit(start, end, zone) ==> c.minutes == 60.0 && c.timeZone == zone
  {
    HourlySplitShape(start, end, zone);
  }

  /** A call shorter than one hour, a zero-length call and a call that ends
      before it starts all yield nothing; there is no guard against the last. */
  lemma ShortCallsVanish(start: int, end: int, zone: Zone)
    ensures HourlySplit(start, end, zone) == [] <==> end - start < SecondsPerHour
  {
    HourlySplitShape(start, end, zone);
  }

  /** Buckets start at the call's start and are spaced by exactly one hour,
      so they are strictly increasing (and not aligned to the clock hour). */
  lemma SplitBucketsSpaced(start: int, end: int, zone: Zone)
    ensures HourlySplit(start, end, zone) != [] ==> HourlySplit(start, end, zone)[0].timeBucket == start
    ensures forall i :: 0 <= i < |HourlySplit(start, end, zone)| - 1 ==>
      HourlySplit(start, end, zone)[i + 1].timeBucket == HourlySplit(start, end, zone)[i].timeBucket + SecondsPerHour
    ensures forall i, j :: 0 <= i < j < |HourlySplit(start, end, zone)| ==>
      HourlySplit(start, end, zone)[i].timeBucket < HourlySplit(start, end, zone)[j].timeBucket
  {
    HourlySplitShape(start, end, zone);
  }

  lemma {:induction false} TotalOfFullHours(cs: seq<Contribution>)
    requires forall c :: c in cs ==> c.minutes == 60.0
    ensures TotalMinutes(cs) == 60.0 * |cs| as real
  {
    if cs != [] {
      assert forall c :: c in cs[..|cs| - 1] ==> c in cs;
      TotalOfFullHours(cs[..|cs| - 1]);
      assert cs[|cs| - 1] in cs;
    }
  }

  /** Emitted minutes total 60 per whole hour: never more than the call's
      duration, short of it by less than 60 minutes, and equal to it exactly
      when the duration is a whole number of hours. */
  lemma SplitTotalMinutes(start: int, end: int, zone: Zone)
    ensures TotalMinutes(HourlySplit(start, end, zone)) == 60.0 * FullHours(start, end) as real
    ensures start <= end ==>
      var duration := (end - start) as real / 60.0;
      && TotalMinutes(HourlySplit(start, end, zone)) <= duration
      && duration - TotalMinutes(HourlySplit(start, end, zone)) < 60.0
      && (TotalMinutes(HourlySplit(start, end, zone)) == duration <==> (end - start) % SecondsPerHour == 0)
  {
    SplitPiecesAreFullHours(start, end, zone);
    HourlySplitShape(start, end, zone);
    TotalOfFullHours(HourlySplit(start, end, zone));
    if start <= end {
      var q, r := (end - start) / SecondsPerHour, (end - start) % SecondsPerHour;
      assert end - start == 3600 * q + r && 0 <= r < 3600;
      assert (end - start) as real == 3600.0 * q as real + r as real;
      assert (end - start) as real / 60.0 == 60.0 * q as real + r as real / 60.0;
    }
  }

  /** The worked cases: 10:00-11:00 gives one piece at 10:00; 10:30-12:15
      gives a single 60-minute piece at 10:30 (not 30 + 60 + 15 at 10:00,
      11:00, 12:00); 09:15-09:45 gives nothing. `day` is any midnight. */
  lemma SplitExamples(day: int, zone: Zone)
    ensures HourlySplit(day + 36000, day + 39600, zone) == [Contribution(day + 36000, 60.0, zone)]
    ensures HourlySplit(day + 37800, day + 44100, zone) == [Contribution(day + 37800, 60.0, zone)]
    ensures HourlySplit(day + 33300, day + 35100, zone) == []
  {
    HourlySplitShape(day + 36000, day + 39600, zone);
    HourlySplitShape(day + 37800, day + 44100, zone);
    HourlySplitShape(day + 33300, day + 35100, zone);
  }
}
