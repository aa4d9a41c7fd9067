/** A rate as a step function of time: points in strictly ascending time order, searched by halving. */
module RateSeries {
  import opened Wrappers
  import opened Search

  datatype Point = Point(start: int, rate: real)

  datatype Series = Series(points: seq<Point>) {

    /** How many of `points[lo..hi]`, all of them on the near side of the answer, start by `time`. */
    function PartitionPoint(time: int, lo: nat, hi: nat): (r: nat)
      requires lo <= hi <= |points|
      ensures lo <= r <= hi
      decreases hi - lo
    {
      if lo == hi then lo
      else
        var mid := (lo + hi) / 2;
        if points[mid].start <= time then PartitionPoint(time, mid + 1, hi)
        else PartitionPoint(time, lo, mid)
    }

    /** The rate in effect at `time`. */
    function At(time: int): Option<real> {
      var after := PartitionPoint(time, 0, |points|);
      if after == 0 then None else Some(points[after - 1].rate)
    }
  }

  datatype Unsorted = Unsorted(index: int, previous: int, time: int)

  /** Point `i` takes effect after the one before it. */
  predicate Follows(points: seq<Point>, i: int)
    requires 0 < i < |points|
  {
    points[i - 1].start < points[i].start
  }

  /** Whether the second point of the pair at `index` fails to follow the first. */
  function OutOfOrder(points: seq<Point>): int -> bool {
    index => 0 <= index < |points| - 1 && !Follows(points, index + 1)
  }

  function New(points: seq<Point>): Result<Series, Unsorted> {
    match First(OutOfOrder(points), 0, |points| - 1)
    case Some(i) => Err(Unsorted(i + 1, points[i].start, points[i + 1].start))
    case None => Ok(Series(points))
  }

  ghost predicate AscendingUpTo(points: seq<Point>, n: int) {
    n <= |points| && forall i, j :: 0 <= i < j < n ==> points[i].start < points[j].start
  }

  ghost predicate Ascending(points: seq<Point>) {
    AscendingUpTo(points, |points|)
  }

  /** Exactly the strictly ascending points are accepted; else the first offender is reported. */
  lemma NewAcceptsTheAscending(points: seq<Point>)
    ensures New(points).Ok? <==> Ascending(points)
    ensures New(points).Ok? ==> New(points).value.points == points
    ensures New(points).Err? ==>
              var e := New(points).error;
              && 0 < e.index < |points|
              && e.previous == points[e.index - 1].start && e.time == points[e.index].start
              && e.time <= e.previous
              && AscendingUpTo(points, e.index)
  {
    var found := First(OutOfOrder(points), 0, |points| - 1);
    var sorted := if found.Some? then found.value + 1 else |points|;
    forall i | 0 < i < sorted
      ensures Follows(points, i)
    {
      assert !OutOfOrder(points)(i - 1);
    }
    StepsAscend(points, sorted);
    if found.Some? {
      assert OutOfOrder(points)(found.value);
    }
  }

  lemma {:induction false} StepsAscend(points: seq<Point>, n: nat)
    requires n <= |points|
    requires forall i :: 0 < i < n ==> Follows(points, i)
    ensures AscendingUpTo(points, n)
  {
    if n > 1 {
      StepsAscend(points, n - 1);
      assert Follows(points, n - 1);
    }
  }

  /** The plain scan: the last point starting at or before `time`. */
  function Scan(points: seq<Point>, time: int): Option<real> {
    if points == [] then None
    else
      var last := points[|points| - 1];
      if last.start <= time then Some(last.rate) else Scan(points[..|points| - 1], time)
  }

  /** The points before `lo` start by `time`, and those from `hi` on later. */
  ghost predicate Splits(points: seq<Point>, time: int, lo: int, hi: int) {
    && (forall i :: 0 <= i < |points| && i < lo ==> points[i].start <= time)
    && (forall i :: 0 <= i < |points| && hi <= i ==> time < points[i].start)
  }

  lemma {:induction false} PartitionPointSplits(s: Series, time: int, lo: nat, hi: nat)
    requires lo <= hi <= |s.points| && Ascending(s.points)
    requires Splits(s.points, time, lo, hi)
    ensures var r := s.PartitionPoint(time, lo, hi); Splits(s.points, time, r, r)
    decreases hi - lo
  {
    if lo < hi {
      var mid := (lo + hi) / 2;
      HalvesSplit(s.points, time, lo, hi, mid);
      if s.points[mid].start <= time {
        PartitionPointSplits(s, time, mid + 1, hi);
      } else {
        PartitionPointSplits(s, time, lo, mid);
      }
    }
  }

  lemma HalvesSplit(points: seq<Point>, time: int, lo: nat, hi: nat, mid: nat)
    requires lo <= mid < hi <= |points| && Ascending(points) && Splits(points, time, lo, hi)
    ensures points[mid].start <= time ==> Splits(points, time, mid + 1, hi)
    ensures points[mid].start > time ==> Splits(points, time, lo, mid)
  {
    forall i | 0 <= i < |points|
      ensures i < mid ==> points[i].start < points[mid].start
      ensures mid < i ==> points[mid].start < points[i].start
    {
    }
  }

  lemma {:induction false} ScanStopsAt(points: seq<Point>, time: int, r: nat)
    requires r <= |points|
    requires r > 0 ==> points[r - 1].start <= time
    requires forall i :: r <= i < |points| ==> time < points[i].start
    ensures Scan(points, time) == if r == 0 then None else Some(points[r - 1].rate)
  {
    if |points| > r {
      ScanStopsAt(points[..|points| - 1], time, r);
    }
  }

  /** On every series that can be built, halving finds what a scan of all the points finds. */
  lemma AtIsTheScan(s: Series, time: int)
    requires Ascending(s.points)
    ensures s.At(time) == Scan(s.points, time)
  {
    PartitionPointSplits(s, time, 0, |s.points|);
    ScanStopsAt(s.points, time, s.PartitionPoint(time, 0, |s.points|));
  }

  /** Each rate applies from its own instant until the next point's, and none before the first. */
  lemma EachRateAppliesUntilTheNext(s: Series, time: int, i: int)
    requires Ascending(s.points)
    requires -1 <= i < |s.points|
    requires i >= 0 ==> s.points[i].start <= time
    requires i + 1 < |s.points| ==> time < s.points[i + 1].start
    ensures s.At(time) == if i < 0 then None else Some(s.points[i].rate)
  {
    PartitionPointSplits(s, time, 0, |s.points|);
    var r := s.PartitionPoint(time, 0, |s.points|);
    assert r > 0 ==> s.points[r - 1].start <= time;
  }
}
