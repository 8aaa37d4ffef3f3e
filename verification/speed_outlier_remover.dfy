/** Removal of points whose implied speed is implausible
    (utils/sanitizers/speedOutlierRemover.ts).

    The file's private haversine is the same formula as the shared one, so it
    is the `Metric` parameter `d` here as well; the square root of the
    variance is the parameter `sqrt`, of which the proofs use only that it
    is non-negative on non-negative input. Points are generic: `pos` reads the position and `stamp` the
    timestamp, which is `None` when the record has none (a route point). */
module SpeedOutlierRemover {
  import opened Wrappers
  import opened Seqs
  import opened GeoUtils

  /** The square root routine `Math.sqrt`. */
  type Sqrt = real -> real

  ghost predicate IsSqrt(sqrt: Sqrt) {
    forall x :: x >= 0.0 ==> sqrt(x) >= 0.0
  }

  /** An outlier threshold in metres per second; `Infinite` is JavaScript's `Infinity`. */
  datatype Threshold = Infinite | Finite(value: real)

  /** `speed > threshold`. */
  predicate Exceeds(speed: real, threshold: Threshold) {
    threshold.Finite? && speed > threshold.value
  }

  /** JavaScript truthiness of a timestamp: absent and zero are both false. */
  predicate HasTimestamp(stamp: Option<int>) {
    stamp.Some? && stamp.value != 0
  }

  /** `calculateSpeed`: zero when either timestamp is missing or the two
      coincide, otherwise distance over the absolute time difference. */
  function Speed<T>(pos: T -> Coord, stamp: T -> Option<int>, d: Metric, p: T, q: T): (r: real)
    ensures !HasTimestamp(stamp(p)) || !HasTimestamp(stamp(q)) ==> r == 0.0
    ensures HasTimestamp(stamp(p)) && HasTimestamp(stamp(q)) && stamp(p).value == stamp(q).value ==> r == 0.0
    ensures HasTimestamp(stamp(p)) && HasTimestamp(stamp(q)) && stamp(p).value != stamp(q).value ==>
      r * (AbsInt(stamp(q).value - stamp(p).value) as real) == Distance(d, pos(p), pos(q))
    ensures IsDistance(d) ==> r >= 0.0
  {
    if !HasTimestamp(stamp(p)) || !HasTimestamp(stamp(q)) then 0.0
    else
      var dt := AbsInt(stamp(q).value - stamp(p).value);
      if dt == 0 then 0.0 else Distance(d, pos(p), pos(q)) / (dt as real)
  }

  /** The speed from `points[i - 1]` to `points[i]`. */
  function StepSpeed<T>(points: seq<T>, pos: T -> Coord, stamp: T -> Option<int>, d: Metric, i: nat): real
    requires 0 < i < |points|
  {
    Speed(pos, stamp, d, points[i - 1], points[i])
  }

  /** The speed of every step of the track: entry `j` is the step into
      sample `j + 1`. */
  function StepSpeeds<T>(points: seq<T>, pos: T -> Coord, stamp: T -> Option<int>, d: Metric): (r: seq<real>)
    ensures |r| == if |points| < 2 then 0 else |points| - 1
    ensures forall j :: 0 <= j < |r| ==> r[j] == StepSpeed(points, pos, stamp, d, j + 1)
  {
    if |points| < 2 then []
    else seq(|points| - 1, j requires 0 <= j < |points| - 1 => StepSpeed(points, pos, stamp, d, j + 1))
  }

  /** `r` is the ordered selection of the positive entries of `speeds`:
      every one of them, in order, with its repetitions. */
  ghost predicate SelectsPositive(r: seq<real>, speeds: seq<real>) {
    exists idx :: (IsSelection(r, speeds, idx)
      && forall j :: 0 <= j < |speeds| ==> (j in idx <==> speeds[j] > 0.0))
  }

  /** The speeds loop of `calculateSpeedStats`: the strictly positive step
      speeds, in track order. */
  function PositiveSpeeds<T>(points: seq<T>, pos: T -> Coord, stamp: T -> Option<int>, d: Metric): (r: seq<real>)
    ensures SelectsPositive(r, StepSpeeds(points, pos, stamp, d))
    ensures forall k :: 0 <= k < |r| ==> r[k] > 0.0
    ensures forall i :: 0 < i < |points| && StepSpeed(points, pos, stamp, d, i) > 0.0 ==>
      StepSpeed(points, pos, stamp, d, i) in r
    ensures |r| <= |points|
    decreases |points|
  {
    if |points| < 2 then
      assert IsSelection([], StepSpeeds(points, pos, stamp, d), []);
      []
    else
      var front := points[..|points| - 1];
      var s := StepSpeed(points, pos, stamp, d, |points| - 1);
      var rest := PositiveSpeeds(front, pos, stamp, d);
      StepSpeedsSnoc(points, pos, stamp, d);
      PositiveSelectionStep(StepSpeeds(front, pos, stamp, d), s, rest);
      var r := rest + (if s > 0.0 then [s] else []);
      PositiveSelectionFacts(StepSpeeds(points, pos, stamp, d), r);
      forall i | 0 < i < |points| && StepSpeed(points, pos, stamp, d, i) > 0.0
        ensures StepSpeed(points, pos, stamp, d, i) in r
      {
        assert StepSpeeds(points, pos, stamp, d)[i - 1] == StepSpeed(points, pos, stamp, d, i);
      }
      r
  }

  /** The step speeds of a track are those of the track without its last
      sample, followed by the step into that sample. */
  lemma StepSpeedsSnoc<T>(points: seq<T>, pos: T -> Coord, stamp: T -> Option<int>, d: Metric)
    requires |points| >= 2
    ensures StepSpeeds(points, pos, stamp, d)
            == StepSpeeds(points[..|points| - 1], pos, stamp, d) + [StepSpeed(points, pos, stamp, d, |points| - 1)]
  {
    var front := points[..|points| - 1];
    var all, init := StepSpeeds(points, pos, stamp, d), StepSpeeds(front, pos, stamp, d);
    forall j | 0 <= j < |init| ensures init[j] == all[j] {
      assert StepSpeed(front, pos, stamp, d, j + 1) == StepSpeed(points, pos, stamp, d, j + 1);
    }
  }

  /** One turn of the speeds loop keeps the result the selection of the
      positive speeds. */
  lemma {:induction false} PositiveSelectionStep(speeds: seq<real>, s: real, rest: seq<real>)
    requires SelectsPositive(rest, speeds)
    ensures SelectsPositive(rest + (if s > 0.0 then [s] else []), speeds + [s])
  {
    var idx: seq<nat> :| IsSelection(rest, speeds, idx)
      && forall j :: 0 <= j < |speeds| ==> (j in idx <==> speeds[j] > 0.0);
    SelectionSnoc(rest, speeds, idx, s, s > 0.0);
    var idx2 := idx + (if s > 0.0 then [|speeds|] else []);
    forall j | 0 <= j < |speeds + [s]| ensures j in idx2 <==> (speeds + [s])[j] > 0.0 {
      if j < |speeds| {
        assert (speeds + [s])[j] == speeds[j];
      }
    }
    assert IsSelection(rest + (if s > 0.0 then [s] else []), speeds + [s], idx2);
  }

  /** The selection of the positive speeds holds only positive speeds, no
      more of them than there are steps. */
  lemma {:induction false} PositiveSelectionFacts(speeds: seq<real>, r: seq<real>)
    requires SelectsPositive(r, speeds)
    ensures forall k :: 0 <= k < |r| ==> r[k] > 0.0
    ensures forall j :: 0 <= j < |speeds| && speeds[j] > 0.0 ==> speeds[j] in r
    ensures |r| <= |speeds|
  {
    var idx: seq<nat> :| IsSelection(r, speeds, idx)
      && forall j :: 0 <= j < |speeds| ==> (j in idx <==> speeds[j] > 0.0);
    forall k | 0 <= k < |r| ensures r[k] > 0.0 {
      assert idx[k] in idx;
    }
    forall j | 0 <= j < |speeds| && speeds[j] > 0.0 ensures speeds[j] in r {
      var k :| 0 <= k < |idx| && idx[k] == j;
      assert r[k] == speeds[j];
    }
    IncreasingLength(idx, |speeds|);
  }

  /** The result of `calculateSpeedStats`. */
  datatype SpeedStats = SpeedStats(mean: real, stdDev: real, threshold: Threshold)

  function Deviations(s: seq<real>, mean: real): (r: seq<real>)
    ensures |r| == |s|
    ensures forall k :: 0 <= k < |s| ==> r[k] == (s[k] - mean) * (s[k] - mean)
  {
    seq(|s|, k requires 0 <= k < |s| => (s[k] - mean) * (s[k] - mean))
  }

  /** Population variance: the mean squared deviation from the mean. */
  function Variance(s: seq<real>): (v: real)
    requires |s| > 0
    ensures v >= 0.0
  {
    var devs := Deviations(s, Mean(s));
    forall k | 0 <= k < |devs| ensures 0.0 <= devs[k] {
      SquareNonNegative(s[k] - Mean(s));
    }
    NonNegativeSum(devs);
    Sum(devs) / (|s| as real)
  }

  lemma SquareNonNegative(x: real)
    ensures 0.0 <= x * x
  {
    if x < 0.0 {
      assert x * x == (-x) * (-x);
    }
  }

  /** `calculateSpeedStats`: no positive speed gives an infinite threshold;
      otherwise mean plus three population standard deviations, which is
      never below the (positive) mean. */
  function SpeedStatistics<T>(points: seq<T>, pos: T -> Coord, stamp: T -> Option<int>, d: Metric, sqrt: Sqrt): (r: SpeedStats)
    ensures PositiveSpeeds(points, pos, stamp, d) == [] <==> r.threshold == Infinite
    ensures r.threshold == Infinite ==> r.mean == 0.0 && r.stdDev == 0.0
    ensures r.threshold.Finite? ==> r.threshold.value == r.mean + 3.0 * r.stdDev
    ensures r.threshold.Finite? ==>
      && r.mean == Mean(PositiveSpeeds(points, pos, stamp, d))
      && r.stdDev == sqrt(Variance(PositiveSpeeds(points, pos, stamp, d)))
    ensures r.threshold.Finite? && IsSqrt(sqrt) ==> 0.0 < r.mean <= r.threshold.value && r.stdDev >= 0.0
  {
    var speeds := PositiveSpeeds(points, pos, stamp, d);
    if speeds == [] then SpeedStats(0.0, 0.0, Infinite)
    else
      var mean := Mean(speeds);
      MeanPositive(speeds);
      var stdDev := sqrt(Variance(speeds));
      SpeedStats(mean, stdDev, Finite(mean + 3.0 * stdDev))
  }

  lemma {:induction false} NonNegativeSum(s: seq<real>)
    requires forall k :: 0 <= k < |s| ==> 0.0 <= s[k]
    ensures 0.0 <= Sum(s)
  {
    if s != [] {
      NonNegativeSum(s[1..]);
    }
  }

  lemma {:induction false} MeanPositive(s: seq<real>)
    requires |s| > 0
    requires forall k :: 0 <= k < |s| ==> 0.0 < s[k]
    ensures 0.0 < Sum(s) / (|s| as real)
  {
    PositiveSum(s);
  }

  lemma {:induction false} PositiveSum(s: seq<real>)
    requires |s| > 0
    requires forall k :: 0 <= k < |s| ==> 0.0 < s[k]
    ensures 0.0 < Sum(s)
  {
    NonNegativeSum(s[1..]);
  }

  /** The loop's removal test for position `i`: the speed from the previous
      point or to the next one, both on the original sequence, exceeds the
      threshold; a boundary point checks only the side it has. */
  predicate IsOutlier<T>(points: seq<T>, pos: T -> Coord, stamp: T -> Option<int>, d: Metric,
                         threshold: Threshold, i: nat)
    requires i < |points|
  {
    || (i > 0 && HasTimestamp(stamp(points[i])) && HasTimestamp(stamp(points[i - 1]))
        && Exceeds(StepSpeed(points, pos, stamp, d, i), threshold))
    || (i + 1 < |points| && HasTimestamp(stamp(points[i])) && HasTimestamp(stamp(points[i + 1]))
        && Exceeds(StepSpeed(points, pos, stamp, d, i + 1), threshold))
  }

  /** The positions the filter keeps, as a total test on positions. */
  function Survives<T>(points: seq<T>, pos: T -> Coord, stamp: T -> Option<int>, d: Metric,
                       threshold: Threshold): nat -> bool
  {
    (j: nat) => j < |points| && !IsOutlier(points, pos, stamp, d, threshold, j)
  }

  /** `removeSpeedOutliers`: fewer than two points come back unchanged;
      otherwise the result keeps, in order, exactly the points that are not
      outliers against the computed threshold. */
  function RemoveSpeedOutliers<T>(points: seq<T>, pos: T -> Coord, stamp: T -> Option<int>, d: Metric, sqrt: Sqrt): (r: seq<T>)
    ensures |points| < 2 ==> r == points
    ensures |points| >= 2 ==>
      var threshold := SpeedStatistics(points, pos, stamp, d, sqrt).threshold;
      exists idx :: IsSelection(r, points, idx)
        && forall j :: 0 <= j < |points| ==> (j in idx <==> !IsOutlier(points, pos, stamp, d, threshold, j))
    ensures |r| <= |points|
  {
    if |points| < 2 then points
    else
      Filter(points, Survives(points, pos, stamp, d, SpeedStatistics(points, pos, stamp, d, sqrt).threshold))
  }

  /** Nothing is an outlier against an infinite threshold. */
  lemma NoOutlierBelowInfinity<T>(points: seq<T>, pos: T -> Coord, stamp: T -> Option<int>, d: Metric, i: nat)
    requires i < |points|
    ensures !IsOutlier(points, pos, stamp, d, Infinite, i)
  {
  }

  /** A track without a single positive step speed (no timestamps, or no
      movement) passes through unchanged. */
  lemma {:induction false} StationaryTrackUnchanged<T>(points: seq<T>, pos: T -> Coord, stamp: T -> Option<int>,
                                                      d: Metric, sqrt: Sqrt)
    requires PositiveSpeeds(points, pos, stamp, d) == []
    ensures RemoveSpeedOutliers(points, pos, stamp, d, sqrt) == points
  {
    if |points| >= 2 {
      var threshold := SpeedStatistics(points, pos, stamp, d, sqrt).threshold;
      assert threshold == Infinite;
      FilterAll(points, Survives(points, pos, stamp, d, threshold));
    }
  }
}
