/** Candidate generation of the investigation-point selector
    (utils/converter/investigationPoints/tripToInvestigationPoints.ts): every
    rule that proposes a sample, with the score the rule gives it. */
module InvestigationCandidates {
  import opened Wrappers
  import opened Seqs
  import opened RideTypes
  import opened GeoUtils
  import opened SignificantLocations

  // Scores: meaningful places score high, mechanical subdivisions low.
  const ScoreStartEnd: int := 100
  const ScoreStationary: int := 80
  const ScoreExtreme: int := 70
  const ScoreElevationPeak: int := 60
  const ScoreCourseDivision: int := 20
  const ScoreTimeInterval: int := 10
  const ScoreDistanceInterval: int := 10

  const ElevationDiffThreshold: real := 50.0   // metres
  const ElevationRange: real := 1000.0         // metres
  const TimeIntervalSeconds: int := 1800       // 30 minutes
  const TimeTolerance: int := 30               // seconds
  const DefaultMaxPoints: int := 50

  /** A sample together with its investigation priority. */
  datatype ScoredPoint = ScoredPoint(point: TrackPoint, score: int)

  /** `stationaryDetection` of the options. */
  datatype StationarySettings = StationarySettings(minDuration: Option<int>, maxDistance: Option<real>)

  /** `InvestigationPointsOptions`; absent options are all-`None`. */
  datatype InvestigationPointsOptions = InvestigationPointsOptions(
    maxPoints: Option<int>,
    stationaryDetection: Option<StationarySettings>)

  /** `value || fallback` for a number: absent and zero both give the fallback. */
  function OrInt(value: Option<int>, fallback: int): (r: int)
    ensures value.Some? && value.value != 0 ==> r == value.value
    ensures value.None? || value.value == 0 ==> r == fallback
  {
    if value.Some? && value.value != 0 then value.value else fallback
  }

  function OrReal(value: Option<real>, fallback: real): (r: real)
    ensures value.Some? && value.value != 0.0 ==> r == value.value
    ensures value.None? || value.value == 0.0 ==> r == fallback
  {
    if value.Some? && value.value != 0.0 then value.value else fallback
  }

  function MaxPoints(options: InvestigationPointsOptions): int {
    OrInt(options.maxPoints, DefaultMaxPoints)
  }

  function MinDuration(options: InvestigationPointsOptions): int {
    OrInt(if options.stationaryDetection.Some? then options.stationaryDetection.value.minDuration else None,
          TimeIntervalSeconds)
  }

  function MaxDistance(options: InvestigationPointsOptions): real {
    OrReal(if options.stationaryDetection.Some? then options.stationaryDetection.value.maxDistance else None,
           DefaultMaxDistance)
  }

  /** Every sample of `ps` with the same score. */
  function WithScore(ps: seq<TrackPoint>, score: int): (r: seq<ScoredPoint>)
    ensures |r| == |ps|
    ensures forall k :: 0 <= k < |ps| ==> r[k] == ScoredPoint(ps[k], score)
  {
    seq(|ps|, k requires 0 <= k < |ps| => ScoredPoint(ps[k], score))
  }

  // ---------------------------------------------------------------- start, end

  /** The first sample, and the last one when there are two or more samples. */
  function StartEndCandidates(points: seq<TrackPoint>): (r: seq<ScoredPoint>)
    requires |points| > 0
    ensures |r| == (if |points| > 1 then 2 else 1)
    ensures r[0] == ScoredPoint(points[0], ScoreStartEnd)
    ensures |points| > 1 ==> r[1] == ScoredPoint(points[|points| - 1], ScoreStartEnd)
  {
    [ScoredPoint(points[0], ScoreStartEnd)]
      + (if |points| > 1 then [ScoredPoint(points[|points| - 1], ScoreStartEnd)] else [])
  }

  // ---------------------------------------------------------------- long stays

  function StationaryCandidates(points: seq<TrackPoint>, d: Metric, options: InvestigationPointsOptions)
    : (r: seq<ScoredPoint>)
    ensures var locs := GetSignificantLocations(points, d, Some(MinDuration(options)), Some(MaxDistance(options)));
      |r| == |locs| && forall k :: 0 <= k < |r| ==> r[k] == ScoredPoint(locs[k], ScoreStationary)
  {
    WithScore(GetSignificantLocations(points, d, Some(MinDuration(options)), Some(MaxDistance(options))),
              ScoreStationary)
  }

  // ---------------------------------------------------------------- elevation peaks

  /** Another sample within `ElevationRange` of sample `i`. */
  predicate Nearby(points: seq<TrackPoint>, d: Metric, i: nat, j: nat)
    requires i < |points| && j < |points|
  {
    j != i && PointDistance(d, points[i], points[j]) <= ElevationRange
  }

  /** Sample `i` is a peak: no nearby sample is higher, and some nearby sample
      lies at least `ElevationDiffThreshold` below it. */
  ghost predicate IsElevationPeak(points: seq<TrackPoint>, d: Metric, i: nat)
    requires i < |points|
  {
    && (forall j :: 0 <= j < |points| && Nearby(points, d, i, j) ==> points[j].elevation <= points[i].elevation)
    && (exists j :: 0 <= j < |points| && Nearby(points, d, i, j)
                    && points[i].elevation - points[j].elevation >= ElevationDiffThreshold)
  }

  /** The state of the inner loop over `j`: least and greatest elevation seen
      so far, and whether sample `i` is still the highest. */
  datatype PeakState = PeakState(low: real, high: real, highest: bool)

  /** The inner loop from `j` on, as written: nearby samples lower `low`,
      raise `high`, and clear `highest` when strictly higher than sample `i`. */
  function PeakScan(points: seq<TrackPoint>, d: Metric, i: nat, j: nat, st: PeakState): (r: PeakState)
    requires i < |points| && j <= |points|
    ensures r.highest <==> (st.highest
      && forall k :: j <= k < |points| && Nearby(points, d, i, k) ==> points[k].elevation <= points[i].elevation)
    ensures r.low <= st.low && st.high <= r.high
    ensures forall k :: j <= k < |points| && Nearby(points, d, i, k) ==>
      r.low <= points[k].elevation <= r.high
    ensures r.low == st.low || exists k :: j <= k < |points| && Nearby(points, d, i, k) && r.low == points[k].elevation
    ensures r.high == st.high || exists k :: j <= k < |points| && Nearby(points, d, i, k) && r.high == points[k].elevation
    decreases |points| - j
  {
    if j == |points| then st
    else if !Nearby(points, d, i, j) then PeakScan(points, d, i, j + 1, st)
    else
      var e := points[j].elevation;
      PeakScan(points, d, i, j + 1,
               PeakState(if e < st.low then e else st.low,
                         if e > st.high then e else st.high,
                         st.highest && !(e > points[i].elevation)))
  }

  /** The outer loop's test for sample `i`. */
  predicate PeakTest(points: seq<TrackPoint>, d: Metric, i: nat)
    requires i < |points|
  {
    var e := points[i].elevation;
    var st := PeakScan(points, d, i, 0, PeakState(e, e, true));
    st.highest && st.high - st.low >= ElevationDiffThreshold
  }

  /** The running minimum/maximum test is exactly the peak condition. */
  lemma {:induction false} PeakTestIsPeak(points: seq<TrackPoint>, d: Metric, i: nat)
    requires i < |points|
    ensures PeakTest(points, d, i) <==> IsElevationPeak(points, d, i)
  {
    var e := points[i].elevation;
    var st := PeakScan(points, d, i, 0, PeakState(e, e, true));
    if st.highest {
      assert st.high == e;
      if st.low != e {
        var k :| 0 <= k < |points| && Nearby(points, d, i, k) && st.low == points[k].elevation;
        assert e - points[k].elevation == st.high - st.low;
      }
    }
  }

  function PeakCandidates(points: seq<TrackPoint>, d: Metric): (r: seq<ScoredPoint>)
    ensures exists idx :: (IsSelection(r, WithScore(points, ScoreElevationPeak), idx)
      && forall j :: 0 <= j < |points| ==> (j in idx <==> IsElevationPeak(points, d, j)))
  {
    var keep := (j: nat) => j < |points| && PeakTest(points, d, j);
    forall j | 0 <= j < |points| ensures keep(j) <==> IsElevationPeak(points, d, j) {
      PeakTestIsPeak(points, d, j);
    }
    Filter(WithScore(points, ScoreElevationPeak), keep)
  }

  // ---------------------------------------------------------------- course division

  /** `Math.floor((n - 1) * (k / 10))`, computed exactly. */
  function CourseIndex(n: nat, k: nat): (idx: nat)
    requires n >= 1 && 1 <= k <= 10
    ensures idx <= n - 1
    ensures k == 10 ==> idx == n - 1
    ensures 10 * idx <= (n - 1) * k < 10 * idx + 10
  {
    ((n - 1) * k) / 10
  }

  /** Ten evenly spaced samples, only for tracks of at least ten samples. */
  function CourseCandidates(points: seq<TrackPoint>): (r: seq<ScoredPoint>)
    ensures |points| < 10 ==> r == []
    ensures |points| >= 10 ==> (|r| == 10
      && forall k :: 0 <= k < 10 ==> r[k] == ScoredPoint(points[CourseIndex(|points|, k + 1)], ScoreCourseDivision))
    ensures |points| >= 10 ==> r[9].point == points[|points| - 1]
  {
    if |points| < 10 then []
    else seq(10, k requires 0 <= k < 10 => ScoredPoint(points[CourseIndex(|points|, k + 1)], ScoreCourseDivision))
  }

  // ---------------------------------------------------------------- extremes

  /** North, south, east and west, in that order: the earliest sample with
      the greatest or least latitude or longitude. */
  function ExtremeCandidates(points: seq<TrackPoint>): (r: seq<ScoredPoint>)
    requires |points| > 0
    ensures |r| == 4
    ensures forall k :: 0 <= k < 4 ==> r[k].score == ScoreExtreme
    ensures exists i: nat :: FirstArgMax(Latitudes(points), i) && r[0].point == points[i]
    ensures exists i: nat :: FirstArgMin(Latitudes(points), i) && r[1].point == points[i]
    ensures exists i: nat :: FirstArgMax(Longitudes(points), i) && r[2].point == points[i]
    ensures exists i: nat :: FirstArgMin(Longitudes(points), i) && r[3].point == points[i]
  {
    var n, s := MaxIndex(Latitudes(points)), MinIndex(Latitudes(points));
    var e, w := MaxIndex(Longitudes(points)), MinIndex(Longitudes(points));
    [ScoredPoint(points[n], ScoreExtreme), ScoredPoint(points[s], ScoreExtreme),
     ScoredPoint(points[e], ScoreExtreme), ScoredPoint(points[w], ScoreExtreme)]
  }

  // ---------------------------------------------------------------- time marks

  /** Elapsed time since the start is positive and at most `TimeTolerance`
      seconds past a multiple of half an hour. */
  predicate OnTimeMark(start: int, t: int) {
    t - start > 0 && (t - start) % TimeIntervalSeconds <= TimeTolerance
  }

  /** The tolerance is one-sided: shortly after a half-hour mark qualifies,
      shortly before it does not. */
  lemma TimeMarkOneSided(start: int)
    ensures OnTimeMark(start, start + 1810)
    ensures !OnTimeMark(start, start + 1790)
  {
  }

  function TimeCandidates(points: seq<TrackPoint>): (r: seq<ScoredPoint>)
    requires |points| > 0
    ensures exists idx :: (IsSelection(r, WithScore(points, ScoreTimeInterval), idx)
      && forall j :: 0 <= j < |points| ==> (j in idx <==> OnTimeMark(points[0].timestamp, points[j].timestamp)))
  {
    Filter(WithScore(points, ScoreTimeInterval),
           (j: nat) => j < |points| && OnTimeMark(points[0].timestamp, points[j].timestamp))
  }

  // ---------------------------------------------------------------- distance marks

  /** Distance travelled from the first sample to sample `i` along the track. */
  function Travelled(points: seq<TrackPoint>, d: Metric, i: nat): real
    requires i < |points|
  {
    if i == 0 then 0.0 else Travelled(points, d, i - 1) + PointDistance(d, points[i - 1], points[i])
  }

  /** The number of whole 5 km intervals in `x` metres. The interval is
      written as the literal 5000.0 here and below, which keeps the solver's
      arithmetic linear. */
  function Intervals(x: real): int {
    (x / 5000.0).Floor
  }

  /** The distance loop from sample `i` on, as written: the running total
      `total` and the last marked multiple `lastMarked` of the interval. */
  function DistanceMarks(points: seq<TrackPoint>, d: Metric, i: nat, total: real, lastMarked: real): (r: seq<nat>)
    requires 1 <= i <= |points|
    ensures forall k :: 0 <= k < |r| ==> i <= r[k] < |points|
    ensures Increasing(r)
    decreases |points| - i
  {
    if i == |points| then []
    else
      var t := total + PointDistance(d, points[i - 1], points[i]);
      if t - lastMarked >= 5000.0 then
        [i] + DistanceMarks(points, d, i + 1, t, (Intervals(t) as real) * 5000.0)
      else DistanceMarks(points, d, i + 1, t, lastMarked)
  }

  /** Sample `i` is where the running distance passes a new multiple of the interval. */
  predicate CrossesInterval(points: seq<TrackPoint>, d: Metric, i: nat)
    requires 0 < i < |points|
  {
    Intervals(Travelled(points, d, i)) > Intervals(Travelled(points, d, i - 1))
  }

  /** The distance loop as it stands after sample `i`: the running total is
      the distance travelled to `i`, and the last marked multiple is the
      latest one already passed. */
  function MarksAfter(points: seq<TrackPoint>, d: Metric, i: nat): (r: seq<nat>)
    requires i < |points|
    ensures forall k :: 0 <= k < |r| ==> i < r[k] < |points|
  {
    DistanceMarks(points, d, i + 1, Travelled(points, d, i), (Intervals(Travelled(points, d, i)) as real) * 5000.0)
  }

  /** With non-negative distances, the last mark is always the latest
      multiple already passed, so the loop marks exactly the crossings. */
  lemma {:induction false} DistanceMarksAreCrossings(points: seq<TrackPoint>, d: Metric, i: nat)
    requires IsDistance(d)
    requires i < |points|
    ensures forall j :: i < j < |points| ==> (j in MarksAfter(points, d, i) <==> CrossesInterval(points, d, j))
    decreases |points| - i
  {
    if i + 1 < |points| {
      MarksStep(points, d, i);
      DistanceMarksAreCrossings(points, d, i + 1);
      PrependCrossing(points, d, MarksAfter(points, d, i), MarksAfter(points, d, i + 1), i + 1);
    }
  }

  /** If `rest` holds exactly the crossings after `i`, all above `i`, then
      prefixing `i` when it is a crossing gives exactly the crossings from `i` on. */
  lemma PrependCrossing(points: seq<TrackPoint>, d: Metric, r: seq<nat>, rest: seq<nat>, i: nat)
    requires 1 <= i < |points|
    requires r == (if CrossesInterval(points, d, i) then [i] else []) + rest
    requires forall k :: 0 <= k < |rest| ==> i < rest[k]
    requires forall j :: i < j < |points| ==> (j in rest <==> CrossesInterval(points, d, j))
    ensures forall j :: i <= j < |points| ==> (j in r <==> CrossesInterval(points, d, j))
  {
    assert i !in rest;
  }

  /** One turn of the distance loop: sample `i + 1` is marked exactly when
      it crosses a new multiple, and the loop goes on with the new total. */
  lemma MarksStep(points: seq<TrackPoint>, d: Metric, i: nat)
    requires IsDistance(d)
    requires i + 1 < |points|
    ensures MarksAfter(points, d, i)
            == (if CrossesInterval(points, d, i + 1) then [i + 1] else []) + MarksAfter(points, d, i + 1)
  {
    var before := Travelled(points, d, i);
    var t := Travelled(points, d, i + 1);
    assert t == before + PointDistance(d, points[i], points[i + 1]);
    assert t >= before;
    CrossingStep(before, t);
    var rest := DistanceMarks(points, d, i + 2, t, (Intervals(t) as real) * 5000.0);
    assert MarksAfter(points, d, i + 1) == rest;
    assert MarksAfter(points, d, i) == DistanceMarks(points, d, i + 1, before, (Intervals(before) as real) * 5000.0);
    if !CrossesInterval(points, d, i + 1) {
      assert Intervals(t) == Intervals(before);
      assert [] + rest == rest;
    }
  }

  /** For a non-decreasing total, the loop's test `t - lastMarked >= 5000`
      with `lastMarked` the latest multiple below `before` is the crossing test. */
  lemma CrossingStep(before: real, t: real)
    requires before <= t
    ensures t - (Intervals(before) as real) * 5000.0 >= 5000.0
            <==> Intervals(t) > Intervals(before)
  {
  }

  function DistanceCandidates(points: seq<TrackPoint>, d: Metric): (r: seq<ScoredPoint>)
    ensures |points| <= 1 ==> r == []
    ensures |points| > 1 ==>
      var marks := DistanceMarks(points, d, 1, 0.0, 0.0);
      |r| == |marks| && forall k :: 0 <= k < |r| ==> r[k] == ScoredPoint(points[marks[k]], ScoreDistanceInterval)
  {
    if |points| <= 1 then []
    else
      var marks := DistanceMarks(points, d, 1, 0.0, 0.0);
      seq(|marks|, k requires 0 <= k < |marks| => ScoredPoint(points[marks[k]], ScoreDistanceInterval))
  }

  /** Distance marks sit exactly at the samples where the distance
      travelled passes a new multiple of five kilometres. */
  lemma DistanceCandidatesAtCrossings(points: seq<TrackPoint>, d: Metric, j: nat)
    requires IsDistance(d)
    requires 0 < j < |points|
    ensures j in DistanceMarks(points, d, 1, 0.0, 0.0) <==> CrossesInterval(points, d, j)
  {
    assert Travelled(points, d, 0) == 0.0;
    assert Intervals(0.0) == 0;
    DistanceMarksAreCrossings(points, d, 0);
  }

  // ---------------------------------------------------------------- all candidates

  /** The candidates after the start and end, in the order the rules push them. */
  function LaterCandidates(points: seq<TrackPoint>, d: Metric, options: InvestigationPointsOptions): seq<ScoredPoint>
    requires |points| > 0
  {
    StationaryCandidates(points, d, options)
      + PeakCandidates(points, d)
      + CourseCandidates(points)
      + ExtremeCandidates(points)
      + TimeCandidates(points)
      + DistanceCandidates(points, d)
  }

  /** The candidate list: start and end first, then every other rule in turn. */
  function Candidates(points: seq<TrackPoint>, d: Metric, options: InvestigationPointsOptions): (r: seq<ScoredPoint>)
    requires |points| > 0
    ensures |r| >= 1 && r[0] == ScoredPoint(points[0], ScoreStartEnd)
    ensures |points| > 1 ==> |r| >= 2 && r[1] == ScoredPoint(points[|points| - 1], ScoreStartEnd)
  {
    StartEndCandidates(points) + LaterCandidates(points, d, options)
  }

  /** After the start and end entries the candidate list is exactly the later
      rules' candidates, in order. */
  lemma {:induction false} CandidatesLayout(points: seq<TrackPoint>, d: Metric, options: InvestigationPointsOptions)
    requires |points| > 0
    ensures var r, k := Candidates(points, d, options), if |points| > 1 then 2 else 1;
      |r| == k + |LaterCandidates(points, d, options)| && r[k..] == LaterCandidates(points, d, options)
  {
    var head, later := StartEndCandidates(points), LaterCandidates(points, d, options);
    assert (head + later)[|head|..] == later;
  }
}
