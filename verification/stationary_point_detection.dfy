/** Anchor-based dwell detection and its consolidation
    (utils/normalizers/stationaryPointDetection.ts).

    The scan keeps an anchor index. A sample farther than the distance
    threshold from the anchor closes the span before it; the span becomes a
    group when it has at least two members and lasts at least the time
    threshold; the far sample then becomes the new anchor. */
module StationaryPointDetection {
  import opened Wrappers
  import opened Seqs
  import opened RideTypes
  import opened GeoUtils

  const DefaultDistanceThreshold: real := 100.0   // metres
  const DefaultTimeThreshold: int := 600          // seconds

  /** Absent thresholds fall back to the defaults (`??`). */
  datatype StationaryDetectionOptions = StationaryDetectionOptions(
    distanceThreshold: Option<real>,
    timeThreshold: Option<int>)

  function DistanceThreshold(options: StationaryDetectionOptions): real {
    options.distanceThreshold.GetOr(DefaultDistanceThreshold)
  }

  function TimeThreshold(options: StationaryDetectionOptions): int {
    options.timeThreshold.GetOr(DefaultTimeThreshold)
  }

  /** The options `consolidateStationaryPoints` passes: 100 m and 10 minutes. */
  const ConsolidationOptions := StationaryDetectionOptions(Some(100.0), Some(600))

  /** `Math.max` of the distances from `center` to each member. */
  function GroupRadius(d: Metric, center: TrackPoint, members: seq<TrackPoint>): (r: real)
    requires |members| > 0
    ensures forall j :: 0 <= j < |members| ==> PointDistance(d, center, members[j]) <= r
    ensures exists j :: 0 <= j < |members| && PointDistance(d, center, members[j]) == r
  {
    var first := PointDistance(d, center, members[0]);
    if |members| == 1 then first
    else
      var rest := GroupRadius(d, center, members[1..]);
      if first >= rest then first else rest
  }

  /** The shape every group has: its members are the slice between its
      indices; its duration is the time between its end samples; its
      center is the average point of the members and its radius the largest
      center-to-member distance (see `GroupRadius`). */
  ghost predicate GroupShape(points: seq<TrackPoint>, d: Metric, g: StationaryGroup) {
    && g.startIndex < g.endIndex < |points|
    && g.points == points[g.startIndex..g.endIndex + 1]
    && g.duration == points[g.endIndex].timestamp - points[g.startIndex].timestamp
    && g.centerPoint == AveragePoint(g.points)
    && g.radius == GroupRadius(d, g.centerPoint, g.points)
  }

  /** A group's center lies inside the latitude and longitude ranges of its
      members, and its timestamp is the rounded midpoint of the group's end
      timestamps. */
  lemma {:induction false} CenterInsideGroup(points: seq<TrackPoint>, d: Metric, g: StationaryGroup)
    requires GroupShape(points, d, g)
    ensures var c, s, e := g.centerPoint, g.startIndex, g.endIndex;
      && (exists j :: s <= j <= e && points[j].latitude <= c.latitude)
      && (exists j :: s <= j <= e && c.latitude <= points[j].latitude)
      && (exists j :: s <= j <= e && points[j].longitude <= c.longitude)
      && (exists j :: s <= j <= e && c.longitude <= points[j].longitude)
      && 0 <= 2 * c.timestamp - (points[s].timestamp + points[e].timestamp) <= 1
  {
    AverageOfSlice(points, g.startIndex, g.endIndex);
  }

  /** Every sample after the anchor `s` up to `e` lies within the threshold
      of the anchor. */
  ghost predicate WithinAnchor(points: seq<TrackPoint>, d: Metric, distThreshold: real, s: nat, e: nat)
    requires s <= e < |points|
  {
    forall j :: s < j <= e ==> PointDistance(d, points[s], points[j]) <= distThreshold
  }

  /** The group for the span `[s, e]`. */
  function MakeGroup(points: seq<TrackPoint>, d: Metric, s: nat, e: nat): (g: StationaryGroup)
    requires s < e < |points|
    ensures g.startIndex == s && g.endIndex == e && GroupShape(points, d, g)
  {
    var members := points[s..e + 1];
    var center := AveragePoint(members);
    StationaryGroup(s, e, members, center,
                    points[e].timestamp - points[s].timestamp,
                    GroupRadius(d, center, members))
  }

  /** What every detected group satisfies: it has the group shape above;
      every member lies within the distance threshold of the first one (the
      anchor); the sample after it, if any, lies beyond the threshold (so the
      group cannot be extended); and its duration reaches the time
      threshold. */
  ghost predicate IsStationaryGroup(points: seq<TrackPoint>, d: Metric, distThreshold: real,
                                    timeThreshold: int, g: StationaryGroup)
  {
    && GroupShape(points, d, g)
    && WithinAnchor(points, d, distThreshold, g.startIndex, g.endIndex)
    && (g.endIndex + 1 < |points| ==>
          PointDistance(d, points[g.startIndex], points[g.endIndex + 1]) > distThreshold)
    && g.duration >= timeThreshold
  }

  /** Groups in scan order never share a sample. */
  ghost predicate Separated(groups: seq<StationaryGroup>) {
    forall k, l :: 0 <= k < l < |groups| ==> groups[k].endIndex < groups[l].startIndex
  }

  /** A span `[s, e]` of sample indices, `s` being the anchor. */
  type Span = (nat, nat)

  /** What every span the scan closes satisfies: it has two or more
      samples; every one lies within the distance threshold of the anchor;
      the sample after it, if any, lies beyond the threshold (so the span
      cannot be extended); and it lasts at least the time threshold. */
  ghost predicate IsDwellSpan(points: seq<TrackPoint>, d: Metric, distThreshold: real,
                              timeThreshold: int, sp: Span)
  {
    && sp.0 < sp.1 < |points|
    && WithinAnchor(points, d, distThreshold, sp.0, sp.1)
    && (sp.1 + 1 < |points| ==> PointDistance(d, points[sp.0], points[sp.1 + 1]) > distThreshold)
    && points[sp.1].timestamp - points[sp.0].timestamp >= timeThreshold
  }

  /** Spans in scan order never share a sample. */
  ghost predicate SpansSeparated(spans: seq<Span>) {
    forall k, l :: 0 <= k < l < |spans| ==> spans[k].1 < spans[l].0
  }

  /** The span `[s, e]` as the scan closes it: reported when it has two or
      more members and lasts at least the time threshold. */
  function CloseSpan(points: seq<TrackPoint>, s: nat, e: nat, timeThreshold: int): (r: seq<Span>)
    requires s <= e < |points|
    ensures |r| <= 1
    ensures |r| == 1 <==> e > s && points[e].timestamp - points[s].timestamp >= timeThreshold
    ensures forall k :: 0 <= k < |r| ==> r[k] == (s, e)
  {
    if e > s && points[e].timestamp - points[s].timestamp >= timeThreshold then [(s, e)] else []
  }

  /** The scan from sample `i` with anchor `start`; every sample strictly
      between them lies within the threshold of the anchor. */
  function ScanFrom(points: seq<TrackPoint>, d: Metric, distThreshold: real, timeThreshold: int,
                    start: nat, i: nat): (r: seq<Span>)
    requires start < i <= |points|
    requires WithinAnchor(points, d, distThreshold, start, i - 1)
    ensures forall k :: 0 <= k < |r| ==>
              start <= r[k].0 && IsDwellSpan(points, d, distThreshold, timeThreshold, r[k])
    ensures SpansSeparated(r)
    decreases |points| - i
  {
    if i == |points| then
      LastSpanValid(points, d, distThreshold, timeThreshold, start);
      CloseSpan(points, start, |points| - 1, timeThreshold)
    else if PointDistance(d, points[start], points[i]) > distThreshold then
      var head := CloseSpan(points, start, i - 1, timeThreshold);
      var tail := ScanFrom(points, d, distThreshold, timeThreshold, i, i + 1);
      ScanStep(points, d, distThreshold, timeThreshold, start, i, head, tail);
      head + tail
    else
      WithinAnchorExtend(points, d, distThreshold, start, i);
      ScanFrom(points, d, distThreshold, timeThreshold, start, i + 1)
  }

  /** The span still open when the scan reaches the end is a dwell span, if
      it closes at all. */
  lemma {:induction false} LastSpanValid(points: seq<TrackPoint>, d: Metric, distThreshold: real,
                                         timeThreshold: int, start: nat)
    requires start < |points|
    requires WithinAnchor(points, d, distThreshold, start, |points| - 1)
    ensures var r := CloseSpan(points, start, |points| - 1, timeThreshold);
      && (forall k :: 0 <= k < |r| ==>
            start <= r[k].0 && IsDwellSpan(points, d, distThreshold, timeThreshold, r[k]))
      && SpansSeparated(r)
  {
  }

  /** A sample within the threshold of the anchor extends the anchored run. */
  lemma {:induction false} WithinAnchorExtend(points: seq<TrackPoint>, d: Metric, distThreshold: real,
                                              s: nat, i: nat)
    requires s < i < |points|
    requires WithinAnchor(points, d, distThreshold, s, i - 1)
    requires PointDistance(d, points[s], points[i]) <= distThreshold
    ensures WithinAnchor(points, d, distThreshold, s, i)
  {
  }

  /** Closing the span before a far sample and scanning on from it keeps
      every span a dwell span and the spans separated. */
  lemma {:induction false} ScanStep(points: seq<TrackPoint>, d: Metric, distThreshold: real, timeThreshold: int,
                 start: nat, i: nat, head: seq<Span>, tail: seq<Span>)
    requires start < i < |points|
    requires WithinAnchor(points, d, distThreshold, start, i - 1)
    requires PointDistance(d, points[start], points[i]) > distThreshold
    requires head == CloseSpan(points, start, i - 1, timeThreshold)
    requires forall k :: 0 <= k < |tail| ==>
               i <= tail[k].0 && IsDwellSpan(points, d, distThreshold, timeThreshold, tail[k])
    requires SpansSeparated(tail)
    ensures forall k :: 0 <= k < |head + tail| ==>
              start <= (head + tail)[k].0
              && IsDwellSpan(points, d, distThreshold, timeThreshold, (head + tail)[k])
    ensures SpansSeparated(head + tail)
  {
    if |head| == 1 {
      var valid := (sp: Span) => start <= sp.0 && IsDwellSpan(points, d, distThreshold, timeThreshold, sp);
      assert valid(head[0]);
      AllPrepend(valid, head[0], tail);
      SeparatedPrepend(head[0], tail, i);
      assert head + tail == [head[0]] + tail;
    } else {
      assert head + tail == tail;
    }
  }

  /** A span ending before every span of a separated sequence starts can be
      put in front of it. */
  lemma {:induction false} SeparatedPrepend(sp: Span, tail: seq<Span>, bound: nat)
    requires SpansSeparated(tail)
    requires forall k :: 0 <= k < |tail| ==> bound <= tail[k].0
    requires sp.1 < bound
    ensures SpansSeparated([sp] + tail)
  {
    forall k, l | 0 <= k < l < |[sp] + tail|
      ensures ([sp] + tail)[k].1 < ([sp] + tail)[l].0
    {
      assert ([sp] + tail)[l] == tail[l - 1];
      if k > 0 {
        assert ([sp] + tail)[k] == tail[k - 1];
      }
    }
  }

  /** The group built for each span, in order (`createGroup`). */
  function BuildGroups(points: seq<TrackPoint>, d: Metric, spans: seq<Span>): (r: seq<StationaryGroup>)
    requires forall k :: 0 <= k < |spans| ==> spans[k].0 < spans[k].1 < |points|
    ensures |r| == |spans|
    ensures forall k :: 0 <= k < |r| ==> r[k] == MakeGroup(points, d, spans[k].0, spans[k].1)
  {
    seq(|spans|, k requires 0 <= k < |spans| => MakeGroup(points, d, spans[k].0, spans[k].1))
  }

  /** The group built for a dwell span is a stationary group; groups built
      for separated spans are separated. */
  lemma {:induction false} BuiltGroupsValid(points: seq<TrackPoint>, d: Metric, distThreshold: real,
                                            timeThreshold: int, spans: seq<Span>)
    requires forall k :: 0 <= k < |spans| ==> IsDwellSpan(points, d, distThreshold, timeThreshold, spans[k])
    requires SpansSeparated(spans)
    ensures forall k :: 0 <= k < |spans| ==> spans[k].0 < spans[k].1 < |points|
    ensures var r := BuildGroups(points, d, spans);
      && (forall k :: 0 <= k < |r| ==> IsStationaryGroup(points, d, distThreshold, timeThreshold, r[k]))
      && Separated(r)
  {
    var r := BuildGroups(points, d, spans);
    forall k | 0 <= k < |r| ensures IsStationaryGroup(points, d, distThreshold, timeThreshold, r[k]) {
      assert IsDwellSpan(points, d, distThreshold, timeThreshold, spans[k]);
    }
  }

  /** `detectStationaryGroups`: the dwell groups of `points`, in order,
      pairwise separated. */
  function DetectStationaryGroups(points: seq<TrackPoint>, d: Metric,
                                  options: StationaryDetectionOptions): (r: seq<StationaryGroup>)
    ensures forall k :: 0 <= k < |r| ==>
              IsStationaryGroup(points, d, DistanceThreshold(options), TimeThreshold(options), r[k])
    ensures Separated(r)
  {
    if |points| == 0 then []
    else
      var spans := ScanFrom(points, d, DistanceThreshold(options), TimeThreshold(options), 0, 1);
      BuiltGroupsValid(points, d, DistanceThreshold(options), TimeThreshold(options), spans);
      BuildGroups(points, d, spans)
  }

  /** The first sample from `i` on that lies beyond the threshold from the
      anchor `s`, or `|points|` when there is none. */
  function FirstFar(points: seq<TrackPoint>, d: Metric, distThreshold: real, s: nat, i: nat): (e: nat)
    requires s < |points| && i <= |points|
    ensures i <= e <= |points|
    ensures forall j :: i <= j < e ==> PointDistance(d, points[s], points[j]) <= distThreshold
    ensures e < |points| ==> PointDistance(d, points[s], points[e]) > distThreshold
    decreases |points| - i
  {
    if i == |points| then i
    else if PointDistance(d, points[s], points[i]) > distThreshold then i
    else FirstFar(points, d, distThreshold, s, i + 1)
  }

  /** The detector read declaratively, from the anchor `s`: the anchor's span
      runs up to the sample before the first one beyond the threshold and is
      reported when it qualifies; the far sample is the next anchor. */
  function DwellSpans(points: seq<TrackPoint>, d: Metric, distThreshold: real, timeThreshold: int, s: nat)
    : seq<Span>
    requires s < |points|
    decreases |points| - s, 1
  {
    DwellSpansFrom(points, d, distThreshold, timeThreshold, s, s + 1)
  }

  /** The same reading for the anchor `s` when the samples before `i` are
      already known to be near it. */
  function DwellSpansFrom(points: seq<TrackPoint>, d: Metric, distThreshold: real, timeThreshold: int,
                          s: nat, i: nat): seq<Span>
    requires s < i <= |points|
    decreases |points| - s, 0
  {
    var e := FirstFar(points, d, distThreshold, s, i);
    var head := CloseSpan(points, s, e - 1, timeThreshold);
    if e < |points| then head + DwellSpans(points, d, distThreshold, timeThreshold, e) else head
  }

  /** The scan from sample `i` with anchor `start` closes the anchor's span,
      if it qualifies, and then the spans of the later anchors. */
  lemma {:induction false} ScanIsDwells(points: seq<TrackPoint>, d: Metric, distThreshold: real,
                                        timeThreshold: int, start: nat, i: nat)
    requires start < i <= |points|
    requires WithinAnchor(points, d, distThreshold, start, i - 1)
    ensures ScanFrom(points, d, distThreshold, timeThreshold, start, i)
            == DwellSpansFrom(points, d, distThreshold, timeThreshold, start, i)
    decreases |points| - i
  {
    if i == |points| {
      EndAgrees(points, d, distThreshold, timeThreshold, start);
    } else if PointDistance(d, points[start], points[i]) > distThreshold {
      ScanIsDwells(points, d, distThreshold, timeThreshold, i, i + 1);
      FarAgrees(points, d, distThreshold, timeThreshold, start, i);
    } else {
      WithinAnchorExtend(points, d, distThreshold, start, i);
      ScanIsDwells(points, d, distThreshold, timeThreshold, start, i + 1);
      NearAgrees(points, d, distThreshold, timeThreshold, start, i);
    }
  }

  /** At the end of the track both readings close the last span. */
  lemma EndAgrees(points: seq<TrackPoint>, d: Metric, distThreshold: real, timeThreshold: int, start: nat)
    requires start < |points|
    requires WithinAnchor(points, d, distThreshold, start, |points| - 1)
    ensures ScanFrom(points, d, distThreshold, timeThreshold, start, |points|)
            == DwellSpansFrom(points, d, distThreshold, timeThreshold, start, |points|)
  {
    assert FirstFar(points, d, distThreshold, start, |points|) == |points|;
  }

  /** If the two readings agree from a far sample on, they agree before it. */
  lemma {:induction false} FarAgrees(points: seq<TrackPoint>, d: Metric, distThreshold: real,
                                     timeThreshold: int, start: nat, i: nat)
    requires start < i < |points|
    requires WithinAnchor(points, d, distThreshold, start, i - 1)
    requires PointDistance(d, points[start], points[i]) > distThreshold
    requires ScanFrom(points, d, distThreshold, timeThreshold, i, i + 1)
             == DwellSpansFrom(points, d, distThreshold, timeThreshold, i, i + 1)
    ensures ScanFrom(points, d, distThreshold, timeThreshold, start, i)
            == DwellSpansFrom(points, d, distThreshold, timeThreshold, start, i)
  {
    ScanFar(points, d, distThreshold, timeThreshold, start, i);
    DwellsFar(points, d, distThreshold, timeThreshold, start, i);
  }

  /** If the two readings agree after a near sample, they agree at it. */
  lemma {:induction false} NearAgrees(points: seq<TrackPoint>, d: Metric, distThreshold: real,
                                      timeThreshold: int, start: nat, i: nat)
    requires start < i < |points|
    requires WithinAnchor(points, d, distThreshold, start, i - 1)
    requires WithinAnchor(points, d, distThreshold, start, i)
    requires PointDistance(d, points[start], points[i]) <= distThreshold
    requires ScanFrom(points, d, distThreshold, timeThreshold, start, i + 1)
             == DwellSpansFrom(points, d, distThreshold, timeThreshold, start, i + 1)
    ensures ScanFrom(points, d, distThreshold, timeThreshold, start, i)
            == DwellSpansFrom(points, d, distThreshold, timeThreshold, start, i)
  {
    ScanNear(points, d, distThreshold, timeThreshold, start, i);
    DwellsNear(points, d, distThreshold, timeThreshold, start, i);
  }

  /** At a far sample the scan closes the anchor's span and goes on with
      that sample as the anchor. */
  lemma {:induction false} ScanFar(points: seq<TrackPoint>, d: Metric, distThreshold: real,
                                   timeThreshold: int, start: nat, i: nat)
    requires start < i < |points|
    requires WithinAnchor(points, d, distThreshold, start, i - 1)
    requires PointDistance(d, points[start], points[i]) > distThreshold
    ensures ScanFrom(points, d, distThreshold, timeThreshold, start, i)
            == CloseSpan(points, start, i - 1, timeThreshold)
               + ScanFrom(points, d, distThreshold, timeThreshold, i, i + 1)
  {
  }

  /** The declarative reading agrees at a far sample. */
  lemma {:induction false} DwellsFar(points: seq<TrackPoint>, d: Metric, distThreshold: real,
                                     timeThreshold: int, start: nat, i: nat)
    requires start < i < |points|
    requires PointDistance(d, points[start], points[i]) > distThreshold
    ensures DwellSpansFrom(points, d, distThreshold, timeThreshold, start, i)
            == CloseSpan(points, start, i - 1, timeThreshold)
               + DwellSpansFrom(points, d, distThreshold, timeThreshold, i, i + 1)
  {
    assert FirstFar(points, d, distThreshold, start, i) == i;
  }

  /** At a near sample the scan keeps the anchor and moves on. */
  lemma {:induction false} ScanNear(points: seq<TrackPoint>, d: Metric, distThreshold: real,
                                    timeThreshold: int, start: nat, i: nat)
    requires start < i < |points|
    requires WithinAnchor(points, d, distThreshold, start, i - 1)
    requires PointDistance(d, points[start], points[i]) <= distThreshold
    ensures WithinAnchor(points, d, distThreshold, start, i)
    ensures ScanFrom(points, d, distThreshold, timeThreshold, start, i)
            == ScanFrom(points, d, distThreshold, timeThreshold, start, i + 1)
  {
    WithinAnchorExtend(points, d, distThreshold, start, i);
  }

  /** The declarative reading agrees at a near sample. */
  lemma {:induction false} DwellsNear(points: seq<TrackPoint>, d: Metric, distThreshold: real,
                                      timeThreshold: int, start: nat, i: nat)
    requires start < i < |points|
    requires PointDistance(d, points[start], points[i]) <= distThreshold
    ensures DwellSpansFrom(points, d, distThreshold, timeThreshold, start, i)
            == DwellSpansFrom(points, d, distThreshold, timeThreshold, start, i + 1)
  {
    assert FirstFar(points, d, distThreshold, start, i) == FirstFar(points, d, distThreshold, start, i + 1);
  }

  /** The detector reports exactly the groups of the qualifying spans
      between consecutive anchors, in order: nothing it closes is lost. */
  lemma {:induction false} DetectIsDwells(points: seq<TrackPoint>, d: Metric, options: StationaryDetectionOptions)
    requires |points| > 0
    ensures var spans := DwellSpans(points, d, DistanceThreshold(options), TimeThreshold(options), 0);
      && (forall k :: 0 <= k < |spans| ==> spans[k].0 < spans[k].1 < |points|)
      && DetectStationaryGroups(points, d, options) == BuildGroups(points, d, spans)
  {
    ScanIsDwells(points, d, DistanceThreshold(options), TimeThreshold(options), 0, 1);
  }

  /** A track that never leaves the threshold of its first sample and lasts
      at least the time threshold is one group, from the first sample to the
      last. */
  lemma {:induction false} OneDwellOneGroup(points: seq<TrackPoint>, d: Metric, options: StationaryDetectionOptions)
    requires |points| >= 2
    requires forall j :: 0 < j < |points| ==> PointDistance(d, points[0], points[j]) <= DistanceThreshold(options)
    requires points[|points| - 1].timestamp - points[0].timestamp >= TimeThreshold(options)
    ensures DetectStationaryGroups(points, d, options) == [MakeGroup(points, d, 0, |points| - 1)]
  {
    DetectIsDwells(points, d, options);
    assert FirstFar(points, d, DistanceThreshold(options), 0, 1) == |points|;
    assert DwellSpans(points, d, DistanceThreshold(options), TimeThreshold(options), 0) == [(0, |points| - 1)];
  }

  /** With a proper distance, a group's radius is non-negative and the
      threshold it was detected with is non-negative too (the anchor is
      within it of itself). */
  lemma {:induction false} GroupGeometry(points: seq<TrackPoint>, d: Metric, distThreshold: real, timeThreshold: int,
                      g: StationaryGroup)
    requires IsDistance(d)
    requires IsStationaryGroup(points, d, distThreshold, timeThreshold, g)
    ensures g.radius >= 0.0
    ensures distThreshold >= 0.0
  {
    assert PointDistance(d, points[g.startIndex], points[g.startIndex + 1]) <= distThreshold;
    assert PointDistance(d, g.centerPoint, g.points[0]) <= g.radius;
  }

  // ---------------------------------------------------------------------
  // Consolidation

  /** The synthetic center sample: the anchor sample with the group
      center's position and timestamp. */
  function SyntheticCenter(anchor: TrackPoint, center: TrackPoint): TrackPoint {
    anchor.(latitude := center.latitude, longitude := center.longitude, timestamp := center.timestamp)
  }

  /** Groups as consolidation relies on them: each spans two or more
      samples of an `n`-sample sequence, and they are separated. */
  ghost predicate WellFormedGroups(groups: seq<StationaryGroup>, n: nat) {
    && (forall k :: 0 <= k < |groups| ==> groups[k].startIndex < groups[k].endIndex < n)
    && Separated(groups)
  }

  /** The synthetic center emitted for each group. */
  function Centers(points: seq<TrackPoint>, groups: seq<StationaryGroup>): (r: seq<TrackPoint>)
    requires WellFormedGroups(groups, |points|)
    ensures |r| == |groups|
    ensures forall k :: 0 <= k < |groups| ==>
              r[k].latitude == groups[k].centerPoint.latitude
              && r[k].longitude == groups[k].centerPoint.longitude
              && r[k].timestamp == groups[k].centerPoint.timestamp
              && r[k].elevation == points[groups[k].startIndex].elevation
              && r[k].speed == points[groups[k].startIndex].speed
              && r[k].heartRate == points[groups[k].startIndex].heartRate
              && r[k].cadence == points[groups[k].startIndex].cadence
  {
    seq(|groups|, k requires 0 <= k < |groups| =>
      SyntheticCenter(points[groups[k].startIndex], groups[k].centerPoint))
  }

  /** Context shared by the consolidation functions: well-formed groups and
      one center per group. */
  ghost predicate Layout<T>(points: seq<T>, groups: seq<StationaryGroup>, centers: seq<T>) {
    WellFormedGroups(groups, |points|) && |centers| == |groups|
  }

  /** Number of samples covered by the groups from position `gi` on. */
  function CoveredFrom(groups: seq<StationaryGroup>, gi: nat): int
    requires gi <= |groups|
    decreases |groups| - gi
  {
    if gi == |groups| then 0
    else groups[gi].endIndex - groups[gi].startIndex + 1 + CoveredFrom(groups, gi + 1)
  }

  /** What one turn of the consolidation loop emits for group `gi`: the
      untouched samples since `from`, the group's first sample, its
      synthetic center and (when the group spans more than one sample) its
      last sample. */
  function Emitted<T>(points: seq<T>, groups: seq<StationaryGroup>, centers: seq<T>,
                   gi: nat, from: nat): (r: seq<T>)
    requires gi < |groups| && gi < |centers|
    requires from <= groups[gi].startIndex < groups[gi].endIndex < |points|
    ensures |r| == groups[gi].startIndex - from + 3
    ensures r[0] == points[from] && r[|r| - 1] == points[groups[gi].endIndex]
  {
    var g := groups[gi];
    points[from..g.startIndex]
      + ([points[g.startIndex], centers[gi]]
         + (if g.endIndex > g.startIndex then [points[g.endIndex]] else []))
  }

  /** The consolidation loop from group `gi`, where `from` is one past the
      last sample already emitted. It produces exactly the sample-by-sample
      reading `Pieces` below. */
  function Rebuild<T>(points: seq<T>, groups: seq<StationaryGroup>, centers: seq<T>,
                   gi: nat, from: nat): (r: seq<T>)
    requires Layout(points, groups, centers)
    requires gi <= |groups| && from <= |points|
    requires gi < |groups| ==> from <= groups[gi].startIndex
    ensures |r| == |points| - from - CoveredFrom(groups, gi) + 3 * (|groups| - gi)
    ensures from < |points| ==> |r| > 0 && r[0] == points[from]
    ensures (from < |points| || gi < |groups|) ==> |r| > 0 && r[|r| - 1] == points[|points| - 1]
    decreases |groups| - gi
  {
    if gi == |groups| then
      points[from..]
    else
      assert gi + 1 < |groups| ==> groups[gi].endIndex < groups[gi + 1].startIndex by {
        assert Separated(groups);
      }
      var emitted := Emitted(points, groups, centers, gi, from);
      var rest := Rebuild(points, groups, centers, gi + 1, groups[gi].endIndex + 1);
      LastOfConcat(emitted, rest);
      emitted + rest
  }

  lemma LastOfConcat<T>(a: seq<T>, b: seq<T>)
    requires |a| > 0
    ensures (a + b)[0] == a[0]
    ensures (a + b)[|a + b| - 1] == if |b| > 0 then b[|b| - 1] else a[|a| - 1]
  {
  }

  /** `consolidateStationaryPoints`: each detected group (100 m, 10 min) is
      replaced by its first sample, a synthetic center and its last sample;
      every other sample passes through in order. The output is exactly
      `Pieces`, the sample-by-sample reference reading below; its length is
      the input length minus the covered samples plus three per group (so a
      two-sample group lengthens the track); the first and last samples
      survive. Short inputs and inputs without groups come back unchanged. */
  function ConsolidateStationaryPoints(points: seq<TrackPoint>, d: Metric): (r: seq<TrackPoint>)
    ensures var groups := DetectStationaryGroups(points, d, ConsolidationOptions);
      && WellFormedGroups(groups, |points|)
      && r == Pieces(points, groups, Centers(points, groups), 0, |points|)
      && |r| == |points| - CoveredFrom(groups, 0) + 3 * |groups|
      && (groups == [] ==> r == points)
    ensures |points| < 2 ==> r == points
    ensures |points| > 0 ==> |r| > 0 && r[0] == points[0] && r[|r| - 1] == points[|points| - 1]
  {
    var groups := DetectStationaryGroups(points, d, ConsolidationOptions);
    DetectedWellFormed(points, d, groups);
    var r := Rebuild(points, groups, Centers(points, groups), 0, 0);
    RebuildMatchesPieces(points, groups, Centers(points, groups), 0, 0);
    if |points| < 2 || |groups| == 0 then
      points
    else
      r
  }

  lemma {:induction false} DetectedWellFormed(points: seq<TrackPoint>, d: Metric, groups: seq<StationaryGroup>)
    requires groups == DetectStationaryGroups(points, d, ConsolidationOptions)
    ensures WellFormedGroups(groups, |points|)
    ensures |points| < 2 ==> groups == []
  {
  }

  // ---------------------------------------------------------------------
  // Sample-by-sample reference reading of consolidation

  /** Position of the first group at or after `lo` whose span contains
      sample `k`. */
  function GroupAt(groups: seq<StationaryGroup>, k: nat, lo: nat): (r: Option<nat>)
    requires lo <= |groups|
    ensures r.Some? ==> lo <= r.value < |groups|
                        && groups[r.value].startIndex <= k <= groups[r.value].endIndex
    ensures r.None? ==> forall j :: lo <= j < |groups| ==>
                          !(groups[j].startIndex <= k <= groups[j].endIndex)
    decreases |groups| - lo
  {
    if lo == |groups| then None
    else if groups[lo].startIndex <= k <= groups[lo].endIndex then Some(lo)
    else GroupAt(groups, k, lo + 1)
  }

  /** What sample `k` contributes to the output: itself when no group
      contains it; itself and its group's synthetic center when it starts a
      group; itself when it ends a group; nothing when it is inside a group. */
  function PieceAt<T>(points: seq<T>, groups: seq<StationaryGroup>, centers: seq<T>,
                   k: nat): seq<T>
    requires k < |points| && |centers| == |groups|
  {
    var at := GroupAt(groups, k, 0);
    if at.None? then [points[k]]
    else
      var g := groups[at.value];
      if k == g.startIndex then [points[k], centers[at.value]]
      else if k == g.endIndex then [points[k]]
      else []
  }

  /** The contributions of samples `lo .. hi-1`, in order. */
  function Pieces<T>(points: seq<T>, groups: seq<StationaryGroup>, centers: seq<T>,
                  lo: nat, hi: nat): seq<T>
    requires lo <= hi <= |points| && |centers| == |groups|
    decreases hi - lo
  {
    if lo == hi then []
    else PieceAt(points, groups, centers, lo) + Pieces(points, groups, centers, lo + 1, hi)
  }

  lemma {:induction false} PiecesSplit<T>(points: seq<T>, groups: seq<StationaryGroup>,
                                       centers: seq<T>, lo: nat, mid: nat, hi: nat)
    requires lo <= mid <= hi <= |points| && |centers| == |groups|
    ensures Pieces(points, groups, centers, lo, hi)
            == Pieces(points, groups, centers, lo, mid) + Pieces(points, groups, centers, mid, hi)
    decreases mid - lo
  {
    if lo < mid {
      PiecesSplit(points, groups, centers, lo + 1, mid, hi);
    }
  }

  /** Samples no group contains pass through unchanged. */
  lemma {:induction false} PiecesOutside<T>(points: seq<T>, groups: seq<StationaryGroup>,
                                         centers: seq<T>, lo: nat, hi: nat)
    requires lo <= hi <= |points| && |centers| == |groups|
    requires forall k :: lo <= k < hi ==> GroupAt(groups, k, 0).None?
    ensures Pieces(points, groups, centers, lo, hi) == points[lo..hi]
    decreases hi - lo
  {
    if lo < hi {
      PiecesOutside(points, groups, centers, lo + 1, hi);
    }
  }

  /** With separated groups, the group containing a sample is the one
      found. */
  lemma {:induction false} FoundGroup(groups: seq<StationaryGroup>, n: nat, gi: nat, k: nat)
    requires WellFormedGroups(groups, n)
    requires gi < |groups| && groups[gi].startIndex <= k <= groups[gi].endIndex
    ensures GroupAt(groups, k, 0) == Some(gi)
  {
    forall j | 0 <= j < |groups| && j != gi
      ensures !(groups[j].startIndex <= k <= groups[j].endIndex)
    {
      if j < gi {
        assert groups[j].endIndex < groups[gi].startIndex;
      } else {
        assert groups[gi].endIndex < groups[j].startIndex;
      }
    }
  }

  /** Samples between the end of group `gi - 1` and the start of group
      `gi` lie in no group. */
  lemma {:induction false} BetweenGroupsUncovered(groups: seq<StationaryGroup>, n: nat, gi: nat,
                                                  from: nat, k: nat)
    requires WellFormedGroups(groups, n)
    requires gi <= |groups|
    requires gi > 0 ==> groups[gi - 1].endIndex < from
    requires from <= k && (gi < |groups| ==> k < groups[gi].startIndex)
    ensures GroupAt(groups, k, 0).None?
  {
    forall j | 0 <= j < |groups|
      ensures !(groups[j].startIndex <= k <= groups[j].endIndex)
    {
      if j + 1 < gi {
        assert groups[j].endIndex < groups[gi - 1].startIndex;
      } else if gi < j {
        assert groups[gi].endIndex < groups[j].startIndex;
      }
    }
  }

  /** Inside group `gi`, the samples from `lo` to its end contribute only
      its last sample. */
  lemma {:induction false} GroupTail<T>(points: seq<T>, groups: seq<StationaryGroup>,
                                        centers: seq<T>, gi: nat, lo: nat)
    requires Layout(points, groups, centers) && gi < |groups|
    requires groups[gi].startIndex < lo <= groups[gi].endIndex
    ensures groups[gi].endIndex < |points|
    ensures Pieces(points, groups, centers, lo, groups[gi].endIndex + 1) == [points[groups[gi].endIndex]]
    decreases groups[gi].endIndex - lo
  {
    var e := groups[gi].endIndex;
    PieceInside(points, groups, centers, gi, lo);
    if lo == e {
      PiecesLast(points, groups, centers, e);
    } else {
      GroupTail(points, groups, centers, gi, lo + 1);
      PiecesSkip(points, groups, centers, lo, e + 1);
    }
  }

  /** Inside a group after its first sample, only the last one contributes. */
  lemma PieceInside<T>(points: seq<T>, groups: seq<StationaryGroup>, centers: seq<T>, gi: nat, k: nat)
    requires Layout(points, groups, centers) && gi < |groups|
    requires groups[gi].startIndex < k <= groups[gi].endIndex
    ensures groups[gi].endIndex < |points|
    ensures PieceAt(points, groups, centers, k) == if k == groups[gi].endIndex then [points[k]] else []
  {
    FoundGroup(groups, |points|, gi, k);
  }

  /** The contributions of the single sample `k` alone. */
  lemma PiecesLast<T>(points: seq<T>, groups: seq<StationaryGroup>, centers: seq<T>, k: nat)
    requires k < |points| && |centers| == |groups|
    ensures Pieces(points, groups, centers, k, k + 1) == PieceAt(points, groups, centers, k)
  {
    assert Pieces(points, groups, centers, k, k + 1) == PieceAt(points, groups, centers, k) + [];
  }

  /** A sample contributing nothing can be skipped. */
  lemma PiecesSkip<T>(points: seq<T>, groups: seq<StationaryGroup>, centers: seq<T>, lo: nat, hi: nat)
    requires lo < hi <= |points| && |centers| == |groups|
    requires PieceAt(points, groups, centers, lo) == []
    ensures Pieces(points, groups, centers, lo, hi) == Pieces(points, groups, centers, lo + 1, hi)
  {
    assert Pieces(points, groups, centers, lo, hi) == [] + Pieces(points, groups, centers, lo + 1, hi);
  }

  /** A group's first sample contributes itself and the group's center. */
  lemma {:induction false} GroupHead<T>(points: seq<T>, groups: seq<StationaryGroup>,
                                        centers: seq<T>, gi: nat)
    requires Layout(points, groups, centers) && gi < |groups|
    ensures groups[gi].startIndex + 1 < |points|
    ensures Pieces(points, groups, centers, groups[gi].startIndex, groups[gi].startIndex + 1)
            == [points[groups[gi].startIndex], centers[gi]]
  {
    var s := groups[gi].startIndex;
    FoundGroup(groups, |points|, gi, s);
    assert PieceAt(points, groups, centers, s) == [points[s], centers[gi]];
    assert Pieces(points, groups, centers, s, s + 1) == PieceAt(points, groups, centers, s) + [];
  }

  /** Group `gi` contributes its first sample, its synthetic center and
      its last sample. */
  lemma {:induction false} GroupPieces<T>(points: seq<T>, groups: seq<StationaryGroup>,
                                       centers: seq<T>, gi: nat)
    requires Layout(points, groups, centers) && gi < |groups|
    ensures var g := groups[gi];
      Pieces(points, groups, centers, g.startIndex, g.endIndex + 1)
        == [points[g.startIndex], centers[gi]] + [points[g.endIndex]]
  {
    var g := groups[gi];
    var s, e := g.startIndex, g.endIndex;
    GroupTail(points, groups, centers, gi, s + 1);
    GroupHead(points, groups, centers, gi);
    PiecesSplit(points, groups, centers, s, s + 1, e + 1);
  }

  lemma Reassemble<T>(whole: seq<T>, left: seq<T>, right: seq<T>, group: seq<T>, after: seq<T>, emitted: seq<T>)
    requires whole == left + right && right == group + after && emitted == left + group
    ensures whole == emitted + after
  {
  }

  /** Between group `gi - 1` and group `gi` every sample passes through. */
  lemma {:induction false} PiecesBeforeGroup<T>(points: seq<T>, groups: seq<StationaryGroup>,
                                             centers: seq<T>, gi: nat, from: nat)
    requires Layout(points, groups, centers) && gi < |groups|
    requires from <= groups[gi].startIndex
    requires gi > 0 ==> groups[gi - 1].endIndex < from
    ensures groups[gi].startIndex < |points|
    ensures Pieces(points, groups, centers, from, groups[gi].startIndex) == points[from..groups[gi].startIndex]
  {
    var s := groups[gi].startIndex;
    forall k | from <= k < s
      ensures GroupAt(groups, k, 0).None?
    {
      BetweenGroupsUncovered(groups, |points|, gi, from, k);
    }
    PiecesOutside(points, groups, centers, from, s);
  }

  /** The reference reading from `from` is the samples before group `gi`,
      then what the group contributes, then the reading after it. */
  lemma {:induction false} PiecesStep<T>(points: seq<T>, groups: seq<StationaryGroup>,
                                      centers: seq<T>, gi: nat, from: nat)
    requires gi < |groups| && |centers| == |groups|
    requires from <= groups[gi].startIndex < groups[gi].endIndex < |points|
    requires Emitted(points, groups, centers, gi, from)
             == Pieces(points, groups, centers, from, groups[gi].startIndex)
                + Pieces(points, groups, centers, groups[gi].startIndex, groups[gi].endIndex + 1)
    ensures Pieces(points, groups, centers, from, |points|)
            == Emitted(points, groups, centers, gi, from)
               + Pieces(points, groups, centers, groups[gi].endIndex + 1, |points|)
  {
    PiecesAround(points, groups, centers, from, groups[gi].startIndex, groups[gi].endIndex + 1, |points|,
                 Emitted(points, groups, centers, gi, from));
  }

  /** Splitting the reading at `mid` and `mid2` and joining the first two
      parts into `joined`. */
  lemma PiecesAround<T>(points: seq<T>, groups: seq<StationaryGroup>, centers: seq<T>,
                        lo: nat, mid: nat, mid2: nat, hi: nat, joined: seq<T>)
    requires lo <= mid <= mid2 <= hi <= |points| && |centers| == |groups|
    requires joined == Pieces(points, groups, centers, lo, mid) + Pieces(points, groups, centers, mid, mid2)
    ensures Pieces(points, groups, centers, lo, hi) == joined + Pieces(points, groups, centers, mid2, hi)
  {
    var whole, left, right := Pieces(points, groups, centers, lo, hi),
                              Pieces(points, groups, centers, lo, mid), Pieces(points, groups, centers, mid, hi);
    var group, after := Pieces(points, groups, centers, mid, mid2), Pieces(points, groups, centers, mid2, hi);
    PiecesSplit(points, groups, centers, lo, mid, hi);
    PiecesSplit(points, groups, centers, mid, mid2, hi);
    Reassemble(whole, left, right, group, after, joined);
  }

  /** What the loop emits for a group is the reference reading of the
      samples before it followed by that of the group. */
  lemma EmittedIsPieces<T>(points: seq<T>, groups: seq<StationaryGroup>, centers: seq<T>,
                           gi: nat, from: nat)
    requires gi < |groups| && |centers| == |groups|
    requires from <= groups[gi].startIndex < groups[gi].endIndex < |points|
    requires Pieces(points, groups, centers, from, groups[gi].startIndex)
             == points[from..groups[gi].startIndex]
    requires Pieces(points, groups, centers, groups[gi].startIndex, groups[gi].endIndex + 1)
             == [points[groups[gi].startIndex], centers[gi]] + [points[groups[gi].endIndex]]
    ensures Emitted(points, groups, centers, gi, from)
            == Pieces(points, groups, centers, from, groups[gi].startIndex)
               + Pieces(points, groups, centers, groups[gi].startIndex, groups[gi].endIndex + 1)
  {
  }

  /** After the last group every sample passes through. */
  lemma {:induction false} PiecesAfterLast<T>(points: seq<T>, groups: seq<StationaryGroup>,
                                           centers: seq<T>, from: nat)
    requires Layout(points, groups, centers) && from <= |points|
    requires |groups| > 0 ==> groups[|groups| - 1].endIndex < from
    ensures Pieces(points, groups, centers, from, |points|) == points[from..]
  {
    forall k | from <= k < |points|
      ensures GroupAt(groups, k, 0).None?
    {
      BetweenGroupsUncovered(groups, |points|, |groups|, from, k);
    }
    PiecesOutside(points, groups, centers, from, |points|);
  }

  /** One turn of the consolidation loop. */
  lemma {:induction false} RebuildUnfold<T>(points: seq<T>, groups: seq<StationaryGroup>,
                                            centers: seq<T>, gi: nat, from: nat)
    requires Layout(points, groups, centers)
    requires gi < |groups| && from <= groups[gi].startIndex
    ensures groups[gi].endIndex < |points|
    ensures gi + 1 < |groups| ==> groups[gi].endIndex < groups[gi + 1].startIndex
    ensures Rebuild(points, groups, centers, gi, from)
            == Emitted(points, groups, centers, gi, from)
               + Rebuild(points, groups, centers, gi + 1, groups[gi].endIndex + 1)
  {
    assert gi + 1 < |groups| ==> groups[gi].endIndex < groups[gi + 1].startIndex by {
      assert Separated(groups);
    }
  }

  /** If the loop after group `gi` matches the reference, so does the loop
      from group `gi`. */
  lemma {:induction false} CombineStep<T>(points: seq<T>, groups: seq<StationaryGroup>,
                                          centers: seq<T>, gi: nat, from: nat)
    requires Layout(points, groups, centers)
    requires gi < |groups| && from <= groups[gi].startIndex
    requires gi > 0 ==> groups[gi - 1].endIndex < from
    requires groups[gi].endIndex < |points|
    requires gi + 1 < |groups| ==> groups[gi].endIndex < groups[gi + 1].startIndex
    requires Rebuild(points, groups, centers, gi + 1, groups[gi].endIndex + 1)
             == Pieces(points, groups, centers, groups[gi].endIndex + 1, |points|)
    requires Rebuild(points, groups, centers, gi, from)
             == Emitted(points, groups, centers, gi, from)
                + Rebuild(points, groups, centers, gi + 1, groups[gi].endIndex + 1)
    ensures Rebuild(points, groups, centers, gi, from) == Pieces(points, groups, centers, from, |points|)
  {
    PiecesBeforeGroup(points, groups, centers, gi, from);
    GroupPieces(points, groups, centers, gi);
    EmittedIsPieces(points, groups, centers, gi, from);
    PiecesStep(points, groups, centers, gi, from);
  }

  /** The consolidation loop produces the sample-by-sample reference. */
  lemma {:induction false} RebuildMatchesPieces<T>(points: seq<T>, groups: seq<StationaryGroup>,
                                                   centers: seq<T>, gi: nat, from: nat)
    requires Layout(points, groups, centers)
    requires gi <= |groups| && from <= |points|
    requires gi < |groups| ==> from <= groups[gi].startIndex
    requires gi > 0 ==> groups[gi - 1].endIndex < from
    ensures Rebuild(points, groups, centers, gi, from) == Pieces(points, groups, centers, from, |points|)
    decreases |groups| - gi
  {
    if gi == |groups| {
      PiecesAfterLast(points, groups, centers, from);
    } else {
      RebuildUnfold(points, groups, centers, gi, from);
      var e := groups[gi].endIndex;
      RebuildMatchesPieces(points, groups, centers, gi + 1, e + 1);
      CombineStep(points, groups, centers, gi, from);
    }
  }
}
