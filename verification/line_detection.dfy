/** Collinear point removal (utils/normalizers/lineDetection.ts).

    The spherical cross-track formula is not computed here: it is the
    parameter `xt` of type `CrossTrack`, taking its arguments in the order of
    `calculatePerpendicularDistance(pointLat, pointLon, line1Lat, line1Lon,
    line2Lat, line2Lon)`. What the model does compute is the branch structure
    around it (the coincident-endpoint fallback) and the greedy selection that
    `removeCollinearPoints` performs, which is generic over the point type. */
module LineDetection {
  import opened Wrappers
  import opened Seqs
  import opened GeoUtils

  /** The non-degenerate branch of the perpendicular distance, in metres. */
  type CrossTrack = (real, real, real, real, real, real) -> real

  /** The cross-track value is the absolute value of a product, so never negative. */
  ghost predicate IsCrossTrack(xt: CrossTrack) {
    forall a, b, c, e, f, g :: xt(a, b, c, e, f, g) >= 0.0
  }

  /** JavaScript's `Math.PI`. */
  const Pi: real := 3.141592653589793

  /** Default `toleranceRatio` of the removal. */
  const DefaultToleranceRatio: real := 0.001

  function ToRadians(deg: real): real {
    deg * Pi / 180.0
  }

  /** The segment endpoints agree to within 1e-10 radians in both coordinates. */
  predicate IsDegenerateSegment(a: Coord, b: Coord) {
    && Abs(ToRadians(a.latitude) - ToRadians(b.latitude)) < 0.0000000001
    && Abs(ToRadians(a.longitude) - ToRadians(b.longitude)) < 0.0000000001
  }

  /** Distance from `p` to the great circle through `a` and `b`; when the two
      endpoints (nearly) coincide, the distance from `p` to `a`. */
  function PerpendicularDistance(d: Metric, xt: CrossTrack, p: Coord, a: Coord, b: Coord): (r: real)
    ensures IsDistance(d) && IsCrossTrack(xt) ==> r >= 0.0
    ensures IsDegenerateSegment(a, b) ==> r == Distance(d, p, a)
    ensures !IsDegenerateSegment(a, b) ==>
      r == xt(p.latitude, p.longitude, a.latitude, a.longitude, b.latitude, b.longitude)
  {
    if IsDegenerateSegment(a, b) then Distance(d, p, a)
    else xt(p.latitude, p.longitude, a.latitude, a.longitude, b.latitude, b.longitude)
  }

  /** A segment whose ends are the same position is degenerate, so the
      perpendicular distance falls back to the distance from the anchor. */
  lemma CoincidentEndsMeasureToAnchor(d: Metric, xt: CrossTrack, p: Coord, a: Coord)
    ensures PerpendicularDistance(d, xt, p, a, a) == Distance(d, p, a)
  {
    assert Abs(ToRadians(a.latitude) - ToRadians(a.latitude)) == 0.0;
    assert Abs(ToRadians(a.longitude) - ToRadians(a.longitude)) == 0.0;
  }

  /** The decision of one loop iteration: `points[i]` is kept after the last
      kept point `points[prev]` when its perpendicular distance from the line
      `points[prev]`–`points[i + 1]` exceeds `ratio` times that line's length. */
  predicate Keep<T>(points: seq<T>, pos: T -> Coord, ratio: real, d: Metric, xt: CrossTrack, prev: nat, i: nat)
    requires prev < |points| && i + 1 < |points|
  {
    var a := pos(points[prev]);
    var b := pos(points[i + 1]);
    PerpendicularDistance(d, xt, pos(points[i]), a, b) > Distance(d, a, b) * ratio
  }

  /** The decision of the loop as a relation on positions, total so that the
      chain machinery below never looks inside the geometry. */
  function KeepRelation<T>(points: seq<T>, pos: T -> Coord, ratio: real, d: Metric, xt: CrossTrack): (nat, nat) -> bool {
    (prev: nat, i: nat) => prev < |points| && i + 1 < |points| && Keep(points, pos, ratio, d, xt, prev, i)
  }

  /** `tail` is what a greedy loop over the interior positions `[i, end)` keeps,
      given that the last kept position is `prev`: ascending positions, each
      accepted by `keep` against its predecessor in the chain, and every
      position skipped between two chain members rejected against the earlier one. */
  ghost predicate ChainFrom(keep: (nat, nat) -> bool, end: nat, prev: nat, i: nat, tail: seq<nat>) {
    && (forall k :: 0 <= k < |tail| ==> i <= tail[k] < end)
    && Increasing(tail)
    && (|tail| > 0 ==> keep(prev, tail[0]))
    && (forall m :: 1 <= m < |tail| ==> keep(tail[m - 1], tail[m]))
    && (forall j :: i <= j < (if |tail| > 0 then tail[0] else end) ==> !keep(prev, j))
    && (forall m, j :: 0 <= m < |tail| && tail[m] < j < (if m + 1 < |tail| then tail[m + 1] else end) ==>
          !keep(tail[m], j))
  }

  /** The positions the greedy loop keeps from `i` on. */
  function Retained(keep: (nat, nat) -> bool, end: nat, prev: nat, i: nat): (r: seq<nat>)
    requires prev < i <= end
    ensures forall k :: 0 <= k < |r| ==> i <= r[k] < end
    decreases end - i
  {
    if i == end then []
    else if keep(prev, i) then [i] + Retained(keep, end, i, i + 1)
    else Retained(keep, end, prev, i + 1)
  }

  /** Prefixing a kept `i` to a chain from `i` gives a chain from `prev`. */
  lemma {:induction false} ChainCons(keep: (nat, nat) -> bool, end: nat, prev: nat, i: nat, rest: seq<nat>)
    requires prev < i < end && keep(prev, i)
    requires ChainFrom(keep, end, i, i + 1, rest)
    ensures ChainFrom(keep, end, prev, i, [i] + rest)
  {
    var tail := [i] + rest;
    assert forall k :: 1 <= k < |tail| ==> tail[k] == rest[k - 1];
    forall m | 1 <= m < |tail| ensures keep(tail[m - 1], tail[m]) {
      if m > 1 {
        assert tail[m - 1] == rest[m - 2] && tail[m] == rest[m - 1];
      }
    }
    forall m, j | 0 <= m < |tail| && tail[m] < j < (if m + 1 < |tail| then tail[m + 1] else end)
      ensures !keep(tail[m], j)
    {
      if m > 0 {
        assert tail[m] == rest[m - 1];
      }
    }
  }

  /** Prefixing a rejected position `i` to the range of a chain keeps it a chain. */
  lemma {:induction false} ChainUnskip(keep: (nat, nat) -> bool, end: nat, prev: nat, i: nat, tail: seq<nat>)
    requires prev < i < end && !keep(prev, i)
    requires ChainFrom(keep, end, prev, i + 1, tail)
    ensures ChainFrom(keep, end, prev, i, tail)
  {
  }

  /** The loop's result meets the declarative description of a chain. */
  lemma {:induction false} RetainedIsChain(keep: (nat, nat) -> bool, end: nat, prev: nat, i: nat)
    requires prev < i <= end
    ensures ChainFrom(keep, end, prev, i, Retained(keep, end, prev, i))
    decreases end - i
  {
    if i < end {
      if keep(prev, i) {
        RetainedIsChain(keep, end, i, i + 1);
        ChainCons(keep, end, prev, i, Retained(keep, end, i, i + 1));
      } else {
        RetainedIsChain(keep, end, prev, i + 1);
        ChainUnskip(keep, end, prev, i, Retained(keep, end, prev, i + 1));
      }
    }
  }

  /** Dropping the head `i` of a chain from `prev` leaves a chain from `i`. */
  lemma {:induction false} ChainTail(keep: (nat, nat) -> bool, end: nat, prev: nat, i: nat, tail: seq<nat>)
    requires prev < i < end
    requires ChainFrom(keep, end, prev, i, tail)
    requires |tail| > 0 && tail[0] == i
    ensures ChainFrom(keep, end, i, i + 1, tail[1..])
  {
    var rest := tail[1..];
    assert forall k :: 0 <= k < |rest| ==> rest[k] == tail[k + 1];
    forall m | 1 <= m < |rest| ensures keep(rest[m - 1], rest[m]) {
      assert rest[m - 1] == tail[m] && rest[m] == tail[m + 1];
    }
    forall m, j | 0 <= m < |rest| && rest[m] < j < (if m + 1 < |rest| then rest[m + 1] else end)
      ensures !keep(rest[m], j)
    {
      assert rest[m] == tail[m + 1];
    }
    forall j | i + 1 <= j < (if |rest| > 0 then rest[0] else end) ensures !keep(i, j) {
      assert tail[0] < j;
    }
  }

  /** A chain from `prev` contains `i` first exactly when the loop keeps `i`. */
  lemma {:induction false} ChainHead(keep: (nat, nat) -> bool, end: nat, prev: nat, i: nat, tail: seq<nat>)
    requires prev < i < end
    requires ChainFrom(keep, end, prev, i, tail)
    ensures keep(prev, i) <==> (|tail| > 0 && tail[0] == i)
  {
  }

  /** A chain from `prev` at `i` that does not keep `i` is a chain at `i + 1`. */
  lemma {:induction false} ChainSkip(keep: (nat, nat) -> bool, end: nat, prev: nat, i: nat, tail: seq<nat>)
    requires prev < i < end
    requires ChainFrom(keep, end, prev, i, tail)
    requires |tail| == 0 || tail[0] != i
    ensures ChainFrom(keep, end, prev, i + 1, tail)
  {
  }

  /** One kept step of the loop, stated on the result sequence alone. */
  lemma {:induction false} RetainedKeepStep(keep: (nat, nat) -> bool, end: nat, prev: nat, i: nat, tail: seq<nat>)
    requires prev < i < end && keep(prev, i)
    requires |tail| > 0 && tail[0] == i && tail[1..] == Retained(keep, end, i, i + 1)
    ensures tail == Retained(keep, end, prev, i)
  {
    assert tail == [tail[0]] + tail[1..];
  }

  /** The chain is determined: any sequence meeting `ChainFrom` is the one the loop builds. */
  lemma {:induction false} ChainIsRetained(keep: (nat, nat) -> bool, end: nat, prev: nat, i: nat, tail: seq<nat>)
    requires prev < i <= end
    requires ChainFrom(keep, end, prev, i, tail)
    ensures tail == Retained(keep, end, prev, i)
    decreases end - i
  {
    if i == end {
      assert |tail| == 0;
    } else {
      ChainHead(keep, end, prev, i, tail);
      if keep(prev, i) {
        ChainTail(keep, end, prev, i, tail);
        ChainIsRetained(keep, end, i, i + 1, tail[1..]);
        RetainedKeepStep(keep, end, prev, i, tail);
      } else {
        ChainSkip(keep, end, prev, i, tail);
        ChainIsRetained(keep, end, prev, i + 1, tail);
      }
    }
  }

  /** `idx` lists the positions the removal keeps: the first and last point
      and, between them, the greedy chain of `ChainFrom` anchored at 0. */
  ghost predicate IsGreedyChain<T>(points: seq<T>, pos: T -> Coord, ratio: real, d: Metric, xt: CrossTrack,
                                   idx: seq<nat>)
    requires |points| > 2
  {
    && |idx| >= 2
    && idx[0] == 0
    && idx[|idx| - 1] == |points| - 1
    && ChainFrom(KeepRelation(points, pos, ratio, d, xt), |points| - 1, 0, 1, idx[1..|idx| - 1])
  }

  /** The positions kept by the loop of `removeCollinearPoints`. */
  function RetainedIndices<T>(points: seq<T>, pos: T -> Coord, ratio: real, d: Metric, xt: CrossTrack): (r: seq<nat>)
    requires |points| > 2
    ensures IsGreedyChain(points, pos, ratio, d, xt, r)
    ensures Increasing(r)
    ensures forall k :: 0 <= k < |r| ==> r[k] < |points|
  {
    var keep := KeepRelation(points, pos, ratio, d, xt);
    var inner := Retained(keep, |points| - 1, 0, 1);
    RetainedIsChain(keep, |points| - 1, 0, 1);
    FramedChain(keep, |points| - 1, inner);
    [0] + inner + [|points| - 1]
  }

  /** A chain over the interior positions, framed by the first and the last
      position. */
  lemma FramedChain(keep: (nat, nat) -> bool, end: nat, inner: seq<nat>)
    requires 0 < end && ChainFrom(keep, end, 0, 1, inner)
    ensures var r := [0] + inner + [end];
      && |r| >= 2 && r[0] == 0 && r[|r| - 1] == end
      && r[1..|r| - 1] == inner
      && Increasing(r)
      && (forall k :: 0 <= k < |r| ==> r[k] <= end)
  {
    var r := [0] + inner + [end];
    assert r[1..|r| - 1] == inner;
    IncreasingFramed(0, inner, end);
    forall k | 0 <= k < |r| ensures r[k] <= end {
      if 0 < k < |r| - 1 {
        assert r[k] == inner[k - 1];
      }
    }
  }

  /** `removeCollinearPoints`: at most two points come back unchanged;
      otherwise the result is the selection of the greedy chain. */
  function RemoveCollinearPoints<T>(points: seq<T>, pos: T -> Coord, toleranceRatio: Option<real>,
                                    d: Metric, xt: CrossTrack): (r: seq<T>)
    ensures |points| <= 2 ==> r == points
    ensures |points| > 2 ==>
      var idx := RetainedIndices(points, pos, toleranceRatio.GetOr(DefaultToleranceRatio), d, xt);
      && IsGreedyChain(points, pos, toleranceRatio.GetOr(DefaultToleranceRatio), d, xt, idx)
      && IsSelection(r, points, idx)
    ensures |points| > 0 ==> |r| > 0 && r[0] == points[0] && r[|r| - 1] == points[|points| - 1]
    ensures |points| > 2 ==> 2 <= |r| <= |points|
  {
    if |points| <= 2 then points
    else
      var idx := RetainedIndices(points, pos, toleranceRatio.GetOr(DefaultToleranceRatio), d, xt);
      IncreasingLength(idx, |points|);
      Gather(points, idx)
  }

  /** Any greedy chain is the one the removal selects, so `IsGreedyChain`
      characterises the result without reference to how it is built. */
  lemma {:induction false} RemovalIsGreedyChain<T>(points: seq<T>, pos: T -> Coord, toleranceRatio: Option<real>,
                                                  d: Metric, xt: CrossTrack, idx: seq<nat>)
    requires |points| > 2
    requires IsGreedyChain(points, pos, toleranceRatio.GetOr(DefaultToleranceRatio), d, xt, idx)
    ensures forall k :: 0 <= k < |idx| ==> idx[k] < |points|
    ensures RemoveCollinearPoints(points, pos, toleranceRatio, d, xt) == Gather(points, idx)
  {
    var ratio := toleranceRatio.GetOr(DefaultToleranceRatio);
    var inner := idx[1..|idx| - 1];
    ChainIsRetained(KeepRelation(points, pos, ratio, d, xt), |points| - 1, 0, 1, inner);
    assert idx == [0] + inner + [|points| - 1];
  }

  /** A point lying on the line between its neighbours (zero perpendicular
      distance) is never kept, whatever non-negative ratio is used. */
  lemma OnLinePointDropped<T>(points: seq<T>, pos: T -> Coord, ratio: real, d: Metric, xt: CrossTrack,
                              prev: nat, i: nat)
    requires IsDistance(d) && 0.0 <= ratio
    requires prev < |points| && i + 1 < |points|
    requires PerpendicularDistance(d, xt, pos(points[i]), pos(points[prev]), pos(points[i + 1])) == 0.0
    ensures !Keep(points, pos, ratio, d, xt, prev, i)
  {
    var a := pos(points[prev]);
    var b := pos(points[i + 1]);
    assert Distance(d, a, b) >= 0.0;
  }

  /** Out-and-back: when the next point returns exactly to the last kept one,
      the current point is kept precisely when it lies any distance away. */
  lemma ReturnToAnchor<T>(points: seq<T>, pos: T -> Coord, ratio: real, d: Metric, xt: CrossTrack,
                          prev: nat, i: nat)
    requires IsDistance(d)
    requires prev < |points| && i + 1 < |points|
    requires pos(points[prev]) == pos(points[i + 1])
    ensures Keep(points, pos, ratio, d, xt, prev, i) <==> Distance(d, pos(points[i]), pos(points[prev])) > 0.0
  {
    var a := pos(points[prev]);
    CoincidentEndsMeasureToAnchor(d, xt, pos(points[i]), a);
    assert Distance(d, a, a) == 0.0;
  }
}
