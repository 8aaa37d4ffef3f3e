/** Ranking stages of the investigation-point selector
    (utils/converter/investigationPoints/tripToInvestigationPoints.ts): the
    score sort, the proximity merge and the isolation bonus.

    The merge and the bonus read distances through a cache keyed by
    coordinates printed to six decimals; the model calls the distance
    directly, which is what the cache returns whenever distinct positions do
    not share a key. */
module InvestigationMerge {
  import opened Wrappers
  import opened Seqs
  import opened RideTypes
  import opened GeoUtils
  import opened InvestigationCandidates

  const ProtectedScore: int := 80        // never removed by the merge
  const MergeDistance: real := 1000.0    // metres
  const EarlyExitDistance: real := 10.0  // metres

  function ScoredDistance(d: Metric, a: ScoredPoint, b: ScoredPoint): real {
    PointDistance(d, a.point, b.point)
  }

  // ---------------------------------------------------------------- stable sort

  /** Scores never increase along `s`. */
  ghost predicate NonIncreasing(s: seq<ScoredPoint>) {
    forall i, j :: 0 <= i < j < |s| ==> s[j].score <= s[i].score
  }

  /** Insert `x` after every element scoring at least as much. */
  function Insert(x: ScoredPoint, s: seq<ScoredPoint>): (r: seq<ScoredPoint>)
    ensures |r| == |s| + 1
    ensures multiset(r) == multiset(s) + multiset{x}
    ensures forall y :: y in r <==> y == x || y in s
  {
    if s == [] then [x]
    else if s[0].score >= x.score then
      assert s == [s[0]] + s[1..];
      [s[0]] + Insert(x, s[1..])
    else
      [x] + s
  }

  lemma {:induction false} InsertKeepsOrder(x: ScoredPoint, s: seq<ScoredPoint>)
    requires NonIncreasing(s)
    ensures NonIncreasing(Insert(x, s))
  {
    if s != [] && s[0].score >= x.score {
      var tail := Insert(x, s[1..]);
      InsertKeepsOrder(x, s[1..]);
      forall k | 0 <= k < |tail| ensures tail[k].score <= s[0].score {
        if tail[k] != x {
          assert tail[k] in s[1..];
          var m :| 0 <= m < |s[1..]| && s[1..][m] == tail[k];
          assert s[m + 1] == tail[k];
        }
      }
      assert Insert(x, s) == [s[0]] + tail;
    }
  }

  /** `Array.prototype.sort` with `(a, b) => b.score - a.score`: insertion
      sort, which like the source's sort keeps equal scores in input order. */
  function SortByScore(s: seq<ScoredPoint>): (r: seq<ScoredPoint>)
    ensures NonIncreasing(r)
    ensures multiset(r) == multiset(s)
    ensures |r| == |s|
  {
    if s == [] then []
    else
      assert s == s[..|s| - 1] + [s[|s| - 1]];
      var sorted := SortByScore(s[..|s| - 1]);
      InsertKeepsOrder(s[|s| - 1], sorted);
      Insert(s[|s| - 1], sorted)
  }

  /** The entries of `s` scoring exactly `v`, in their order in `s`. */
  function OfScore(s: seq<ScoredPoint>, v: int): seq<ScoredPoint> {
    if s == [] then []
    else (if s[0].score == v then [s[0]] else []) + OfScore(s[1..], v)
  }

  lemma {:induction false} OfScoreAppend(a: seq<ScoredPoint>, b: seq<ScoredPoint>, v: int)
    ensures OfScore(a + b, v) == OfScore(a, v) + OfScore(b, v)
  {
    if a != [] {
      assert (a + b)[0] == a[0];
      assert (a + b)[1..] == a[1..] + b;
      OfScoreAppend(a[1..], b, v);
    } else {
      assert a + b == b;
    }
  }

  /** No entry scoring below `v` contributes to the entries of score `v`. */
  lemma {:induction false} OfScoreNone(s: seq<ScoredPoint>, v: int)
    requires forall j :: 0 <= j < |s| ==> s[j].score < v
    ensures OfScore(s, v) == []
  {
    if s != [] {
      OfScoreNone(s[1..], v);
    }
  }

  /** Inserting `x` into a sorted sequence puts it after every entry of the
      same score and leaves the order of the others alone. */
  lemma {:induction false} InsertOfScore(x: ScoredPoint, s: seq<ScoredPoint>, v: int)
    requires NonIncreasing(s)
    ensures OfScore(Insert(x, s), v) == OfScore(s, v) + (if x.score == v then [x] else [])
    decreases |s|, 1
  {
    var hx := if x.score == v then [x] else [];
    if s == [] {
      assert OfScore([x], v) == hx + OfScore([], v);
    } else if s[0].score >= x.score {
      NonIncreasingTail(s);
      InsertBehind(x, s, v);
    } else {
      InsertInFront(x, s, v);
    }
  }

  lemma {:induction false} InsertBehind(x: ScoredPoint, s: seq<ScoredPoint>, v: int)
    requires s != [] && s[0].score >= x.score
    requires NonIncreasing(s[1..])
    ensures OfScore(Insert(x, s), v) == OfScore(s, v) + (if x.score == v then [x] else [])
    decreases |s|, 0
  {
    InsertOfScore(x, s[1..], v);
    InsertBehindUnfold(x, s);
    OfScoreCons(s[0], Insert(x, s[1..]), v);
    ConcatAssoc(if s[0].score == v then [s[0]] else [], OfScore(s[1..], v),
                if x.score == v then [x] else []);
  }

  /** Inserting behind the head keeps the head in front. */
  lemma {:induction false} InsertBehindUnfold(x: ScoredPoint, s: seq<ScoredPoint>)
    requires s != [] && s[0].score >= x.score
    ensures Insert(x, s) == [s[0]] + Insert(x, s[1..])
  {
  }

  lemma ConcatAssoc<T>(a: seq<T>, b: seq<T>, c: seq<T>)
    ensures a + (b + c) == (a + b) + c
  {
  }

  /** The entries of score `v` of `[a] + t`: `a` when it scores `v`, then those of `t`. */
  lemma {:induction false} OfScoreCons(a: ScoredPoint, t: seq<ScoredPoint>, v: int)
    ensures OfScore([a] + t, v) == (if a.score == v then [a] else []) + OfScore(t, v)
  {
    assert ([a] + t)[0] == a;
    assert ([a] + t)[1..] == t;
  }

  lemma {:induction false} NonIncreasingTail(s: seq<ScoredPoint>)
    requires s != [] && NonIncreasing(s)
    ensures NonIncreasing(s[1..])
  {
    forall i, j | 0 <= i < j < |s[1..]| ensures s[1..][j].score <= s[1..][i].score {
      assert s[1..][i] == s[i + 1] && s[1..][j] == s[j + 1];
    }
  }

  lemma {:induction false} InsertInFront(x: ScoredPoint, s: seq<ScoredPoint>, v: int)
    requires NonIncreasing(s)
    requires s != [] && s[0].score < x.score
    ensures OfScore(Insert(x, s), v) == OfScore(s, v) + (if x.score == v then [x] else [])
  {
    assert Insert(x, s) == [x] + s;
    assert ([x] + s)[1..] == s;
    if x.score == v {
      OfScoreNone(s, v);
      assert OfScore([x] + s, v) == [x] + OfScore(s, v);
    } else {
      assert OfScore([x] + s, v) == [] + OfScore(s, v);
      assert [] + OfScore(s, v) == OfScore(s, v) + [];
    }
  }

  /** The score sort is stable: the entries of each score keep their input
      order. */
  lemma {:induction false} SortByScoreStable(s: seq<ScoredPoint>, v: int)
    ensures OfScore(SortByScore(s), v) == OfScore(s, v)
  {
    if s != [] {
      var pre, x := s[..|s| - 1], s[|s| - 1];
      var sorted := SortByScore(pre);
      assert SortByScore(s) == Insert(x, sorted);
      SortByScoreStable(pre, v);
      InsertOfScore(x, sorted, v);
      OfScoreSnoc(s, v);
    }
  }

  /** Dropping the last entry drops it from the entries of its score. */
  lemma {:induction false} OfScoreSnoc(s: seq<ScoredPoint>, v: int)
    requires s != []
    ensures var x := s[|s| - 1];
      OfScore(s, v) == OfScore(s[..|s| - 1], v) + (if x.score == v then [x] else [])
  {
    var pre, x := s[..|s| - 1], s[|s| - 1];
    OfScoreAppend(pre, [x], v);
    assert OfScore([x], v) == (if x.score == v then [x] else []) + OfScore([], v);
    assert s == pre + [x];
  }

  // ---------------------------------------------------------------- merge, as written

  function Remove(s: seq<ScoredPoint>, k: nat): (r: seq<ScoredPoint>)
    requires k < |s|
    ensures |r| == |s| - 1
    ensures forall x :: x in r ==> x in s
  {
    s[..k] + s[k + 1..]
  }

  /** The inner loop of the merge for candidate `c`, from accepted position
      `k` on: near both-protected pairs are skipped; otherwise the first near
      accepted point decides — a protected one rejects `c`, an unprotected one
      is replaced by a protected or strictly better `c`, else `c` is rejected. */
  function MergeInto(merged: seq<ScoredPoint>, c: ScoredPoint, d: Metric, k: nat): (r: seq<ScoredPoint>)
    requires k <= |merged|
    ensures forall x :: x in r ==> x in merged || x == c
    decreases |merged| - k
  {
    if k == |merged| then merged + [c]
    else
      var e := merged[k];
      if ScoredDistance(d, c, e) <= MergeDistance then
        if e.score >= ProtectedScore && c.score >= ProtectedScore then MergeInto(merged, c, d, k + 1)
        else if e.score >= ProtectedScore then merged
        else if c.score >= ProtectedScore then Remove(merged, k) + [c]
        else if c.score > e.score then Remove(merged, k) + [c]
        else merged
      else MergeInto(merged, c, d, k + 1)
  }

  /** The outer loop of the merge over the candidates, in order. */
  function MergeAll(cands: seq<ScoredPoint>, d: Metric): (r: seq<ScoredPoint>)
    ensures forall x :: x in r ==> x in cands
  {
    if cands == [] then []
    else MergeInto(MergeAll(cands[..|cands| - 1], d), cands[|cands| - 1], d, 0)
  }

  // ---------------------------------------------------------------- merge, on sorted candidates

  /** No point of `acc` from position `k` on lies within the merge distance of `c`. */
  predicate NoneNearFrom(acc: seq<ScoredPoint>, c: ScoredPoint, d: Metric, k: nat) {
    forall j :: k <= j < |acc| ==> ScoredDistance(d, c, acc[j]) > MergeDistance
  }

  /** What one merge step amounts to when candidates arrive in score order:
      a protected candidate is always appended; any other one exactly when
      no accepted point is near it. Nothing is ever removed. */
  function Accept(acc: seq<ScoredPoint>, c: ScoredPoint, d: Metric): seq<ScoredPoint> {
    if c.score >= ProtectedScore || NoneNearFrom(acc, c, d, 0) then acc + [c] else acc
  }

  function AcceptAll(cands: seq<ScoredPoint>, d: Metric): seq<ScoredPoint> {
    if cands == [] then [] else Accept(AcceptAll(cands[..|cands| - 1], d), cands[|cands| - 1], d)
  }

  /** When every accepted point scores at least as much as `c`, the removal
      branches cannot fire and the inner loop reduces to `Accept`. */
  lemma {:induction false} MergeIntoSorted(merged: seq<ScoredPoint>, c: ScoredPoint, d: Metric, k: nat)
    requires k <= |merged|
    requires forall j :: 0 <= j < |merged| ==> c.score <= merged[j].score
    ensures MergeInto(merged, c, d, k)
         == if c.score >= ProtectedScore || NoneNearFrom(merged, c, d, k) then merged + [c] else merged
    decreases |merged| - k
  {
    if k < |merged| {
      MergeIntoSorted(merged, c, d, k + 1);
    }
  }

  /** Elements of the sorted-order merge come from the candidates, in score order. */
  lemma {:induction false} AcceptAllShape(cands: seq<ScoredPoint>, d: Metric)
    requires NonIncreasing(cands)
    ensures forall x :: x in AcceptAll(cands, d) ==> x in cands
    ensures NonIncreasing(AcceptAll(cands, d))
  {
    if cands != [] {
      var pre := cands[..|cands| - 1];
      var c := cands[|cands| - 1];
      AcceptAllShape(pre, d);
      var acc := AcceptAll(pre, d);
      forall j | 0 <= j < |acc| ensures c.score <= acc[j].score {
        assert acc[j] in pre;
      }
    }
  }

  /** On candidates sorted by non-increasing score, the merge as written is `AcceptAll`. */
  lemma {:induction false} MergeAllSorted(cands: seq<ScoredPoint>, d: Metric)
    requires NonIncreasing(cands)
    ensures MergeAll(cands, d) == AcceptAll(cands, d)
  {
    if cands != [] {
      var pre := cands[..|cands| - 1];
      var c := cands[|cands| - 1];
      MergeAllSorted(pre, d);
      AcceptAllShape(pre, d);
      var acc := AcceptAll(pre, d);
      forall j | 0 <= j < |acc| ensures c.score <= acc[j].score {
        assert acc[j] in pre;
      }
      MergeIntoSorted(acc, c, d, 0);
    }
  }

  /** The accepted list only grows: merging a prefix of the candidates gives a
      prefix of the full result. */
  lemma {:induction false} AcceptAllGrows(cands: seq<ScoredPoint>, d: Metric, m: nat)
    requires m <= |cands|
    ensures AcceptAll(cands[..m], d) <= AcceptAll(cands, d)
    decreases |cands| - m
  {
    if m < |cands| {
      AcceptAllGrows(cands[..|cands| - 1], d, m);
      assert cands[..|cands| - 1][..m] == cands[..m];
    } else {
      assert cands[..m] == cands;
    }
  }

  /** Every protected candidate is accepted. */
  lemma {:induction false} ProtectedAccepted(cands: seq<ScoredPoint>, d: Metric, m: nat)
    requires m < |cands| && cands[m].score >= ProtectedScore
    ensures cands[m] in AcceptAll(cands, d)
  {
    AcceptAllGrows(cands, d, m + 1);
    assert cands[..m + 1][..m] == cands[..m];
    var pre := AcceptAll(cands[..m + 1], d);
    assert pre == AcceptAll(cands[..m], d) + [cands[m]];
    assert AcceptAll(cands, d)[|pre| - 1] == pre[|pre| - 1] == cands[m];
  }

  /** Two accepted points closer than the merge distance are both protected:
      of any such pair the later one was accepted only for being protected,
      and the earlier one scores at least as much. */
  ghost predicate CloseOnlyIfProtected(acc: seq<ScoredPoint>, d: Metric) {
    forall p, q :: 0 <= p < q < |acc| && ScoredDistance(d, acc[q], acc[p]) <= MergeDistance ==>
      acc[p].score >= ProtectedScore && acc[q].score >= ProtectedScore
  }

  lemma {:induction false} AcceptAllSpaced(cands: seq<ScoredPoint>, d: Metric)
    requires NonIncreasing(cands)
    ensures CloseOnlyIfProtected(AcceptAll(cands, d), d)
  {
    if cands != [] {
      var pre := cands[..|cands| - 1];
      var c := cands[|cands| - 1];
      AcceptAllSpaced(pre, d);
      AcceptAllShape(cands, d);
      AcceptAllShape(pre, d);
      var acc := AcceptAll(pre, d);
      var r := AcceptAll(cands, d);
      if r != acc {
        assert r == acc + [c];
        forall p, q | 0 <= p < q < |r| && ScoredDistance(d, r[q], r[p]) <= MergeDistance
          ensures r[p].score >= ProtectedScore && r[q].score >= ProtectedScore
        {
          if q == |acc| {
            assert r[q] == c;
            assert !NoneNearFrom(acc, c, d, 0) by {
              assert r[p] == acc[p];
            }
            assert c.score >= ProtectedScore;
          } else {
            assert r[p] == acc[p] && r[q] == acc[q];
          }
        }
      }
    }
  }

  // ---------------------------------------------------------------- isolation bonus

  /** No position other than `i` remains from `j` on, among `n`. */
  predicate NoOtherFrom(n: nat, i: nat, j: nat) {
    j >= n || (j == i && j + 1 == n)
  }

  /** The loop for accepted point `i` from position `j` on, as written: the
      least distance to another point so far (`None` is `Infinity`),
      stopping as soon as a new least distance is below `EarlyExitDistance`. */
  function NearestWithExit(merged: seq<ScoredPoint>, d: Metric, i: nat, j: nat, best: Option<real>): (r: Option<real>)
    requires i < |merged| && j <= |merged|
    ensures NoOtherFrom(|merged|, i, j) ==> r == best
    decreases |merged| - j
  {
    if j == |merged| then best
    else if j == i then NearestWithExit(merged, d, i, j + 1, best)
    else
      var dist := ScoredDistance(d, merged[i], merged[j]);
      if best.None? || dist < best.value then
        if dist < EarlyExitDistance then Some(dist) else NearestWithExit(merged, d, i, j + 1, Some(dist))
      else NearestWithExit(merged, d, i, j + 1, best)
  }

  /** The least distance from point `i` to the other points from `j` on,
      combined with `best`, scanned to the end. */
  function Nearest(merged: seq<ScoredPoint>, d: Metric, i: nat, j: nat, best: Option<real>): (r: Option<real>)
    requires i < |merged| && j <= |merged|
    ensures r.None? <==> best.None? && NoOtherFrom(|merged|, i, j)
    ensures r.Some? ==> forall k :: j <= k < |merged| && k != i ==> r.value <= ScoredDistance(d, merged[i], merged[k])
    ensures r.Some? && best.Some? ==> r.value <= best.value
    ensures r.Some? ==> ((best.Some? && r.value == best.value)
      || exists k :: j <= k < |merged| && k != i && r.value == ScoredDistance(d, merged[i], merged[k]))
    decreases |merged| - j
  {
    if j == |merged| then best
    else if j == i then Nearest(merged, d, i, j + 1, best)
    else
      var dist := ScoredDistance(d, merged[i], merged[j]);
      Nearest(merged, d, i, j + 1, if best.None? || dist < best.value then Some(dist) else best)
  }

  /** `Math.round(minDistance / 1000)`, none when the distance stayed infinite. */
  function Bonus(nearest: Option<real>): int {
    if nearest.None? then 0 else JsRound(nearest.value / 1000.0)
  }

  /** Starting from a non-negative `best`, the full scan ends between zero and `best`. */
  lemma {:induction false} NearestBetween(merged: seq<ScoredPoint>, d: Metric, i: nat, j: nat, best: real)
    requires IsDistance(d)
    requires i < |merged| && j <= |merged| && best >= 0.0
    ensures 0.0 <= Nearest(merged, d, i, j, Some(best)).value <= best
  {
    var full := Nearest(merged, d, i, j, Some(best));
    if full.value != best {
      var k :| j <= k < |merged| && k != i && full.value == ScoredDistance(d, merged[i], merged[k]);
    }
  }

  /** Below the early-exit distance the rounded kilometre bonus is zero. */
  lemma NearbyEarnsNothing(x: real)
    requires 0.0 <= x < EarlyExitDistance
    ensures Bonus(Some(x)) == 0
  {
  }

  /** Once a distance below the early-exit distance is found, both the value
      kept and the full scan's result earn no bonus. */
  lemma {:induction false} NearbyScanEarnsNothing(merged: seq<ScoredPoint>, d: Metric, i: nat, j: nat, dist: real)
    requires IsDistance(d)
    requires i < |merged| && j < |merged|
    requires dist == ScoredDistance(d, merged[i], merged[j]) && dist < EarlyExitDistance
    ensures Bonus(Some(dist)) == 0
    ensures Bonus(Nearest(merged, d, i, j + 1, Some(dist))) == 0
  {
    NearestBetween(merged, d, i, j + 1, dist);
    NearbyEarnsNothing(dist);
    NearbyEarnsNothing(Nearest(merged, d, i, j + 1, Some(dist)).value);
  }

  /** Stopping early changes nothing: it happens only below ten metres,
      where the rounded kilometre bonus is zero anyway. */
  lemma {:induction false} EarlyExitHarmless(merged: seq<ScoredPoint>, d: Metric, i: nat, j: nat, best: Option<real>)
    requires IsDistance(d)
    requires i < |merged| && j <= |merged|
    requires best.Some? ==> best.value >= 0.0
    ensures Bonus(NearestWithExit(merged, d, i, j, best)) == Bonus(Nearest(merged, d, i, j, best))
    decreases |merged| - j
  {
    if j < |merged| {
      var dist := ScoredDistance(d, merged[i], merged[j]);
      if j != i && (best.None? || dist < best.value) && dist < EarlyExitDistance {
        ExitAt(merged, d, i, j, best);
      } else {
        var next := ScanOn(merged, d, i, j, best);
        EarlyExitHarmless(merged, d, i, j + 1, next);
        ScanOnAgrees(merged, d, i, j, best, next);
      }
    }
  }

  /** Both scans reach position `j + 1` with the same running least distance
      `r`, so agreement from there on is agreement from `j`. */
  lemma ScanOnAgrees(merged: seq<ScoredPoint>, d: Metric, i: nat, j: nat, best: Option<real>, r: Option<real>)
    requires i < |merged| && j < |merged|
    requires NearestWithExit(merged, d, i, j, best) == NearestWithExit(merged, d, i, j + 1, r)
    requires Nearest(merged, d, i, j, best) == Nearest(merged, d, i, j + 1, r)
    requires Bonus(NearestWithExit(merged, d, i, j + 1, r)) == Bonus(Nearest(merged, d, i, j + 1, r))
    ensures Bonus(NearestWithExit(merged, d, i, j, best)) == Bonus(Nearest(merged, d, i, j, best))
  {
  }

  /** The scan stops at position `j`: the bonus is zero either way. */
  lemma {:induction false} ExitAt(merged: seq<ScoredPoint>, d: Metric, i: nat, j: nat, best: Option<real>)
    requires IsDistance(d)
    requires i < |merged| && j < |merged| && j != i
    requires var dist := ScoredDistance(d, merged[i], merged[j]);
      (best.None? || dist < best.value) && dist < EarlyExitDistance
    ensures Bonus(NearestWithExit(merged, d, i, j, best)) == Bonus(Nearest(merged, d, i, j, best))
  {
    var dist := ScoredDistance(d, merged[i], merged[j]);
    assert NearestWithExit(merged, d, i, j, best) == Some(dist);
    assert Nearest(merged, d, i, j, best) == Nearest(merged, d, i, j + 1, Some(dist));
    NearbyScanEarnsNothing(merged, d, i, j, dist);
  }

  /** The scan goes on past position `j` with the running least distance
      `r`, the same in both scans and never negative. */
  lemma {:induction false} ScanOn(merged: seq<ScoredPoint>, d: Metric, i: nat, j: nat, best: Option<real>)
    returns (r: Option<real>)
    requires IsDistance(d)
    requires i < |merged| && j < |merged|
    requires best.Some? ==> best.value >= 0.0
    requires var dist := ScoredDistance(d, merged[i], merged[j]);
      !(j != i && (best.None? || dist < best.value) && dist < EarlyExitDistance)
    ensures r.Some? ==> r.value >= 0.0
    ensures NearestWithExit(merged, d, i, j, best) == NearestWithExit(merged, d, i, j + 1, r)
    ensures Nearest(merged, d, i, j, best) == Nearest(merged, d, i, j + 1, r)
  {
    var dist := ScoredDistance(d, merged[i], merged[j]);
    r := if j != i && (best.None? || dist < best.value) then Some(dist) else best;
  }

  /** The bonus of accepted point `i`, as the source computes it. */
  function IsolationBonus(merged: seq<ScoredPoint>, d: Metric, i: nat): (b: int)
    requires i < |merged|
    ensures |merged| == 1 ==> b == 0
  {
    Bonus(NearestWithExit(merged, d, i, 0, None))
  }

  /** Under a distance function, the bonus is the rounded kilometre distance
      to the nearest other accepted point, and never negative. */
  lemma {:induction false} IsolationBonusIsNearest(merged: seq<ScoredPoint>, d: Metric, i: nat)
    requires IsDistance(d)
    requires i < |merged|
    ensures IsolationBonus(merged, d, i) == Bonus(Nearest(merged, d, i, 0, None))
    ensures IsolationBonus(merged, d, i) >= 0
  {
    EarlyExitHarmless(merged, d, i, 0, None);
    var n := Nearest(merged, d, i, 0, None);
    if n.Some? {
      var k :| 0 <= k < |merged| && k != i && n.value == ScoredDistance(d, merged[i], merged[k]);
      assert n.value >= 0.0;
    }
  }

  /** Adds each accepted point's isolation bonus to its score; the points
      themselves and their order are untouched. */
  function ApplyBonus(merged: seq<ScoredPoint>, d: Metric): (r: seq<ScoredPoint>)
    ensures |r| == |merged|
    ensures forall i :: 0 <= i < |r| ==>
      r[i].point == merged[i].point && r[i].score == merged[i].score + IsolationBonus(merged, d, i)
  {
    seq(|merged|, i requires 0 <= i < |merged| => ScoredPoint(merged[i].point, merged[i].score + IsolationBonus(merged, d, i)))
  }

  /** No score goes down, and a single accepted point keeps its score. */
  lemma {:induction false} BonusNeverLowers(merged: seq<ScoredPoint>, d: Metric)
    requires IsDistance(d)
    ensures forall i :: 0 <= i < |merged| ==> ApplyBonus(merged, d)[i].score >= merged[i].score
    ensures |merged| == 1 ==> ApplyBonus(merged, d) == merged
  {
    forall i | 0 <= i < |merged| ensures ApplyBonus(merged, d)[i].score >= merged[i].score {
      IsolationBonusIsNearest(merged, d, i);
    }
  }
}
