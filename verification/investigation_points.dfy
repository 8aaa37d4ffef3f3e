/** The investigation-point selector end to end
    (`tripToInvestigationPoints`): candidates, score sort, proximity merge,
    isolation bonus, final sort, cut to `maxPoints`, score stripped.
    An absent options object is the options value with every field `None`. */
module InvestigationPoints {
  import opened Wrappers
  import opened Seqs
  import opened RideTypes
  import opened GeoUtils
  import opened InvestigationCandidates
  import opened InvestigationMerge

  /** The candidates after the score sort and the proximity merge. */
  function Merged(cands: seq<ScoredPoint>, d: Metric): (r: seq<ScoredPoint>)
    ensures forall x :: x in r ==> x in multiset(cands)
  {
    MergeAll(SortByScore(cands), d)
  }

  /** The merged points with their bonus, sorted again by score. */
  function Ranked(cands: seq<ScoredPoint>, d: Metric): (r: seq<ScoredPoint>)
    ensures NonIncreasing(r)
    ensures multiset(r) == multiset(ApplyBonus(Merged(cands, d), d))
    ensures |r| == |Merged(cands, d)|
  {
    SortByScore(ApplyBonus(Merged(cands, d), d))
  }

  /** Everything after candidate generation: the points of the best-ranked
      entries, at most `maxPoints` of them when that is non-negative (a
      negative value counts back from the end, as `Array.prototype.slice`
      does). */
  function Select(cands: seq<ScoredPoint>, maxPoints: int, d: Metric): (r: seq<TrackPoint>)
    ensures maxPoints >= 0 ==> |r| <= maxPoints
    ensures var n := |Ranked(cands, d)|;
      && (maxPoints >= 0 ==> |r| == (if maxPoints < n then maxPoints else n))
      && (maxPoints < 0 ==> |r| == (if n + maxPoints > 0 then n + maxPoints else 0))
    ensures forall k :: 0 <= k < |r| ==> r[k] == Ranked(cands, d)[k].point
  {
    var chosen := JsSlicePrefix(Ranked(cands, d), maxPoints);
    seq(|chosen|, k requires 0 <= k < |chosen| => chosen[k].point)
  }

  /** `tripToInvestigationPoints`: nothing for an empty track, otherwise the
      selection from the track's candidates. */
  function TripToInvestigationPoints(tripData: TripData<TrackPoint>, options: InvestigationPointsOptions, d: Metric)
    : (r: seq<TrackPoint>)
    ensures tripData.trip.trackPoints == [] ==> r == []
    ensures MaxPoints(options) >= 0 ==> |r| <= MaxPoints(options)
    ensures tripData.trip.trackPoints != [] ==>
      r == Select(Candidates(tripData.trip.trackPoints, d, options), MaxPoints(options), d)
  {
    var points := tripData.trip.trackPoints;
    if |points| == 0 then []
    else
      var cands := Candidates(points, d, options);
      Select(cands, MaxPoints(options), d)
  }

  /** Every candidate scoring at least the protected score survives the merge;
      in particular the start and the end of the track always do. */
  lemma {:induction false} ProtectedSurviveMerge(cands: seq<ScoredPoint>, d: Metric, c: ScoredPoint)
    requires c in cands && c.score >= ProtectedScore
    ensures c in Merged(cands, d)
  {
    var sorted := SortByScore(cands);
    assert c in multiset(sorted);
    var m :| 0 <= m < |sorted| && sorted[m] == c;
    MergeAllSorted(sorted, d);
    ProtectedAccepted(sorted, d, m);
  }

  /** Two merged points within the merge distance of each other are both protected. */
  lemma {:induction false} MergedAreSpaced(cands: seq<ScoredPoint>, d: Metric)
    ensures CloseOnlyIfProtected(Merged(cands, d), d)
  {
    MergeAllSorted(SortByScore(cands), d);
    AcceptAllSpaced(SortByScore(cands), d);
  }

  /** A non-empty track with a positive `maxPoints` yields at least one
      point, the start point being a protected candidate. */
  lemma {:induction false} NonEmptyTrackYieldsPoint(tripData: TripData<TrackPoint>, options: InvestigationPointsOptions,
                                                    d: Metric)
    requires tripData.trip.trackPoints != [] && MaxPoints(options) > 0
    ensures |TripToInvestigationPoints(tripData, options, d)| >= 1
  {
    var points := tripData.trip.trackPoints;
    var cands := Candidates(points, d, options);
    ProtectedSurviveMerge(cands, d, cands[0]);
  }
}
