/** Long stays (`getSignificantLocations` in utils/common/geoUtils.ts): the
    dwell detector run with caller-chosen thresholds, reduced to the group
    centers. */
module SignificantLocations {
  import opened Wrappers
  import opened Seqs
  import opened RideTypes
  import opened GeoUtils
  import opened StationaryPointDetection

  const DefaultMinDuration: int := 1800     // 30 minutes, in seconds
  const DefaultMaxDistance: real := 200.0   // metres

  /** The detector options built from the two optional parameters. */
  function SignificantOptions(minDuration: Option<int>, maxDistance: Option<real>): (o: StationaryDetectionOptions)
    ensures DistanceThreshold(o) == maxDistance.GetOr(DefaultMaxDistance)
    ensures TimeThreshold(o) == minDuration.GetOr(DefaultMinDuration)
  {
    StationaryDetectionOptions(Some(maxDistance.GetOr(DefaultMaxDistance)),
                               Some(minDuration.GetOr(DefaultMinDuration)))
  }

  /** One location per detected stay, in order: the average point of the
      stay's samples. Every stay spans at least two samples within
      `maxDistance` of its first one and lasts at least `minDuration`. */
  function GetSignificantLocations(points: seq<TrackPoint>, d: Metric,
                                   minDuration: Option<int>, maxDistance: Option<real>)
    : (r: seq<TrackPoint>)
    ensures var groups := DetectStationaryGroups(points, d, SignificantOptions(minDuration, maxDistance));
      && |r| == |groups|
      && forall k :: 0 <= k < |r| ==>
           && groups[k].startIndex < groups[k].endIndex < |points|
           && IsStationaryGroup(points, d, maxDistance.GetOr(DefaultMaxDistance),
                                minDuration.GetOr(DefaultMinDuration), groups[k])
           && r[k] == groups[k].centerPoint
  {
    ExtractStationaryMarkers(DetectStationaryGroups(points, d, SignificantOptions(minDuration, maxDistance)))
  }

  /** Each location lies inside the latitude and longitude ranges of the
      samples of its stay, and its timestamp is the rounded midpoint of the
      stay's first and last timestamps. */
  lemma {:induction false} LocationsInsideStays(points: seq<TrackPoint>, d: Metric,
                                                minDuration: Option<int>, maxDistance: Option<real>, k: nat)
    requires k < |GetSignificantLocations(points, d, minDuration, maxDistance)|
    ensures var groups := DetectStationaryGroups(points, d, SignificantOptions(minDuration, maxDistance));
      var loc := GetSignificantLocations(points, d, minDuration, maxDistance)[k];
      var s, e := groups[k].startIndex, groups[k].endIndex;
      && s < e < |points|
      && (exists j :: s <= j <= e && points[j].latitude <= loc.latitude)
      && (exists j :: s <= j <= e && loc.latitude <= points[j].latitude)
      && (exists j :: s <= j <= e && points[j].longitude <= loc.longitude)
      && (exists j :: s <= j <= e && loc.longitude <= points[j].longitude)
      && 0 <= 2 * loc.timestamp - (points[s].timestamp + points[e].timestamp) <= 1
  {
    var groups := DetectStationaryGroups(points, d, SignificantOptions(minDuration, maxDistance));
    assert IsStationaryGroup(points, d, maxDistance.GetOr(DefaultMaxDistance),
                             minDuration.GetOr(DefaultMinDuration), groups[k]);
    CenterInsideGroup(points, d, groups[k]);
  }
}
