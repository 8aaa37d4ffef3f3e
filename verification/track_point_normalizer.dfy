/** Track normalisation (utils/normalizers/trackPointNormalizer.ts): collinear
    point removal, then, for timed (trip) data only, stationary consolidation.

    The source probes the first element at run time to tell trip samples
    (numeric timestamp) from route samples; here the two kinds of sequence are
    the two variants of `PointSeries`, and the probes are decided by the
    variant: both record types carry numeric coordinates, and only trip
    samples carry a timestamp. */
module TrackPointNormalizer {
  import opened Wrappers
  import opened RideTypes
  import opened GeoUtils
  import opened LineDetection
  import opened StationaryPointDetection

  /** The strength presets of collinear removal. */
  datatype CollinearRemovalLevel = Low | Medium | High

  /** The tolerance ratio each preset stands for. */
  function LevelRatio(level: CollinearRemovalLevel): real {
    match level
    case Low => 0.002
    case Medium => 0.0035
    case High => 0.005
  }

  /** A higher preset removes more: its ratio is strictly larger. */
  lemma LevelsOrdered()
    ensures 0.0 < LevelRatio(Low) < LevelRatio(Medium) < LevelRatio(High)
  {
  }

  /** The points handed to the normalizer: trip samples or route samples. */
  datatype PointSeries = TripSeries(trip: seq<TrackPoint>) | RouteSeries(route: seq<RouteTrackPoint>)

  function Length(s: PointSeries): nat {
    match s
    case TripSeries(ps) => |ps|
    case RouteSeries(ps) => |ps|
  }

  /** `hasCoordinateProperties` of the first element. */
  predicate HasCoordinateProperties(s: PointSeries)
    requires Length(s) > 0
  {
    true
  }

  /** `hasTimedPointProperties` of the first element. */
  predicate HasTimedPointProperties(s: PointSeries)
    requires Length(s) > 0
  {
    s.TripSeries?
  }

  /** The removal stage on either kind of sequence. */
  function Simplify(s: PointSeries, ratio: real, d: Metric, xt: CrossTrack): (r: PointSeries)
    ensures r.TripSeries? == s.TripSeries?
    ensures Length(s) > 0 ==> Length(r) > 0
  {
    match s
    case TripSeries(ps) => TripSeries(RemoveCollinearPoints(ps, TrackCoord, Some(ratio), d, xt))
    case RouteSeries(ps) => RouteSeries(RemoveCollinearPoints(ps, RouteCoord, Some(ratio), d, xt))
  }

  /** `normalizeTrackPoints`: an empty sequence is returned as is; otherwise
      the removal runs at the chosen preset (medium when none is given), and
      consolidation follows exactly when the simplified sequence is timed. */
  function NormalizeTrackPoints(s: PointSeries, level: Option<CollinearRemovalLevel>, d: Metric, xt: CrossTrack)
    : (r: PointSeries)
    ensures Length(s) == 0 ==> r == s
    ensures r.TripSeries? == s.TripSeries?
    ensures s.RouteSeries? && Length(s) > 0 ==>
      r.route == RemoveCollinearPoints(s.route, RouteCoord, Some(LevelRatio(level.GetOr(Medium))), d, xt)
    ensures s.TripSeries? && Length(s) > 0 ==>
      r.trip == ConsolidateStationaryPoints(
        RemoveCollinearPoints(s.trip, TrackCoord, Some(LevelRatio(level.GetOr(Medium))), d, xt), d)
  {
    if Length(s) == 0 then s
    else
      var ratio := LevelRatio(level.GetOr(Medium));
      var simplified := if HasCoordinateProperties(s) then Simplify(s, ratio, d, xt) else s;
      if HasTimedPointProperties(simplified) then
        TripSeries(ConsolidateStationaryPoints(simplified.trip, d))
      else
        simplified
  }

  /** Both stages keep the endpoints, so a non-empty track keeps its first and last sample. */
  lemma {:induction false} NormalizeKeepsEndpoints(s: PointSeries, level: Option<CollinearRemovalLevel>,
                                                   d: Metric, xt: CrossTrack)
    requires Length(s) > 0
    ensures var r := NormalizeTrackPoints(s, level, d, xt);
      && Length(r) > 0
      && (s.TripSeries? ==> r.trip[0] == s.trip[0] && r.trip[|r.trip| - 1] == s.trip[|s.trip| - 1])
      && (s.RouteSeries? ==> r.route[0] == s.route[0] && r.route[|r.route| - 1] == s.route[|s.route| - 1])
  {
    var ratio := LevelRatio(level.GetOr(Medium));
    match s
    case TripSeries(ps) => TripKeepsEndpoints(ps, ratio, d, xt);
    case RouteSeries(ps) => RouteKeepsEndpoints(ps, ratio, d, xt);
  }

  /** Removal alone keeps a non-empty route's end samples. */
  lemma RouteKeepsEndpoints(ps: seq<RouteTrackPoint>, ratio: real, d: Metric, xt: CrossTrack)
    requires |ps| > 0
    ensures var r := RemoveCollinearPoints(ps, RouteCoord, Some(ratio), d, xt);
      |r| > 0 && r[0] == ps[0] && r[|r| - 1] == ps[|ps| - 1]
  {
  }

  /** Removal and then consolidation keep a non-empty trip's end samples. */
  lemma {:induction false} TripKeepsEndpoints(ps: seq<TrackPoint>, ratio: real, d: Metric, xt: CrossTrack)
    requires |ps| > 0
    ensures var r := ConsolidateStationaryPoints(RemoveCollinearPoints(ps, TrackCoord, Some(ratio), d, xt), d);
      |r| > 0 && r[0] == ps[0] && r[|r| - 1] == ps[|ps| - 1]
  {
    var simplified := RemoveCollinearPoints(ps, TrackCoord, Some(ratio), d, xt);
    assert simplified[0] == ps[0] && simplified[|simplified| - 1] == ps[|ps| - 1];
  }

  /** Route data is only ever thinned: the result is no longer than the input. */
  lemma RouteNeverGrows(s: PointSeries, level: Option<CollinearRemovalLevel>, d: Metric, xt: CrossTrack)
    requires s.RouteSeries?
    ensures Length(NormalizeTrackPoints(s, level, d, xt)) <= Length(s)
  {
  }
}
