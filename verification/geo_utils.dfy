/** Geometry helpers shared by every stage (utils/common/geoUtils.ts).

    The haversine distance is not computed here: every operation receives the
    distance routine `d` as a parameter of type `Metric`, with the argument
    order of `calculateDistance(lat1, lon1, lat2, lon2)`, and relies only on what
    `IsDistance` states about it. */
module GeoUtils {
  import opened Seqs
  import opened RideTypes

  /** A position in decimal degrees (the source's `CoordinatePoint`). */
  datatype Coord = Coord(latitude: real, longitude: real)

  /** `calculateDistance(lat1, lon1, lat2, lon2)`, in metres. */
  type Metric = (real, real, real, real) -> real

  /** What the model relies on about the distance: it is never negative,
      symmetric, and zero between a position and itself. */
  ghost predicate IsDistance(d: Metric) {
    && (forall lat1, lon1, lat2, lon2 :: d(lat1, lon1, lat2, lon2) >= 0.0)
    && (forall lat1, lon1, lat2, lon2 :: d(lat1, lon1, lat2, lon2) == d(lat2, lon2, lat1, lon1))
    && (forall lat, lon :: d(lat, lon, lat, lon) == 0.0)
  }

  /** The assumptions are consistent: some routine meets them. */
  lemma DistanceAssumptionsSatisfiable()
    ensures IsDistance((lat1: real, lon1: real, lat2: real, lon2: real) => 0.0)
  {
  }

  function Distance(d: Metric, a: Coord, b: Coord): real {
    d(a.latitude, a.longitude, b.latitude, b.longitude)
  }

  function TrackCoord(p: TrackPoint): Coord {
    Coord(p.latitude, p.longitude)
  }

  function RouteCoord(p: RouteTrackPoint): Coord {
    Coord(p.latitude, p.longitude)
  }

  function PointDistance(d: Metric, p: TrackPoint, q: TrackPoint): real {
    Distance(d, TrackCoord(p), TrackCoord(q))
  }

  function Latitudes(points: seq<TrackPoint>): (r: seq<real>)
    ensures |r| == |points|
    ensures forall i :: 0 <= i < |points| ==> r[i] == points[i].latitude
  {
    seq(|points|, i requires 0 <= i < |points| => points[i].latitude)
  }

  function Longitudes(points: seq<TrackPoint>): (r: seq<real>)
    ensures |r| == |points|
    ensures forall i :: 0 <= i < |points| ==> r[i] == points[i].longitude
  {
    seq(|points|, i requires 0 <= i < |points| => points[i].longitude)
  }

  /** `Math.round((first + last) / 2)`: the midpoint, halves rounded up. */
  function MidpointTimestamp(first: int, last: int): (t: int)
    ensures 0 <= 2 * t - (first + last) <= 1
    ensures first <= last ==> first <= t <= last
  {
    JsRound((first + last) as real / 2.0)
  }

  /** `calculateAveragePoint`: the arithmetic mean of the latitudes and of
      the longitudes, the midpoint of the first and last timestamps, and
      every other field copied from the first point. The source reads
      `points[0]`, so it needs a non-empty input. */
  function AveragePoint(points: seq<TrackPoint>): (r: TrackPoint)
    requires |points| > 0
    ensures r.latitude == Mean(Latitudes(points))
    ensures r.longitude == Mean(Longitudes(points))
    ensures exists i :: 0 <= i < |points| && points[i].latitude <= r.latitude
    ensures exists i :: 0 <= i < |points| && r.latitude <= points[i].latitude
    ensures exists i :: 0 <= i < |points| && points[i].longitude <= r.longitude
    ensures exists i :: 0 <= i < |points| && r.longitude <= points[i].longitude
    ensures 0 <= 2 * r.timestamp - (points[0].timestamp + points[|points| - 1].timestamp) <= 1
    ensures points[0].timestamp <= points[|points| - 1].timestamp ==>
              points[0].timestamp <= r.timestamp <= points[|points| - 1].timestamp
    ensures r.elevation == points[0].elevation
    ensures r.speed == points[0].speed && r.heartRate == points[0].heartRate && r.cadence == points[0].cadence
  {
    points[0].(
      latitude := Mean(Latitudes(points)),
      longitude := Mean(Longitudes(points)),
      timestamp := MidpointTimestamp(points[0].timestamp, points[|points| - 1].timestamp))
  }

  /** The average of the slice `points[s..e]` (inclusive) lies inside the
      slice's latitude and longitude ranges, and its timestamp is the
      rounded midpoint of the slice's end timestamps. */
  lemma {:induction false} AverageOfSlice(points: seq<TrackPoint>, s: nat, e: nat)
    requires s <= e < |points|
    ensures var r := AveragePoint(points[s..e + 1]);
      && (exists j :: s <= j <= e && points[j].latitude <= r.latitude)
      && (exists j :: s <= j <= e && r.latitude <= points[j].latitude)
      && (exists j :: s <= j <= e && points[j].longitude <= r.longitude)
      && (exists j :: s <= j <= e && r.longitude <= points[j].longitude)
      && 0 <= 2 * r.timestamp - (points[s].timestamp + points[e].timestamp) <= 1
  {
    var members := points[s..e + 1];
    var r := AveragePoint(members);
    var a :| 0 <= a < |members| && members[a].latitude <= r.latitude;
    assert points[s + a] == members[a];
    var b :| 0 <= b < |members| && r.latitude <= members[b].latitude;
    assert points[s + b] == members[b];
    var c :| 0 <= c < |members| && members[c].longitude <= r.longitude;
    assert points[s + c] == members[c];
    var f :| 0 <= f < |members| && r.longitude <= members[f].longitude;
    assert points[s + f] == members[f];
    assert members[0] == points[s] && members[|members| - 1] == points[e];
  }

  /** A run of consecutive samples judged to be one dwell episode. */
  datatype StationaryGroup = StationaryGroup(
    startIndex: nat,          // index of the first member in the scanned sequence
    endIndex: nat,            // index of the last member, inclusive
    points: seq<TrackPoint>,  // the members
    centerPoint: TrackPoint,  // their average point
    duration: int,            // seconds from the first to the last member
    radius: real)             // greatest distance from the center to a member

  /** `extractStationaryMarkers`: the center of each group, in group order. */
  function ExtractStationaryMarkers(groups: seq<StationaryGroup>): (r: seq<TrackPoint>)
    ensures |r| == |groups|
    ensures forall i :: 0 <= i < |groups| ==> r[i] == groups[i].centerPoint
  {
    seq(|groups|, i requires 0 <= i < |groups| => groups[i].centerPoint)
  }
}
