/** Geographic extremes of a trip (utils/tripAnalyzer.ts). */
module TripAnalyzer {
  import opened Wrappers
  import opened Seqs
  import opened RideTypes
  import opened GeoUtils

  datatype GeographicExtremes = GeographicExtremes(
    northernmost: TrackPoint,
    southernmost: TrackPoint,
    westernmost: TrackPoint,
    easternmost: TrackPoint)

  /** Each of `x`'s four samples is the earliest sample of `pts` that is
      furthest north, south, west or east respectively. */
  ghost predicate AreExtremesOf(pts: seq<TrackPoint>, x: GeographicExtremes) {
    && (exists i: nat :: FirstArgMax(Latitudes(pts), i) && i < |pts| && x.northernmost == pts[i])
    && (exists i: nat :: FirstArgMin(Latitudes(pts), i) && i < |pts| && x.southernmost == pts[i])
    && (exists i: nat :: FirstArgMin(Longitudes(pts), i) && i < |pts| && x.westernmost == pts[i])
    && (exists i: nat :: FirstArgMax(Longitudes(pts), i) && i < |pts| && x.easternmost == pts[i])
  }

  /** The result of `analyzeTripData`. */
  datatype TripAnalysis = TripAnalysis(geographicExtremes: GeographicExtremes)

  /** `analyzeTripData`: a trip without samples is an error; otherwise each
      extreme is the earliest sample with the greatest (least) latitude or
      longitude, because the scan replaces its candidate only on a strict
      improvement. */
  method AnalyzeTripData(trip: Trip<TrackPoint>) returns (r: Result<TripAnalysis>)
    ensures r.Err? <==> trip.trackPoints == []
    ensures r.Ok? ==> AreExtremesOf(trip.trackPoints, r.value.geographicExtremes)
  {
    var pts := trip.trackPoints;
    if |pts| == 0 {
      return Err("No track points available for analysis");
    }
    var lats := Latitudes(pts);
    var lons := Longitudes(pts);
    var north, south, west, east := 0, 0, 0, 0;
    var i := 0;
    while i < |pts|
      invariant 0 <= i <= |pts|
      invariant north < |pts| && south < |pts| && west < |pts| && east < |pts|
      invariant (north < i || north == 0) && (south < i || south == 0)
      invariant (west < i || west == 0) && (east < i || east == 0)
      invariant forall j :: 0 <= j < i ==> lats[j] <= lats[north] && lats[south] <= lats[j]
      invariant forall j :: 0 <= j < i ==> lons[west] <= lons[j] && lons[j] <= lons[east]
      invariant forall j :: 0 <= j < north ==> lats[j] < lats[north]
      invariant forall j :: 0 <= j < south ==> lats[south] < lats[j]
      invariant forall j :: 0 <= j < west ==> lons[west] < lons[j]
      invariant forall j :: 0 <= j < east ==> lons[j] < lons[east]
    {
      var p := pts[i];
      if p.latitude > pts[north].latitude { north := i; }
      if p.latitude < pts[south].latitude { south := i; }
      if p.longitude < pts[west].longitude { west := i; }
      if p.longitude > pts[east].longitude { east := i; }
      i := i + 1;
    }
    assert FirstArgMax(lats, north) && FirstArgMin(lats, south);
    assert FirstArgMin(lons, west) && FirstArgMax(lons, east);
    return Ok(TripAnalysis(GeographicExtremes(pts[north], pts[south], pts[west], pts[east])));
  }

  /** There is one first maximum: the position the analysis reports is determined. */
  lemma FirstArgMaxUnique(keys: seq<real>, i: nat, k: nat)
    requires FirstArgMax(keys, i) && FirstArgMax(keys, k)
    ensures i == k
  {
    assert keys[i] == keys[k];
  }

  /** For a single-sample trip every extreme is that sample. */
  method SinglePointExtremes(p: TrackPoint, info: TripInfo) returns (x: GeographicExtremes)
    ensures x == GeographicExtremes(p, p, p, p)
  {
    var r := AnalyzeTripData(Trip(info, [p]));
    x := r.value.geographicExtremes;
    var pts := [p];
    ghost var n: nat :| FirstArgMax(Latitudes(pts), n) && n < |pts| && x.northernmost == pts[n];
    ghost var s: nat :| FirstArgMin(Latitudes(pts), s) && s < |pts| && x.southernmost == pts[s];
    ghost var w: nat :| FirstArgMin(Longitudes(pts), w) && w < |pts| && x.westernmost == pts[w];
    ghost var e: nat :| FirstArgMax(Longitudes(pts), e) && e < |pts| && x.easternmost == pts[e];
  }
}
