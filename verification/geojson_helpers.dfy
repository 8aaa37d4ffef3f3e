/** Coordinate validation, bounding boxes and features for GeoJSON output
    (utils/converter/geojson/geojsonHelpers.ts).

    A GeoJSON track point may carry its position under either of two names
    (`longitude` or `x`, `latitude` or `y`, `elevation` or `e`); each field
    is an optional JavaScript number, and a number may be NaN. */
module GeoJsonHelpers {
  import opened Wrappers
  import opened Seqs

  /** A JavaScript number: a finite value or NaN. Every comparison with NaN is false. */
  datatype JsNumber = Num(value: real) | NaN

  predicate Below(v: JsNumber, bound: real) {
    v.Num? && v.value < bound
  }

  predicate Above(v: JsNumber, bound: real) {
    v.Num? && v.value > bound
  }

  predicate AtLeast(v: JsNumber, bound: real) {
    v.Num? && v.value >= bound
  }

  predicate AtMost(v: JsNumber, bound: real) {
    v.Num? && v.value <= bound
  }

  datatype GeoJsonTrackPoint = GeoJsonTrackPoint(
    x: Option<JsNumber>,
    y: Option<JsNumber>,
    longitude: Option<JsNumber>,
    latitude: Option<JsNumber>,
    elevation: Option<JsNumber>,
    e: Option<JsNumber>)

  /** `a ?? b` on optional fields. */
  function Coalesce<T>(a: Option<T>, b: Option<T>): (r: Option<T>)
    ensures a.Some? ==> r == a
    ensures a.None? ==> r == b
  {
    if a.Some? then a else b
  }

  function Lng(p: GeoJsonTrackPoint): Option<JsNumber> {
    Coalesce(p.longitude, p.x)
  }

  function Lat(p: GeoJsonTrackPoint): Option<JsNumber> {
    Coalesce(p.latitude, p.y)
  }

  function Elev(p: GeoJsonTrackPoint): Option<JsNumber> {
    Coalesce(p.elevation, p.e)
  }

  /** `[longitude, latitude]` or `[longitude, latitude, elevation]`. */
  datatype Position = Position(lng: real, lat: real, elevation: Option<JsNumber>)

  /** The test of `filterValidTrackPoints`: both coordinates are numbers within range. */
  predicate IsValidTrackPoint(p: GeoJsonTrackPoint) {
    && Lng(p).Some? && Lat(p).Some?
    && AtLeast(Lng(p).value, -180.0) && AtMost(Lng(p).value, 180.0)
    && AtLeast(Lat(p).value, -90.0) && AtMost(Lat(p).value, 90.0)
  }

  /** The throw conditions of `trackPointToCoordinate` as written: a missing
      coordinate, or one below or above its range. NaN is neither. */
  predicate PassesCoordinateChecksAsWritten(p: GeoJsonTrackPoint) {
    && Lng(p).Some? && Lat(p).Some?
    && !(Below(Lng(p).value, -180.0) || Above(Lng(p).value, 180.0))
    && !(Below(Lat(p).value, -90.0) || Above(Lat(p).value, 90.0))
  }

  /** The checks as written accept every valid point, and on points whose
      coordinates are not NaN they accept nothing else. */
  lemma AsWrittenAgreesAwayFromNaN(p: GeoJsonTrackPoint)
    ensures IsValidTrackPoint(p) ==> PassesCoordinateChecksAsWritten(p)
    ensures PassesCoordinateChecksAsWritten(p) && Lng(p).value.Num? && Lat(p).value.Num? ==> IsValidTrackPoint(p)
  {
  }

  /** A point whose longitude is NaN passes the checks as written, although
      its longitude is not between -180 and 180. */
  lemma NaNLongitudeSlipsThrough()
    ensures var p := GeoJsonTrackPoint(None, None, Some(NaN), Some(Num(35.0)), None, None);
      PassesCoordinateChecksAsWritten(p) && !IsValidTrackPoint(p)
  {
  }

  /** `trackPointToCoordinate`, with the range checks rejecting NaN as their
      messages promise: an error exactly when the point is not valid;
      otherwise longitude, latitude and, when the elevation is a number
      (NaN included), the elevation. The error texts paraphrase the source's
      messages without the offending value, whose number formatting is not
      modelled. */
  function TrackPointToCoordinate(p: GeoJsonTrackPoint): (r: Result<Position>)
    ensures r.Err? <==> !IsValidTrackPoint(p)
    ensures r.Ok? ==> Lng(p) == Some(Num(r.value.lng)) && Lat(p) == Some(Num(r.value.lat))
    ensures r.Ok? ==> -180.0 <= r.value.lng <= 180.0 && -90.0 <= r.value.lat <= 90.0
    ensures r.Ok? ==> r.value.elevation == Elev(p)
  {
    if Lng(p).None? || Lat(p).None? then
      Err("Invalid track point: longitude and latitude must be numbers")
    else if !(AtLeast(Lng(p).value, -180.0) && AtMost(Lng(p).value, 180.0)) then
      Err("Invalid longitude: must be between -180 and 180")
    else if !(AtLeast(Lat(p).value, -90.0) && AtMost(Lat(p).value, 90.0)) then
      Err("Invalid latitude: must be between -90 and 90")
    else
      Ok(Position(Lng(p).value.value, Lat(p).value.value, Elev(p)))
  }

  /** `filterValidTrackPoints`: exactly the valid points, in order. */
  function FilterValidTrackPoints(points: seq<GeoJsonTrackPoint>): (r: seq<GeoJsonTrackPoint>)
    ensures exists idx :: (IsSelection(r, points, idx)
      && forall j :: 0 <= j < |points| ==> (j in idx <==> IsValidTrackPoint(points[j])))
    ensures |r| <= |points|
  {
    Filter(points, (j: nat) => j < |points| && IsValidTrackPoint(points[j]))
  }

  /** The filter keeps a point exactly when it converts without error. */
  lemma {:induction false} FilteredPointsConvert(points: seq<GeoJsonTrackPoint>)
    ensures forall q :: q in FilterValidTrackPoints(points) ==> TrackPointToCoordinate(q).Ok?
    ensures forall q :: q in points && TrackPointToCoordinate(q).Ok? ==> q in FilterValidTrackPoints(points)
  {
    var r := FilterValidTrackPoints(points);
    var idx :| IsSelection(r, points, idx)
      && forall j :: 0 <= j < |points| ==> (j in idx <==> IsValidTrackPoint(points[j]));
    forall q | q in r ensures TrackPointToCoordinate(q).Ok? {
      var k :| 0 <= k < |r| && r[k] == q;
      assert idx[k] in idx;
    }
    forall q | q in points && TrackPointToCoordinate(q).Ok? ensures q in r {
      var j :| 0 <= j < |points| && points[j] == q;
      assert j in idx;
      var k :| 0 <= k < |idx| && idx[k] == j;
      assert r[k] == q;
    }
  }

  /** `[west, south, east, north]`. */
  datatype BBox = BBox(west: real, south: real, east: real, north: real)

  /** West, south, east and north bound every position and each is attained. */
  ghost predicate IsTightBBox(coords: seq<Position>, b: BBox) {
    && (forall k :: 0 <= k < |coords| ==> b.west <= coords[k].lng <= b.east)
    && (forall k :: 0 <= k < |coords| ==> b.south <= coords[k].lat <= b.north)
    && (exists k :: 0 <= k < |coords| && coords[k].lng == b.west)
    && (exists k :: 0 <= k < |coords| && coords[k].lng == b.east)
    && (exists k :: 0 <= k < |coords| && coords[k].lat == b.south)
    && (exists k :: 0 <= k < |coords| && coords[k].lat == b.north)
  }

  function Min(a: real, b: real): real {
    if a <= b then a else b
  }

  function Max(a: real, b: real): real {
    if a >= b then a else b
  }

  /** `calculateBBox`: an error for no coordinates, otherwise the tight box. */
  method CalculateBBox(coords: seq<Position>) returns (r: Result<BBox>)
    ensures r.Err? <==> coords == []
    ensures r.Ok? ==> IsTightBBox(coords, r.value)
  {
    if |coords| == 0 {
      return Err("Cannot calculate bbox from empty coordinates array");
    }
    var west, south, east, north := coords[0].lng, coords[0].lat, coords[0].lng, coords[0].lat;
    ghost var iw, iS, ie, iN := 0, 0, 0, 0;
    var k := 0;
    while k < |coords|
      invariant 0 <= k <= |coords|
      invariant 0 <= iw < |coords| && coords[iw].lng == west
      invariant 0 <= ie < |coords| && coords[ie].lng == east
      invariant 0 <= iS < |coords| && coords[iS].lat == south
      invariant 0 <= iN < |coords| && coords[iN].lat == north
      invariant forall j :: 0 <= j < k ==> west <= coords[j].lng <= east
      invariant forall j :: 0 <= j < k ==> south <= coords[j].lat <= north
    {
      var c := coords[k];
      if c.lng < west { iw := k; }
      if c.lng > east { ie := k; }
      if c.lat < south { iS := k; }
      if c.lat > north { iN := k; }
      west, south, east, north := Min(west, c.lng), Min(south, c.lat), Max(east, c.lng), Max(north, c.lat);
      k := k + 1;
    }
    return Ok(BBox(west, south, east, north));
  }

  /** A GeoJSON geometry. */
  datatype Geometry = Point(coordinate: Position) | LineString(coordinates: seq<Position>)

  /** A GeoJSON feature; `properties` is the attribute record, `None` for `null`. */
  datatype Feature<P> = Feature(geometry: Geometry, properties: Option<P>)

  /** `createPointFeature`: a point geometry at the coordinate, properties as given. */
  function CreatePointFeature<P>(coordinate: Position, properties: Option<P>): (r: Feature<P>)
    ensures r.geometry.Point? && r.geometry.coordinate == coordinate
    ensures r.properties == properties
  {
    Feature(Point(coordinate), properties)
  }

  /** `createLineStringFeature`: an error exactly for fewer than two
      coordinates; otherwise a line through them, in order. */
  function CreateLineStringFeature<P>(coordinates: seq<Position>, properties: Option<P>): (r: Result<Feature<P>>)
    ensures r.Err? <==> |coordinates| < 2
    ensures r.Ok? ==> r.value.geometry.LineString? && r.value.geometry.coordinates == coordinates
    ensures r.Ok? ==> r.value.properties == properties
  {
    if |coordinates| < 2 then Err("LineString must have at least 2 coordinates")
    else Ok(Feature(LineString(coordinates), properties))
  }
}
