/** Renaming between the service's single-letter sample fields and readable
    names, lifted to sequences, trips, routes and route lists
    (utils/dataTransformer.ts). */
module DataTransformer {
  import opened Wrappers
  import opened RideTypes

  /** `transformAPITrackPoint`: x, y, e, t become longitude, latitude,
      elevation, timestamp; s, h, c become speed, heart rate, cadence. */
  function TransformAPITrackPoint(a: APITrackPoint): (r: TrackPoint)
    ensures r.longitude == a.x && r.latitude == a.y && r.elevation == a.e && r.timestamp == a.t
    ensures r.speed == a.s && r.heartRate == a.h && r.cadence == a.c
  {
    TrackPoint(a.x, a.y, a.e, a.t, a.s, a.h, a.c)
  }

  /** `transformTrackPointToAPI`, the inverse renaming: converting back gives the point again. */
  function TransformTrackPointToAPI(p: TrackPoint): (r: APITrackPoint)
    ensures TransformAPITrackPoint(r) == p
  {
    APITrackPoint(p.longitude, p.latitude, p.elevation, p.timestamp, p.speed, p.heartRate, p.cadence)
  }

  /** The renaming loses nothing in the other direction either. */
  lemma APIPointRoundTrip(a: APITrackPoint)
    ensures TransformTrackPointToAPI(TransformAPITrackPoint(a)) == a
  {
  }

  /** `transformAPITrackPoints`: element-wise, same length and order. */
  function TransformAPITrackPoints(ps: seq<APITrackPoint>): (r: seq<TrackPoint>)
    ensures |r| == |ps|
    ensures forall i :: 0 <= i < |ps| ==> r[i] == TransformAPITrackPoint(ps[i])
  {
    seq(|ps|, i requires 0 <= i < |ps| => TransformAPITrackPoint(ps[i]))
  }

  /** `transformTrackPointsToAPI`: element-wise, and it undoes `TransformAPITrackPoints`. */
  function TransformTrackPointsToAPI(ps: seq<TrackPoint>): (r: seq<APITrackPoint>)
    ensures |r| == |ps|
    ensures forall i :: 0 <= i < |ps| ==> r[i] == TransformTrackPointToAPI(ps[i])
    ensures TransformAPITrackPoints(r) == ps
  {
    seq(|ps|, i requires 0 <= i < |ps| => TransformTrackPointToAPI(ps[i]))
  }

  /** Converting a sample sequence to readable names and back gives it again. */
  lemma {:induction false} APIPointsRoundTrip(ps: seq<APITrackPoint>)
    ensures TransformTrackPointsToAPI(TransformAPITrackPoints(ps)) == ps
  {
    var back := TransformTrackPointsToAPI(TransformAPITrackPoints(ps));
    forall i | 0 <= i < |ps| ensures back[i] == ps[i] {
      APIPointRoundTrip(ps[i]);
    }
  }

  /** `transformAPITrip`: every trip field is copied and only the samples are renamed. */
  function TransformAPITrip(t: Trip<APITrackPoint>): (r: Trip<TrackPoint>)
    ensures r.info == t.info
    ensures TransformTrackPointsToAPI(r.trackPoints) == t.trackPoints
  {
    APIPointsRoundTrip(t.trackPoints);
    Trip(t.info, TransformAPITrackPoints(t.trackPoints))
  }

  function TransformAPITripData(data: TripData<APITrackPoint>): (r: TripData<TrackPoint>)
    ensures r.trip.info == data.trip.info
    ensures TransformTrackPointsToAPI(r.trip.trackPoints) == data.trip.trackPoints
  {
    TripData(TransformAPITrip(data.trip))
  }

  /** `transformAPIRouteTrackPoint`: x, y, e become longitude, latitude, elevation. */
  function TransformAPIRouteTrackPoint(a: APIRouteTrackPoint): (r: RouteTrackPoint)
    ensures r.longitude == a.x && r.latitude == a.y && r.elevation == a.e
  {
    RouteTrackPoint(a.x, a.y, a.e)
  }

  /** `transformRouteTrackPointToAPI`, the inverse renaming. */
  function TransformRouteTrackPointToAPI(p: RouteTrackPoint): (r: APIRouteTrackPoint)
    ensures TransformAPIRouteTrackPoint(r) == p
  {
    APIRouteTrackPoint(p.longitude, p.latitude, p.elevation)
  }

  lemma APIRoutePointRoundTrip(a: APIRouteTrackPoint)
    ensures TransformRouteTrackPointToAPI(TransformAPIRouteTrackPoint(a)) == a
  {
  }

  function TransformAPIRouteTrackPoints(ps: seq<APIRouteTrackPoint>): (r: seq<RouteTrackPoint>)
    ensures |r| == |ps|
    ensures forall i :: 0 <= i < |ps| ==> r[i] == TransformAPIRouteTrackPoint(ps[i])
  {
    seq(|ps|, i requires 0 <= i < |ps| => TransformAPIRouteTrackPoint(ps[i]))
  }

  function TransformRouteTrackPointsToAPI(ps: seq<RouteTrackPoint>): (r: seq<APIRouteTrackPoint>)
    ensures |r| == |ps|
    ensures forall i :: 0 <= i < |ps| ==> r[i] == TransformRouteTrackPointToAPI(ps[i])
    ensures TransformAPIRouteTrackPoints(r) == ps
  {
    seq(|ps|, i requires 0 <= i < |ps| => TransformRouteTrackPointToAPI(ps[i]))
  }

  lemma {:induction false} APIRoutePointsRoundTrip(ps: seq<APIRouteTrackPoint>)
    ensures TransformRouteTrackPointsToAPI(TransformAPIRouteTrackPoints(ps)) == ps
  {
    var back := TransformRouteTrackPointsToAPI(TransformAPIRouteTrackPoints(ps));
    forall i | 0 <= i < |ps| ensures back[i] == ps[i] {
      APIRoutePointRoundTrip(ps[i]);
    }
  }

  /** `transformAPIRoute`: every route field is copied; samples are renamed
      when present and stay absent when absent (an empty list is present). */
  function TransformAPIRoute(route: Route<APIRouteTrackPoint>): (r: Route<RouteTrackPoint>)
    ensures r.info == route.info
    ensures r.trackPoints.None? <==> route.trackPoints.None?
    ensures route.trackPoints.Some? ==> TransformRouteTrackPointsToAPI(r.trackPoints.value) == route.trackPoints.value
  {
    match route.trackPoints
    case None => Route(route.info, None)
    case Some(ps) =>
      APIRoutePointsRoundTrip(ps);
      Route(route.info, Some(TransformAPIRouteTrackPoints(ps)))
  }

  /** `transformAPIRouteData`: the wrapped route converted as a whole. */
  function TransformAPIRouteData(data: RouteData<APIRouteTrackPoint>): (r: RouteData<RouteTrackPoint>)
    ensures r.route.info == data.route.info
    ensures r.route.trackPoints.None? <==> data.route.trackPoints.None?
    ensures data.route.trackPoints.Some? ==>
      TransformRouteTrackPointsToAPI(r.route.trackPoints.value) == data.route.trackPoints.value
  {
    RouteData(TransformAPIRoute(data.route))
  }

  /** `transformAPIRoutesListResponse`: same routes in the same order with
      their samples dropped, and the page metadata unchanged. */
  function TransformAPIRoutesListResponse(list: RoutesList<APIRouteTrackPoint>): (r: RoutesList<RouteTrackPoint>)
    ensures r.meta == list.meta
    ensures |r.routes| == |list.routes|
    ensures forall i :: 0 <= i < |list.routes| ==> r.routes[i].info == list.routes[i].info && r.routes[i].trackPoints.None?
  {
    RoutesList(seq(|list.routes|, i requires 0 <= i < |list.routes| => Route(list.routes[i].info, None)), list.meta)
  }
}
