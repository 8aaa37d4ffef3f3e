/** Point records exchanged with the tracking service (nodes/Ride/types).
    Numbers are modelled as mathematical reals, Unix timestamps as integers. */
module RideTypes {
  import opened Wrappers

  /** A track sample as the service sends it: single-letter field names. */
  datatype APITrackPoint = APITrackPoint(
    x: real,               // longitude
    y: real,               // latitude
    e: real,               // elevation in metres
    t: int,                // Unix time in seconds
    s: Option<real>,       // speed in m/s
    h: Option<real>,       // heart rate in bpm
    c: Option<real>)       // cadence in rpm

  /** A track sample with readable field names: the shape the whole core works on. */
  datatype TrackPoint = TrackPoint(
    longitude: real,
    latitude: real,
    elevation: real,
    timestamp: int,
    speed: Option<real>,
    heartRate: Option<real>,
    cadence: Option<real>)

  /** A planned-route sample as the service sends it: no time or sensor data. */
  datatype APIRouteTrackPoint = APIRouteTrackPoint(x: real, y: real, e: real)

  /** A planned-route sample with readable field names. */
  datatype RouteTrackPoint = RouteTrackPoint(longitude: real, latitude: real, elevation: real)

  /** Every field of a trip record except its samples (nodes/Ride/types/Trip.types.ts). */
  datatype TripInfo = TripInfo(
    id: int,
    name: string,
    description: Option<string>,
    departedAt: string,
    locality: Option<string>,
    administrativeArea: Option<string>,
    countryCode: Option<string>,
    distance: real,
    duration: real,
    elevationGain: real,
    elevationLoss: real,
    movingTime: Option<real>,
    averageSpeed: Option<real>,
    maxSpeed: Option<real>,
    averagePower: Option<real>,
    maxPower: Option<real>,
    averageHeartRate: Option<real>,
    maxHeartRate: Option<real>,
    averageCadence: Option<real>,
    maxCadence: Option<real>,
    calories: Option<real>,
    userId: int,
    visibility: int,
    createdAt: string,
    updatedAt: string)

  /** A trip with samples of type `P`: `APITrip` for `APITrackPoint`, `Trip` for `TrackPoint`. */
  datatype Trip<P> = Trip(info: TripInfo, trackPoints: seq<P>)

  /** The single-trip response envelope. */
  datatype TripData<P> = TripData(trip: Trip<P>)

  /** Every field of a route record except its samples (nodes/Ride/types/Route.types.ts). */
  datatype RouteInfo = RouteInfo(
    id: int,
    name: string,
    description: Option<string>,
    locality: Option<string>,
    administrativeArea: Option<string>,
    countryCode: Option<string>,
    distance: real,
    elevationGain: real,
    elevationLoss: real,
    userId: int,
    visibility: int,
    createdAt: string,
    updatedAt: string)

  /** A route whose samples, when present, have type `P`. */
  datatype Route<P> = Route(info: RouteInfo, trackPoints: Option<seq<P>>)

  /** The single-route response envelope. */
  datatype RouteData<P> = RouteData(route: Route<P>)

  /** Pagination metadata of list responses. */
  datatype PageMeta = PageMeta(total: int, page: int, perPage: int, totalPages: int)

  /** A page of routes. */
  datatype RoutesList<P> = RoutesList(routes: seq<Route<P>>, meta: PageMeta)
}
