/** Waypoints of a drone mission and their validation (src/models/mission.py, class Waypoint).

    Coordinates, altitudes and timestamps are exact reals; a timestamp is a number of
    seconds on one common clock. */
module Waypoints {

  datatype Option<T> = None | Some(value: T)

  /** The reasons a waypoint or a mission is refused at construction. */
  datatype ValidationError =
    | NegativeCoordinates     // x < 0 or y < 0
    | NegativeAltitude        // z present and z < 0
    | NoWaypoints             // the mission's waypoint list is empty
    | EndNotAfterStart        // end_time <= start_time
    | TimestampOutsideWindow  // a timestamped waypoint lies outside [start_time, end_time]

  datatype Result<T> = Ok(value: T) | Err(error: ValidationError)

  /** A point the drone is scheduled to occupy; z (altitude) and the timestamp are optional. */
  datatype Waypoint = Waypoint(x: real, y: real, z: Option<real>, timestamp: Option<real>)

  /** The invariant every constructed waypoint satisfies. */
  predicate ValidWaypoint(w: Waypoint) {
    0.0 <= w.x && 0.0 <= w.y && (w.z.Some? ==> 0.0 <= w.z.value)
  }

  predicate Timed(w: Waypoint) {
    w.timestamp.Some?
  }

  /** The timestamp used as the sort key. It is only consulted when every waypoint of the
      list is timestamped; the value for an untimed waypoint is never observed. */
  function Key(w: Waypoint): real {
    match w.timestamp
    case Some(t) => t
    case None => 0.0
  }

  /** Waypoint construction: the coordinate check comes first, then the altitude check. */
  function NewWaypoint(x: real, y: real, z: Option<real>, timestamp: Option<real>): (r: Result<Waypoint>)
    ensures r.Ok? <==> ValidWaypoint(Waypoint(x, y, z, timestamp))
    ensures r.Ok? ==> r.value == Waypoint(x, y, z, timestamp)
    ensures r.Err? && (x < 0.0 || y < 0.0) ==> r.error == NegativeCoordinates
    ensures r.Err? && 0.0 <= x && 0.0 <= y ==> r.error == NegativeAltitude
  {
    if x < 0.0 || y < 0.0 then Err(NegativeCoordinates)
    else if z.Some? && z.value < 0.0 then Err(NegativeAltitude)
    else Ok(Waypoint(x, y, z, timestamp))
  }
}
