/**
 * The five GTFS tables the engine reads. The loader declares every column
 * TEXT, so every field is a string, coordinates and stop sequences included.
 * A table is a sequence of rows in scan order.
 */
module Gtfs {
  import opened TextOrder

  datatype Stop = Stop(stopId: Str, stopName: Str, stopLat: Str, stopLon: Str)

  datatype Route = Route(routeId: Str, routeShortName: Str, routeLongName: Str)

  datatype Trip = Trip(tripId: Str, routeId: Str, serviceId: Str, tripHeadsign: Str)

  datatype StopTime = StopTime(
    tripId: Str,
    stopId: Str,
    stopSequence: Str,
    arrivalTime: Str,
    departureTime: Str)

  /** One `calendar` row: a flag column per weekday ('1' when the service runs) and a date range, all text. */
  datatype Calendar = Calendar(
    serviceId: Str,
    monday: Str,
    tuesday: Str,
    wednesday: Str,
    thursday: Str,
    friday: Str,
    saturday: Str,
    sunday: Str,
    startDate: Str,
    endDate: Str)

  /** The loaded store. */
  datatype Feed = Feed(
    stops: seq<Stop>,
    routes: seq<Route>,
    trips: seq<Trip>,
    stopTimes: seq<StopTime>,
    calendar: seq<Calendar>)

  /** The names of the seven weekday columns of `calendar`. */
  predicate IsDayColumn(name: Str)
  {
    name in {"monday", "tuesday", "wednesday", "thursday", "friday", "saturday", "sunday"}
  }

  /** The value of the weekday column called `day`. */
  function DayFlag(c: Calendar, day: Str): Str
    requires IsDayColumn(day)
  {
    match day
    case "monday" => c.monday
    case "tuesday" => c.tuesday
    case "wednesday" => c.wednesday
    case "thursday" => c.thursday
    case "friday" => c.friday
    case "saturday" => c.saturday
    case _ => c.sunday
  }

  /** A row of a stop lookup: `SELECT stop_id, stop_name`. */
  datatype StopCandidate = StopCandidate(stopId: Str, stopName: Str)

  /** A row of the trip queries (the source's `Trip` result interface). */
  datatype Itinerary = Itinerary(
    routeShortName: Str,
    routeLongName: Str,
    tripId: Str,
    tripHeadsign: Str,
    serviceId: Str,
    departureTime: Str,
    arrivalTime: Str)
}
