/**
 * The route handlers written inline in api/src/index.ts. They run the same
 * SQL as the service layer, the next-train route looking each station up with
 * `LIMIT 1` instead of taking the first of five candidates. Each handler is
 * modelled on its own steps and proved to answer as the shared handler does.
 */
module InlineApi {
  import opened Wrappers
  import opened TextOrder
  import opened Ordering
  import opened JsStrings
  import opened Gtfs
  import opened GtfsService
  import opened DateTimeUtils
  import opened TimetableController

  /** The answers of the two station routes. */
  datatype StationAnswer =
    | StationList(stations: seq<Stop>)
    | StationDetail(station: Stop)
    | StationNotFound(stationId: Str)

  /** `GET /stations`: every stop by name, or the matching ones by name, at most 50. */
  function ListStations(feed: Feed, q: Option<Str>): (r: StationAnswer)
    ensures r.StationList?
    ensures !IsTruthy(q) ==> multiset(r.stations) == multiset(feed.stops) && SortedBy(r.stations, StopName)
    ensures IsTruthy(q) ==> |r.stations| <= StationListLimit && SortedBy(r.stations, StopName)
    ensures IsTruthy(q) ==> forall s :: s in r.stations ==> s in feed.stops && NameMatches(s, q.value)
    ensures IsTruthy(q) ==> SmallestBy(r.stations, MatchingStops(feed, q.value), StopName, StationListLimit)
  {
    StationList(FindStations(feed, q))
  }

  /** `GET /stations/:stationId`: the stop with that id, or not found. */
  function StationById(feed: Feed, stationId: Str): (r: StationAnswer)
    ensures !r.StationList?
    ensures r.StationNotFound? <==> forall s :: s in feed.stops ==> s.stopId != stationId
    ensures r.StationNotFound? ==> r.stationId == stationId
    ensures r.StationDetail? ==> r.station in feed.stops && r.station.stopId == stationId
  {
    match FindStationById(feed, stationId)
    case None => StationNotFound(stationId)
    case Some(s) => StationDetail(s)
  }

  /** The first row of a `LIMIT 1` station lookup. */
  function LookupOne(feed: Feed, name: Str): (r: Option<StopCandidate>)
    ensures r.None? <==> forall s :: s in feed.stops ==> !NameMatches(s, name)
  {
    var rows := StopCandidates(feed, name, 1);
    if rows == [] then None
    else
      assert rows[0] in rows;
      Some(rows[0])
  }

  /** `GET /:departureStation/:arrivalStation` as written inline. */
  function InlineTimetable(feed: Feed, departure: Str, arrival: Str, dateInput: Option<Str>, parsed: DateParse, today: LocalToday): (r: Outcome)
    ensures r.InvalidDate? <==> IsTruthy(dateInput) && parsed.Invalid?
    ensures r.DepartureNotFound? <==> !r.InvalidDate? && forall s :: s in feed.stops ==> !NameMatches(s, departure)
  {
    if IsTruthy(dateInput) && parsed.Invalid? then InvalidDate
    else
      var date := EffectiveDate(dateInput, today);
      var depRows := StopCandidates(feed, departure, CandidateLimit);
      var arrRows := StopCandidates(feed, arrival, CandidateLimit);
      if depRows == [] then DepartureNotFound(departure)
      else if arrRows == [] then ArrivalNotFound(arrival)
      else
        InlineTimetableForStops(feed, departure, arrival, depRows[0], arrRows[0], date, DayOfWeekName(WeekdayOf(dateInput, parsed, today)))
  }

  /** The rest of the inline timetable route once both stops are found. */
  function InlineTimetableForStops(feed: Feed, departure: Str, arrival: Str, d: StopCandidate, a: StopCandidate, date: Str, dayName: Str): (r: Outcome)
    requires IsDayColumn(dayName)
    ensures r == TimetableForStops(feed, departure, arrival, d, a, date, dayName)
  {
    var services := ActiveServiceIds(feed, dayName, RemoveAll(date, '-'));
    if |services| == 0 then NoServices(date, d.stopName, a.stopName)
    else
      var results := OrderedTrips(feed, DayQuery(d.stopId, a.stopId, services), TimetableLimit);
      if |results| == 0 then NoTrips(date, d.stopName, a.stopName)
      else Timetable(departure, arrival, d.stopName, a.stopName, date, results)
  }

  /** The inline timetable route answers exactly as `getTimetable` does. */
  lemma InlineTimetableAgrees(feed: Feed, departure: Str, arrival: Str, dateInput: Option<Str>, parsed: DateParse, today: LocalToday)
    ensures InlineTimetable(feed, departure, arrival, dateInput, parsed, today) == GetTimetable(feed, departure, arrival, dateInput, parsed, today)
  {
    assert StopCandidates(feed, departure, CandidateLimit) == FindStopCandidates(feed, departure);
    assert StopCandidates(feed, arrival, CandidateLimit) == FindStopCandidates(feed, arrival);
  }

  /** `GET /:departureStation/:arrivalStation/next` as written inline. */
  function InlineNextTrain(feed: Feed, departure: Str, arrival: Str, clock: MadridClock): (r: Outcome)
    ensures r.DepartureNotFound? <==> forall s :: s in feed.stops ==> !NameMatches(s, departure)
    ensures !r.InvalidDate? && !r.NoTrips? && !r.Timetable?
  {
    var dep := LookupOne(feed, departure);
    var arr := LookupOne(feed, arrival);
    if dep.None? then DepartureNotFound(departure)
    else if arr.None? then ArrivalNotFound(arrival)
    else
      var d := dep.value;
      var a := arr.value;
      var services := ActiveServiceIds(feed, DayOfWeekName(clock.weekday), Compact(clock));
      if |services| == 0 then NoServices(Dashed(clock), d.stopName, a.stopName)
      else
        var rows := OrderedTrips(feed, LaterQuery(d.stopId, a.stopId, services, ClockTime(clock)), 1);
        if rows == [] then NoFurtherTrains(Dashed(clock), ClockTime(clock), d.stopName, a.stopName)
        else NextTrain(departure, arrival, d.stopName, a.stopName, Dashed(clock), ClockTime(clock), rows[0])
  }

  /** A `LIMIT 1` lookup finds the first of the five candidates. */
  lemma LookupOneIsFirstCandidate(feed: Feed, name: Str)
    ensures LookupOne(feed, name) == ResolvedStop(feed, name)
  {
    FirstCandidateIndependentOfLimit(feed, name, 1, CandidateLimit);
  }

  /** The inline next-train route answers exactly as `getNextTrain` does. */
  lemma InlineNextTrainAgrees(feed: Feed, departure: Str, arrival: Str, clock: MadridClock)
    ensures InlineNextTrain(feed, departure, arrival, clock) == GetNextTrain(feed, departure, arrival, clock)
  {
    LookupOneIsFirstCandidate(feed, departure);
    LookupOneIsFirstCandidate(feed, arrival);
  }

  /** The inline weekday helper (index.ts) indexes the same names as the shared one. */
  lemma InlineDayNamesAgree(d: DayIndex)
    ensures ["sunday", "monday", "tuesday", "wednesday", "thursday", "friday", "saturday"][d] == DayOfWeekName(d)
  {
  }
}
