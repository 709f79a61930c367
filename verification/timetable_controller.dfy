/**
 * The two timetable handlers (api/src/controllers/timetableController.ts):
 * the order in which a request is validated, its stations resolved, the
 * services of the day found and the trips looked up, and which outcome each
 * step ends in. Analytics events, log lines, message texts and HTTP status
 * codes are not modelled; the outcome is the kind of response and its data.
 */
module TimetableController {
  import opened Wrappers
  import opened TextOrder
  import opened Ordering
  import opened JsStrings
  import opened Gtfs
  import opened GtfsService
  import opened DateTimeUtils

  /** What `new Date(text)` gives: an invalid date, or a date and its local weekday. */
  datatype DateParse = Invalid | Valid(weekday: DayIndex)

  /** The server's local date and weekday (`new Date()`), read off the clock. */
  datatype LocalToday = LocalToday(year: nat, month: nat, day: nat, weekday: DayIndex)

  /**
   * The Europe/Madrid wall clock as `Intl.DateTimeFormat('en-CA')` parts (two
   * digits each but the year) and the weekday of that local date.
   */
  datatype MadridClock = MadridClock(year: Str, month: Str, day: Str, hour: Str, minute: Str, second: Str, weekday: DayIndex)

  /** The kinds of response of the two handlers, with the data each carries. */
  datatype Outcome =
    | InvalidDate
    | DepartureNotFound(departureQuery: Str)
    | ArrivalNotFound(arrivalQuery: Str)
    | NoServices(date: Str, departureUsed: Str, arrivalUsed: Str)
    | NoTrips(date: Str, departureUsed: Str, arrivalUsed: Str)
    | NoFurtherTrains(date: Str, time: Str, departureUsed: Str, arrivalUsed: Str)
    | Timetable(departureQuery: Str, arrivalQuery: Str, departureFound: Str, arrivalFound: Str, date: Str, timetable: seq<Itinerary>)
    | NextTrain(departureQuery: Str, arrivalQuery: Str, departureFound: Str, arrivalFound: Str, date: Str, time: Str, train: Itinerary)

  /** Today's date as `YYYY-MM-DD`: the year as printed, month and day padded to two digits. */
  function DefaultDate(t: LocalToday): (r: Str)
    ensures '-' in r
    ensures RemoveAll(r, '-') == Decimal(t.year) + PadStart(Decimal(t.month), 2) + PadStart(Decimal(t.day), 2)
  {
    var y := Decimal(t.year);
    var m := PadStart(Decimal(t.month), 2);
    var d := PadStart(Decimal(t.day), 2);
    PaddedHasNoHyphen(t.year, 0);
    PaddedHasNoHyphen(t.month, 2);
    PaddedHasNoHyphen(t.day, 2);
    DashedCompacts(y, m, d);
    assert (y + "-" + m + "-" + d)[|y|] == '-';
    y + "-" + m + "-" + d
  }

  /** A zero-padded decimal number holds digits only. */
  lemma PaddedHasNoHyphen(n: nat, width: nat)
    ensures '-' !in PadStart(Decimal(n), width)
    ensures '-' !in Decimal(n)
  {
    var s := Decimal(n);
    var r := PadStart(s, width);
    assert forall i :: 0 <= i < |s| ==> s[i] != '-' by {
      forall i | 0 <= i < |s| ensures s[i] != '-' { assert IsDigit(s[i]); }
    }
    if |s| < width {
      assert r[width - |s|..] == s;
      forall i | 0 <= i < |r|
        ensures r[i] != '-'
      {
        if i >= width - |s| {
          assert r[i] == s[i - (width - |s|)];
        }
      }
    }
  }

  /** Dates written with hyphens lose exactly the hyphens: `2024-01-15` becomes `20240115`. */
  lemma DashedCompacts(y: Str, m: Str, d: Str)
    requires '-' !in y && '-' !in m && '-' !in d
    ensures RemoveAll(y + "-" + m + "-" + d, '-') == y + m + d
  {
    var dash := "-";
    assert RemoveAll(dash, '-') == [];
    RemoveAllConcat(y, dash, '-');
    assert RemoveAll(y + dash, '-') == y;
    RemoveAllConcat(y + dash, m, '-');
    assert RemoveAll(y + dash + m, '-') == y + m;
    RemoveAllConcat(y + dash + m, dash, '-');
    assert RemoveAll(y + dash + m + dash, '-') == y + m;
    RemoveAllConcat(y + dash + m + dash, d, '-');
  }

  /** The stop the handlers use for a name: the first candidate, if any. */
  function ResolvedStop(feed: Feed, name: Str): (r: Option<StopCandidate>)
    ensures r.None? <==> forall s :: s in feed.stops ==> !NameMatches(s, name)
    ensures r.Some? ==> exists s :: s in feed.stops && NameMatches(s, name) && r.value == Candidate(s)
  {
    var cs := FindStopCandidates(feed, name);
    if cs == [] then None
    else
      assert cs[0] in cs;
      Some(cs[0])
  }

  /** The date the timetable handler answers for: the one given, or today's. */
  function EffectiveDate(dateInput: Option<Str>, today: LocalToday): (r: Str)
    ensures IsTruthy(dateInput) ==> r == dateInput.value
    ensures !IsTruthy(dateInput) ==> RemoveAll(r, '-') == Decimal(today.year) + PadStart(Decimal(today.month), 2) + PadStart(Decimal(today.day), 2)
  {
    if IsTruthy(dateInput) then dateInput.value else DefaultDate(today)
  }

  /** The weekday the handler uses: that of the given date, or today's when none is given. */
  function WeekdayOf(dateInput: Option<Str>, parsed: DateParse, today: LocalToday): (r: DayIndex)
    ensures IsTruthy(dateInput) && parsed.Valid? ==> r == parsed.weekday
    ensures !IsTruthy(dateInput) ==> r == today.weekday
  {
    if IsTruthy(dateInput) && parsed.Valid? then parsed.weekday else today.weekday
  }

  /**
   * The timetable steps once both stations are resolved: no services on the
   * date, or no direct trip on those services, or the day's trips.
   */
  function TimetableForStops(feed: Feed, departure: Str, arrival: Str, d: StopCandidate, a: StopCandidate, date: Str, dayName: Str): (r: Outcome)
    requires IsDayColumn(dayName)
    ensures r.NoServices? || r.NoTrips? || r.Timetable?
    ensures r.date == date
    ensures r.NoServices? <==> !AnyServiceRuns(feed, dayName, RemoveAll(date, '-'))
    ensures r.NoServices? || r.NoTrips? ==> r.departureUsed == d.stopName && r.arrivalUsed == a.stopName
    ensures r.NoTrips? ==> NoneQualify(feed, DayQuery(d.stopId, a.stopId, ActiveServiceIds(feed, dayName, RemoveAll(date, '-'))))
    ensures r.Timetable? ==> r.departureQuery == departure && r.arrivalQuery == arrival
                             && r.departureFound == d.stopName && r.arrivalFound == a.stopName
    ensures r.Timetable? ==> 1 <= |r.timetable| <= TimetableLimit && SortedBy(r.timetable, DepartureTime)
    ensures r.Timetable? ==> AllResultRows(feed, DayQuery(d.stopId, a.stopId, ActiveServiceIds(feed, dayName, RemoveAll(date, '-'))), r.timetable)
    ensures r.Timetable? ==> r.timetable == FindTrips(feed, d.stopId, a.stopId, ActiveServiceIds(feed, dayName, RemoveAll(date, '-')))
  {
    var services := ActiveServiceIds(feed, dayName, RemoveAll(date, '-'));
    if services == [] then NoServices(date, d.stopName, a.stopName)
    else
      var trips := FindTrips(feed, d.stopId, a.stopId, services);
      if trips == [] then NoTrips(date, d.stopName, a.stopName)
      else Timetable(departure, arrival, d.stopName, a.stopName, date, trips)
  }

  /**
   * `getTimetable`: a date that does not parse is rejected first; then the
   * departure and the arrival station must each match some stop, in that
   * order; then the first candidates are used for the rest of the steps.
   */
  function GetTimetable(feed: Feed, departure: Str, arrival: Str, dateInput: Option<Str>, parsed: DateParse, today: LocalToday): (r: Outcome)
    ensures r.InvalidDate? <==> IsTruthy(dateInput) && parsed.Invalid?
    ensures r.DepartureNotFound? <==> !r.InvalidDate? && ResolvedStop(feed, departure).None?
    ensures r.DepartureNotFound? ==> r.departureQuery == departure
    ensures r.ArrivalNotFound? <==> !r.InvalidDate? && ResolvedStop(feed, departure).Some? && ResolvedStop(feed, arrival).None?
    ensures r.ArrivalNotFound? ==> r.arrivalQuery == arrival
    ensures !r.InvalidDate? && !r.DepartureNotFound? && !r.ArrivalNotFound? ==>
              r == TimetableForStops(feed, departure, arrival, ResolvedStop(feed, departure).value, ResolvedStop(feed, arrival).value,
                                     EffectiveDate(dateInput, today), DayOfWeekName(WeekdayOf(dateInput, parsed, today)))
  {
    if IsTruthy(dateInput) && parsed.Invalid? then InvalidDate
    else
      var dep := ResolvedStop(feed, departure);
      var arr := ResolvedStop(feed, arrival);
      if dep.None? then DepartureNotFound(departure)
      else if arr.None? then ArrivalNotFound(arrival)
      else TimetableForStops(feed, departure, arrival, dep.value, arr.value,
                             EffectiveDate(dateInput, today), DayOfWeekName(WeekdayOf(dateInput, parsed, today)))
  }

  /**
   * Today's Madrid date as `YYYY-MM-DD`: the three parts separated by hyphens,
   * so that splitting at the hyphens gives them back.
   */
  function Dashed(c: MadridClock): (r: Str)
    ensures |r| == |c.year| + |c.month| + |c.day| + 2
    ensures '-' !in c.year && '-' !in c.month && '-' !in c.day ==> Split(r, '-') == [c.year, c.month, c.day]
  {
    var r := c.year + "-" + c.month + "-" + c.day;
    if '-' !in c.year && '-' !in c.month && '-' !in c.day then
      Split3(c.year, c.month, c.day, '-');
      r
    else r
  }

  /** Today's Madrid date as `YYYYMMDD`, the form the calendar columns hold. */
  function Compact(c: MadridClock): (r: Str)
    ensures |r| == |c.year| + |c.month| + |c.day|
    ensures '-' !in c.year && '-' !in c.month && '-' !in c.day ==> '-' !in r
  {
    c.year + c.month + c.day
  }

  /**
   * The next-train handler's two spellings of today's date differ only by
   * hyphens: stripping them from the dashed form gives the compact form the
   * calendar query uses.
   */
  lemma MadridDatesDifferByHyphens(c: MadridClock)
    requires '-' !in c.year && '-' !in c.month && '-' !in c.day
    ensures RemoveAll(Dashed(c), '-') == Compact(c)
    ensures |Dashed(c)| == |Compact(c)| + 2
  {
    DashedCompacts(c.year, c.month, c.day);
  }

  /**
   * The Madrid wall-clock time as `HH:MM:SS`, the form the `departure_time`
   * column holds: splitting at the colons gives the three parts back.
   */
  function ClockTime(c: MadridClock): (r: Str)
    ensures |r| == |c.hour| + |c.minute| + |c.second| + 2
    ensures ':' !in c.hour && ':' !in c.minute && ':' !in c.second ==> Split(r, ':') == [c.hour, c.minute, c.second]
  {
    var r := c.hour + ":" + c.minute + ":" + c.second;
    if ':' !in c.hour && ':' !in c.minute && ':' !in c.second then
      Split3(c.hour, c.minute, c.second, ':');
      r
    else r
  }

  /**
   * The next-train steps once both stations are resolved: no services today,
   * or no train after the current time, or the next one.
   */
  function NextForStops(feed: Feed, departure: Str, arrival: Str, d: StopCandidate, a: StopCandidate, clock: MadridClock): (r: Outcome)
    ensures r.NoServices? || r.NoFurtherTrains? || r.NextTrain?
    ensures r.date == Dashed(clock)
    ensures r.NoServices? <==> !AnyServiceRuns(feed, DayOfWeekName(clock.weekday), Compact(clock))
    ensures r.NoServices? || r.NoFurtherTrains? ==> r.departureUsed == d.stopName && r.arrivalUsed == a.stopName
    ensures r.NoFurtherTrains? || r.NextTrain? ==> r.time == ClockTime(clock)
    ensures r.NoFurtherTrains? ==>
              NoneQualify(feed, LaterQuery(d.stopId, a.stopId, ActiveServiceIds(feed, DayOfWeekName(clock.weekday), Compact(clock)), ClockTime(clock)))
    ensures r.NextTrain? ==> r.departureQuery == departure && r.arrivalQuery == arrival
                             && r.departureFound == d.stopName && r.arrivalFound == a.stopName
    ensures r.NextTrain? ==> StrLt(ClockTime(clock), r.train.departureTime)
    ensures r.NextTrain? ==>
              FindNextTrip(feed, d.stopId, a.stopId, ActiveServiceIds(feed, DayOfWeekName(clock.weekday), Compact(clock)), ClockTime(clock)) == Some(r.train)
  {
    var services := ActiveServiceIds(feed, DayOfWeekName(clock.weekday), Compact(clock));
    if services == [] then NoServices(Dashed(clock), d.stopName, a.stopName)
    else
      match FindNextTrip(feed, d.stopId, a.stopId, services, ClockTime(clock))
      case None => NoFurtherTrains(Dashed(clock), ClockTime(clock), d.stopName, a.stopName)
      case Some(t) => NextTrain(departure, arrival, d.stopName, a.stopName, Dashed(clock), ClockTime(clock), t)
  }

  /**
   * `getNextTrain`: the departure and the arrival station must each match
   * some stop, in that order; then the first candidates are used with the
   * Madrid date, weekday and time.
   */
  function GetNextTrain(feed: Feed, departure: Str, arrival: Str, clock: MadridClock): (r: Outcome)
    ensures !r.InvalidDate?
    ensures r.DepartureNotFound? <==> ResolvedStop(feed, departure).None?
    ensures r.DepartureNotFound? ==> r.departureQuery == departure
    ensures r.ArrivalNotFound? <==> ResolvedStop(feed, departure).Some? && ResolvedStop(feed, arrival).None?
    ensures r.ArrivalNotFound? ==> r.arrivalQuery == arrival
    ensures !r.DepartureNotFound? && !r.ArrivalNotFound? ==>
              r == NextForStops(feed, departure, arrival, ResolvedStop(feed, departure).value, ResolvedStop(feed, arrival).value, clock)
  {
    var dep := ResolvedStop(feed, departure);
    var arr := ResolvedStop(feed, arrival);
    if dep.None? then DepartureNotFound(departure)
    else if arr.None? then ArrivalNotFound(arrival)
    else NextForStops(feed, departure, arrival, dep.value, arr.value, clock)
  }

  /**
   * A "no services" answer depends on the stops and the calendar only: a feed
   * with other routes, trips and stop times answers the same.
   */
  lemma NoServicesIgnoresTrips(f1: Feed, f2: Feed, departure: Str, arrival: Str, dateInput: Option<Str>, parsed: DateParse, today: LocalToday)
    requires f1.stops == f2.stops && f1.calendar == f2.calendar
    requires GetTimetable(f1, departure, arrival, dateInput, parsed, today).NoServices?
    ensures GetTimetable(f2, departure, arrival, dateInput, parsed, today) == GetTimetable(f1, departure, arrival, dateInput, parsed, today)
  {
    assert MatchingStops(f1, departure) == MatchingStops(f2, departure);
    assert MatchingStops(f1, arrival) == MatchingStops(f2, arrival);
  }

  /**
   * Asking for the timetable of today's Madrid date, the timetable handler
   * queries the same services as the next-train handler, so the two agree on
   * every outcome before the trip lookup.
   */
  lemma HandlersAgreeBeforeTrips(feed: Feed, departure: Str, arrival: Str, clock: MadridClock, today: LocalToday)
    requires '-' !in clock.year && '-' !in clock.month && '-' !in clock.day
    ensures var t := GetTimetable(feed, departure, arrival, Some(Dashed(clock)), Valid(clock.weekday), today);
            var n := GetNextTrain(feed, departure, arrival, clock);
            && (t.DepartureNotFound? <==> n.DepartureNotFound?)
            && (t.ArrivalNotFound? <==> n.ArrivalNotFound?)
            && (t.NoServices? <==> n.NoServices?)
            && (t.NoServices? ==> t == n)
  {
    DashedCompacts(clock.year, clock.month, clock.day);
    assert Dashed(clock)[|clock.year|] == '-';
    assert IsTruthy(Some(Dashed(clock)));
  }

  /** The stop-level half of `NextTrainInTimetable`. */
  lemma NextForStopsInTimetable(feed: Feed, departure: Str, arrival: Str, d: StopCandidate, a: StopCandidate, clock: MadridClock)
    requires RemoveAll(Dashed(clock), '-') == Compact(clock)
    requires NextForStops(feed, departure, arrival, d, a, clock).NextTrain?
    ensures TimetableForStops(feed, departure, arrival, d, a, Dashed(clock), DayOfWeekName(clock.weekday)).Timetable?
    ensures var rows := TimetableForStops(feed, departure, arrival, d, a, Dashed(clock), DayOfWeekName(clock.weekday)).timetable;
            |rows| < TimetableLimit ==> NextForStops(feed, departure, arrival, d, a, clock).train in rows
  {
    var dayName := DayOfWeekName(clock.weekday);
    var services := ActiveServiceIds(feed, dayName, Compact(clock));
    var x := NextForStops(feed, departure, arrival, d, a, clock).train;
    LaterKeepsGroup(feed, d.stopId, a.stopId, services, ClockTime(clock), x);
    var m :| Qualifies(feed, DayQuery(d.stopId, a.stopId, services), m) && MatchKey(m) == RowKey(x) && m.trip.tripId == x.tripId;
    assert FindTrips(feed, d.stopId, a.stopId, services) != [];
    if |FindTrips(feed, d.stopId, a.stopId, services)| < TimetableLimit {
      NextTrainIsTimetableRow(feed, d.stopId, a.stopId, services, ClockTime(clock));
    }
  }

  /**
   * The next train is in today's timetable: when the timetable for today's
   * Madrid date is not cut off at its limit, the train the next-train handler
   * returns is one of its rows.
   */
  lemma NextTrainInTimetable(feed: Feed, departure: Str, arrival: Str, clock: MadridClock, today: LocalToday)
    requires '-' !in clock.year && '-' !in clock.month && '-' !in clock.day
    requires GetNextTrain(feed, departure, arrival, clock).NextTrain?
    ensures GetTimetable(feed, departure, arrival, Some(Dashed(clock)), Valid(clock.weekday), today).Timetable?
    ensures var rows := GetTimetable(feed, departure, arrival, Some(Dashed(clock)), Valid(clock.weekday), today).timetable;
            |rows| < TimetableLimit ==> GetNextTrain(feed, departure, arrival, clock).train in rows
  {
    DashedCompacts(clock.year, clock.month, clock.day);
    assert Dashed(clock)[|clock.year|] == '-';
    var n := GetNextTrain(feed, departure, arrival, clock);
    assert ResolvedStop(feed, departure).Some? && ResolvedStop(feed, arrival).Some?;
    var d := ResolvedStop(feed, departure).value;
    var a := ResolvedStop(feed, arrival).value;
    assert n == NextForStops(feed, departure, arrival, d, a, clock);
    NextForStopsInTimetable(feed, departure, arrival, d, a, clock);
    var input := Some(Dashed(clock));
    assert IsTruthy(input);
    assert EffectiveDate(input, today) == Dashed(clock);
    assert WeekdayOf(input, Valid(clock.weekday), today) == clock.weekday;
    assert GetTimetable(feed, departure, arrival, input, Valid(clock.weekday), today)
        == TimetableForStops(feed, departure, arrival, d, a, Dashed(clock), DayOfWeekName(clock.weekday));
  }
}
