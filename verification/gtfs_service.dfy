/**
 * The timetable resolution engine (api/src/services/gtfsService.ts): the SQL
 * queries of the service restated as functions over the in-memory tables.
 * Where SQL leaves an order open (ties under `ORDER BY`, `LIMIT` with no
 * `ORDER BY`) the functions pick one, and the contracts promise only what
 * SQL promises.
 */
module GtfsService {
  import opened Wrappers
  import opened TextOrder
  import opened Ordering
  import opened SqlText
  import opened Gtfs

  const StationListLimit: nat := 50
  const CandidateLimit: nat := 5
  const TimetableLimit: nat := 50

  /* ---------------------------------------------------------------- stops */

  /** `LOWER(stop_name) LIKE LOWER('%' || q || '%')`. */
  predicate NameMatches(stop: Stop, q: Str)
  {
    LikeMatch(Lower(stop.stopName), Lower("%" + q + "%"))
  }

  /** JavaScript truthiness of an optional text parameter: present and non-empty. */
  predicate IsTruthy(q: Option<Str>)
  {
    q.Some? && q.value != ""
  }

  function StopName(s: Stop): Str
  {
    s.stopName
  }

  /** The rows of `stops` whose name matches `q`, in scan order. */
  function MatchingStops(feed: Feed, q: Str): (r: seq<Stop>)
    ensures forall s :: s in r <==> s in feed.stops && NameMatches(s, q)
  {
    Filter(feed.stops, s => NameMatches(s, q))
  }

  /**
   * `findStations`: with no (or an empty) query every stop ordered by name;
   * otherwise the matching stops ordered by name, at most 50 of them.
   */
  function FindStations(feed: Feed, q: Option<Str>): (r: seq<Stop>)
    ensures !IsTruthy(q) ==> multiset(r) == multiset(feed.stops) && SortedBy(r, StopName)
    ensures IsTruthy(q) ==> SmallestBy(r, MatchingStops(feed, q.value), StopName, StationListLimit)
    ensures IsTruthy(q) ==> |r| <= StationListLimit && forall s :: s in r ==> s in feed.stops && NameMatches(s, q.value)
  {
    if IsTruthy(q) then
      var r := TakeSmallest(MatchingStops(feed, q.value), StopName, StationListLimit);
      assert forall s :: s in r ==> s in multiset(MatchingStops(feed, q.value));
      r
    else
      SortBy(feed.stops, StopName)
  }

  /** The first row of `stops` (in scan order) whose id is `id`. */
  function FirstStopWithId(stops: seq<Stop>, id: Str): (r: Option<Stop>)
    ensures r.None? <==> forall s :: s in stops ==> s.stopId != id
    ensures r.Some? ==> exists i :: 0 <= i < |stops| && stops[i] == r.value && r.value.stopId == id
                          && forall j :: 0 <= j < i ==> stops[j].stopId != id
  {
    if stops == [] then None
    else if stops[0].stopId == id then Some(stops[0])
    else
      var r := FirstStopWithId(stops[1..], id);
      if r.Some? then FirstStopShift(stops, id, r.value); r else r
  }

  lemma FirstStopShift(stops: seq<Stop>, id: Str, v: Stop)
    requires stops != [] && stops[0].stopId != id
    requires exists i :: 0 <= i < |stops[1..]| && stops[1..][i] == v && v.stopId == id
                         && forall j :: 0 <= j < i ==> stops[1..][j].stopId != id
    ensures exists i :: 0 <= i < |stops| && stops[i] == v && v.stopId == id
                        && forall j :: 0 <= j < i ==> stops[j].stopId != id
  {
    var i :| 0 <= i < |stops[1..]| && stops[1..][i] == v && v.stopId == id
             && forall j :: 0 <= j < i ==> stops[1..][j].stopId != id;
    assert stops[i + 1] == v;
    assert forall j :: 1 <= j < i + 1 ==> stops[j] == stops[1..][j - 1];
  }

  /** `findStationById`: the stop whose `stop_id` is `id`, or none. */
  function FindStationById(feed: Feed, id: Str): (r: Option<Stop>)
    ensures r.None? <==> forall s :: s in feed.stops ==> s.stopId != id
    ensures r.Some? ==> r.value in feed.stops && r.value.stopId == id
    ensures r.Some? ==> forall s :: s in feed.stops && s.stopId == id && s != r.value ==>
                          exists i, j :: 0 <= i < j < |feed.stops| && feed.stops[i] == r.value && feed.stops[j] == s
  {
    var r := FirstStopWithId(feed.stops, id);
    assert r.Some? ==> forall s :: s in feed.stops && s.stopId == id && s != r.value ==>
                         exists i, j :: 0 <= i < j < |feed.stops| && feed.stops[i] == r.value && feed.stops[j] == s by {
      if r.Some? {
        var i :| 0 <= i < |feed.stops| && feed.stops[i] == r.value && r.value.stopId == id
                 && forall j :: 0 <= j < i ==> feed.stops[j].stopId != id;
        forall s | s in feed.stops && s.stopId == id && s != r.value
          ensures exists i, j :: 0 <= i < j < |feed.stops| && feed.stops[i] == r.value && feed.stops[j] == s
        {
          var j :| 0 <= j < |feed.stops| && feed.stops[j] == s;
          assert i < j;
        }
      }
    }
    r
  }

  function Candidate(s: Stop): StopCandidate
  {
    StopCandidate(s.stopId, s.stopName)
  }

  /**
   * `SELECT stop_id, stop_name FROM stops WHERE <name matches> LIMIT n`. With no
   * `ORDER BY` the rows are the first `n` matches of the scan, in scan order.
   */
  function StopCandidates(feed: Feed, name: Str, limit: nat): (r: seq<StopCandidate>)
    ensures |r| == Min(limit, |MatchingStops(feed, name)|)
    ensures forall i :: 0 <= i < |r| ==> r[i] == Candidate(MatchingStops(feed, name)[i])
    ensures forall c :: c in r ==> exists s :: s in feed.stops && NameMatches(s, name) && c == Candidate(s)
  {
    var rows := Take(MatchingStops(feed, name), limit);
    var r := seq(|rows|, i requires 0 <= i < |rows| => Candidate(rows[i]));
    assert forall c :: c in r ==> exists s :: s in feed.stops && NameMatches(s, name) && c == Candidate(s) by {
      forall c | c in r
        ensures exists s :: s in feed.stops && NameMatches(s, name) && c == Candidate(s)
      {
        var i :| 0 <= i < |r| && r[i] == c;
        assert rows[i] in MatchingStops(feed, name);
      }
    }
    r
  }

  /** `findStopCandidates`: up to five stops whose name matches. */
  function FindStopCandidates(feed: Feed, name: Str): (r: seq<StopCandidate>)
    ensures |r| == Min(CandidateLimit, |MatchingStops(feed, name)|)
    ensures forall i :: 0 <= i < |r| ==> r[i] == Candidate(MatchingStops(feed, name)[i])
    ensures r == [] <==> forall s :: s in feed.stops ==> !NameMatches(s, name)
    ensures forall c :: c in r ==> exists s :: s in feed.stops && NameMatches(s, name) && c == Candidate(s)
  {
    var r := StopCandidates(feed, name, CandidateLimit);
    assert (exists s :: s in feed.stops && NameMatches(s, name)) ==> |MatchingStops(feed, name)| > 0 by {
      if exists s :: s in feed.stops && NameMatches(s, name) {
        var s :| s in feed.stops && NameMatches(s, name);
        assert s in MatchingStops(feed, name);
      }
    }
    r
  }

  /**
   * The candidate scan does not depend on the limit: a lookup with `LIMIT 1`
   * returns the first row of the lookup with `LIMIT 5`.
   */
  lemma FirstCandidateIndependentOfLimit(feed: Feed, name: Str, m: nat, n: nat)
    requires 1 <= m && 1 <= n
    ensures StopCandidates(feed, name, m) == [] <==> StopCandidates(feed, name, n) == []
    ensures StopCandidates(feed, name, m) != [] ==> StopCandidates(feed, name, m)[0] == StopCandidates(feed, name, n)[0]
  {
  }

  /* ------------------------------------------------------------- calendar */

  /**
   * `<dayName> = '1' AND start_date <= date AND end_date >= date`, compared as text.
   */
  predicate RunsOn(c: Calendar, dayName: Str, date: Str)
  {
    && IsDayColumn(dayName)
    && DayFlag(c, dayName) == "1"
    && StrLe(c.startDate, date)
    && StrLe(date, c.endDate)
  }

  /** Some calendar row runs on `date`. */
  ghost predicate AnyServiceRuns(feed: Feed, dayName: Str, date: Str)
  {
    exists c :: c in feed.calendar && RunsOn(c, dayName, date)
  }

  /**
   * `getActiveServiceIds`: the service ids of the calendar rows that run on
   * `date` for the weekday column `dayName`, each once.
   */
  function ActiveServiceIds(feed: Feed, dayName: Str, date: Str): (r: seq<Str>)
    requires IsDayColumn(dayName)
    ensures forall id :: id in r <==> exists c :: c in feed.calendar && c.serviceId == id && RunsOn(c, dayName, date)
    ensures NoDup(r)
    ensures r == [] <==> !AnyServiceRuns(feed, dayName, date)
  {
    var rows := Filter(feed.calendar, c => RunsOn(c, dayName, date));
    var r := Dedup(ServiceIdsOf(rows));
    RunningIds(feed, dayName, date, rows, r);
    r
  }

  /** The `service_id` column of `rows`, in order. */
  function ServiceIdsOf(rows: seq<Calendar>): (r: seq<Str>)
    ensures |r| == |rows|
    ensures forall i :: 0 <= i < |rows| ==> r[i] == rows[i].serviceId
  {
    seq(|rows|, i requires 0 <= i < |rows| => rows[i].serviceId)
  }

  lemma RunningIds(feed: Feed, dayName: Str, date: Str, rows: seq<Calendar>, r: seq<Str>)
    requires forall c :: c in rows <==> c in feed.calendar && RunsOn(c, dayName, date)
    requires forall id :: id in r <==> id in ServiceIdsOf(rows)
    ensures forall id :: id in r <==> exists c :: c in feed.calendar && c.serviceId == id && RunsOn(c, dayName, date)
    ensures r == [] <==> !AnyServiceRuns(feed, dayName, date)
  {
    var ids := ServiceIdsOf(rows);
    forall id
      ensures id in r <==> exists c :: c in feed.calendar && c.serviceId == id && RunsOn(c, dayName, date)
    {
      if exists c :: c in feed.calendar && c.serviceId == id && RunsOn(c, dayName, date) {
        var c :| c in feed.calendar && c.serviceId == id && RunsOn(c, dayName, date);
        var i :| 0 <= i < |rows| && rows[i] == c;
        assert ids[i] == id;
      }
      if id in r {
        var i :| 0 <= i < |ids| && ids[i] == id;
        assert rows[i] in rows;
      }
    }
    if AnyServiceRuns(feed, dayName, date) {
      var c :| c in feed.calendar && RunsOn(c, dayName, date);
      assert c.serviceId in r;
    }
    if r != [] {
      assert r[0] in r;
    }
  }

  /* ---------------------------------------------------------------- trips */

  /**
   * The parameters of the two trip queries: the departure and arrival stop,
   * the `IN (...)` list of service ids and, for the next-train query, the
   * exclusive lower bound on the departure time.
   */
  datatype TripQuery = TripQuery(departureStopId: Str, arrivalStopId: Str, serviceIds: seq<Str>, after: Option<Str>)

  /** One combination of the join `trips t, routes r, stop_times st_dep, stop_times st_arr`. */
  datatype Match = Match(trip: Trip, route: Route, dep: StopTime, arr: StopTime)

  /** The join conditions and the `WHERE` clause of the trip queries. */
  predicate Qualifies(feed: Feed, q: TripQuery, m: Match)
  {
    && m.trip in feed.trips && m.route in feed.routes
    && m.dep in feed.stopTimes && m.arr in feed.stopTimes
    && m.trip.routeId == m.route.routeId
    && m.dep.tripId == m.trip.tripId && m.arr.tripId == m.trip.tripId
    && m.dep.stopId == q.departureStopId && m.arr.stopId == q.arrivalStopId
    && StrLt(m.dep.stopSequence, m.arr.stopSequence)
    && m.trip.serviceId in q.serviceIds
    && (q.after.Some? ==> StrLt(q.after.value, m.dep.departureTime))
  }

  function Singles(t: Trip, r: Route, d: StopTime, arrs: seq<StopTime>): (res: seq<Match>)
    ensures forall m :: m in res <==> m.trip == t && m.route == r && m.dep == d && m.arr in arrs
  {
    if arrs == [] then []
    else
      assert arrs == [arrs[0]] + arrs[1..];
      [Match(t, r, d, arrs[0])] + Singles(t, r, d, arrs[1..])
  }

  function Pairs(t: Trip, r: Route, deps: seq<StopTime>, arrs: seq<StopTime>): (res: seq<Match>)
    ensures forall m :: m in res <==> m.trip == t && m.route == r && m.dep in deps && m.arr in arrs
  {
    if deps == [] then []
    else
      assert deps == [deps[0]] + deps[1..];
      Singles(t, r, deps[0], arrs) + Pairs(t, r, deps[1..], arrs)
  }

  function Triples(t: Trip, rs: seq<Route>, deps: seq<StopTime>, arrs: seq<StopTime>): (res: seq<Match>)
    ensures forall m :: m in res <==> m.trip == t && m.route in rs && m.dep in deps && m.arr in arrs
  {
    if rs == [] then []
    else
      assert rs == [rs[0]] + rs[1..];
      Pairs(t, rs[0], deps, arrs) + Triples(t, rs[1..], deps, arrs)
  }

  /** The cross product of the four tables of the join. */
  function Quads(ts: seq<Trip>, rs: seq<Route>, deps: seq<StopTime>, arrs: seq<StopTime>): (res: seq<Match>)
    ensures forall m :: m in res <==> m.trip in ts && m.route in rs && m.dep in deps && m.arr in arrs
  {
    if ts == [] then []
    else
      assert ts == [ts[0]] + ts[1..];
      Triples(ts[0], rs, deps, arrs) + Quads(ts[1..], rs, deps, arrs)
  }

  /** The rows of the join that pass the `WHERE` clause. */
  function Matches(feed: Feed, q: TripQuery): (r: seq<Match>)
    ensures forall m :: m in r <==> Qualifies(feed, q, m)
  {
    Filter(Quads(feed.trips, feed.routes, feed.stopTimes, feed.stopTimes), m => Qualifies(feed, q, m))
  }

  /** The `GROUP BY` columns. */
  datatype GroupKey = GroupKey(short: Str, long: Str, headsign: Str, departure: Str, arrival: Str)

  function MatchKey(m: Match): GroupKey
  {
    GroupKey(m.route.routeShortName, m.route.routeLongName, m.trip.tripHeadsign, m.dep.departureTime, m.arr.arrivalTime)
  }

  function RowKey(g: Itinerary): GroupKey
  {
    GroupKey(g.routeShortName, g.routeLongName, g.tripHeadsign, g.departureTime, g.arrivalTime)
  }

  /** The selected columns of one join row, before aggregation. */
  function RowOf(m: Match): Itinerary
  {
    Itinerary(m.route.routeShortName, m.route.routeLongName, m.trip.tripId, m.trip.tripHeadsign,
              m.trip.serviceId, m.dep.departureTime, m.arr.arrivalTime)
  }

  /** Some row of `gs` has key `k`. */
  ghost predicate HasKey(gs: seq<Itinerary>, k: GroupKey)
  {
    exists g :: g in gs && RowKey(g) == k
  }

  /**
   * `g` is the aggregate row of the group of `ms` with `g`'s key: `MIN(trip_id)`
   * and `MIN(service_id)` over that group, each taken independently.
   */
  ghost predicate IsAggregateOf(g: Itinerary, ms: seq<Match>)
  {
    && (exists m :: m in ms && MatchKey(m) == RowKey(g) && m.trip.tripId == g.tripId)
    && (exists m :: m in ms && MatchKey(m) == RowKey(g) && m.trip.serviceId == g.serviceId)
    && (forall m :: m in ms && MatchKey(m) == RowKey(g) ==>
          StrLe(g.tripId, m.trip.tripId) && StrLe(g.serviceId, m.trip.serviceId))
  }

  ghost predicate DistinctKeys(gs: seq<Itinerary>)
  {
    forall i, j :: 0 <= i < j < |gs| ==> RowKey(gs[i]) != RowKey(gs[j])
  }

  /** `gs` is the result of `GROUP BY` over `ms`: one aggregate row per key that occurs. */
  ghost predicate IsGrouping(gs: seq<Itinerary>, ms: seq<Match>)
  {
    && DistinctKeys(gs)
    && (forall g :: g in gs ==> IsAggregateOf(g, ms))
    && (forall m :: m in ms ==> HasKey(gs, MatchKey(m)))
  }

  /** The position of the row with key `k`, or `|gs|` when there is none. */
  function KeyIndex(gs: seq<Itinerary>, k: GroupKey): (i: nat)
    ensures i <= |gs|
    ensures i < |gs| ==> RowKey(gs[i]) == k
    ensures i == |gs| <==> !HasKey(gs, k)
  {
    if gs == [] then 0
    else if RowKey(gs[0]) == k then 0
    else
      var i := 1 + KeyIndex(gs[1..], k);
      assert gs == [gs[0]] + gs[1..];
      i
  }

  function Merge(g: Itinerary, m: Match): Itinerary
  {
    g.(tripId := MinStr(g.tripId, m.trip.tripId), serviceId := MinStr(g.serviceId, m.trip.serviceId))
  }

  lemma AggregateExtends(g: Itinerary, m: Match, ms: seq<Match>)
    requires IsAggregateOf(g, ms)
    requires RowKey(g) != MatchKey(m)
    ensures IsAggregateOf(g, [m] + ms)
  {
    var ms' := [m] + ms;
    assert forall x :: x in ms ==> x in ms';
  }

  lemma AggregateFresh(m: Match, ms: seq<Match>)
    requires forall x :: x in ms ==> MatchKey(x) != MatchKey(m)
    ensures IsAggregateOf(RowOf(m), [m] + ms)
  {
    var ms' := [m] + ms;
    assert m in ms';
  }

  lemma AggregateMerge(g: Itinerary, m: Match, ms: seq<Match>)
    requires IsAggregateOf(g, ms)
    requires RowKey(g) == MatchKey(m)
    ensures IsAggregateOf(Merge(g, m), [m] + ms)
  {
    var ms' := [m] + ms;
    var g' := Merge(g, m);
    assert m in ms';
    assert forall x :: x in ms ==> x in ms';
    forall x | x in ms' && MatchKey(x) == RowKey(g')
      ensures StrLe(g'.tripId, x.trip.tripId) && StrLe(g'.serviceId, x.trip.serviceId)
    {
      if x != m {
        assert x in ms;
        StrLeTransitive(g'.tripId, g.tripId, x.trip.tripId);
        StrLeTransitive(g'.serviceId, g.serviceId, x.trip.serviceId);
      }
    }
  }

  /** A join row whose key is new to the grouping becomes a row of its own. */
  lemma GroupStepNew(m: Match, ms: seq<Match>, gs: seq<Itinerary>)
    requires IsGrouping(gs, ms)
    requires !HasKey(gs, MatchKey(m))
    ensures IsGrouping(gs + [RowOf(m)], [m] + ms)
  {
    var ms' := [m] + ms;
    var r := gs + [RowOf(m)];
    forall x | x in ms
      ensures MatchKey(x) != MatchKey(m)
    {
      assert HasKey(gs, MatchKey(x));
    }
    forall g | g in r
      ensures IsAggregateOf(g, ms')
    {
      if g in gs {
        AggregateExtends(g, m, ms);
      } else {
        AggregateFresh(m, ms);
      }
    }
    forall x | x in ms'
      ensures HasKey(r, MatchKey(x))
    {
      if x == m {
        assert r[|gs|] == RowOf(m) && RowKey(RowOf(m)) == MatchKey(m);
        assert r[|gs|] in r;
      } else {
        assert x in ms;
        var g :| g in gs && RowKey(g) == MatchKey(x);
        assert g in r;
      }
    }
    assert DistinctKeys(r) by {
      forall i, j | 0 <= i < j < |r|
        ensures RowKey(r[i]) != RowKey(r[j])
      {
        if j == |gs| {
          assert r[i] in gs;
        }
      }
    }
  }

  /** A join row whose key the grouping has is merged into that row. */
  lemma GroupStepMerge(m: Match, ms: seq<Match>, gs: seq<Itinerary>, i: nat)
    requires IsGrouping(gs, ms)
    requires i < |gs| && RowKey(gs[i]) == MatchKey(m)
    ensures IsGrouping(gs[i := Merge(gs[i], m)], [m] + ms)
  {
    var ms' := [m] + ms;
    var r := gs[i := Merge(gs[i], m)];
    assert forall j :: 0 <= j < |r| ==> RowKey(r[j]) == RowKey(gs[j]);
    forall j | 0 <= j < |r|
      ensures IsAggregateOf(r[j], ms')
    {
      if j == i {
        AggregateMerge(gs[i], m, ms);
      } else {
        AggregateExtends(gs[j], m, ms);
      }
    }
    forall x | x in ms'
      ensures HasKey(r, MatchKey(x))
    {
      if x == m {
        assert r[i] in r;
      } else {
        assert HasKey(gs, MatchKey(x));
        var g :| g in gs && RowKey(g) == MatchKey(x);
        var j :| 0 <= j < |gs| && gs[j] == g;
        assert r[j] in r;
      }
    }
  }

  /** `GROUP BY short, long, headsign, departure, arrival` with `MIN(trip_id)`, `MIN(service_id)`. */
  function Group(ms: seq<Match>): (r: seq<Itinerary>)
    ensures IsGrouping(r, ms)
  {
    if ms == [] then []
    else
      var gs := Group(ms[1..]);
      var i := KeyIndex(gs, MatchKey(ms[0]));
      assert ms == [ms[0]] + ms[1..];
      if i == |gs| then
        GroupStepNew(ms[0], ms[1..], gs);
        gs + [RowOf(ms[0])]
      else
        GroupStepMerge(ms[0], ms[1..], gs, i);
        gs[i := Merge(gs[i], ms[0])]
  }

  /**
   * `g` is a row the grouped trip query can return: its key is the key of a
   * qualifying join row, and its `trip_id` and `service_id` are the least of
   * those of the qualifying join rows with that key.
   */
  ghost predicate IsResultRow(feed: Feed, q: TripQuery, g: Itinerary)
  {
    && (exists m :: Qualifies(feed, q, m) && MatchKey(m) == RowKey(g) && m.trip.tripId == g.tripId)
    && (exists m :: Qualifies(feed, q, m) && MatchKey(m) == RowKey(g) && m.trip.serviceId == g.serviceId)
    && (forall m :: Qualifies(feed, q, m) && MatchKey(m) == RowKey(g) ==>
          StrLe(g.tripId, m.trip.tripId) && StrLe(g.serviceId, m.trip.serviceId))
  }

  /** Every row of `r` is a row the query can return. */
  ghost predicate AllResultRows(feed: Feed, q: TripQuery, r: seq<Itinerary>)
  {
    forall g :: g in r ==> IsResultRow(feed, q, g)
  }

  /** No join row passes the `WHERE` clause. */
  ghost predicate NoneQualify(feed: Feed, q: TripQuery)
  {
    forall m :: !Qualifies(feed, q, m)
  }

  /** Every row of `r` departs at or before `t`. */
  ghost predicate DepartNoLaterThan(r: seq<Itinerary>, t: Str)
  {
    forall g :: g in r ==> StrLe(g.departureTime, t)
  }

  /**
   * `r` leaves out no group it should hold: each qualifying join row's group
   * is in `r`, unless `r` is full and all of it departs no later.
   */
  ghost predicate Complete(feed: Feed, q: TripQuery, r: seq<Itinerary>, limit: nat)
  {
    forall m :: Qualifies(feed, q, m) ==>
      HasKey(r, MatchKey(m)) || (|r| == limit && DepartNoLaterThan(r, m.dep.departureTime))
  }

  function DepartureTime(g: Itinerary): Str
  {
    g.departureTime
  }

  /** The grouped rows of a trip query, before `ORDER BY` and `LIMIT`. */
  function GroupedTrips(feed: Feed, q: TripQuery): (r: seq<Itinerary>)
    ensures DistinctKeys(r)
    ensures AllResultRows(feed, q, r)
    ensures forall m :: Qualifies(feed, q, m) ==> HasKey(r, MatchKey(m))
  {
    var ms := Matches(feed, q);
    var r := Group(ms);
    assert AllResultRows(feed, q, r) by {
      forall g | g in r
        ensures IsResultRow(feed, q, g)
      {
        assert IsAggregateOf(g, ms);
      }
    }
    r
  }

  /** Rows with distinct keys are distinct rows. */
  lemma DistinctKeysNoDup(gs: seq<Itinerary>)
    requires DistinctKeys(gs)
    ensures NoDup(gs)
  {
  }

  lemma {:induction false} NoDupCount<T>(s: seq<T>, x: T)
    requires NoDup(s)
    ensures multiset(s)[x] <= 1
  {
    if s != [] {
      assert s == [s[0]] + s[1..];
      NoDupCount(s[1..], x);
      if s[0] == x {
        assert x !in s[1..];
      }
    }
  }

  /** A sub-multiset of rows with distinct keys has distinct keys. */
  lemma SubmultisetDistinctKeys(r: seq<Itinerary>, gs: seq<Itinerary>)
    requires DistinctKeys(gs)
    requires multiset(r) <= multiset(gs)
    ensures DistinctKeys(r)
  {
    DistinctKeysNoDup(gs);
    forall i, j | 0 <= i < j < |r|
      ensures RowKey(r[i]) != RowKey(r[j])
    {
      if RowKey(r[i]) == RowKey(r[j]) {
        assert r[i] in multiset(gs) && r[j] in multiset(gs);
        var a :| 0 <= a < |gs| && gs[a] == r[i];
        var b :| 0 <= b < |gs| && gs[b] == r[j];
        assert a == b;
        var x := r[i];
        assert r == r[..j] + r[j..];
        assert x in r[..j] && x in r[j..];
        assert multiset(r)[x] == multiset(r[..j])[x] + multiset(r[j..])[x];
        NoDupCount(gs, x);
        assert false;
      }
    }
  }

  /** A sub-multiset as large as the whole is the whole. */
  lemma SubmultisetFull<T>(a: multiset<T>, b: multiset<T>)
    requires a <= b && |a| == |b|
    ensures a == b
  {
    var d := b - a;
    assert b == a + d;
    assert |d| == 0;
  }

  /** The `n` earliest groups of `gs` hold every group, unless they are `n` groups departing no later. */
  lemma SmallestComplete(feed: Feed, q: TripQuery, gs: seq<Itinerary>, r: seq<Itinerary>, n: nat)
    requires forall m :: Qualifies(feed, q, m) ==> HasKey(gs, MatchKey(m))
    requires SmallestBy(r, gs, DepartureTime, n)
    ensures Complete(feed, q, r, n)
  {
    forall m | Qualifies(feed, q, m) && !HasKey(r, MatchKey(m))
      ensures |r| == n && DepartNoLaterThan(r, m.dep.departureTime)
    {
      var g0 :| g0 in gs && RowKey(g0) == MatchKey(m);
      assert g0 !in r;
      assert g0 in multiset(gs) - multiset(r);
      if |r| != n {
        assert |r| == |gs|;
        SubmultisetFull(multiset(r), multiset(gs));
        assert false;
      }
      assert forall g :: g in r ==> StrLe(DepartureTime(g), DepartureTime(g0));
    }
  }

  /** What taking the `limit` earliest groups of a grouping keeps of its properties. */
  lemma SmallestFacts(feed: Feed, q: TripQuery, gs: seq<Itinerary>, r: seq<Itinerary>, limit: nat)
    requires DistinctKeys(gs) && AllResultRows(feed, q, gs)
    requires forall m :: Qualifies(feed, q, m) ==> HasKey(gs, MatchKey(m))
    requires SmallestBy(r, gs, DepartureTime, limit)
    ensures DistinctKeys(r)
    ensures AllResultRows(feed, q, r)
    ensures Complete(feed, q, r, limit)
    ensures limit > 0 ==> (r == [] <==> NoneQualify(feed, q))
  {
    assert forall g :: g in r ==> g in multiset(gs);
    SubmultisetDistinctKeys(r, gs);
    SmallestComplete(feed, q, gs, r, limit);
    if limit > 0 && !NoneQualify(feed, q) {
      var m :| Qualifies(feed, q, m);
      assert HasKey(gs, MatchKey(m));
    }
    if r != [] {
      assert r[0] in gs;
      assert IsResultRow(feed, q, r[0]);
    }
  }

  /**
   * The common part of both trip queries: group, order by departure time and
   * keep the first `limit` groups.
   */
  function OrderedTrips(feed: Feed, q: TripQuery, limit: nat): (r: seq<Itinerary>)
    ensures |r| <= limit
    ensures SortedBy(r, DepartureTime)
    ensures DistinctKeys(r)
    ensures AllResultRows(feed, q, r)
    ensures Complete(feed, q, r, limit)
    ensures limit > 0 ==> (r == [] <==> NoneQualify(feed, q))
  {
    var gs := GroupedTrips(feed, q);
    var r := TakeSmallest(gs, DepartureTime, limit);
    SmallestFacts(feed, q, gs, r, limit);
    r
  }

  /** The query `findTrips` runs: no lower bound on the departure time. */
  function DayQuery(departureStopId: Str, arrivalStopId: Str, serviceIds: seq<Str>): TripQuery
  {
    TripQuery(departureStopId, arrivalStopId, serviceIds, None)
  }

  /** The query `findNextTrip` runs: departures strictly after `now`. */
  function LaterQuery(departureStopId: Str, arrivalStopId: Str, serviceIds: seq<Str>, now: Str): TripQuery
  {
    TripQuery(departureStopId, arrivalStopId, serviceIds, Some(now))
  }

  /** With no service ids the `IN` list is empty and nothing qualifies. */
  lemma NoServicesNoneQualify(feed: Feed, q: TripQuery)
    requires q.serviceIds == []
    ensures NoneQualify(feed, q)
  {
  }

  /**
   * `findTrips`: the direct trips from one stop to another on the given
   * services, one row per (route, headsign, departure, arrival) group, in
   * departure-time order, at most 50; empty at once for no services.
   */
  function FindTrips(feed: Feed, departureStopId: Str, arrivalStopId: Str, serviceIds: seq<Str>): (r: seq<Itinerary>)
    ensures serviceIds == [] ==> r == []
    ensures |r| <= TimetableLimit
    ensures SortedBy(r, DepartureTime)
    ensures DistinctKeys(r)
    ensures AllResultRows(feed, DayQuery(departureStopId, arrivalStopId, serviceIds), r)
    ensures Complete(feed, DayQuery(departureStopId, arrivalStopId, serviceIds), r, TimetableLimit)
    ensures r == [] <==> NoneQualify(feed, DayQuery(departureStopId, arrivalStopId, serviceIds))
  {
    if |serviceIds| == 0 then
      NoServicesNoneQualify(feed, DayQuery(departureStopId, arrivalStopId, serviceIds));
      []
    else
      OrderedTrips(feed, DayQuery(departureStopId, arrivalStopId, serviceIds), TimetableLimit)
  }

  /** The first of rows ordered by departure departs no later than any qualifying join row. */
  lemma FirstIsEarliest(feed: Feed, q: TripQuery, rows: seq<Itinerary>)
    requires |rows| == 1
    requires Complete(feed, q, rows, 1)
    ensures forall m :: Qualifies(feed, q, m) ==> StrLe(rows[0].departureTime, m.dep.departureTime)
  {
    forall m | Qualifies(feed, q, m)
      ensures StrLe(rows[0].departureTime, m.dep.departureTime)
    {
      assert rows[0] in rows;
      if HasKey(rows, MatchKey(m)) {
        var g :| g in rows && RowKey(g) == MatchKey(m);
        assert g == rows[0];
      }
    }
  }

  /**
   * `findNextTrip`: the group departing earliest strictly after `now`, or none
   * when no qualifying trip departs after `now` (at once for no services).
   */
  function FindNextTrip(feed: Feed, departureStopId: Str, arrivalStopId: Str, serviceIds: seq<Str>, now: Str): (r: Option<Itinerary>)
    ensures serviceIds == [] ==> r == None
    ensures r.None? <==> NoneQualify(feed, LaterQuery(departureStopId, arrivalStopId, serviceIds, now))
    ensures r.Some? ==> IsResultRow(feed, LaterQuery(departureStopId, arrivalStopId, serviceIds, now), r.value)
    ensures r.Some? ==> StrLt(now, r.value.departureTime)
    ensures r.Some? ==> forall m :: Qualifies(feed, LaterQuery(departureStopId, arrivalStopId, serviceIds, now), m) ==>
                          StrLe(r.value.departureTime, m.dep.departureTime)
  {
    var q := LaterQuery(departureStopId, arrivalStopId, serviceIds, now);
    if |serviceIds| == 0 then
      NoServicesNoneQualify(feed, q);
      None
    else
      var rows := OrderedTrips(feed, q, 1);
      if rows == [] then None
      else
        assert rows[0] in rows;
        assert IsResultRow(feed, q, rows[0]);
        FirstIsEarliest(feed, q, rows);
        Some(rows[0])
  }

  /** Two rows a query can return with the same key are the same row. */
  lemma ResultRowUnique(feed: Feed, q: TripQuery, g1: Itinerary, g2: Itinerary)
    requires IsResultRow(feed, q, g1) && IsResultRow(feed, q, g2)
    requires RowKey(g1) == RowKey(g2)
    ensures g1 == g2
  {
    var a1 :| Qualifies(feed, q, a1) && MatchKey(a1) == RowKey(g1) && a1.trip.tripId == g1.tripId;
    var a2 :| Qualifies(feed, q, a2) && MatchKey(a2) == RowKey(g2) && a2.trip.tripId == g2.tripId;
    StrLeAntisymmetric(g1.tripId, g2.tripId);
    var b1 :| Qualifies(feed, q, b1) && MatchKey(b1) == RowKey(g1) && b1.trip.serviceId == g1.serviceId;
    var b2 :| Qualifies(feed, q, b2) && MatchKey(b2) == RowKey(g2) && b2.trip.serviceId == g2.serviceId;
    StrLeAntisymmetric(g1.serviceId, g2.serviceId);
  }

  /**
   * Within one group every join row departs at the group's time, so the
   * departure-time bound keeps or drops whole groups.
   */
  lemma LaterKeepsGroup(feed: Feed, dep: Str, arr: Str, serviceIds: seq<Str>, now: Str, g: Itinerary)
    requires StrLt(now, g.departureTime)
    requires IsResultRow(feed, LaterQuery(dep, arr, serviceIds, now), g)
    ensures IsResultRow(feed, DayQuery(dep, arr, serviceIds), g)
  {
    var all := DayQuery(dep, arr, serviceIds);
    var later := LaterQuery(dep, arr, serviceIds, now);
    forall m | MatchKey(m) == RowKey(g)
      ensures Qualifies(feed, all, m) <==> Qualifies(feed, later, m)
    {
      assert m.dep.departureTime == g.departureTime;
    }
  }

  /**
   * The next train is a row of the day's timetable: when the timetable query
   * was not cut off by its limit, the row `findNextTrip` returns is one of the
   * rows `findTrips` returns for the same stops and services.
   */
  lemma NextTrainIsTimetableRow(feed: Feed, dep: Str, arr: Str, serviceIds: seq<Str>, now: Str)
    requires |FindTrips(feed, dep, arr, serviceIds)| < TimetableLimit
    requires FindNextTrip(feed, dep, arr, serviceIds, now).Some?
    ensures FindNextTrip(feed, dep, arr, serviceIds, now).value in FindTrips(feed, dep, arr, serviceIds)
  {
    var x := FindNextTrip(feed, dep, arr, serviceIds, now).value;
    LaterKeepsGroup(feed, dep, arr, serviceIds, now, x);
    ResultRowInTable(feed, DayQuery(dep, arr, serviceIds), FindTrips(feed, dep, arr, serviceIds), TimetableLimit, x);
  }

  /** A complete answer that was not cut off by its limit holds every row the query can return. */
  lemma ResultRowInTable(feed: Feed, q: TripQuery, table: seq<Itinerary>, limit: nat, x: Itinerary)
    requires |table| < limit
    requires Complete(feed, q, table, limit)
    requires AllResultRows(feed, q, table)
    requires IsResultRow(feed, q, x)
    ensures x in table
  {
    var m0 :| Qualifies(feed, q, m0) && MatchKey(m0) == RowKey(x) && m0.trip.tripId == x.tripId;
    assert HasKey(table, MatchKey(m0));
    var g :| g in table && RowKey(g) == MatchKey(m0);
    ResultRowUnique(feed, q, g, x);
  }

  /**
   * When no further train runs after `now`, no row of the day's timetable
   * departs after `now`.
   */
  lemma NoNextTrainMeansTimetableEnded(feed: Feed, dep: Str, arr: Str, serviceIds: seq<Str>, now: Str)
    requires FindNextTrip(feed, dep, arr, serviceIds, now).None?
    ensures forall g :: g in FindTrips(feed, dep, arr, serviceIds) ==> !StrLt(now, g.departureTime)
  {
    var all := DayQuery(dep, arr, serviceIds);
    var later := LaterQuery(dep, arr, serviceIds, now);
    forall g | g in FindTrips(feed, dep, arr, serviceIds)
      ensures !StrLt(now, g.departureTime)
    {
      assert IsResultRow(feed, all, g);
      var m :| Qualifies(feed, all, m) && MatchKey(m) == RowKey(g) && m.trip.tripId == g.tripId;
      assert !Qualifies(feed, later, m);
    }
  }
}
