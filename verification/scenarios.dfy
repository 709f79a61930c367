/**
 * Small concrete feeds and what the engine answers on them: the calendar
 * date range, the substring stop lookup, the exclusive "after now" bound of
 * the next-train query, and the text order of `stop_sequence`.
 */
module Scenarios {
  import opened Wrappers
  import opened TextOrder
  import opened JsStrings
  import opened SqlText
  import opened Gtfs
  import opened GtfsService

  /** A service running on Mondays throughout 2024. */
  function MondayService(): Calendar
  {
    Calendar("S1", "1", "0", "0", "0", "0", "0", "0", "20240101", "20241231")
  }

  /** The date range is compared as text, inclusive at both ends. */
  lemma MondayServiceDates()
    ensures RunsOn(MondayService(), "monday", "20240701")
    ensures !RunsOn(MondayService(), "monday", "20250101")
  {
    assert StrLt("20240101", "20240701");
    assert StrLt("20240701", "20241231");
    assert StrLt("20241231", "20250101");
    StrLtAsymmetric("20241231", "20250101");
  }

  /**
   * With the Monday service as the only calendar row, it runs on Monday
   * 1 July 2024 and no longer on 1 January 2025.
   */
  lemma CalendarRange(feed: Feed)
    requires feed.calendar == [MondayService()]
    ensures ActiveServiceIds(feed, "monday", "20240701") == ["S1"]
    ensures ActiveServiceIds(feed, "monday", "20250101") == []
  {
    MondayServiceDates();
    var r := ActiveServiceIds(feed, "monday", "20240701");
    assert "S1" in r;
    assert forall id :: id in r ==> id == "S1";
    assert !AnyServiceRuns(feed, "monday", "20250101");
  }

  function AtochaStop(): Stop
  {
    Stop("18000", "Madrid-Atocha Cercanías", "40.406", "-3.691")
  }

  /** "Atocha" matches the stop's name by a case-insensitive substring. */
  lemma AtochaMatches()
    ensures NameMatches(AtochaStop(), "Atocha")
  {
    var s := AtochaStop();
    assert s.stopName == "Madrid-" + "Atocha" + " Cercanías";
    InfixMatches(s, "Madrid-", "Atocha", " Cercanías");
  }

  /** A stop whose name holds `q` between two other texts matches `q`. */
  lemma InfixMatches(s: Stop, head: Str, q: Str, tail: Str)
    requires s.stopName == head + q + tail
    requires NoWildcards(q)
    ensures NameMatches(s, q)
  {
    LowerConcat(head, q);
    LowerConcat(head + q, tail);
    var low := Lower(s.stopName);
    assert low == Lower(head) + Lower(q) + Lower(tail);
    assert Lower(q) <= low[|head|..];
    LikeIsSubstring(s.stopName, q);
  }

  /** "ZZZQQQ" does not match the stop's name. */
  lemma UnknownNameMissing()
    ensures !NameMatches(AtochaStop(), "ZZZQQQ")
  {
    var s := AtochaStop();
    AtochaNameHasNoZ(s.stopName);
    NoLetterZMissing(s);
  }

  /** A stop whose name has no letter z never matches "ZZZQQQ". */
  lemma NoLetterZMissing(s: Stop)
    requires 'z' !in s.stopName && 'Z' !in s.stopName
    ensures !NameMatches(s, "ZZZQQQ")
  {
    LowerZ();
    NoLetterZ(s.stopName);
    LikeIsSubstring(s.stopName, "ZZZQQQ");
  }

  /** With the Atocha stop as the only stop, "Atocha" resolves to it and "ZZZQQQ" to nothing. */
  lemma AtochaResolves(feed: Feed)
    requires feed.stops == [AtochaStop()]
    ensures FindStopCandidates(feed, "Atocha") == [Candidate(AtochaStop())]
    ensures FindStopCandidates(feed, "ZZZQQQ") == []
  {
    AtochaMatches();
    UnknownNameMissing();
    var r := FindStopCandidates(feed, "Atocha");
    assert |MatchingStops(feed, "Atocha")| <= 1;
    assert r[0] in r;
  }

  lemma AtochaNameHasNoZ(name: Str)
    requires name == AtochaStop().stopName
    ensures 'z' !in name && 'Z' !in name
  {
    forall i | 0 <= i < |name|
      ensures name[i] != 'z' && name[i] != 'Z'
    {
    }
  }

  lemma LowerZ()
    ensures Lower("ZZZQQQ") == "zzzqqq"
  {
    assert AsciiLower('Z') == 'z' && AsciiLower('Q') == 'q';
  }

  /** A name without the letter z does not contain "zzzqqq" once lowered. */
  lemma NoLetterZ(name: Str)
    requires 'z' !in name && 'Z' !in name
    ensures !Contains(Lower(name), "zzzqqq")
  {
    var low := Lower(name);
    forall i | 0 <= i <= |low|
      ensures !("zzzqqq" <= low[i..])
    {
      if i < |low| {
        assert low[i] == AsciiLower(name[i]);
        assert name[i] in name;
      }
    }
  }

  /** One train from A to B on service S1, leaving at 10:00:00 and arriving at 11:00:00. */
  function TrainFeed(): Feed
  {
    Feed(
      [],
      [Route("R1", "C1", "Chamartin - Atocha")],
      [Trip("T1", "R1", "S1", "Atocha")],
      [StopTime("T1", "A", "1", "09:59:00", "10:00:00"), StopTime("T1", "B", "2", "11:00:00", "11:00:00")],
      [])
  }

  function TrainRow(): Itinerary
  {
    Itinerary("C1", "Chamartin - Atocha", "T1", "Atocha", "S1", "10:00:00", "11:00:00")
  }

  /** The only join row the train feed has for A to B. */
  lemma TrainMatchOnly(q: TripQuery, m: Match)
    requires q.departureStopId == "A" && q.arrivalStopId == "B"
    ensures Qualifies(TrainFeed(), q, m) ==> RowOf(m) == TrainRow()
  {
    var feed := TrainFeed();
    if Qualifies(feed, q, m) {
      assert m.dep == feed.stopTimes[0];
      assert m.arr == feed.stopTimes[1];
    }
  }

  /** The trip departing exactly at `now` is not a next train; one second earlier it is. */
  lemma NextTrainExclusive()
    ensures FindNextTrip(TrainFeed(), "A", "B", ["S1"], "10:00:00") == None
    ensures FindNextTrip(TrainFeed(), "A", "B", ["S1"], "09:59:59") == Some(TrainRow())
  {
    var feed := TrainFeed();
    var at := LaterQuery("A", "B", ["S1"], "10:00:00");
    StrLtIrreflexive("10:00:00");
    forall m
      ensures !Qualifies(feed, at, m)
    {
      TrainMatchOnly(at, m);
    }
    var before := LaterQuery("A", "B", ["S1"], "09:59:59");
    var m := Match(feed.trips[0], feed.routes[0], feed.stopTimes[0], feed.stopTimes[1]);
    assert StrLt("1", "2");
    assert StrLt("09:59:59", "10:00:00");
    assert Qualifies(feed, before, m);
    var r := FindNextTrip(feed, "A", "B", ["S1"], "09:59:59");
    var w :| Qualifies(feed, before, w) && MatchKey(w) == RowKey(r.value) && w.trip.tripId == r.value.tripId;
    TrainMatchOnly(before, w);
    var v :| Qualifies(feed, before, v) && MatchKey(v) == RowKey(r.value) && v.trip.serviceId == r.value.serviceId;
    TrainMatchOnly(before, v);
  }

  /** The train feed with the stops numbered 9 and 10 instead of 1 and 2. */
  function TextSequenceFeed(): Feed
  {
    Feed(
      [],
      [Route("R1", "C1", "Chamartin - Atocha")],
      [Trip("T1", "R1", "S1", "Atocha")],
      [StopTime("T1", "A", "9", "09:59:00", "10:00:00"), StopTime("T1", "B", "10", "11:00:00", "11:00:00")],
      [])
  }

  /**
   * `stop_sequence` is TEXT, so "10" sorts before "9": a trip from its ninth to
   * its tenth stop is not found, while the same trip is found in the reverse
   * direction, from the tenth stop back to the ninth.
   */
  lemma TextSequenceHidesTrip()
    ensures FindTrips(TextSequenceFeed(), "A", "B", ["S1"]) == []
    ensures FindTrips(TextSequenceFeed(), "B", "A", ["S1"]) != []
  {
    var feed := TextSequenceFeed();
    var st := feed.stopTimes;
    assert StrLt("10", "9");
    StrLtAsymmetric("10", "9");
    forall m
      ensures !Qualifies(feed, DayQuery("A", "B", ["S1"]), m)
    {
      if m.dep in st && m.arr in st {
        assert m.dep == st[0] || m.dep == st[1];
        assert m.arr == st[0] || m.arr == st[1];
      }
    }
    var back := Match(feed.trips[0], feed.routes[0], st[1], st[0]);
    assert Qualifies(feed, DayQuery("B", "A", ["S1"]), back);
  }
}
