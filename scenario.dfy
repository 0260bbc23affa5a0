/** A one-stop, one-trip feed for Brno, and what the core answers for it. */
module Scenario {
  import opened Outcomes
  import opened GtfsTime
  import opened ServiceCalendar
  import opened Feed
  import opened Departures
  import opened NearestStop

  function BrnoFeed(): CityFeed
  {
    CityFeed(
      [Stop("HN", "Hlavní nádraží", 49.1906, 16.6136)],
      [StopTime("T1", "HN", "08:15:00")],
      [Trip("T1", "R1", "S1", "Líšeň")],
      [CalendarEntry("S1", 1, 1, 1, 1, 1, 1, 1, 20240101, 20241231)],
      [Route("R1", "A")])
  }

  lemma BrnoTrips(date: CalendarDate)
    requires 20240101 <= DateInt(date) <= 20241231
    ensures TripIds(TripsWithRoutes(BrnoFeed(), date)) == ["T1"]
    ensures TripsWithRoutes(BrnoFeed(), date) == [TripWithRoute(Trip("T1", "R1", "S1", "Líšeň"), Some("A"))]
  {
    var feed := BrnoFeed();
    assert RunsOn(feed.calendar[0], date);
    assert ActiveServices(feed.calendar, date) == ["S1"];
    assert ActiveTrips(feed.trips, ["S1"]) == feed.trips;
    var joined := TripsWithRoutes(feed, date);
    assert joined == [TripWithRoute(Trip("T1", "R1", "S1", "Líšeň"), Some("A"))];
  }

  lemma BrnoTime()
    ensures ParseGtfsTime("08:15:00") == Ok(Clock(8, 15, 0))
    ensures FormatTime(Clock(8, 15, 0)) == "08:15:00"
  {
    assert Pad2(8) == "08" && Pad2(15) == "15" && Pad2(0) == "00";
    assert Pad2(8) + ":" + Pad2(15) + ":" + Pad2(0) == "08:15:00";
    ParsePaddedFields(8, 15, 0);
    FieldsOfClock(8, 15, 0);
  }

  lemma ParseOneRow(row: StopTime, t: TimeOfDay)
    requires ParseGtfsTime(row.departureTime) == Ok(t)
    ensures ParseTimes([row]) == Ok([TimedStop(row, t)])
  {
    var rows := [row];
    var r := ParseTimes(rows);
    assert r.Ok? by {
      assert forall i :: 0 <= i < |rows| ==> rows[i] == row;
    }
    assert |r.value| == 1 && r.value[0] == TimedStop(row, t);
    assert r.value == [TimedStop(row, t)];
  }

  lemma AtStopOneRow(row: StopTime, stopId: string, ids: seq<string>)
    requires row.stopId == stopId && row.tripId in ids
    ensures AtStop([row], stopId, ids) == [row]
  {
    assert [row][1..] == [];
  }

  lemma AfterOneRow(x: TimedStop, now: TimeOfDay)
    ensures After([x], now) == if x.time > now then [x] else []
  {
    assert [x][1..] == [];
  }

  lemma LabelOneRow(x: TimedStop, j: TripWithRoute)
    requires j.trip.tripId == x.row.tripId
    ensures AttachTrips([x], [j]) == [Candidate(j.routeShortName, j.trip.headsign, x.time, x.row.tripId)]
  {
    assert TripIds([j]) == [j.trip.tripId];
    assert LookupTrip([j], x.row.tripId) == Some(j);
  }

  /** A feed with a single stop_times row, on the single active trip, at the query stop. */
  lemma SingleRowUpcoming(feed: CityFeed, stopId: string, now: TimeOfDay, date: CalendarDate,
                          j: TripWithRoute, t: TimeOfDay)
    requires |feed.stopTimes| == 1 && feed.stopTimes[0].stopId == stopId
    requires TripsWithRoutes(feed, date) == [j] && j.trip.tripId == feed.stopTimes[0].tripId
    requires ParseGtfsTime(feed.stopTimes[0].departureTime) == Ok(t)
    ensures Upcoming(feed, stopId, now, date) ==
      if t > now then Ok([Candidate(j.routeShortName, j.trip.headsign, t, j.trip.tripId)]) else Ok([])
  {
    var row := feed.stopTimes[0];
    assert feed.stopTimes == [row];
    assert TripIds([j]) == [row.tripId];
    AtStopOneRow(row, stopId, [row.tripId]);
    ParseOneRow(row, t);
    AfterOneRow(TimedStop(row, t), now);
    if t > now {
      LabelOneRow(TimedStop(row, t), j);
    }
  }

  lemma BrnoUpcoming(date: CalendarDate, now: TimeOfDay)
    requires 20240101 <= DateInt(date) <= 20241231
    ensures Upcoming(BrnoFeed(), "HN", now, date) ==
      if Clock(8, 15, 0) > now then Ok([Candidate(Some("A"), "Líšeň", Clock(8, 15, 0), "T1")]) else Ok([])
  {
    BrnoTrips(date);
    BrnoTime();
    SingleRowUpcoming(BrnoFeed(), "HN", now, date,
      TripWithRoute(Trip("T1", "R1", "S1", "Líšeň"), Some("A")), Clock(8, 15, 0));
  }

  /** One candidate is its own ordering and cut. */
  lemma SingleCandidate(c: Candidate)
    ensures FirstDepartures([c]) == [c]
    ensures Render([c]) == [Departure(c.routeShortName, c.headsign, FormatTime(c.time), c.tripId)]
  {
    assert SortByTime([c]) == InsertByTime(c, SortByTime([]));
  }

  /** The trip's only departure, seen from a quarter of an hour before it and from its own minute:
      the first query lists it, the second does not, since only strictly later times count. */
  lemma BrnoDepartures(date: CalendarDate)
    requires 20240101 <= DateInt(date) <= 20241231
    ensures GetDepartures(map["brno" := BrnoFeed()], "brno", "HN", Clock(8, 0, 0), date)
      == Ok([Departure(Some("A"), "Líšeň", "08:15:00", "T1")])
    ensures GetDepartures(map["brno" := BrnoFeed()], "brno", "HN", Clock(8, 15, 0), date) == Ok([])
  {
    var c := Candidate(Some("A"), "Líšeň", Clock(8, 15, 0), "T1");
    BrnoUpcoming(date, Clock(8, 0, 0));
    BrnoUpcoming(date, Clock(8, 15, 0));
    BrnoTime();
    SingleCandidate(c);
    assert FirstDepartures([]) == [];
  }

  /** Asked from the stop's own coordinates, with any distance function, the nearest stop of the
      one-stop feed is that stop. */
  method BrnoNearestStop(distance: Distance) returns (r: Result<StopLabel>)
    ensures r == Ok(StopLabel("HN", "Hlavní nádraží"))
  {
    r := FindNearestStop(map["brno" := BrnoFeed()], "brno", 49.1906, 16.6136, distance);
  }
}
