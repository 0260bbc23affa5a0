/** The departure pipeline: from the feed tables of one city to the next departures at a stop. */
module Departures {
  import opened Outcomes
  import opened GtfsTime
  import opened ServiceCalendar
  import opened Feed

  /** How many departures one query returns at most. */
  const NUMBER_OF_FETCHED_DEPARTURES: nat := 10

  /** A trip of an active service, left-joined with routes.txt on route_id. */
  datatype TripWithRoute = TripWithRoute(trip: Trip, routeShortName: Option<string>)

  /** A stop_times row together with its normalised departure time. */
  datatype TimedStop = TimedStop(row: StopTime, time: TimeOfDay)

  /** An upcoming departure whose time is still a time of day. */
  datatype Candidate = Candidate(routeShortName: Option<string>, headsign: string, time: TimeOfDay, tripId: string)

  /** One record of the answer; the time is rendered as "HH:MM:SS". */
  datatype Departure = Departure(routeShortName: Option<string>, tripHeadsign: string, departureTime: string, tripId: string)

  function Min(a: int, b: int): int { if a <= b then a else b }

  // ----- The stages, in the order the pipeline runs them -----

  /** Trips whose service_id is among the active services, in table order. */
  function ActiveTrips(trips: seq<Trip>, services: seq<string>): (active: seq<Trip>)
    ensures |active| <= |trips|
    ensures forall t :: t in active <==> t in trips && t.serviceId in services
  {
    if trips == [] then []
    else
      assert forall t :: t in trips <==> t == trips[0] || t in trips[1..];
      (if trips[0].serviceId in services then [trips[0]] else []) + ActiveTrips(trips[1..], services)
  }

  /** The route_short_name that a left join on route_id attaches: the matching route's name,
      or nothing when no route has that id. */
  function RouteShortName(routes: seq<Route>, routeId: string): (name: Option<string>)
    ensures name.None? <==> forall i :: 0 <= i < |routes| ==> routes[i].routeId != routeId
    ensures name.Some? ==>
      exists i :: 0 <= i < |routes| && routes[i].routeId == routeId && routes[i].shortName == name.value
  {
    if routes == [] then None
    else if routes[0].routeId == routeId then Some(routes[0].shortName)
    else
      var rest := RouteShortName(routes[1..], routeId);
      assert forall i :: 1 <= i < |routes| ==> routes[i] == routes[1..][i - 1];
      rest
  }

  /** trips_with_routes: every active trip, in order, with its route's short name. */
  function JoinRoutes(trips: seq<Trip>, routes: seq<Route>): (joined: seq<TripWithRoute>)
    ensures |joined| == |trips|
    ensures forall i :: 0 <= i < |trips| ==>
      joined[i].trip == trips[i] && joined[i].routeShortName == RouteShortName(routes, trips[i].routeId)
  {
    seq(|trips|, i requires 0 <= i < |trips| => TripWithRoute(trips[i], RouteShortName(routes, trips[i].routeId)))
  }

  /** The trip_id column of trips_with_routes. */
  function TripIds(joined: seq<TripWithRoute>): (ids: seq<string>)
    ensures forall id :: id in ids <==> exists j :: j in joined && j.trip.tripId == id
  {
    if joined == [] then []
    else
      assert forall j :: j in joined <==> j == joined[0] || j in joined[1..];
      [joined[0].trip.tripId] + TripIds(joined[1..])
  }

  /** stop_times rows at the query stop whose trip is among `tripIds`, in table order. */
  function AtStop(stopTimes: seq<StopTime>, stopId: string, tripIds: seq<string>): (rows: seq<StopTime>)
    ensures |rows| <= |stopTimes|
    ensures forall st :: st in rows <==> st in stopTimes && st.stopId == stopId && st.tripId in tripIds
  {
    if stopTimes == [] then []
    else
      assert forall st :: st in stopTimes <==> st == stopTimes[0] || st in stopTimes[1..];
      var head := stopTimes[0];
      (if head.stopId == stopId && head.tripId in tripIds then [head] else [])
        + AtStop(stopTimes[1..], stopId, tripIds)
  }

  /** The departure_time column passed through parse_gtfs_time; one malformed time fails it all. */
  function ParseTimes(rows: seq<StopTime>): (r: Result<seq<TimedStop>>)
    ensures r.Ok? <==> forall i :: 0 <= i < |rows| ==> ParseGtfsTime(rows[i].departureTime).Ok?
    ensures r.Err? ==> r.error == MalformedTime
    ensures r.Ok? ==> |r.value| == |rows| && forall i :: 0 <= i < |rows| ==>
      r.value[i] == TimedStop(rows[i], ParseGtfsTime(rows[i].departureTime).value)
  {
    if rows == [] then Ok([])
    else
      match ParseGtfsTime(rows[0].departureTime)
      case Err(e) => Err(e)
      case Ok(t) =>
        match ParseTimes(rows[1..])
        case Err(e) => Err(e)
        case Ok(rest) => Ok([TimedStop(rows[0], t)] + rest)
  }

  /** Rows whose normalised time is strictly later than `now`, in order. */
  function After(rows: seq<TimedStop>, now: TimeOfDay): (later: seq<TimedStop>)
    ensures |later| <= |rows|
    ensures forall x :: x in later <==> x in rows && x.time > now
  {
    if rows == [] then []
    else
      assert forall x :: x in rows <==> x == rows[0] || x in rows[1..];
      (if rows[0].time > now then [rows[0]] else []) + After(rows[1..], now)
  }

  /** The row of trips_with_routes that a left join on trip_id meets first. */
  function LookupTrip(joined: seq<TripWithRoute>, tripId: string): (found: Option<TripWithRoute>)
    ensures found.None? <==> forall j :: j in joined ==> j.trip.tripId != tripId
    ensures found.Some? ==> found.value in joined && found.value.trip.tripId == tripId
  {
    if joined == [] then None
    else if joined[0].trip.tripId == tripId then Some(joined[0])
    else
      assert forall j :: j in joined <==> j == joined[0] || j in joined[1..];
      LookupTrip(joined[1..], tripId)
  }

  /** The route short name and headsign joined onto one upcoming row. */
  function Label(x: TimedStop, joined: seq<TripWithRoute>): (c: Candidate)
    requires x.row.tripId in TripIds(joined)
    ensures c.time == x.time && c.tripId == x.row.tripId
    ensures exists j :: (j in joined && j.trip.tripId == x.row.tripId &&
                         c.headsign == j.trip.headsign && c.routeShortName == j.routeShortName)
  {
    var j := LookupTrip(joined, x.row.tripId).value;
    Candidate(j.routeShortName, j.trip.headsign, x.time, x.row.tripId)
  }

  /** Every upcoming row labelled, in order. */
  function AttachTrips(rows: seq<TimedStop>, joined: seq<TripWithRoute>): (cands: seq<Candidate>)
    requires forall x :: x in rows ==> x.row.tripId in TripIds(joined)
    ensures |cands| == |rows|
    ensures forall i :: 0 <= i < |rows| ==> cands[i] == Label(rows[i], joined)
  {
    seq(|rows|, i requires 0 <= i < |rows| => Label(rows[i], joined))
  }

  /** Labelling keeps every time later than `now` if it was so before. */
  lemma AttachedLater(rows: seq<TimedStop>, joined: seq<TripWithRoute>, now: TimeOfDay)
    requires forall x :: x in rows ==> x.row.tripId in TripIds(joined) && x.time > now
    ensures forall c :: c in AttachTrips(rows, joined) ==> c.time > now
  {
    var cands := AttachTrips(rows, joined);
    forall c | c in cands
      ensures c.time > now
    {
      var i :| 0 <= i < |cands| && cands[i] == c;
      assert rows[i] in rows;
    }
  }

  /** The trips of the services active on `date`, each with its route's short name. */
  function TripsWithRoutes(feed: CityFeed, date: CalendarDate): (joined: seq<TripWithRoute>)
    ensures |joined| <= |feed.trips|
  {
    JoinRoutes(ActiveTrips(feed.trips, ActiveServices(feed.calendar, date)), feed.routes)
  }

  /** The upcoming departures at `stopId`, labelled but not yet ordered or cut. */
  function Upcoming(feed: CityFeed, stopId: string, now: TimeOfDay, date: CalendarDate): (r: Result<seq<Candidate>>)
    ensures r.Err? ==> r.error == MalformedTime
    ensures r.Ok? ==> forall c :: c in r.value ==> c.time > now
  {
    var joined := TripsWithRoutes(feed, date);
    var rows := AtStop(feed.stopTimes, stopId, TripIds(joined));
    match ParseTimes(rows)
    case Err(e) => Err(e)
    case Ok(timed) =>
      assert forall x :: x in timed ==> x.row in rows by {
        forall x | x in timed ensures x.row in rows {
          var i :| 0 <= i < |timed| && timed[i] == x;
          assert x.row == rows[i];
        }
      }
      var later := After(timed, now);
      AttachedLater(later, joined, now);
      Ok(AttachTrips(later, joined))
  }

  // ----- Ordering and truncation -----

  predicate SortedByTime(cs: seq<Candidate>)
  {
    forall i, j :: 0 <= i < j < |cs| ==> cs[i].time <= cs[j].time
  }

  /** No element of `s` is earlier than `lo`. */
  predicate NoneBefore(s: seq<Candidate>, lo: int)
  {
    forall k :: 0 <= k < |s| ==> lo <= s[k].time
  }

  lemma NoneBeforePermutation(a: seq<Candidate>, b: seq<Candidate>, lo: int)
    requires multiset(a) == multiset(b) && NoneBefore(a, lo)
    ensures NoneBefore(b, lo)
  {
    forall k | 0 <= k < |b|
      ensures lo <= b[k].time
    {
      assert b[k] in multiset(a);
      var m :| 0 <= m < |a| && a[m] == b[k];
    }
  }

  lemma SortedSplit(s: seq<Candidate>)
    requires SortedByTime(s) && s != []
    ensures SortedByTime(s[1..]) && NoneBefore(s[1..], s[0].time)
  {
  }

  lemma SortedJoin(x: Candidate, rest: seq<Candidate>)
    requires SortedByTime(rest) && NoneBefore(rest, x.time)
    ensures SortedByTime([x] + rest)
  {
  }

  lemma ConsMultiset<T>(x: T, s: seq<T>)
    ensures multiset([x] + s) == multiset{x} + multiset(s)
  {
  }

  /** Inserts `c` into `sorted` before the first later-or-equal element. */
  function InsertByTime(c: Candidate, sorted: seq<Candidate>): (r: seq<Candidate>)
    ensures |r| == |sorted| + 1
  {
    if sorted == [] || c.time <= sorted[0].time then [c] + sorted
    else [sorted[0]] + InsertByTime(c, sorted[1..])
  }

  lemma {:induction false} InsertByTimePermutes(c: Candidate, sorted: seq<Candidate>)
    ensures multiset(InsertByTime(c, sorted)) == multiset(sorted) + multiset{c}
  {
    if sorted == [] || c.time <= sorted[0].time {
      ConsMultiset(c, sorted);
    } else {
      var rest := InsertByTime(c, sorted[1..]);
      InsertByTimePermutes(c, sorted[1..]);
      ConsMultiset(sorted[0], rest);
      ConsMultiset(sorted[0], sorted[1..]);
      assert [sorted[0]] + sorted[1..] == sorted;
    }
  }

  lemma {:induction false} InsertByTimeSorted(c: Candidate, sorted: seq<Candidate>)
    requires SortedByTime(sorted)
    ensures SortedByTime(InsertByTime(c, sorted))
  {
    if sorted == [] {
    } else if c.time <= sorted[0].time {
      assert NoneBefore(sorted, c.time);
      SortedJoin(c, sorted);
    } else {
      SortedSplit(sorted);
      var rest := InsertByTime(c, sorted[1..]);
      InsertByTimeSorted(c, sorted[1..]);
      InsertByTimePermutes(c, sorted[1..]);
      ConsMultiset(c, sorted[1..]);
      NoneBeforePermutation([c] + sorted[1..], rest, sorted[0].time);
      SortedJoin(sorted[0], rest);
    }
  }

  /** sort_values('departure_time') as an insertion sort; order among equal times is not part of its meaning. */
  function SortByTime(cs: seq<Candidate>): (r: seq<Candidate>)
    ensures |r| == |cs|
  {
    if cs == [] then [] else InsertByTime(cs[0], SortByTime(cs[1..]))
  }

  /** The sort yields an ascending rearrangement of its input. */
  lemma {:induction false} SortByTimeCorrect(cs: seq<Candidate>)
    ensures SortedByTime(SortByTime(cs))
    ensures multiset(SortByTime(cs)) == multiset(cs)
  {
    if cs != [] {
      SortByTimeCorrect(cs[1..]);
      InsertByTimeSorted(cs[0], SortByTime(cs[1..]));
      InsertByTimePermutes(cs[0], SortByTime(cs[1..]));
      ConsMultiset(cs[0], cs[1..]);
      assert [cs[0]] + cs[1..] == cs;
    }
  }

  /** sort_values then head(NUMBER_OF_FETCHED_DEPARTURES): the earliest departures, in order. */
  function FirstDepartures(cands: seq<Candidate>): (r: seq<Candidate>)
    ensures |r| == Min(NUMBER_OF_FETCHED_DEPARTURES, |cands|)
    ensures SortedByTime(r)
    ensures multiset(r) <= multiset(cands)
    ensures forall x, y :: x in multiset(cands) - multiset(r) && y in r ==> y.time <= x.time
  {
    var sorted := SortByTime(cands);
    SortByTimeCorrect(cands);
    var k := Min(NUMBER_OF_FETCHED_DEPARTURES, |sorted|);
    assert |sorted| == |cands| by {
      assert |multiset(sorted)| == |multiset(cands)|;
    }
    PrefixOfSorted(sorted, k);
    sorted[..k]
  }

  /** A prefix of a sorted sequence holds the earliest elements: nothing left behind is earlier. */
  lemma PrefixOfSorted(s: seq<Candidate>, k: nat)
    requires SortedByTime(s) && k <= |s|
    ensures multiset(s[..k]) <= multiset(s)
    ensures forall x, y :: x in multiset(s) - multiset(s[..k]) && y in s[..k] ==> y.time <= x.time
  {
    assert s == s[..k] + s[k..];
    assert multiset(s) - multiset(s[..k]) == multiset(s[k..]);
    forall x, y | x in multiset(s) - multiset(s[..k]) && y in s[..k]
      ensures y.time <= x.time
    {
      assert x in s[k..];
      var m :| 0 <= m < |s[k..]| && s[k..][m] == x;
      var n :| 0 <= n < k && s[n] == y;
      assert s[k + m] == x;
    }
  }

  /** The answer records; times rendered back with strftime("%H:%M:%S"). */
  function Render(cs: seq<Candidate>): (ds: seq<Departure>)
    ensures |ds| == |cs|
  {
    seq(|cs|, i requires 0 <= i < |cs| =>
      Departure(cs[i].routeShortName, cs[i].headsign, FormatTime(cs[i].time), cs[i].tripId))
  }

  /** get_departures: the next departures at `stopId` after `now` on `date` in `city`. */
  function GetDepartures(store: FeedStore, city: string, stopId: string, now: TimeOfDay, date: CalendarDate)
    : (r: Result<seq<Departure>>)
    ensures city !in store ==> r == Err(UnknownCity(city))
    ensures r.Ok? ==> |r.value| <= NUMBER_OF_FETCHED_DEPARTURES
  {
    if city !in store then Err(UnknownCity(city))
    else
      match Upcoming(store[city], stopId, now, date)
      case Err(e) => Err(e)
      case Ok(cands) => Ok(Render(FirstDepartures(cands)))
  }
}
