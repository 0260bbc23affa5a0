/** What get_departures promises, stated row by row over the city's tables and proved of the
    staged pipeline in Departures. */
module DepartureProperties {
  import opened Outcomes
  import opened GtfsTime
  import opened ServiceCalendar
  import opened Feed
  import opened Departures

  /** Some trip with this id runs on a service that is active on `date`. */
  ghost predicate TripActive(feed: CityFeed, date: CalendarDate, tripId: string)
  {
    exists t :: t in feed.trips && t.tripId == tripId && ServiceActive(feed.calendar, date, t.serviceId)
  }

  /** A stop_times row whose time the pipeline parses: at the query stop, on an active trip. */
  ghost predicate Considered(feed: CityFeed, stopId: string, date: CalendarDate, st: StopTime)
  {
    st.stopId == stopId && TripActive(feed, date, st.tripId)
  }

  /** A considered row whose normalised time is strictly later than `now`. */
  ghost predicate Qualifies(feed: CityFeed, stopId: string, now: TimeOfDay, date: CalendarDate, st: StopTime)
  {
    && Considered(feed, stopId, date, st)
    && ParseGtfsTime(st.departureTime).Ok?
    && ParseGtfsTime(st.departureTime).value > now
  }

  /** The route and headsign labels of an active trip with this id. */
  ghost predicate LabelledByTrip(feed: CityFeed, date: CalendarDate, tripId: string,
                                 headsign: string, routeShortName: Option<string>)
  {
    exists t :: t in feed.trips && t.tripId == tripId && ServiceActive(feed.calendar, date, t.serviceId)
      && headsign == t.headsign && routeShortName == RouteShortName(feed.routes, t.routeId)
  }

  /** Reference definition, one row at a time: the qualifying rows of `rows`, in table order,
      each with its normalised time. */
  ghost function QualifyingRows(feed: CityFeed, stopId: string, now: TimeOfDay, date: CalendarDate,
                                rows: seq<StopTime>): (q: seq<TimedStop>)
    ensures |q| <= |rows|
    ensures forall x :: x in q ==>
      x.row in rows && Qualifies(feed, stopId, now, date, x.row) && ParseGtfsTime(x.row.departureTime) == Ok(x.time)
    ensures forall st :: st in rows && Qualifies(feed, stopId, now, date, st) ==>
      TimedStop(st, ParseGtfsTime(st.departureTime).value) in q
  {
    if rows == [] then []
    else
      assert forall st :: st in rows <==> st == rows[0] || st in rows[1..];
      var head := rows[0];
      (if Qualifies(feed, stopId, now, date, head)
       then [TimedStop(head, ParseGtfsTime(head.departureTime).value)] else [])
        + QualifyingRows(feed, stopId, now, date, rows[1..])
  }

  /** trips_with_routes holds exactly the active trips of the feed, each carrying its route's name. */
  lemma JoinedTripsAreActive(feed: CityFeed, date: CalendarDate)
    ensures forall j :: j in TripsWithRoutes(feed, date) ==>
      j.trip in feed.trips && ServiceActive(feed.calendar, date, j.trip.serviceId)
      && j.routeShortName == RouteShortName(feed.routes, j.trip.routeId)
    ensures forall t :: t in feed.trips && ServiceActive(feed.calendar, date, t.serviceId) ==>
      TripWithRoute(t, RouteShortName(feed.routes, t.routeId)) in TripsWithRoutes(feed, date)
  {
    var active := ActiveTrips(feed.trips, ActiveServices(feed.calendar, date));
    var joined := TripsWithRoutes(feed, date);
    forall t | t in feed.trips && ServiceActive(feed.calendar, date, t.serviceId)
      ensures TripWithRoute(t, RouteShortName(feed.routes, t.routeId)) in joined
    {
      assert t in active;
      var i :| 0 <= i < |active| && active[i] == t;
      assert joined[i] == TripWithRoute(t, RouteShortName(feed.routes, t.routeId));
    }
    forall j | j in joined
      ensures j.trip in feed.trips && ServiceActive(feed.calendar, date, j.trip.serviceId)
      ensures j.routeShortName == RouteShortName(feed.routes, j.trip.routeId)
    {
      var i :| 0 <= i < |joined| && joined[i] == j;
      assert active[i] in active;
    }
  }

  /** The trip_id filter of the pipeline keeps exactly the trips of active services. */
  lemma TripIdsAreActive(feed: CityFeed, date: CalendarDate)
    ensures forall id :: id in TripIds(TripsWithRoutes(feed, date)) <==> TripActive(feed, date, id)
  {
    var active := ActiveTrips(feed.trips, ActiveServices(feed.calendar, date));
    var joined := TripsWithRoutes(feed, date);
    JoinedTripsAreActive(feed, date);
    forall id
      ensures id in TripIds(joined) <==> TripActive(feed, date, id)
    {
      if TripActive(feed, date, id) {
        var t :| t in feed.trips && t.tripId == id && ServiceActive(feed.calendar, date, t.serviceId);
        assert t in active;
        var i :| 0 <= i < |active| && active[i] == t;
        assert joined[i] in joined;
      }
    }
  }

  /** The staged filters (stop and trip, parse, later than now) select exactly the reference rows. */
  lemma {:induction false} StagesMatchRows(feed: CityFeed, stopId: string, now: TimeOfDay, date: CalendarDate,
                                           rows: seq<StopTime>, ids: seq<string>)
    requires forall id :: id in ids <==> TripActive(feed, date, id)
    requires ParseTimes(AtStop(rows, stopId, ids)).Ok?
    ensures After(ParseTimes(AtStop(rows, stopId, ids)).value, now) == QualifyingRows(feed, stopId, now, date, rows)
  {
    if rows != [] {
      var head := rows[0];
      var a := AtStop(rows, stopId, ids);
      var a' := AtStop(rows[1..], stopId, ids);
      if head.stopId == stopId && head.tripId in ids {
        assert a == [head] + a';
        assert a[0] == head && a[1..] == a';
        var t := ParseGtfsTime(head.departureTime).value;
        var v' := ParseTimes(a').value;
        assert ParseTimes(a).value == [TimedStop(head, t)] + v';
        var v := ParseTimes(a).value;
        assert v[0] == TimedStop(head, t) && v[1..] == v';
        StagesMatchRows(feed, stopId, now, date, rows[1..], ids);
      } else {
        assert a == a';
        StagesMatchRows(feed, stopId, now, date, rows[1..], ids);
      }
    }
  }

  /** Upcoming, before ordering: it fails exactly when a considered row has a malformed time, and
      otherwise yields the qualifying rows, in table order, labelled from their trips. */
  lemma UpcomingMatchesRows(feed: CityFeed, stopId: string, now: TimeOfDay, date: CalendarDate)
    ensures Upcoming(feed, stopId, now, date).Ok? <==>
      forall st :: st in feed.stopTimes && Considered(feed, stopId, date, st) ==> ParseGtfsTime(st.departureTime).Ok?
    ensures Upcoming(feed, stopId, now, date).Err? ==> Upcoming(feed, stopId, now, date).error == MalformedTime
    ensures Upcoming(feed, stopId, now, date).Ok? ==>
      var cands := Upcoming(feed, stopId, now, date).value;
      var q := QualifyingRows(feed, stopId, now, date, feed.stopTimes);
      |cands| == |q| &&
      forall i :: 0 <= i < |q| ==>
        cands[i].time == q[i].time && cands[i].tripId == q[i].row.tripId &&
        LabelledByTrip(feed, date, cands[i].tripId, cands[i].headsign, cands[i].routeShortName)
  {
    var joined := TripsWithRoutes(feed, date);
    var ids := TripIds(joined);
    var rows := AtStop(feed.stopTimes, stopId, ids);
    TripIdsAreActive(feed, date);
    JoinedTripsAreActive(feed, date);
    assert (forall i :: 0 <= i < |rows| ==> ParseGtfsTime(rows[i].departureTime).Ok?) <==>
           (forall st :: st in rows ==> ParseGtfsTime(st.departureTime).Ok?);
    if ParseTimes(rows).Ok? {
      StagesMatchRows(feed, stopId, now, date, feed.stopTimes, ids);
      var later := After(ParseTimes(rows).value, now);
      var cands := Upcoming(feed, stopId, now, date).value;
      forall i | 0 <= i < |later|
        ensures LabelledByTrip(feed, date, cands[i].tripId, cands[i].headsign, cands[i].routeShortName)
      {
        assert later[i] in later;
        var j :| j in joined && j.trip.tripId == later[i].row.tripId &&
                 cands[i].headsign == j.trip.headsign && cands[i].routeShortName == j.routeShortName;
        assert j.trip in feed.trips;
      }
    }
  }

  /** The part of UpcomingMatchesRows that matches candidates with reference rows. */
  lemma UpcomingTimesMatchRows(feed: CityFeed, stopId: string, now: TimeOfDay, date: CalendarDate)
    requires Upcoming(feed, stopId, now, date).Ok?
    ensures var cands := Upcoming(feed, stopId, now, date).value;
      var q := QualifyingRows(feed, stopId, now, date, feed.stopTimes);
      |cands| == |q| &&
      forall i :: 0 <= i < |q| ==> cands[i].time == q[i].time && cands[i].tripId == q[i].row.tripId
  {
    UpcomingMatchesRows(feed, stopId, now, date);
  }

  /** A departure record that comes from a qualifying row and carries that row's trip labels. */
  ghost predicate FromQualifyingRow(feed: CityFeed, stopId: string, now: TimeOfDay, date: CalendarDate, d: Departure)
  {
    exists st :: st in feed.stopTimes && Qualifies(feed, stopId, now, date, st) && st.tripId == d.tripId
      && ParseGtfsTime(d.departureTime) == ParseGtfsTime(st.departureTime)
      && LabelledByTrip(feed, date, d.tripId, d.tripHeadsign, d.routeShortName)
  }

  /** Non-decreasing by departure time, each time reading back as a valid time of day. */
  predicate InTimeOrder(ds: seq<Departure>)
  {
    && (forall i :: 0 <= i < |ds| ==> ParseGtfsTime(ds[i].departureTime).Ok?)
    && (forall i, j :: 0 <= i < j < |ds| ==>
          ParseGtfsTime(ds[i].departureTime).Ok? && ParseGtfsTime(ds[j].departureTime).Ok? &&
          ParseGtfsTime(ds[i].departureTime).value <= ParseGtfsTime(ds[j].departureTime).value)
  }

  /** `f` sends each record to its own qualifying row, no two records to the same row: the record
      has that row's trip id and its time reads back as that row's normalised time. */
  ghost predicate RecordsOfDistinctRows(ds: seq<Departure>, q: seq<TimedStop>, f: seq<int>)
  {
    && |f| == |ds|
    && (forall i :: 0 <= i < |ds| ==>
          (0 <= f[i] < |q| && ds[i].tripId == q[f[i]].row.tripId
           && ParseGtfsTime(ds[i].departureTime) == Ok(q[f[i]].time)))
    && (forall i, j :: 0 <= i < j < |f| ==> f[i] != f[j])
  }

  /** Taking out position `k` takes one copy of `b[k]` out of the multiset. */
  lemma RemoveAtMultiset<T>(b: seq<T>, k: int)
    requires 0 <= k < |b|
    ensures multiset(b[..k] + b[k + 1..]) == multiset(b) - multiset{b[k]}
  {
    assert b == b[..k] + [b[k]] + b[k + 1..];
  }

  /** Matching `a[0]` with `b[k]` leaves the rest of `a` a sub-multiset of the rest of `b`. */
  lemma SubMultisetAfterRemoval<T>(a: seq<T>, b: seq<T>, k: int)
    requires multiset(a) <= multiset(b) && a != [] && 0 <= k < |b| && b[k] == a[0]
    ensures multiset(a[1..]) <= multiset(b[..k] + b[k + 1..])
  {
    var rest := b[..k] + b[k + 1..];
    RemoveAtMultiset(b, k);
    assert a == [a[0]] + a[1..];
    assert multiset(a) == multiset{a[0]} + multiset(a[1..]);
    forall x
      ensures multiset(a[1..])[x] <= multiset(rest)[x]
    {
      assert multiset(a)[x] <= multiset(b)[x];
    }
  }

  /** Matching `a[0]` with `b[k]` keeps any value's count in `a` equal to its count in `b`. */
  lemma CountAfterRemoval<T>(a: seq<T>, b: seq<T>, k: int, v: T)
    requires a != [] && 0 <= k < |b| && b[k] == a[0] && multiset(a)[v] == multiset(b)[v]
    ensures multiset(a[1..])[v] == multiset(b[..k] + b[k + 1..])[v]
  {
    assert a == [a[0]] + a[1..];
    RemoveAtMultiset(b, k);
  }

  /** Positions in `b` with position `k` taken out, read back as positions in `b`. */
  lemma ShiftPositions<T>(a: seq<T>, b: seq<T>, k: int, g: seq<int>) returns (h: seq<int>)
    requires 0 <= k < |b| && |g| == |a|
    requires forall i :: 0 <= i < |a| ==> 0 <= g[i] < |b| - 1 && a[i] == (b[..k] + b[k + 1..])[g[i]]
    requires forall i, j :: 0 <= i < j < |g| ==> g[i] != g[j]
    ensures |h| == |a|
    ensures forall i :: 0 <= i < |a| ==> 0 <= h[i] < |b| && h[i] != k && a[i] == b[h[i]]
    ensures forall i, j :: 0 <= i < j < |h| ==> h[i] != h[j]
    ensures forall i :: 0 <= i < |a| ==> h[i] == if g[i] < k then g[i] else g[i] + 1
  {
    h := seq(|g|, i requires 0 <= i < |g| => if g[i] < k then g[i] else g[i] + 1);
  }

  /** A sub-multiset of `b` can be laid out on distinct positions of `b`. */
  lemma {:induction false} SubMultisetPositions<T>(a: seq<T>, b: seq<T>) returns (f: seq<int>)
    requires multiset(a) <= multiset(b)
    ensures |f| == |a|
    ensures forall i :: 0 <= i < |a| ==> 0 <= f[i] < |b| && a[i] == b[f[i]]
    ensures forall i, j :: 0 <= i < j < |f| ==> f[i] != f[j]
    ensures forall j :: 0 <= j < |b| && multiset(a)[b[j]] == multiset(b)[b[j]] ==> j in f
    decreases |a|
  {
    if a == [] {
      return [];
    }
    assert a[0] in multiset(a);
    var k :| 0 <= k < |b| && b[k] == a[0];
    var rest := b[..k] + b[k + 1..];
    SubMultisetAfterRemoval(a, b, k);
    var g := SubMultisetPositions(a[1..], rest);
    var h := ShiftPositions(a[1..], b, k, g);
    f := [k] + h;
    forall i | 1 <= i < |a|
      ensures f[i] == h[i - 1] && a[i] == a[1..][i - 1]
    {
    }
    ShiftedPositionsCover(a, b, k, g, h);
  }

  /** The coverage step of SubMultisetPositions: a value all of whose copies in `b` are matched
      stays fully matched once `a[0]` is matched with `b[k]`. */
  lemma ShiftedPositionsCover<T>(a: seq<T>, b: seq<T>, k: int, g: seq<int>, h: seq<int>)
    requires a != [] && 0 <= k < |b| && b[k] == a[0] && |h| == |g|
    requires forall j :: (0 <= j < |b| - 1 &&
      multiset(a[1..])[(b[..k] + b[k + 1..])[j]] == multiset(b[..k] + b[k + 1..])[(b[..k] + b[k + 1..])[j]]) ==> j in g
    requires forall i :: 0 <= i < |g| ==> h[i] == if g[i] < k then g[i] else g[i] + 1
    ensures forall j :: 0 <= j < |b| && multiset(a)[b[j]] == multiset(b)[b[j]] ==> j in [k] + h
  {
    var rest := b[..k] + b[k + 1..];
    forall j | 0 <= j < |b| && multiset(a)[b[j]] == multiset(b)[b[j]] && j != k
      ensures j in [k] + h
    {
      var j' := if j < k then j else j - 1;
      assert rest[j'] == b[j];
      CountAfterRemoval(a, b, k, b[j]);
      assert multiset(a[1..])[rest[j']] == multiset(rest)[rest[j']];
      assert j' in g;
      var i :| 0 <= i < |g| && g[i] == j';
      assert ([k] + h)[i + 1] == j;
    }
  }

  /** The rendered records read back as the times, trips and labels they were made from. */
  lemma RenderReadsBack(cs: seq<Candidate>)
    ensures forall i :: 0 <= i < |cs| ==>
      var d := Render(cs)[i];
      d.tripId == cs[i].tripId && d.tripHeadsign == cs[i].headsign &&
      d.routeShortName == cs[i].routeShortName && ParseGtfsTime(d.departureTime) == Ok(cs[i].time)
  {
    forall i | 0 <= i < |cs|
      ensures ParseGtfsTime(Render(cs)[i].departureTime) == Ok(cs[i].time)
    {
      ParseFormatRoundTrip(cs[i].time);
    }
  }

  /** get_departures, for a known city: it succeeds exactly when every considered row's time
      parses, and then returns min(10, qualifying rows) records. */
  lemma GetDeparturesOutcome(store: FeedStore, city: string, stopId: string, now: TimeOfDay, date: CalendarDate)
    requires city in store
    ensures var feed := store[city];
      var r := GetDepartures(store, city, stopId, now, date);
      && (r.Ok? <==> forall st :: st in feed.stopTimes && Considered(feed, stopId, date, st) ==>
                       ParseGtfsTime(st.departureTime).Ok?)
      && (r.Err? ==> r.error == MalformedTime)
      && (r.Ok? ==> |r.value| == Min(NUMBER_OF_FETCHED_DEPARTURES, |QualifyingRows(feed, stopId, now, date, feed.stopTimes)|))
  {
    UpcomingMatchesRows(store[city], stopId, now, date);
  }

  /** Each record of the answer comes from a qualifying row, carries that row's trip labels,
      is strictly later than `now`, and shows its time as zero-padded clock text. */
  lemma GetDeparturesRecords(store: FeedStore, city: string, stopId: string, now: TimeOfDay, date: CalendarDate)
    requires city in store
    ensures var feed := store[city];
      var r := GetDepartures(store, city, stopId, now, date);
      && (r.Ok? ==> forall i :: 0 <= i < |r.value| ==> FromQualifyingRow(feed, stopId, now, date, r.value[i]))
      && (r.Ok? ==> forall i :: 0 <= i < |r.value| ==>
            ParseGtfsTime(r.value[i].departureTime).Ok? && ParseGtfsTime(r.value[i].departureTime).value > now)
      && (r.Ok? ==> forall i :: 0 <= i < |r.value| ==> IsClockText(r.value[i].departureTime))
  {
    var feed := store[city];
    UpcomingMatchesRows(feed, stopId, now, date);
    if Upcoming(feed, stopId, now, date).Ok? {
      var cands := Upcoming(feed, stopId, now, date).value;
      var q := QualifyingRows(feed, stopId, now, date, feed.stopTimes);
      var first := FirstDepartures(cands);
      var ds := Render(first);
      RenderReadsBack(first);
      forall i | 0 <= i < |ds|
        ensures FromQualifyingRow(feed, stopId, now, date, ds[i])
        ensures ParseGtfsTime(ds[i].departureTime).Ok? && ParseGtfsTime(ds[i].departureTime).value > now
      {
        assert first[i] in multiset(first);
        assert first[i] in cands;
        var k :| 0 <= k < |cands| && cands[k] == first[i];
        assert q[k] in q;
        var st := q[k].row;
        assert ParseGtfsTime(ds[i].departureTime) == ParseGtfsTime(st.departureTime);
      }
    }
  }

  /** The records of the answer are in time order. */
  lemma GetDeparturesInOrder(store: FeedStore, city: string, stopId: string, now: TimeOfDay, date: CalendarDate)
    requires city in store
    ensures var r := GetDepartures(store, city, stopId, now, date);
      r.Ok? ==> InTimeOrder(r.value)
  {
    var feed := store[city];
    if Upcoming(feed, stopId, now, date).Ok? {
      RenderReadsBack(FirstDepartures(Upcoming(feed, stopId, now, date).value));
    }
  }

  /** get_departures: for a known city, success exactly when every considered row's time parses,
      otherwise a malformed-time error; on success the first min(10, qualifying rows) of the
      qualifying rows: distinct rows, no row left out that is earlier than a returned one, each
      with its trip's labels, strictly later than `now`, in time order, and rendered as
      zero-padded clock text. */
  lemma GetDeparturesSpec(store: FeedStore, city: string, stopId: string, now: TimeOfDay, date: CalendarDate)
    requires city in store
    ensures var feed := store[city];
      var r := GetDepartures(store, city, stopId, now, date);
      var q := QualifyingRows(feed, stopId, now, date, feed.stopTimes);
      && (r.Ok? <==> forall st :: st in feed.stopTimes && Considered(feed, stopId, date, st) ==>
                       ParseGtfsTime(st.departureTime).Ok?)
      && (r.Err? ==> r.error == MalformedTime)
      && (r.Ok? ==> |r.value| == Min(NUMBER_OF_FETCHED_DEPARTURES, |q|))
      && (r.Ok? ==> exists f :: RecordsOfDistinctRows(r.value, q, f) && EarlierRowsReturned(q, f))
      && (r.Ok? ==> forall i :: 0 <= i < |r.value| ==> FromQualifyingRow(feed, stopId, now, date, r.value[i]))
      && (r.Ok? ==> forall i :: 0 <= i < |r.value| ==>
            ParseGtfsTime(r.value[i].departureTime).Ok? && ParseGtfsTime(r.value[i].departureTime).value > now)
      && (r.Ok? ==> forall i :: 0 <= i < |r.value| ==> IsClockText(r.value[i].departureTime))
      && (r.Ok? ==> InTimeOrder(r.value))
  {
    GetDeparturesOutcome(store, city, stopId, now, date);
    GetDeparturesSkipsNothingEarlier(store, city, stopId, now, date);
    GetDeparturesRecords(store, city, stopId, now, date);
    GetDeparturesInOrder(store, city, stopId, now, date);
  }

  /** `f` leaves out no qualifying row that is earlier than a row it returns: every copy of an
      earlier row is among the returned rows. */
  ghost predicate EarlierRowsReturned(q: seq<TimedStop>, f: seq<int>)
  {
    forall k, i :: 0 <= k < |q| && 0 <= i < |f| && 0 <= f[i] < |q| && q[k].time < q[f[i]].time ==> k in f
  }

  /** Of eleven qualifying rows, an answer holding rows 0 and 2..10 leaves out row 1 although it
      is earlier than row 10, even when rows 0 and 1 are copies of one row. */
  lemma DroppedCopyLeavesOutEarlier(q: seq<TimedStop>)
    requires |q| == 11 && q[1].time < q[10].time
    ensures !EarlierRowsReturned(q, [0, 2, 3, 4, 5, 6, 7, 8, 9, 10])
  {
    var f := [0, 2, 3, 4, 5, 6, 7, 8, 9, 10];
    assert f[9] == 10 && 1 !in f;
  }

  /** The kept candidates lie on distinct positions of the input, and every candidate earlier than
      a kept one lies on one of those positions: all of its copies are kept. */
  lemma FirstDeparturesPositions(cands: seq<Candidate>) returns (f: seq<int>)
    ensures |f| == |FirstDepartures(cands)|
    ensures forall i :: 0 <= i < |f| ==> 0 <= f[i] < |cands| && FirstDepartures(cands)[i] == cands[f[i]]
    ensures forall i, j :: 0 <= i < j < |f| ==> f[i] != f[j]
    ensures forall k, i :: 0 <= k < |cands| && 0 <= i < |f| && cands[k].time < FirstDepartures(cands)[i].time ==>
      k in f
  {
    var first := FirstDepartures(cands);
    f := SubMultisetPositions(first, cands);
    forall k, i | 0 <= k < |cands| && 0 <= i < |f| && cands[k].time < first[i].time
      ensures k in f
    {
      var c := cands[k];
      assert first[i] in first;
      assert c !in multiset(cands) - multiset(first);
      assert multiset(first)[c] == multiset(cands)[c];
    }
  }

  /** head(10) after the sort: the records sit on distinct qualifying rows, and every qualifying
      row earlier than a returned one is itself returned, each of its duplicates included. */
  lemma GetDeparturesSkipsNothingEarlier(store: FeedStore, city: string, stopId: string, now: TimeOfDay,
                                         date: CalendarDate)
    requires city in store
    ensures var r := GetDepartures(store, city, stopId, now, date);
      var q := QualifyingRows(store[city], stopId, now, date, store[city].stopTimes);
      r.Ok? ==> exists f :: RecordsOfDistinctRows(r.value, q, f) && EarlierRowsReturned(q, f)
  {
    var feed := store[city];
    if Upcoming(feed, stopId, now, date).Ok? {
      UpcomingTimesMatchRows(feed, stopId, now, date);
      var cands := Upcoming(feed, stopId, now, date).value;
      var q := QualifyingRows(feed, stopId, now, date, feed.stopTimes);
      var first := FirstDepartures(cands);
      RenderReadsBack(first);
      var f := FirstDeparturesPositions(cands);
      assert RecordsOfDistinctRows(Render(first), q, f);
      assert EarlierRowsReturned(q, f) by {
        forall k, i | 0 <= k < |q| && 0 <= i < |f| && 0 <= f[i] < |q| && q[k].time < q[f[i]].time
          ensures k in f
        {
          assert cands[k].time < first[i].time;
        }
      }
    }
  }
}
