/** The five GTFS tables of one city, as read from its feed, and the store of all cities. */
module Feed {
  import opened ServiceCalendar

  /** A row of stops.txt. */
  datatype Stop = Stop(stopId: string, stopName: string, lat: real, lon: real)

  /** A row of stop_times.txt; the departure time is still text, hours possibly past 23. */
  datatype StopTime = StopTime(tripId: string, stopId: string, departureTime: string)

  /** A row of trips.txt. */
  datatype Trip = Trip(tripId: string, routeId: string, serviceId: string, headsign: string)

  /** A row of routes.txt. */
  datatype Route = Route(routeId: string, shortName: string)

  datatype CityFeed = CityFeed(
    stops: seq<Stop>,
    stopTimes: seq<StopTime>,
    trips: seq<Trip>,
    calendar: seq<CalendarEntry>,
    routes: seq<Route>)

  /** Every loaded city by its key; loaded once and only read afterwards. */
  type FeedStore = map<string, CityFeed>
}
