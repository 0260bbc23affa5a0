# Next departures from the nearest stop: a Dafny model

This project models the departure-resolution core of a small transit web service (`app.py`). The service keeps the static GTFS Schedule tables of several cities in memory. For a city and a query point it finds the nearest stop. For a city, a stop, a time of day and a date it lists the next departures at that stop.

The model covers four pieces:

- **GTFS time normalisation** (`parse_gtfs_time`), module `GtfsTime`.
  - A `departure_time` is split at `:` and each piece is read as an integer.
  - Hours of 24 or more lose 24 once, because a trip running past midnight writes `25:10:00` for 01:10.
  - The triple must then be a valid time of day.
  - Times of day are seconds since midnight.
  - The rendering back to `HH:MM:SS` is proved to read back as the same time.
- **Service-day resolution**, module `ServiceCalendar`.
  - The query date gives a `YYYYMMDD` integer and a weekday, computed the way `date.toordinal()` and `date.weekday()` compute them.
  - A `calendar.txt` row runs on the date when the date lies in its inclusive range and the row's flag for that weekday is 1.
- **The departure pipeline** (`get_departures`), modules `Departures` and `DepartureProperties`. The stages run in this order:
  - trips of active services;
  - a left join with routes;
  - stop_times at the stop on those trips;
  - time normalisation;
  - strictly later than the query time;
  - the trip labels;
  - ascending sort;
  - the first `NUMBER_OF_FETCHED_DEPARTURES` (10);
  - rendering.

  `DepartureProperties` also defines the qualifying rows a second way, one stop_times row at a time, and proves the staged pipeline equal to that definition. The end-to-end contract says that a result:
  - holds `min(10, qualifying rows)` records;
  - each comes from a qualifying row and carries that row's trip labels;
  - each is strictly later than the query time;
  - is in time order;
  - holds distinct qualifying rows: no row is returned twice;
  - leaves out no qualifying row that is earlier than a row it returns, duplicated rows included;
  - renders every time as zero-padded `HH:MM:SS` with hours 00 to 23.
- **Nearest stop** (`find_nearest_stop`), module `NearestStop`. A method computes one distance per stop into a local sequence. It then scans for the first index of the minimum, as `idxmin` does. The great-circle distance itself is a function parameter.

`Outcomes` holds `Option`, `Result` and the three failures of the core:
- an unknown city key (a `KeyError` in the source);
- a city without stops (`idxmin` of an empty column);
- a malformed departure time (a `ValueError`).

`Feed` holds the table rows. `Scenario` proves what the core returns on a one-stop, one-trip feed for Brno: its stop is the nearest stop, and a departure at 08:15 is listed at 08:00 and not at 08:15.

A departure time such as `25:10:00` is normalised to 01:10 and compared with the query time of the same day. This follows the source: a trip of the previous service day that runs past midnight is not considered, and a trip of today's service at `25:10:00` is listed as 01:10.

## Model

| member | source | states |
|---|---|---|
| GtfsTime.Split | app.py:78 | `str.split(':')`: at least one piece, and no piece contains the separator |
| GtfsTime.JoinSplit | app.py:78 | joining the pieces of a split with the separator restores the text |
| GtfsTime.SplitJoin | app.py:78 | splitting a join of separator-free pieces gives back exactly those pieces |
| GtfsTime.ParseInt | app.py:78 | `int()` succeeds exactly on one or more ASCII digits, optionally after a `+` or `-` sign |
| GtfsTime.ParseIntDecimal | app.py:78 | `int()` reads the decimal text of every natural number back as that number |
| GtfsTime.Pad2 | app.py:82 | `f"{n:02}"` for 0..99: exactly two digits whose value is n |
| GtfsTime.ParseIntPad2 | app.py:82 | the two-digit zero-padded text of 0..99 reads back as the same number |
| GtfsTime.NormaliseFields | app.py:79-82 | accepted exactly when 0 ≤ h < 48 and 0 ≤ m, s < 60, and otherwise a malformed-time error; hours below 24 are kept; hours 24..47 become h − 24 once; minutes and seconds are unchanged |
| GtfsTime.FieldsOfClock | app.py:82 | a valid (h, m, s) is a time of day whose hour, minute and second fields are h, m and s |
| GtfsTime.ClockOfFields | app.py:82 | a time of day is rebuilt from its own hour, minute and second fields, each in range |
| GtfsTime.ParseGtfsTime | app.py:76-82 | success only when the text splits into exactly three pieces and each is an integer |
| GtfsTime.ParseDecimalFields | app.py:76-82 | on any three naturals written in decimal with colons, parsing decides exactly as NormaliseFields: past-midnight hours shift once, out-of-range fields fail |
| GtfsTime.ParsePaddedFields | app.py:76-82 | the same for zero-padded two-digit fields, the form feeds use |
| GtfsTime.FormatTime | app.py:126 | `strftime("%H:%M:%S")`: eight characters, digit pairs separated by colons at positions 2 and 5, hours 00..23, minutes and seconds 00..59, the pairs being the time's hour, minute and second |
| GtfsTime.ParseFormatRoundTrip | app.py:126 | the rendered `HH:MM:SS` has 8 characters and parses back to the same time of day |
| GtfsTime.PastMidnightExample | app.py:79-82 | `25:10:00` normalises to 01:10:00 |
| GtfsTime.SameDayExample | app.py:76-82 | `08:00:00` stays 08:00:00 |
| GtfsTime.ClockOrder | app.py:116 | comparing times field by field, as Python's `time` compares them, is comparing seconds since midnight |
| ServiceCalendar.Ordinal | app.py:92 | `date.toordinal()`: every valid date has ordinal at least 1 (0001-01-01 is day 1); consecutive days have consecutive ordinals (NextDateOrdinal) |
| ServiceCalendar.Weekday | app.py:92 | the weekday index is one of the seven flag columns (0 = monday … 6 = sunday) |
| ServiceCalendar.NextDateOrdinal | app.py:92 | the next calendar day has the next ordinal, across month and year ends and leap years |
| ServiceCalendar.NextDateWeekday | app.py:92 | from one day to the next the weekday advances by one, from Sunday back to Monday |
| ServiceCalendar.WeekdayAnchor | app.py:92 | 2024-01-01 is a Monday |
| ServiceCalendar.DateInt | app.py:94 | `int(strftime("%Y%m%d"))` of a valid date lies in 10101..99991231, and its digits read back as year (`n / 10000`), month (`n / 100 % 100`) and day (`n % 100`) |
| ServiceCalendar.DateIntOrder | app.py:94 | comparing `YYYYMMDD` integers is comparing the dates, both for `<` and for equality |
| ServiceCalendar.DayFlag | app.py:92-99 | the weekday column that `strftime("%A").lower()` names: 0 reads `monday`, …, 6 reads `sunday`; no contract of its own, it is specified through ActiveServices |
| ServiceCalendar.RunsOn | app.py:97-99 | the three conditions of the calendar filter on one row; no contract of its own, ActiveServices states what it selects |
| ServiceCalendar.ActiveServices | app.py:96-100 | a service id is listed exactly when some calendar row with that id has the date in its inclusive range and flag 1 for the date's weekday |
| ServiceCalendar.NoServiceOutsideRanges | app.py:96-100 | a date outside every row's range gives the empty list, not an error |
| ServiceCalendar.WeekdayFlagExcludes | app.py:99 | with one row per service, a row whose weekday flag is not 1 keeps its service out |
| NearestStop.Distances | app.py:71 | one distance per stop, in table order |
| NearestStop.FindNearestStop | app.py:65-73 | unknown city and empty stop table are errors; otherwise the id and name of the stop at a first minimum: no stop is nearer, and every earlier stop is strictly farther |
| NearestStop.FirstMinimumUnique | app.py:72 | there is only one first minimum, so ties are broken by table order alone |
| Departures.ActiveTrips | app.py:102 | a trip is kept exactly when it is in the table and its service id is active |
| Departures.RouteShortName | app.py:104-108 | nothing exactly when no route has the id; otherwise the short name of a route with that id |
| Departures.JoinRoutes | app.py:104-108 | the left join keeps every trip, in order, each with its route's short name or nothing |
| Departures.TripsWithRoutes | app.py:102-108 | at most one row per trip; JoinedTripsAreActive states which rows it holds |
| Departures.TripIds | app.py:112 | an id is listed exactly when some joined trip has it |
| Departures.AtStop | app.py:110-113 | a stop_times row is kept exactly when it is at the query stop and its trip is active |
| Departures.ParseTimes | app.py:115 | succeeds exactly when every kept row's time parses, otherwise a malformed-time error; on success each row is paired with its own normalised time, in order |
| Departures.After | app.py:116 | a row is kept exactly when its time is strictly later than the query time |
| Departures.LookupTrip | app.py:118-122 | nothing exactly when no joined trip has the id; otherwise a joined trip with that id |
| Departures.Label | app.py:118-122 | keeps the row's time and trip id and takes headsign and route short name from a joined trip with that id |
| Departures.AttachTrips | app.py:118-122 | every upcoming row labelled, one candidate per row, in order |
| Departures.Upcoming | app.py:110-122 | an error is always a malformed time; on success every candidate is strictly later than the query time; UpcomingMatchesRows states its contents |
| Departures.InsertByTime | app.py:124 | one element longer than its input; InsertByTimeSorted and InsertByTimePermutes state order and contents |
| Departures.InsertByTimePermutes | app.py:124 | inserting adds exactly the one new element |
| Departures.InsertByTimeSorted | app.py:124 | inserting into a time-ordered sequence keeps it time-ordered |
| Departures.SortByTime | app.py:124 | `sort_values('departure_time')`: as long as its input; SortByTimeCorrect states order and permutation |
| Departures.SortByTimeCorrect | app.py:124 | the sort is in non-decreasing time order and a permutation of its input |
| Departures.FirstDepartures | app.py:124-128 | after the sort, `head(10)` holds min(10, n) candidates, in time order, drawn from the input; every left-out candidate is no earlier than every kept one |
| Departures.PrefixOfSorted | app.py:128 | a prefix of a sorted sequence is a sub-multiset, and nothing outside it is earlier than what it holds |
| Departures.Render | app.py:126 | one record per candidate |
| Departures.GetDepartures | app.py:85-128 | an absent city is an unknown-city error; a result holds at most 10 records; GetDeparturesSpec states the rest |
| DepartureProperties.QualifyingRows | app.py:110-116 | reference definition: it lists exactly the rows at the stop, on active trips, whose time parses and is strictly later than the query time, each with its normalised time |
| DepartureProperties.JoinedTripsAreActive | app.py:102-108 | both directions: every joined row is a trip of the feed on an active service carrying its route's short name, and every such trip is joined with that name |
| DepartureProperties.TripIdsAreActive | app.py:102-112 | the pipeline's trip-id filter admits exactly the trips of active services |
| DepartureProperties.StagesMatchRows | app.py:110-116 | the stop and trip filter, the parse and the later-than filter together equal the reference rows, in table order |
| DepartureProperties.UpcomingMatchesRows | app.py:96-122 | before ordering, the pipeline fails exactly when a considered row's time is malformed; otherwise it yields one candidate per reference row, in order, with that row's time and trip id and labels from an active trip with that id |
| DepartureProperties.RenderReadsBack | app.py:126 | each record keeps trip id, headsign and route short name, and its time text parses back to the candidate's time |
| DepartureProperties.GetDeparturesOutcome | app.py:85-128 | for a known city: success exactly when every considered row's time parses, otherwise a malformed-time error; on success min(10, qualifying rows) records |
| DepartureProperties.GetDeparturesRecords | app.py:118-126 | each record comes from a qualifying row with that trip's headsign and route short name, is strictly later than the query time, and shows zero-padded `HH:MM:SS` text with hours 00..23 |
| DepartureProperties.GetDeparturesInOrder | app.py:124-126 | the records' times read back in non-decreasing order |
| DepartureProperties.GetDeparturesSpec | app.py:85-128 | all of the above together: for a known city, success exactly when every considered row's time parses, otherwise a malformed-time error; on success min(10, qualifying rows) records on distinct qualifying rows, with no qualifying row left out that is earlier than a returned one (duplicates counted), with their trips' labels, strictly later than the query time, in time order, as zero-padded clock text |
| DepartureProperties.FirstDeparturesPositions | app.py:124-128 | `head(10)` after the sort takes its candidates from distinct positions of the input, and every position holding a candidate earlier than a kept one is among them, so every copy of an earlier candidate is kept |
| DepartureProperties.DroppedCopyLeavesOutEarlier | app.py:124-128 | of eleven qualifying rows, an answer that keeps rows 0 and 2..10 but drops row 1, earlier than row 10, leaves out an earlier row even when row 1 copies row 0 |
| DepartureProperties.GetDeparturesSkipsNothingEarlier | app.py:124-128 | an injective map sends each record to a qualifying row with its trip id and time, and every qualifying row earlier than a returned row is itself returned, each duplicate included |
| Scenario.BrnoNearestStop | app.py:65-73 | on the one-stop Brno feed, whatever the distance function, the nearest stop is `HN`, "Hlavní nádraží" |
| Scenario.BrnoDepartures | app.py:85-128 | on a one-trip feed, the 08:15 departure is listed at 08:00 with route and headsign, and not at 08:15 |

## Left out

- The HTTP endpoint `departures` is not modelled: query parsing, JSON output, the catch-all error response, and the defaults taken from the wall clock in the Europe/Prague zone are I/O.
- `initialize_gtfs` is not modelled: the directory listing, CSV reading and print-and-skip error handling are file I/O. The model starts from the loaded tables (`Feed.FeedStore`).
- The port setting and the colour constants are configuration with no bearing on the results.
- The body of `haversine` is not modelled, because it is floating-point trigonometry. The distance is a function parameter, and floats are reals (no NaN, no rounding).
- NearestStop.FindNearestStop writes no distance column onto the shared stops table; it keeps the distances in a local sequence. The write only matters when requests run concurrently.
- Parsing the query time and date with `strptime` and formatting the weekday name with `strftime("%A")` are left out. The query time is given as a time of day below 24 hours, and the date as a valid calendar date. The weekday is computed as Python computes it.
- GtfsTime.ParseInt reads an optional sign and ASCII digits only. The whitespace, underscores and non-ASCII digits that Python's `int()` also accepts are not modelled.
- Missing (NaN) cells in the tables are not modelled; every cell holds a value of its column's type.
- The joins take the first row with a matching key. pandas repeats a row once per match when `route_id` or `trip_id` keys are duplicated, and the model does not.
- Departures.SortByTime is a stable insertion sort. The source's `sort_values` is not stable, so only non-decreasing order and permutation are claimed, not the order among equal times.
