/** Service-day resolution: the query date's YYYYMMDD integer and weekday, and which calendar
    rows run on that date. */
module ServiceCalendar {

  /** A proleptic Gregorian date, as Python's datetime.date holds it. */
  datatype Date = Date(year: int, month: int, day: int)

  predicate IsLeapYear(y: int)
  {
    y % 4 == 0 && (y % 100 != 0 || y % 400 == 0)
  }

  function DaysInMonth(y: int, m: int): int
    requires 1 <= m <= 12
  {
    if m == 2 then (if IsLeapYear(y) then 29 else 28)
    else if m == 4 || m == 6 || m == 9 || m == 11 then 30
    else 31
  }

  /** The dates strptime("%Y-%m-%d") accepts: years 1 to 9999 and real days of the month. */
  predicate ValidDate(d: Date)
  {
    1 <= d.year <= 9999 && 1 <= d.month <= 12 && 1 <= d.day <= DaysInMonth(d.year, d.month)
  }

  type CalendarDate = d: Date | ValidDate(d) witness Date(1, 1, 1)

  /** Days in the years before `y`, counted from 0001-01-01. */
  function DaysBeforeYear(y: int): int
  {
    var p := y - 1;
    p * 365 + p / 4 - p / 100 + p / 400
  }

  /** Days in the months of year `y` before month `m`: a table, plus the leap day after February. */
  function DaysBeforeMonth(y: int, m: int): int
    requires 1 <= m <= 12
  {
    var table := [0, 31, 59, 90, 120, 151, 181, 212, 243, 273, 304, 334];
    table[m - 1] + (if m > 2 && IsLeapYear(y) then 1 else 0)
  }

  /** date.toordinal(): 0001-01-01 is day 1. */
  function Ordinal(d: Date): (n: int)
    requires 1 <= d.month <= 12
    ensures d.year >= 1 && d.day >= 1 ==> n >= 1
  {
    DaysBeforeYear(d.year) + DaysBeforeMonth(d.year, d.month) + d.day
  }

  /** date.weekday(): Monday is 0 and Sunday is 6. */
  function Weekday(d: CalendarDate): (w: int)
    ensures 0 <= w < 7
  {
    (Ordinal(d) + 6) % 7
  }

  /** The calendar day after `d`. */
  function NextDate(d: CalendarDate): Date
  {
    if d.day < DaysInMonth(d.year, d.month) then Date(d.year, d.month, d.day + 1)
    else if d.month < 12 then Date(d.year, d.month + 1, 1)
    else Date(d.year + 1, 1, 1)
  }

  /** A year has 366 days when it is a leap year and 365 otherwise. */
  lemma YearLength(y: int)
    requires y >= 1
    ensures DaysBeforeYear(y + 1) == DaysBeforeYear(y) + DaysBeforeMonth(y, 12) + 31
  {
    var p := y - 1;
    assert (p + 1) / 4 == p / 4 + (if y % 4 == 0 then 1 else 0);
    assert (p + 1) / 100 == p / 100 + (if y % 100 == 0 then 1 else 0);
    assert (p + 1) / 400 == p / 400 + (if y % 400 == 0 then 1 else 0);
  }

  /** Consecutive calendar days have consecutive ordinals. */
  lemma NextDateOrdinal(d: CalendarDate)
    ensures 1 <= NextDate(d).month <= 12
    ensures Ordinal(NextDate(d)) == Ordinal(d) + 1
  {
    if d.day == DaysInMonth(d.year, d.month) && d.month == 12 {
      YearLength(d.year);
    }
  }

  /** The weekday advances by one, wrapping from Sunday to Monday, from one day to the next. */
  lemma NextDateWeekday(d: CalendarDate)
    requires ValidDate(NextDate(d))
    ensures Weekday(NextDate(d)) == (Weekday(d) + 1) % 7
  {
    NextDateOrdinal(d);
    ModSevenStep(Ordinal(d) + 6);
  }

  lemma ModSevenStep(n: int)
    ensures (n + 1) % 7 == (n % 7 + 1) % 7
  {
    var q, r := n / 7, n % 7;
    assert n == 7 * q + r && 0 <= r < 7;
    if r < 6 {
      assert n + 1 == 7 * q + (r + 1);
    } else {
      assert n + 1 == 7 * (q + 1);
    }
  }

  /** 2024-01-01 was a Monday. */
  lemma WeekdayAnchor()
    ensures Weekday(Date(2024, 1, 1)) == 0
  {
  }

  /** int(date.strftime("%Y%m%d")): for a valid date its decimal digits read back as the
      year, the month and the day. */
  function DateInt(d: Date): (n: int)
    ensures ValidDate(d) ==> 10101 <= n <= 99991231
    ensures ValidDate(d) ==> n / 10000 == d.year && n / 100 % 100 == d.month && n % 100 == d.day
  {
    DateIntDigits(d.year, d.month, d.day);
    d.year * 10000 + d.month * 100 + d.day
  }

  /** The last two decimal places of y*10000 + m*100 + d hold d, the two before them m. */
  lemma DateIntDigits(y: int, m: int, d: int)
    ensures 0 <= m < 100 && 0 <= d < 100 ==>
      && (y * 10000 + m * 100 + d) / 10000 == y
      && (y * 10000 + m * 100 + d) / 100 % 100 == m
      && (y * 10000 + m * 100 + d) % 100 == d
  {
    if 0 <= m < 100 && 0 <= d < 100 {
      var n := y * 10000 + m * 100 + d;
      assert n == y * 10000 + (m * 100 + d) && 0 <= m * 100 + d < 10000;
      assert n == (y * 100 + m) * 100 + d;
      assert n / 100 == y * 100 + m;
      assert (y * 100 + m) % 100 == m;
    }
  }

  predicate Precedes(a: Date, b: Date)
  {
    a.year < b.year || (a.year == b.year && (a.month < b.month || (a.month == b.month && a.day < b.day)))
  }

  /** Comparing YYYYMMDD integers compares the dates they stand for. */
  lemma DateIntOrder(a: CalendarDate, b: CalendarDate)
    ensures DateInt(a) < DateInt(b) <==> Precedes(a, b)
    ensures DateInt(a) == DateInt(b) <==> a == b
  {
    if a.year < b.year {
      assert DateInt(a) < (a.year + 1) * 10000 <= DateInt(b);
    } else if b.year < a.year {
      assert DateInt(b) < (b.year + 1) * 10000 <= DateInt(a);
    } else if a.month < b.month {
      assert DateInt(a) < a.year * 10000 + (a.month + 1) * 100 <= DateInt(b);
    } else if b.month < a.month {
      assert DateInt(b) < b.year * 10000 + (b.month + 1) * 100 <= DateInt(a);
    }
  }

  /** One row of calendar.txt: the weekday flags and the inclusive YYYYMMDD validity range. */
  datatype CalendarEntry = CalendarEntry(
    serviceId: string,
    monday: int, tuesday: int, wednesday: int, thursday: int,
    friday: int, saturday: int, sunday: int,
    startDate: int, endDate: int)

  /** The weekday column named by the query date (0 = "monday", ..., 6 = "sunday"). */
  function DayFlag(e: CalendarEntry, w: int): int
    requires 0 <= w < 7
  {
    match w
    case 0 => e.monday
    case 1 => e.tuesday
    case 2 => e.wednesday
    case 3 => e.thursday
    case 4 => e.friday
    case 5 => e.saturday
    case _ => e.sunday
  }

  predicate RunsOn(e: CalendarEntry, d: CalendarDate)
  {
    e.startDate <= DateInt(d) <= e.endDate && DayFlag(e, Weekday(d)) == 1
  }

  ghost predicate ServiceActive(calendar: seq<CalendarEntry>, d: CalendarDate, serviceId: string)
  {
    exists e :: e in calendar && e.serviceId == serviceId && RunsOn(e, d)
  }

  /** The service_id column of the calendar rows that run on `d`, in table order. */
  function ActiveServices(calendar: seq<CalendarEntry>, d: CalendarDate): (ids: seq<string>)
    ensures |ids| <= |calendar|
    ensures forall sid :: sid in ids <==> ServiceActive(calendar, d, sid)
  {
    if calendar == [] then []
    else
      var rest := ActiveServices(calendar[1..], d);
      assert forall e :: e in calendar <==> e == calendar[0] || e in calendar[1..];
      if RunsOn(calendar[0], d) then [calendar[0].serviceId] + rest else rest
  }

  /** A date outside every row's range has no active service, which is not an error. */
  lemma {:induction false} NoServiceOutsideRanges(calendar: seq<CalendarEntry>, d: CalendarDate)
    requires forall e :: e in calendar ==> DateInt(d) < e.startDate || e.endDate < DateInt(d)
    ensures ActiveServices(calendar, d) == []
  {
    if calendar != [] {
      NoServiceOutsideRanges(calendar[1..], d);
    }
  }

  predicate UniqueServiceIds(calendar: seq<CalendarEntry>)
  {
    forall i, j :: 0 <= i < j < |calendar| ==> calendar[i].serviceId != calendar[j].serviceId
  }

  /** With one row per service, a row whose flag for the query weekday is not 1 keeps its
      service out of the active set even inside its date range. */
  lemma WeekdayFlagExcludes(calendar: seq<CalendarEntry>, d: CalendarDate, k: int)
    requires UniqueServiceIds(calendar)
    requires 0 <= k < |calendar| && DayFlag(calendar[k], Weekday(d)) != 1
    ensures calendar[k].serviceId !in ActiveServices(calendar, d)
  {
  }
}
