/** GTFS departure times: parsing "HH:MM:SS" with hours that may run past midnight, normalising
    them into a time of day, and rendering a time of day back to zero-padded text. */
module GtfsTime {
  import opened Outcomes

  const SECONDS_PER_DAY: int := 86400

  /** A time of day, as the number of seconds since midnight. */
  type TimeOfDay = t: int | 0 <= t < SECONDS_PER_DAY

  function HourOf(t: TimeOfDay): int { t / 3600 }
  function MinuteOf(t: TimeOfDay): int { t / 60 % 60 }
  function SecondOf(t: TimeOfDay): int { t % 60 }

  /** Seconds since midnight of an (hours, minutes, seconds) triple. */
  function Clock(h: int, m: int, s: int): int { h * 3600 + m * 60 + s }

  /** Splits `s` at every occurrence of `sep`, keeping empty pieces, like Python's str.split(sep). */
  function Split(s: string, sep: char): (parts: seq<string>)
    ensures |parts| >= 1
    ensures forall i :: 0 <= i < |parts| ==> sep !in parts[i]
  {
    if s == [] then [""]
    else
      var rest := Split(s[1..], sep);
      if s[0] == sep then [""] + rest
      else [[s[0]] + rest[0]] + rest[1..]
  }

  /** Glues the pieces together with `sep` between neighbours, like Python's sep.join(parts). */
  function Join(parts: seq<string>, sep: char): string
    requires |parts| >= 1
  {
    if |parts| == 1 then parts[0] else parts[0] + [sep] + Join(parts[1..], sep)
  }

  lemma {:induction false} JoinSplit(s: string, sep: char)
    ensures Join(Split(s, sep), sep) == s
  {
    if s != [] {
      JoinSplit(s[1..], sep);
      var rest := Split(s[1..], sep);
      if s[0] == sep {
        assert ([""] + rest)[1..] == rest;
      } else {
        var parts := [[s[0]] + rest[0]] + rest[1..];
        if |rest| > 1 {
          assert parts[1..] == rest[1..];
        }
        assert Join(parts, sep) == [s[0]] + Join(rest, sep);
        assert s == [s[0]] + s[1..];
      }
    }
  }

  lemma {:induction false} SplitWithoutSep(x: string, sep: char)
    requires sep !in x
    ensures Split(x, sep) == [x]
  {
    if x != [] {
      SplitWithoutSep(x[1..], sep);
      assert x == [x[0]] + x[1..];
    }
  }

  lemma {:induction false} SplitAtFirstSep(x: string, rest: string, sep: char)
    requires sep !in x
    ensures Split(x + [sep] + rest, sep) == [x] + Split(rest, sep)
  {
    var s := x + [sep] + rest;
    if x == [] {
      assert s[1..] == rest;
    } else {
      assert s[1..] == x[1..] + [sep] + rest;
      SplitAtFirstSep(x[1..], rest, sep);
      assert [x[0]] + x[1..] == x;
    }
  }

  lemma {:induction false} SplitJoin(parts: seq<string>, sep: char)
    requires |parts| >= 1
    requires forall i :: 0 <= i < |parts| ==> sep !in parts[i]
    ensures Split(Join(parts, sep), sep) == parts
  {
    if |parts| == 1 {
      SplitWithoutSep(parts[0], sep);
    } else {
      SplitJoin(parts[1..], sep);
      SplitAtFirstSep(parts[0], Join(parts[1..], sep), sep);
      assert [parts[0]] + parts[1..] == parts;
    }
  }

  predicate IsDigit(c: char) { '0' <= c <= '9' }

  predicate AllDigits(s: string) { forall i :: 0 <= i < |s| ==> IsDigit(s[i]) }

  /** The value of a string of decimal digits, most significant first. */
  function DigitsValue(s: string): nat
    requires AllDigits(s)
  {
    if s == [] then 0 else DigitsValue(s[..|s| - 1]) * 10 + (s[|s| - 1] as int - '0' as int)
  }

  /** Python's int() on a string: an optional sign followed by at least one decimal digit. */
  function ParseInt(s: string): (r: Option<int>)
    ensures r.Some? <==>
      (|s| > 0 && AllDigits(s)) || (|s| > 1 && (s[0] == '-' || s[0] == '+') && AllDigits(s[1..]))
  {
    if |s| > 1 && s[0] == '-' && AllDigits(s[1..]) then Some(0 - DigitsValue(s[1..]))
    else if |s| > 1 && s[0] == '+' && AllDigits(s[1..]) then Some(DigitsValue(s[1..]))
    else if |s| > 0 && AllDigits(s) then Some(DigitsValue(s))
    else None
  }

  function DigitChar(d: int): char
    requires 0 <= d < 10
  {
    ('0' as int + d) as char
  }

  /** The shortest decimal text of `n`, as str(n). */
  function Decimal(n: nat): string
  {
    if n < 10 then [DigitChar(n)] else Decimal(n / 10) + [DigitChar(n % 10)]
  }

  /** The number two decimal digits stand for. */
  function DigitPairValue(a: char, b: char): int
  {
    (a as int - '0' as int) * 10 + (b as int - '0' as int)
  }

  /** `n` written with at least two digits, as f"{n:02}" for 0 <= n < 100. */
  function Pad2(n: int): (p: string)
    requires 0 <= n < 100
    ensures |p| == 2 && IsDigit(p[0]) && IsDigit(p[1]) && DigitPairValue(p[0], p[1]) == n
  {
    [DigitChar(n / 10), DigitChar(n % 10)]
  }

  lemma {:induction false} ParseIntDecimal(n: nat)
    ensures AllDigits(Decimal(n)) && DigitsValue(Decimal(n)) == n
    ensures ParseInt(Decimal(n)) == Some(n)
  {
    var s := Decimal(n);
    if n >= 10 {
      ParseIntDecimal(n / 10);
      assert s[..|s| - 1] == Decimal(n / 10);
    }
  }

  lemma ParseIntPad2(n: int)
    requires 0 <= n < 100
    ensures ParseInt(Pad2(n)) == Some(n)
  {
    var s := Pad2(n);
    assert DigitChar(n / 10) as int - '0' as int == n / 10;
    assert DigitChar(n % 10) as int - '0' as int == n % 10;
    assert AllDigits(s);
    assert s[..1] == [DigitChar(n / 10)];
    assert [DigitChar(n / 10)][..0] == [];
    assert DigitsValue(s[..1]) == n / 10;
    assert DigitsValue(s) == n;
  }

  /** The hour fix-up of parse_gtfs_time followed by strptime's range check: hours of 24 or more
      lose 24 once, and the triple is then accepted only as a valid time of day. */
  function NormaliseFields(h: int, m: int, s: int): (r: Result<TimeOfDay>)
    ensures r.Ok? <==> 0 <= h < 48 && 0 <= m < 60 && 0 <= s < 60
    ensures r.Err? ==> r.error == MalformedTime
    ensures r.Ok? && h < 24 ==> HourOf(r.value) == h && MinuteOf(r.value) == m && SecondOf(r.value) == s
    ensures r.Ok? && h >= 24 ==> HourOf(r.value) == h - 24 && MinuteOf(r.value) == m && SecondOf(r.value) == s
  {
    var hour := if h >= 24 then h - 24 else h;
    if 0 <= hour < 24 && 0 <= m < 60 && 0 <= s < 60 then
      FieldsOfClock(hour, m, s);
      Ok(Clock(hour, m, s))
    else
      Err(MalformedTime)
  }

  lemma FieldsOfClock(h: int, m: int, s: int)
    requires 0 <= h < 24 && 0 <= m < 60 && 0 <= s < 60
    ensures 0 <= Clock(h, m, s) < SECONDS_PER_DAY
    ensures Clock(h, m, s) / 3600 == h && Clock(h, m, s) / 60 % 60 == m && Clock(h, m, s) % 60 == s
  {
    var t := Clock(h, m, s);
    assert t == (h * 60 + m) * 60 + s;
    assert t / 60 == h * 60 + m;
    assert t % 60 == s;
    assert (h * 60 + m) % 60 == m;
    assert t == h * 3600 + (m * 60 + s) && m * 60 + s < 3600;
  }

  lemma ClockOfFields(t: TimeOfDay)
    ensures 0 <= HourOf(t) < 24 && 0 <= MinuteOf(t) < 60 && 0 <= SecondOf(t) < 60
    ensures Clock(HourOf(t), MinuteOf(t), SecondOf(t)) == t
  {
    assert t == (t / 60) * 60 + t % 60;
    assert t / 60 == (t / 60 / 60) * 60 + t / 60 % 60;
    assert t / 60 / 60 == t / 3600;
  }

  /** parse_gtfs_time: three colon-separated integers, normalised into a time of day. */
  function ParseGtfsTime(text: string): (r: Result<TimeOfDay>)
    ensures r.Ok? ==> |Split(text, ':')| == 3
    ensures r.Ok? ==> forall i :: 0 <= i < 3 ==> ParseInt(Split(text, ':')[i]).Some?
  {
    var parts := Split(text, ':');
    if |parts| != 3 then Err(MalformedTime)
    else
      match (ParseInt(parts[0]), ParseInt(parts[1]), ParseInt(parts[2]))
      case (Some(h), Some(m), Some(s)) => NormaliseFields(h, m, s)
      case _ => Err(MalformedTime)
  }

  /** Zero-padded "HH:MM:SS" text of a time of day: two digits per field, hours 00 to 23,
      minutes and seconds 00 to 59. */
  predicate IsClockText(s: string)
  {
    && |s| == 8 && s[2] == ':' && s[5] == ':'
    && IsDigit(s[0]) && IsDigit(s[1]) && IsDigit(s[3]) && IsDigit(s[4]) && IsDigit(s[6]) && IsDigit(s[7])
    && DigitPairValue(s[0], s[1]) < 24 && DigitPairValue(s[3], s[4]) < 60 && DigitPairValue(s[6], s[7]) < 60
  }

  /** strftime("%H:%M:%S") of a time of day: clock text whose digit pairs are its hour, minute
      and second. */
  function FormatTime(t: TimeOfDay): (s: string)
    ensures IsClockText(s)
    ensures DigitPairValue(s[0], s[1]) == HourOf(t)
    ensures DigitPairValue(s[3], s[4]) == MinuteOf(t)
    ensures DigitPairValue(s[6], s[7]) == SecondOf(t)
  {
    ClockOfFields(t);
    Pad2(HourOf(t)) + ":" + Pad2(MinuteOf(t)) + ":" + Pad2(SecondOf(t))
  }

  lemma {:induction false} SplitThree(a: string, b: string, c: string)
    requires ':' !in a && ':' !in b && ':' !in c
    ensures Split(a + ":" + b + ":" + c, ':') == [a, b, c]
  {
    assert [a, b, c][1..] == [b, c];
    assert [b, c][1..] == [c];
    assert Join([c], ':') == c;
    assert Join([b, c], ':') == b + [':'] + c;
    assert Join([a, b, c], ':') == a + [':'] + (b + [':'] + c);
    assert a + [':'] + (b + [':'] + c) == a + ":" + b + ":" + c;
    SplitJoin([a, b, c], ':');
  }

  lemma ParseThree(a: string, b: string, c: string)
    requires ':' !in a && ':' !in b && ':' !in c
    ensures ParseGtfsTime(a + ":" + b + ":" + c) ==
      match (ParseInt(a), ParseInt(b), ParseInt(c))
      case (Some(h), Some(m), Some(s)) => NormaliseFields(h, m, s)
      case _ => Err(MalformedTime)
  {
    SplitThree(a, b, c);
  }

  lemma DecimalHasNoColon(n: nat)
    ensures ':' !in Decimal(n)
  {
    ParseIntDecimal(n);
    forall i | 0 <= i < |Decimal(n)|
      ensures Decimal(n)[i] != ':'
    {
      assert IsDigit(Decimal(n)[i]);
    }
  }

  /** Plain decimal fields: the text parses exactly as NormaliseFields decides. */
  lemma ParseDecimalFields(h: nat, m: nat, s: nat)
    ensures ParseGtfsTime(Decimal(h) + ":" + Decimal(m) + ":" + Decimal(s)) == NormaliseFields(h, m, s)
  {
    DecimalHasNoColon(h);
    DecimalHasNoColon(m);
    DecimalHasNoColon(s);
    ParseIntDecimal(h);
    ParseIntDecimal(m);
    ParseIntDecimal(s);
    ParseThree(Decimal(h), Decimal(m), Decimal(s));
  }

  /** Zero-padded two-digit fields, the form GTFS feeds use. */
  lemma ParsePaddedFields(h: int, m: int, s: int)
    requires 0 <= h < 100 && 0 <= m < 100 && 0 <= s < 100
    ensures ParseGtfsTime(Pad2(h) + ":" + Pad2(m) + ":" + Pad2(s)) == NormaliseFields(h, m, s)
  {
    ParseIntPad2(h);
    ParseIntPad2(m);
    ParseIntPad2(s);
    ParseThree(Pad2(h), Pad2(m), Pad2(s));
  }

  /** Rendering a time of day and parsing it back gives the same time. */
  lemma ParseFormatRoundTrip(t: TimeOfDay)
    ensures |FormatTime(t)| == 8
    ensures ParseGtfsTime(FormatTime(t)) == Ok(t)
  {
    ClockOfFields(t);
    ParsePaddedFields(HourOf(t), MinuteOf(t), SecondOf(t));
  }

  /** The two examples of a past-midnight and an ordinary departure time. */
  lemma PastMidnightExample()
    ensures ParseGtfsTime("25:10:00") == Ok(Clock(1, 10, 0))
  {
    assert Pad2(25) == "25" && Pad2(10) == "10" && Pad2(0) == "00";
    assert Pad2(25) + ":" + Pad2(10) + ":" + Pad2(0) == "25:10:00";
    ParsePaddedFields(25, 10, 0);
  }

  lemma SameDayExample()
    ensures ParseGtfsTime("08:00:00") == Ok(Clock(8, 0, 0))
  {
    assert Pad2(8) == "08" && Pad2(0) == "00";
    assert Pad2(8) + ":" + Pad2(0) + ":" + Pad2(0) == "08:00:00";
    ParsePaddedFields(8, 0, 0);
  }

  /** Python compares time values field by field; on valid fields that order is the order of
      their seconds since midnight. */
  lemma ClockOrder(h1: int, m1: int, s1: int, h2: int, m2: int, s2: int)
    requires 0 <= h1 < 24 && 0 <= m1 < 60 && 0 <= s1 < 60
    requires 0 <= h2 < 24 && 0 <= m2 < 60 && 0 <= s2 < 60
    ensures Clock(h1, m1, s1) < Clock(h2, m2, s2) <==>
      h1 < h2 || (h1 == h2 && (m1 < m2 || (m1 == m2 && s1 < s2)))
  {
    if h1 < h2 {
      assert Clock(h1, m1, s1) < (h1 + 1) * 3600 <= Clock(h2, m2, s2);
    } else if h2 < h1 {
      assert Clock(h2, m2, s2) < (h2 + 1) * 3600 <= Clock(h1, m1, s1);
    }
  }
}
