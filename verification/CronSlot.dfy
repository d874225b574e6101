// constraints_19: the minute scan for the first admissible slot, the cron text
// printed for it and the reader of that text.
module CronSlot {
  import opened Orders
  import opened Text

  // Instants are counted in microseconds; a Stamp counts whole minutes.
  function Minutes(n: int): int { 60_000_000 * n }

  datatype Event = Event(start: int, end: int)

  // `start` is the window's start: its whole minute and the microseconds cut off it.
  datatype Request = Request(start: DateTime, startMicros: int, end: int, avoidMinutes: seq<int>,
                             preferredMinutes: seq<int>, gap: int, events: seq<Event>)

  // Strictly more than the gap before the event or after it.
  ghost predicate ClearOf(r: Request, t: int, e: Event) {
    t < e.start - Minutes(r.gap) || t > e.end + Minutes(r.gap)
  }

  ghost predicate Admissible(r: Request, d: DateTime) {
    && d.minute !in r.avoidMinutes
    && (r.preferredMinutes != [] ==> d.minute in r.preferredMinutes)
    && forall e | e in r.events :: ClearOf(r, Minutes(Stamp(d)), e)
  }

  // A whole minute from the truncated window start on and before the window end.
  ghost predicate InWindow(r: Request, d: DateTime) {
    ValidFields(d) && Stamp(r.start) <= Stamp(d) && Minutes(Stamp(d)) < r.end
  }

  ghost predicate Earliest(r: Request, d: DateTime) {
    && InWindow(r, d) && Admissible(r, d)
    && forall e | InWindow(r, e) && Admissible(r, e) :: Stamp(d) <= Stamp(e)
  }

  function CronText(d: DateTime): string
    requires ValidFields(d)
  {
    Decimal(d.minute) + " " + Decimal(d.hour) + " " + Decimal(d.day) + " " + Decimal(d.month) + " *"
  }

  method Blocked(r: Request, cursor: DateTime) returns (blocked: bool)
    ensures blocked <==> exists e :: e in r.events && !ClearOf(r, Minutes(Stamp(cursor)), e)
  {
    blocked := false;
    for k := 0 to |r.events|
      invariant !blocked && forall j | 0 <= j < k :: ClearOf(r, Minutes(Stamp(cursor)), r.events[j])
    {
      var t := Minutes(Stamp(cursor));
      if t >= r.events[k].start - Minutes(r.gap) && t <= r.events[k].end + Minutes(r.gap) {
        assert r.events[k] in r.events;
        return true;
      }
    }
  }

  method ExpectedSchedule(r: Request) returns (cron: Option<string>, chosen: Option<DateTime>)
    requires ValidFields(r.start)
    ensures chosen.None? <==> forall d :: !(InWindow(r, d) && Admissible(r, d))
    ensures chosen.Some? ==> Earliest(r, chosen.value) && cron == Some(CronText(chosen.value))
    ensures chosen.None? ==> cron == None
  {
    var cursor := r.start;
    while Minutes(Stamp(cursor)) < r.end
      invariant ValidFields(cursor) && Stamp(r.start) <= Stamp(cursor)
      invariant forall d | InWindow(r, d) && Admissible(r, d) :: Stamp(cursor) <= Stamp(d)
      decreases r.end - Minutes(Stamp(cursor))
    {
      NextMinuteStamp(cursor);
      forall d | InWindow(r, d) && Admissible(r, d) && !Admissible(r, cursor) ensures Stamp(cursor) + 1 <= Stamp(d) {
        if Stamp(d) == Stamp(cursor) { StampInjective(d, cursor); }
      }
      if cursor.minute in r.avoidMinutes {
        cursor := NextMinute(cursor);
        continue;
      }
      if r.preferredMinutes != [] && cursor.minute !in r.preferredMinutes {
        cursor := NextMinute(cursor);
        continue;
      }
      var blocked := Blocked(r, cursor);
      if !blocked {
        assert Admissible(r, cursor) && InWindow(r, cursor);
        return Some(CronText(cursor)), Some(cursor);
      }
      cursor := NextMinute(cursor);
    }
    return None, None;
  }

  // The window's real start, before its seconds are cut off.
  function RealStart(r: Request): int { Minutes(Stamp(r.start)) + r.startMicros }

  // Cutting off the seconds can move the chosen minute before the window:
  // exactly when there is something to cut off and the truncated start is itself
  // admissible and before the window's end.
  lemma ChosenBeforeWindow(r: Request, d: DateTime)
    requires ValidFields(r.start) && 0 <= r.startMicros < Minutes(1) && Earliest(r, d)
    ensures Minutes(Stamp(d)) < RealStart(r) <==>
            r.startMicros > 0 && Minutes(Stamp(r.start)) < r.end && Admissible(r, r.start)
  {
    if Stamp(d) == Stamp(r.start) { StampInjective(d, r.start); }
    if Minutes(Stamp(r.start)) < r.end { assert InWindow(r, r.start); }
  }

  // A window opening at 08:00:30 with nothing in the way is answered with 08:00.
  lemma TruncatedStartChosen()
    ensures var d := DateTime(2024, 5, 6, 8, 0);
      var r := Request(d, 30_000_000, Minutes(Stamp(d) + 60), [], [], 10, []);
      Earliest(r, d) && Minutes(Stamp(d)) < RealStart(r)
  {
  }

  // The earliest admissible minute, with every instant in microseconds.
  lemma EarliestIff(r: Request, d: DateTime)
    requires ValidFields(r.start) && ValidFields(d)
    ensures Earliest(r, d) <==>
      && InMicros(r, d) && forall e | ValidFields(e) && InMicros(r, e) :: Stamp(d) <= Stamp(e)
  {
    forall e | ValidFields(e) ensures InMicros(r, e) <==> InWindow(r, e) && Admissible(r, e) {
      var t := 60_000_000 * Stamp(e);
      assert forall v | v in r.events ::
        ClearOf(r, t, v) <==> v.start - t > 60_000_000 * r.gap || t - v.end > 60_000_000 * r.gap;
    }
  }

  // Between the truncated start and the end, on a minute that is preferred and not
  // to be avoided, and further than the gap from every event.
  ghost predicate InMicros(r: Request, d: DateTime) {
    var t := 60_000_000 * Stamp(d);
    && 60_000_000 * Stamp(r.start) <= t < r.end
    && d.minute !in r.avoidMinutes && (d.minute in r.preferredMinutes || r.preferredMinutes == [])
    && forall v | v in r.events :: v.start - t > 60_000_000 * r.gap || t - v.end > 60_000_000 * r.gap
  }

  // int(current_local_date[:4]) gives the year; every failure gives None.
  function ParseCronTime(cronExpr: string, currentLocalDate: string): Option<DateTime> {
    var parts := Split(cronExpr);
    if |parts| != 5 || parts[4] != "*" then None
    else
      var year := ParseInt(YearText(currentLocalDate));
      var month, dom, hour, minute := ParseInt(parts[3]), ParseInt(parts[2]), ParseInt(parts[1]), ParseInt(parts[0]);
      if year.None? || month.None? || dom.None? || hour.None? || minute.None? then None
      else
        var d := DateTime(year.value, month.value, dom.value, hour.value, minute.value);
        if ValidFields(d) then Some(d) else None
  }

  function YearText(date: string): string { if |date| < 4 then date else date[..4] }

  // What is read from which text: five fields, the last a star, the others the
  // minute, hour, day and month, the date's first four characters the year.
  lemma ParsedIff(cronExpr: string, currentLocalDate: string, d: DateTime)
    ensures ParseCronTime(cronExpr, currentLocalDate) == Some(d) <==>
      && ValidFields(d)
      && (exists minute, hour, day, month :: Split(cronExpr) == [minute, hour, day, month, "*"] &&
            ReadsAs(minute, d.minute) && ReadsAs(hour, d.hour) && ReadsAs(day, d.day) && ReadsAs(month, d.month))
      && exists year, rest :: currentLocalDate == year + rest && ReadsAs(year, d.year) &&
           (|year| == 4 || (|year| < 4 && rest == ""))
  {
    var parts := Split(cronExpr);
    if |parts| == 5 { assert parts == [parts[0], parts[1], parts[2], parts[3], parts[4]]; }
    var year := YearText(currentLocalDate);
    assert currentLocalDate == year + currentLocalDate[|year|..];
    forall y, rest | currentLocalDate == y + rest && (|y| == 4 || (|y| < 4 && rest == "")) ensures y == year {
      assert (y + rest)[..|y|] == y;
    }
  }

  ghost predicate ReadsAs(text: string, n: int) { ParseInt(text) == Some(n) }

  lemma FiveJoined(a: string, b: string, c: string, d: string, e: string)
    ensures Joined([a, b, c, d, e]) == a + " " + b + " " + c + " " + d + " " + e
  {
    assert [a, b, c, d, e][1..] == [b, c, d, e] && [b, c, d, e][1..] == [c, d, e];
    assert [c, d, e][1..] == [d, e] && [d, e][1..] == [e];
    assert Joined([e]) == e && Joined([d, e]) == d + (" " + e);
    assert Joined([c, d, e]) == c + (" " + Joined([d, e]));
    assert Joined([b, c, d, e]) == b + (" " + Joined([c, d, e]));
    assert Joined([a, b, c, d, e]) == a + (" " + Joined([b, c, d, e]));
  }

  lemma CronTextSplits(d: DateTime)
    requires ValidFields(d)
    ensures Split(CronText(d)) == [Decimal(d.minute), Decimal(d.hour), Decimal(d.day), Decimal(d.month), "*"]
  {
    var a, b, c, e := Decimal(d.minute), Decimal(d.hour), Decimal(d.day), Decimal(d.month);
    DecimalIsWord(d.minute);
    DecimalIsWord(d.hour);
    DecimalIsWord(d.day);
    DecimalIsWord(d.month);
    FiveJoined(a, b, c, e, "*");
    SplitJoined([a, b, c, e, "*"]);
    assert a + " " + b + " " + c + " " + e + " " + "*" == a + " " + b + " " + c + " " + e + " *";
  }

  // Reading the printed cron text gives the same fields back in the request's
  // year, and nothing exactly when that year lacks the day.
  lemma CronRoundTrip(d: DateTime, currentLocalDate: string)
    requires ValidFields(d)
    ensures var year := ParseInt(YearText(currentLocalDate));
      ParseCronTime(CronText(d), currentLocalDate) ==
      if year.Some? && year.value >= 1 && d.day <= DaysInMonth(year.value, d.month)
      then Some(d.(year := year.value)) else None
  {
    CronTextSplits(d);
    ParseIntOfDecimal(d.minute);
    ParseIntOfDecimal(d.hour);
    ParseIntOfDecimal(d.day);
    ParseIntOfDecimal(d.month);
  }

  // The chosen minute comes back exactly when the request is dated in its year.
  lemma ChosenMinuteReadsBack(r: Request, d: DateTime, currentLocalDate: string)
    requires Earliest(r, d)
    ensures ParseCronTime(CronText(d), currentLocalDate) == Some(d) <==>
            ParseInt(YearText(currentLocalDate)) == Some(d.year)
  {
    CronRoundTrip(d, currentLocalDate);
  }

  // 29 February does not come back when the request is dated in a common year.
  lemma LeapDayLost(currentLocalDate: string)
    requires ParseInt(YearText(currentLocalDate)) == Some(2023)
    ensures ValidFields(DateTime(2024, 2, 29, 8, 57))
    ensures ParseCronTime(CronText(DateTime(2024, 2, 29, 8, 57)), currentLocalDate) == None
  {
    CronRoundTrip(DateTime(2024, 2, 29, 8, 57), currentLocalDate);
  }
}
