// planning_06: the two hour-bucket sweeps over a proposed schedule, rooms and
// attendees, against the pairwise notion of overlapping meetings.
module HourSweep {
  import opened Orders
  import opened Text

  datatype RawMeeting = RawMeeting(start: string, end: string, room: string, attendees: seq<string>)

  // A meeting with its hour range; None when either hour does not parse and
  // the sweeps skip the meeting.
  datatype Meeting = Meeting(hours: Option<(int, int)>, room: string, attendees: seq<string>)

  // s.split(":")[0]
  function UpToColon(s: string): (r: string)
    ensures r <= s && ':' !in r && (|r| < |s| ==> s[|r|] == ':')
  {
    if s == "" || s[0] == ':' then "" else [s[0]] + UpToColon(s[1..])
  }

  // int(start.split(":")[0]) and the same for the end.
  function Parsed(m: RawMeeting): Meeting {
    var start, end := ParseInt(UpToColon(m.start)), ParseInt(UpToColon(m.end));
    Meeting(if start.None? || end.None? then None else Some((start.value, end.value)), m.room, m.attendees)
  }

  function ParsedAll(raws: seq<RawMeeting>): seq<Meeting> {
    seq(|raws|, i requires 0 <= i < |raws| => Parsed(raws[i]))
  }

  // The meeting's own texts put it into the hour: its start and end up to the
  // colon are integers, from the one on and before the other.
  ghost predicate Holds(m: RawMeeting, hour: int) {
    exists start, end :: ReadsAs(m.start, start) && ReadsAs(m.end, end) && start <= hour < end
  }

  // The text before the first colon, or all of it, is the integer n.
  ghost predicate ReadsAs(time: string, n: int) {
    exists digits :: ReadsUpTo(time, digits, n)
  }

  ghost predicate ReadsUpTo(time: string, digits: string, n: int) {
    && digits <= time && ':' !in digits && ParseInt(digits) == Some(n)
    && (digits == time || (|digits| < |time| && time[|digits|] == ':'))
  }

  lemma ReadsIff(time: string, n: int)
    ensures ReadsAs(time, n) <==> ParseInt(UpToColon(time)) == Some(n)
  {
    var head := UpToColon(time);
    if ParseInt(head) == Some(n) { assert ReadsUpTo(time, head, n); }
    forall digits | ReadsUpTo(time, digits, n) ensures digits == head {
      assert forall i | 0 <= i < |digits| :: digits[i] == time[i];
      assert forall i | 0 <= i < |head| :: head[i] == time[i];
    }
  }

  lemma HoldsIff(m: RawMeeting, hour: int)
    ensures Holds(m, hour) <==> Occupies(Parsed(m), hour)
  {
    forall n ensures ReadsAs(m.start, n) <==> ParseInt(UpToColon(m.start)) == Some(n) { ReadsIff(m.start, n); }
    forall n ensures ReadsAs(m.end, n) <==> ParseInt(UpToColon(m.end)) == Some(n) { ReadsIff(m.end, n); }
    if Occupies(Parsed(m), hour) {
      var start, end := ParseInt(UpToColon(m.start)).value, ParseInt(UpToColon(m.end)).value;
      assert ReadsAs(m.start, start) && ReadsAs(m.end, end);
    }
  }

  predicate Occupies(m: Meeting, hour: int) {
    m.hours.Some? && m.hours.value.0 <= hour < m.hours.value.1
  }

  // Two non-empty hour ranges that share an hour.
  ghost predicate Overlap(a: Meeting, b: Meeting) {
    && a.hours.Some? && b.hours.Some?
    && a.hours.value.0 < a.hours.value.1 && b.hours.value.0 < b.hours.value.1
    && a.hours.value.0 < b.hours.value.1 && b.hours.value.0 < a.hours.value.1
  }

  // ----- hours and minutes

  // A meeting's times in minutes of the day.
  datatype Span = Span(start: int, end: int)

  predicate OnTheDay(t: Span) { 0 <= t.start <= 1440 && 0 <= t.end <= 1440 }

  predicate Runs(t: Span, minute: int) { t.start <= minute < t.end }

  ghost predicate TimesOverlap(a: Span, b: Span) {
    exists minute :: Runs(a, minute) && Runs(b, minute)
  }

  // HH:MM
  function Clock(minute: int): string
    requires 0 <= minute <= 1440
  {
    TwoDigits(minute / 60) + ":" + TwoDigits(minute % 60)
  }

  lemma ClockHour(minute: int)
    requires 0 <= minute <= 1440
    ensures ParseInt(UpToColon(Clock(minute))) == Some(minute / 60)
  {
    var s, head := Clock(minute), TwoDigits(minute / 60);
    var tens, ones := head[0], head[1];
    assert DigitOf(tens).Some? && DigitOf(ones).Some?;
    assert s[0] == tens && s[1] == ones && s[2] == ':';
    assert s[1..][1..] == s[2..];
    assert UpToColon(s[2..]) == "" && UpToColon(s[1..]) == [ones] && UpToColon(s) == head;
    assert Strip(head) == head;
    assert head[..1] == [tens] && DigitsValue([tens]) == DigitOf(tens);
  }

  function Timed(t: Span, room: string, attendees: seq<string>): RawMeeting
    requires OnTheDay(t)
  {
    RawMeeting(Clock(t.start), Clock(t.end), room, attendees)
  }

  lemma TimedHours(t: Span, room: string, attendees: seq<string>)
    requires OnTheDay(t)
    ensures Parsed(Timed(t, room, attendees)) == Meeting(Some((t.start / 60, t.end / 60)), room, attendees)
  {
    ClockHour(t.start);
    ClockHour(t.end);
  }

  lemma OccupiesIff(t: Span, m: Meeting, hour: int)
    requires m.hours == Some((t.start / 60, t.end / 60))
    ensures Occupies(m, hour) <==> Runs(t, 60 * hour + 59)
  {
  }

  // The sweeps count the hours a meeting sees through to their end: two timed
  // meetings count as overlapping exactly when both run in the last minute of
  // some hour.  With both ends on the hour that is overlap in time.
  lemma HourOverlapIff(a: Span, b: Span, p: Meeting, q: Meeting)
    requires p.hours == Some((a.start / 60, a.end / 60)) && q.hours == Some((b.start / 60, b.end / 60))
    ensures Overlap(p, q) <==> exists hour :: Runs(a, 60 * hour + 59) && Runs(b, 60 * hour + 59)
    ensures Overlap(p, q) ==> TimesOverlap(a, b)
    ensures a.end % 60 == 0 && b.end % 60 == 0 ==> (Overlap(p, q) <==> TimesOverlap(a, b))
  {
    OverlapIsCommonHour(p, q);
    forall hour ensures Occupies(p, hour) && Occupies(q, hour) <==>
                        Runs(a, 60 * hour + 59) && Runs(b, 60 * hour + 59)
    {
      OccupiesIff(a, p, hour);
      OccupiesIff(b, q, hour);
    }
    if hour :| Occupies(p, hour) && Occupies(q, hour) {
      assert Runs(a, 60 * hour + 59) && Runs(b, 60 * hour + 59);
    }
    if minute :| a.end % 60 == 0 && b.end % 60 == 0 && Runs(a, minute) && Runs(b, minute) {
      assert Occupies(p, minute / 60) && Occupies(q, minute / 60);
    }
  }

  lemma EmptyHoursUnseen(ms: seq<Meeting>)
    requires forall i | 0 <= i < |ms| :: ms[i].hours.Some? && ms[i].hours.value.0 >= ms[i].hours.value.1
    ensures !TripleBooked(ms)
  {
  }

  // Meetings that end in the hour they start in are not seen, however many rooms
  // they use at one time: those from 09:00 to 09:45, for one.
  lemma ShortMeetingsUnseen(t: Span, rooms: seq<string>)
    requires OnTheDay(t) && t.start / 60 == t.end / 60
    ensures var meetings := seq(|rooms|, i requires 0 <= i < |rooms| => Timed(t, rooms[i], []));
      !TripleBooked(ParsedAll(meetings))
  {
    var meetings := seq(|rooms|, i requires 0 <= i < |rooms| => Timed(t, rooms[i], []));
    var ms := ParsedAll(meetings);
    forall i | 0 <= i < |ms| ensures ms[i].hours == Some((t.start / 60, t.end / 60)) {
      TimedHours(t, rooms[i], []);
    }
    EmptyHoursUnseen(ms);
  }

  lemma QuarterToTen()
    ensures var t := Span(540, 585); OnTheDay(t) && t.start / 60 == t.end / 60 && TimesOverlap(t, t)
    ensures Clock(540) == "09:00" && Clock(585) == "09:45"
  {
    assert Runs(Span(540, 585), 540);
  }

  lemma OverlapIsCommonHour(a: Meeting, b: Meeting)
    ensures Overlap(a, b) <==> exists h :: Occupies(a, h) && Occupies(b, h)
  {
    if Overlap(a, b) {
      var h := if a.hours.value.0 <= b.hours.value.0 then b.hours.value.0 else a.hours.value.0;
      assert Occupies(a, h) && Occupies(b, h);
    }
  }

  // In one dimension, pairwise overlap gives one hour common to all three.
  lemma CommonHourOfThree(a: Meeting, b: Meeting, c: Meeting) returns (h: int)
    requires Overlap(a, b) && Overlap(b, c) && Overlap(a, c)
    ensures Occupies(a, h) && Occupies(b, h) && Occupies(c, h)
  {
    h := a.hours.value.0;
    if h < b.hours.value.0 { h := b.hours.value.0; }
    if h < c.hours.value.0 { h := c.hours.value.0; }
  }

  // ----- rooms

  type Buckets = map<int, seq<string>>

  predicate Listed(slots: Buckets, hour: int, room: string) {
    hour in slots && room in slots[hour]
  }

  // Bucket h lists exactly the rooms of the first n meetings that occupy h.
  ghost predicate RoomBuckets(ms: seq<Meeting>, n: nat, slots: Buckets) {
    && n <= |ms|
    && forall h, r :: Listed(slots, h, r) <==> RoomUsed(ms, n, h, r)
  }

  ghost predicate RoomUsed(ms: seq<Meeting>, n: nat, hour: int, room: string) {
    exists i :: 0 <= i < n && i < |ms| && Occupies(ms[i], hour) && ms[i].room == room
  }

  // Three meetings in three rooms, each two overlapping.
  ghost predicate TripleBooked(ms: seq<Meeting>) {
    exists i, j, k :: 0 <= i < |ms| && 0 <= j < |ms| && 0 <= k < |ms| && ThreeRooms(ms[i], ms[j], ms[k])
  }

  ghost predicate ThreeRooms(a: Meeting, b: Meeting, c: Meeting) {
    a.room != b.room && b.room != c.room && a.room != c.room && Overlap(a, b) && Overlap(b, c) && Overlap(a, c)
  }

  predicate Crowded(rooms: seq<string>) {
    |Elements(rooms)| > 2
  }

  function Bucket(slots: Buckets, hour: int): seq<string> {
    if hour in slots then slots[hour] else []
  }

  lemma BucketSet(slots: Buckets, hour: int, bucket: seq<string>, h: int, r: string)
    ensures Listed(slots[hour := bucket], h, r) <==> if h == hour then r in bucket else Listed(slots, h, r)
  {
  }

  method AddMeeting(m: Meeting, slots: Buckets) returns (slots': Buckets)
    ensures forall h, r :: Listed(slots', h, r) <==>
                Listed(slots, h, r) || (Occupies(m, h) && r == m.room)
  {
    slots' := slots;
    var hours := m.hours;
    if hours.None? || hours.value.0 >= hours.value.1 { return; }
    for hour := hours.value.0 to hours.value.1
      invariant forall h, r :: Listed(slots', h, r) <==>
                    Listed(slots, h, r) || (hours.value.0 <= h < hour && r == m.room)
    {
      ghost var before := slots';
      if hour !in slots' { slots' := slots'[hour := []]; }
      assert slots'[hour] == Bucket(before, hour);
      slots' := slots'[hour := slots'[hour] + [m.room]];
      assert slots' == before[hour := Bucket(before, hour) + [m.room]];
      forall h, r ensures Listed(slots', h, r) <==> Listed(before, h, r) || (h == hour && r == m.room) {
        BucketSet(before, hour, Bucket(before, hour) + [m.room], h, r);
        assert r in Bucket(before, hour) + [m.room] <==> r in Bucket(before, hour) || r == m.room;
      }
    }
  }

  lemma RoomUsedNext(ms: seq<Meeting>, n: nat, hour: int, room: string)
    requires n < |ms|
    ensures RoomUsed(ms, n + 1, hour, room) <==>
            RoomUsed(ms, n, hour, room) || (Occupies(ms[n], hour) && room == ms[n].room)
  {
    if RoomUsed(ms, n + 1, hour, room) {
      var i :| 0 <= i < n + 1 && Occupies(ms[i], hour) && ms[i].room == room;
    }
  }

  // The room sweep reports a violation exactly when three meetings in three
  // rooms overlap pairwise.
  method RoomViolation(schedule: seq<RawMeeting>) returns (violated: bool)
    ensures violated <==> TripleBooked(ParsedAll(schedule))
  {
    var ms := ParsedAll(schedule);
    var slots: Buckets := map[];
    for n := 0 to |ms|
      invariant RoomBuckets(ms, n, slots)
    {
      ghost var before := slots;
      slots := AddMeeting(ms[n], slots);
      forall h, r ensures Listed(slots, h, r) <==> RoomUsed(ms, n + 1, h, r) {
        RoomUsedNext(ms, n, h, r);
        assert Listed(before, h, r) <==> RoomUsed(ms, n, h, r);
      }
    }
    var hours := Listing(slots.Keys);
    violated := false;
    for k := 0 to |hours|
      invariant violated <==> exists i :: 0 <= i < k && hours[i] in slots && Crowded(slots[hours[i]])
    {
      assert hours[k] in Elements(hours);
      var uniqueRooms := Elements(slots[hours[k]]);
      if |uniqueRooms| > 2 { violated := true; }
    }
    forall h | h in slots && Crowded(slots[h]) ensures violated {
      assert h in Elements(hours);
      var i :| 0 <= i < |hours| && hours[i] == h;
      assert hours[i] in slots && Crowded(slots[hours[i]]);
    }
    if violated {
      ghost var i :| 0 <= i < |hours| && hours[i] in slots && Crowded(slots[hours[i]]);
      ghost var h := hours[i];
      assert h in slots && Crowded(slots[h]);
    }
    CrowdedIffTriple(ms, slots);
  }

  lemma CrowdedIffTriple(ms: seq<Meeting>, slots: Buckets)
    requires RoomBuckets(ms, |ms|, slots)
    ensures (exists h :: h in slots && Crowded(slots[h])) <==> TripleBooked(ms)
  {
    if h :| h in slots && Crowded(slots[h]) { CrowdedIsTriple(ms, slots, h); }
    if i, j, k :| 0 <= i < |ms| && 0 <= j < |ms| && 0 <= k < |ms| && ThreeRooms(ms[i], ms[j], ms[k]) {
      var h := TripleIsCrowded(ms, slots, i, j, k);
    }
  }

  lemma CrowdedIsTriple(ms: seq<Meeting>, slots: Buckets, h: int)
    requires RoomBuckets(ms, |ms|, slots) && h in slots && Crowded(slots[h])
    ensures TripleBooked(ms)
  {
    var a, b, c := ThreeOf(Elements(slots[h]));
    var i := UserOf(ms, slots, h, a);
    var j := UserOf(ms, slots, h, b);
    var k := UserOf(ms, slots, h, c);
    OverlapIsCommonHour(ms[i], ms[j]);
    OverlapIsCommonHour(ms[j], ms[k]);
    OverlapIsCommonHour(ms[i], ms[k]);
    assert ThreeRooms(ms[i], ms[j], ms[k]);
  }

  lemma TripleIsCrowded(ms: seq<Meeting>, slots: Buckets, i: nat, j: nat, k: nat) returns (h: int)
    requires RoomBuckets(ms, |ms|, slots)
    requires i < |ms| && j < |ms| && k < |ms| && ThreeRooms(ms[i], ms[j], ms[k])
    ensures h in slots && Crowded(slots[h])
  {
    h := CommonHourOfThree(ms[i], ms[j], ms[k]);
    assert RoomUsed(ms, |ms|, h, ms[i].room) && RoomUsed(ms, |ms|, h, ms[j].room) && RoomUsed(ms, |ms|, h, ms[k].room);
    assert Listed(slots, h, ms[i].room) && Listed(slots, h, ms[j].room) && Listed(slots, h, ms[k].room);
    ThreeIn(Elements(slots[h]), ms[i].room, ms[j].room, ms[k].room);
  }

  lemma ThreeIn(s: set<string>, a: string, b: string, c: string)
    requires a in s && b in s && c in s && a != b && b != c && a != c
    ensures |s| > 2
  {
    var t := {a, b, c};
    assert |t| == 3 && s == t + (s - t);
  }

  lemma UserOf(ms: seq<Meeting>, slots: Buckets, hour: int, room: string) returns (i: nat)
    requires RoomBuckets(ms, |ms|, slots) && hour in slots && room in slots[hour]
    ensures i < |ms| && Occupies(ms[i], hour) && ms[i].room == room
  {
    assert RoomUsed(ms, |ms|, hour, room);
    i :| 0 <= i < |ms| && Occupies(ms[i], hour) && ms[i].room == room;
  }

  lemma ThreeOf(s: set<string>) returns (a: string, b: string, c: string)
    requires |s| > 2
    ensures a in s && b in s && c in s && a != b && b != c && a != c
  {
    a :| a in s;
    assert |s - {a}| > 1;
    b :| b in s - {a};
    assert |s - {a} - {b}| > 0;
    c :| c in s - {a} - {b};
  }

  lemma AllHoldIff(raws: seq<RawMeeting>, i: nat, j: nat, k: nat)
    requires i < |raws| && j < |raws| && k < |raws|
    ensures ThreeRooms(Parsed(raws[i]), Parsed(raws[j]), Parsed(raws[k])) <==>
            exists hour :: AllHold(raws, i, j, k, hour)
  {
    var a, b, c := Parsed(raws[i]), Parsed(raws[j]), Parsed(raws[k]);
    forall hour, m | m in {raws[i], raws[j], raws[k]} ensures Holds(m, hour) <==> Occupies(Parsed(m), hour) {
      HoldsIff(m, hour);
    }
    OverlapIsCommonHour(a, b);
    OverlapIsCommonHour(b, c);
    OverlapIsCommonHour(a, c);
    if ThreeRooms(a, b, c) {
      var hour := CommonHourOfThree(a, b, c);
      assert AllHold(raws, i, j, k, hour);
    }
  }

  lemma TripleGivesHour(raws: seq<RawMeeting>)
    requires TripleBooked(ParsedAll(raws))
    ensures exists hour :: ThreeRoomsAt(raws, hour)
  {
    var ms := ParsedAll(raws);
    var i: nat, j: nat, k: nat :| i < |ms| && j < |ms| && k < |ms| && ThreeRooms(ms[i], ms[j], ms[k]);
    TripleHour(raws, i, j, k);
  }

  lemma TripleHour(raws: seq<RawMeeting>, i: nat, j: nat, k: nat)
    requires i < |raws| && j < |raws| && k < |raws|
    requires ThreeRooms(Parsed(raws[i]), Parsed(raws[j]), Parsed(raws[k]))
    ensures exists hour :: ThreeRoomsAt(raws, hour)
  {
    AllHoldIff(raws, i, j, k);
    var hour :| AllHold(raws, i, j, k, hour);
    assert ThreeRoomsAt(raws, hour);
  }

  lemma HourGivesTriple(raws: seq<RawMeeting>, hour: int)
    requires ThreeRoomsAt(raws, hour)
    ensures TripleBooked(ParsedAll(raws))
  {
    var i, j, k :| AllHold(raws, i, j, k, hour);
    AllHoldIff(raws, i, j, k);
    var ms := ParsedAll(raws);
    assert ThreeRooms(ms[i], ms[j], ms[k]);
  }

  // A violation in the meetings' own texts: some hour holds meetings in three rooms.
  lemma TripleBookedIff(raws: seq<RawMeeting>)
    ensures TripleBooked(ParsedAll(raws)) <==> exists hour :: ThreeRoomsAt(raws, hour)
  {
    if TripleBooked(ParsedAll(raws)) { TripleGivesHour(raws); }
    if hour :| ThreeRoomsAt(raws, hour) { HourGivesTriple(raws, hour); }
  }

  ghost predicate ThreeRoomsAt(raws: seq<RawMeeting>, hour: int) {
    exists i, j, k :: AllHold(raws, i, j, k, hour)
  }

  ghost predicate AllHold(raws: seq<RawMeeting>, i: int, j: int, k: int, hour: int) {
    && 0 <= i < |raws| && 0 <= j < |raws| && 0 <= k < |raws|
    && raws[i].room != raws[j].room && raws[j].room != raws[k].room && raws[i].room != raws[k].room
    && Holds(raws[i], hour) && Holds(raws[j], hour) && Holds(raws[k], hour)
  }

  // ----- attendees

  // Attendee number a of meeting i.
  datatype Occurrence = Occurrence(meeting: nat, position: nat)

  ghost predicate Clash(ms: seq<Meeting>, o: Occurrence, p: Occurrence) {
    && o != p && o.meeting < |ms| && p.meeting < |ms|
    && o.position < |ms[o.meeting].attendees| && p.position < |ms[p.meeting].attendees|
    && ms[o.meeting].attendees[o.position] == ms[p.meeting].attendees[p.position]
    && Overlap(ms[o.meeting], ms[p.meeting])
  }

  // Two different occurrences of one name share an hour.
  ghost predicate DoubleBooked(ms: seq<Meeting>) {
    exists o, p :: Clash(ms, o, p)
  }

  // A conflict in the meetings' own texts: some hour holds two occurrences of a name.
  lemma DoubleBookedIff(raws: seq<RawMeeting>)
    ensures DoubleBooked(ParsedAll(raws)) <==> exists o, p, hour :: BothHold(raws, o, p, hour)
  {
    var ms := ParsedAll(raws);
    if o, p :| Clash(ms, o, p) {
      OverlapIsCommonHour(ms[o.meeting], ms[p.meeting]);
      var hour :| Occupies(ms[o.meeting], hour) && Occupies(ms[p.meeting], hour);
      HoldsIff(raws[o.meeting], hour);
      HoldsIff(raws[p.meeting], hour);
      assert BothHold(raws, o, p, hour);
    }
    if o, p, hour :| BothHold(raws, o, p, hour) {
      HoldsIff(raws[o.meeting], hour);
      HoldsIff(raws[p.meeting], hour);
      OverlapIsCommonHour(ms[o.meeting], ms[p.meeting]);
      assert Clash(ms, o, p);
    }
  }

  ghost predicate BothHold(raws: seq<RawMeeting>, o: Occurrence, p: Occurrence, hour: int) {
    && (o.meeting != p.meeting || o.position != p.position) && o.meeting < |raws| && p.meeting < |raws|
    && o.position < |raws[o.meeting].attendees| && p.position < |raws[p.meeting].attendees|
    && raws[o.meeting].attendees[o.position] == raws[p.meeting].attendees[p.position]
    && Holds(raws[o.meeting], hour) && Holds(raws[p.meeting], hour)
  }

  // A name already listed, or listed twice.
  ghost predicate Repeats(bucket: seq<string>, attendees: seq<string>) {
    exists a :: 0 <= a < |attendees| && RepeatsAt(bucket, attendees, a)
  }

  ghost predicate RepeatsAt(bucket: seq<string>, attendees: seq<string>, a: int)
    requires 0 <= a < |attendees|
  {
    attendees[a] in bucket || exists b :: 0 <= b < a && attendees[b] == attendees[a]
  }

  method SignIn(bucket: seq<string>, attendees: seq<string>) returns (bucket': seq<string>, clash: bool)
    ensures forall x :: x in bucket' <==> x in bucket || x in attendees
    ensures clash <==> Repeats(bucket, attendees)
  {
    bucket', clash := bucket, false;
    for a := 0 to |attendees|
      invariant forall x :: x in bucket' <==> x in bucket || x in attendees[..a]
      invariant clash <==> exists k :: 0 <= k < a && RepeatsAt(bucket, attendees, k)
    {
      assert attendees[..a + 1] == attendees[..a] + [attendees[a]];
      assert attendees[a] in bucket' <==> RepeatsAt(bucket, attendees, a);
      if attendees[a] in bucket' {
        clash := true;
      } else {
        bucket' := bucket' + [attendees[a]];
      }
    }
    assert attendees[..|attendees|] == attendees;
  }

  method SignInMeeting(m: Meeting, slots: Buckets) returns (slots': Buckets, clash: bool)
    ensures forall h, x :: Listed(slots', h, x) <==> Listed(slots, h, x) || (Occupies(m, h) && x in m.attendees)
    ensures clash <==> exists h :: Occupies(m, h) && Repeats(Bucket(slots, h), m.attendees)
  {
    slots', clash := slots, false;
    var hours := m.hours;
    if hours.None? || hours.value.0 >= hours.value.1 { return; }
    for hour := hours.value.0 to hours.value.1
      invariant forall h, x :: Listed(slots', h, x) <==>
                    Listed(slots, h, x) || (hours.value.0 <= h < hour && x in m.attendees)
      invariant forall h | h >= hour :: Bucket(slots', h) == Bucket(slots, h)
      invariant clash <==> exists h :: hours.value.0 <= h < hour && Repeats(Bucket(slots, h), m.attendees)
    {
      ghost var before := slots';
      if hour !in slots' { slots' := slots'[hour := []]; }
      assert slots'[hour] == Bucket(before, hour) == Bucket(slots, hour);
      var bucket, again := SignIn(slots'[hour], m.attendees);
      assert again <==> Repeats(Bucket(slots, hour), m.attendees);
      slots' := slots'[hour := bucket];
      assert slots' == before[hour := bucket];
      if again { clash := true; }
      forall h, x ensures Listed(slots', h, x) <==> Listed(before, h, x) || (h == hour && x in m.attendees) {
        BucketSet(before, hour, bucket, h, x);
      }
    }
  }

  ghost predicate Attends(ms: seq<Meeting>, n: nat, hour: int, name: string) {
    exists i :: 0 <= i < n && i < |ms| && Occupies(ms[i], hour) && name in ms[i].attendees
  }

  lemma AttendsNext(ms: seq<Meeting>, n: nat, hour: int, name: string)
    requires n < |ms|
    ensures Attends(ms, n + 1, hour, name) <==>
            Attends(ms, n, hour, name) || (Occupies(ms[n], hour) && name in ms[n].attendees)
  {
    if Attends(ms, n + 1, hour, name) {
      var i :| 0 <= i < n + 1 && Occupies(ms[i], hour) && name in ms[i].attendees;
    }
  }

  ghost predicate SignedIn(ms: seq<Meeting>, n: nat, slots: Buckets) {
    forall h, x :: Listed(slots, h, x) <==> Attends(ms, n, h, x)
  }

  // A new clash within the first n + 1 meetings is a repeat in one bucket.
  lemma ClashIsRepeat(ms: seq<Meeting>, n: nat, slots: Buckets, o: Occurrence, p: Occurrence)
    requires n < |ms| && SignedIn(ms, n, slots)
    requires Clash(ms, o, p) && o.meeting == n && p.meeting <= n && (p.meeting == n ==> p.position < o.position)
    ensures exists h :: Occupies(ms[n], h) && Repeats(Bucket(slots, h), ms[n].attendees)
  {
    OverlapIsCommonHour(ms[n], ms[p.meeting]);
    var h :| Occupies(ms[n], h) && Occupies(ms[p.meeting], h);
    var name := ms[n].attendees[o.position];
    if p.meeting < n {
      assert name in ms[p.meeting].attendees;
      assert Attends(ms, n, h, name);
      assert Listed(slots, h, name);
    }
    assert RepeatsAt(Bucket(slots, h), ms[n].attendees, o.position);
  }

  lemma RepeatIsClash(ms: seq<Meeting>, n: nat, slots: Buckets, h: int) returns (o: Occurrence, p: Occurrence)
    requires n < |ms| && SignedIn(ms, n, slots)
    requires Occupies(ms[n], h) && Repeats(Bucket(slots, h), ms[n].attendees)
    ensures Clash(ms, o, p) && o.meeting == n && p.meeting <= n
  {
    var a :| 0 <= a < |ms[n].attendees| && RepeatsAt(Bucket(slots, h), ms[n].attendees, a);
    var name := ms[n].attendees[a];
    o := Occurrence(n, a);
    if name in Bucket(slots, h) {
      assert Listed(slots, h, name);
      var i :| 0 <= i < n && Occupies(ms[i], h) && name in ms[i].attendees;
      var b :| 0 <= b < |ms[i].attendees| && ms[i].attendees[b] == name;
      p := Occurrence(i, b);
      OverlapIsCommonHour(ms[n], ms[i]);
    } else {
      var b :| 0 <= b < a && ms[n].attendees[b] == name;
      p := Occurrence(n, b);
      OverlapIsCommonHour(ms[n], ms[n]);
    }
  }

  ghost predicate ClashBefore(ms: seq<Meeting>, n: nat) {
    exists o: Occurrence, p: Occurrence :: o.meeting < n && p.meeting < n && Clash(ms, o, p)
  }

  lemma ClashNext(ms: seq<Meeting>, n: nat, slots: Buckets)
    requires n < |ms| && SignedIn(ms, n, slots)
    ensures ClashBefore(ms, n + 1) <==>
            ClashBefore(ms, n) || exists h :: Occupies(ms[n], h) && Repeats(Bucket(slots, h), ms[n].attendees)
  {
    if o: Occurrence, p: Occurrence :| o.meeting < n + 1 && p.meeting < n + 1 && Clash(ms, o, p) {
      if o.meeting == n && (p.meeting < n || p.position < o.position) {
        ClashIsRepeat(ms, n, slots, o, p);
      } else if p.meeting == n {
        assert Clash(ms, p, o);
        ClashIsRepeat(ms, n, slots, p, o);
      }
    }
    if h :| Occupies(ms[n], h) && Repeats(Bucket(slots, h), ms[n].attendees) {
      var o, p := RepeatIsClash(ms, n, slots, h);
    }
  }

  // The attendee sweep reports a conflict exactly when one name occurs twice in
  // overlapping hours, a name repeated inside one meeting included.
  method AttendeeConflict(schedule: seq<RawMeeting>) returns (conflict: bool)
    ensures conflict <==> DoubleBooked(ParsedAll(schedule))
  {
    var ms := ParsedAll(schedule);
    var slots: Buckets := map[];
    conflict := false;
    for n := 0 to |ms|
      invariant SignedIn(ms, n, slots) && (conflict <==> ClashBefore(ms, n))
    {
      ghost var before := slots;
      ClashNext(ms, n, slots);
      var clash;
      slots, clash := SignInMeeting(ms[n], slots);
      if clash { conflict := true; }
      forall h, x ensures Listed(slots, h, x) <==> Attends(ms, n + 1, h, x) {
        AttendsNext(ms, n, h, x);
        assert Listed(before, h, x) <==> Attends(ms, n, h, x);
      }
    }
    if DoubleBooked(ms) {
      ghost var o, p :| Clash(ms, o, p);
      assert ClashBefore(ms, |ms|);
    }
  }
}
