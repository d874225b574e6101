// Python's decimal printing, int() on text, str.split() and the calendar
// fields of datetime, as far as the graders lean on them.
module Text {
  import opened Orders

  // ----- decimal integers

  function DigitOf(c: char): Option<int> {
    if '0' <= c <= '9' then Some(c as int - '0' as int) else None
  }

  function DigitChar(d: int): (c: char)
    requires 0 <= d < 10
    ensures DigitOf(c) == Some(d)
  {
    ('0' as int + d) as char
  }

  function TwoDigits(n: int): (s: string)
    requires 0 <= n < 100
    ensures |s| == 2 && DigitOf(s[0]) == Some(n / 10) && DigitOf(s[1]) == Some(n % 10)
  {
    [DigitChar(n / 10), DigitChar(n % 10)]
  }

  // str(n)
  function Decimal(n: nat): string {
    if n < 10 then [DigitChar(n)] else Decimal(n / 10) + [DigitChar(n % 10)]
  }

  // Digits, with single underscores between digits allowed.
  function DigitsValue(s: string): Option<int> {
    if s == "" || DigitOf(s[|s| - 1]).None? then None
    else
      var d := DigitOf(s[|s| - 1]).value;
      if |s| == 1 then Some(d)
      else
        var front := if s[|s| - 2] == '_' then s[..|s| - 2] else s[..|s| - 1];
        var high := DigitsValue(front);
        if high.None? then None else Some(high.value * 10 + d)
  }

  function Strip(s: string): string {
    if s != "" && IsSpace(s[0]) then Strip(s[1..])
    else if s != "" && IsSpace(s[|s| - 1]) then Strip(s[..|s| - 1])
    else s
  }

  // int(s): None stands for ValueError.
  function ParseInt(s: string): Option<int> {
    var t := Strip(s);
    if t != "" && (t[0] == '-' || t[0] == '+') then
      var v := DigitsValue(t[1..]);
      if v.None? then None else Some(if t[0] == '-' then -v.value else v.value)
    else DigitsValue(t)
  }

  ghost predicate AllDigits(s: string) {
    s != "" && forall i | 0 <= i < |s| :: DigitOf(s[i]).Some?
  }

  lemma {:induction false} DecimalReadsBack(n: nat)
    ensures AllDigits(Decimal(n)) && DigitsValue(Decimal(n)) == Some(n)
  {
    if n >= 10 {
      DecimalReadsBack(n / 10);
      var s := Decimal(n);
      assert s[..|s| - 1] == Decimal(n / 10);
      assert s[|s| - 2] == Decimal(n / 10)[|s| - 2];
    }
  }

  // One step of reading: the last digit is split off ...
  lemma LastDigit(s: string, front: string, last: char)
    requires s == front + [last] && front != "" && front[|front| - 1] != '_' && DigitOf(last).Some?
    ensures DigitsValue(front).Some? ==> DigitsValue(s) == Some(DigitsValue(front).value * 10 + DigitOf(last).value)
  {
    assert s[..|s| - 1] == front && s[|s| - 1] == last && s[|s| - 2] == front[|front| - 1];
  }

  // ... and an underscore before it.
  lemma LastDigitApart(s: string, front: string, last: char)
    requires s == front + "_" + [last] && front != "" && DigitOf(last).Some?
    ensures DigitsValue(front).Some? ==> DigitsValue(s) == Some(DigitsValue(front).value * 10 + DigitOf(last).value)
  {
    assert s[..|s| - 2] == front && s[|s| - 1] == last && s[|s| - 2] == '_';
  }

  // A single underscore between digits is skipped ...
  lemma {:induction false} UnderscoreSkipped(s: string, t: string)
    requires AllDigits(s) && AllDigits(t)
    ensures DigitsValue(s + t).Some? && DigitsValue(s + "_" + t) == DigitsValue(s + t)
    decreases |t|
  {
    var front, last := t[..|t| - 1], t[|t| - 1];
    var plain, apart := s + t, s + "_" + t;
    assert t == front + [last];
    DigitsHaveValue(s);
    if front == "" {
      LastDigit(plain, s, last);
      LastDigitApart(apart, s, last);
    } else {
      UnderscoreSkipped(s, front);
      assert plain == (s + front) + [last] && apart == (s + "_" + front) + [last];
      assert DigitOf(front[|front| - 1]).Some?;
      LastDigit(plain, s + front, last);
      LastDigit(apart, s + "_" + front, last);
    }
  }

  lemma {:induction false} DigitsHaveValue(s: string)
    requires AllDigits(s)
    ensures DigitsValue(s).Some?
  {
    if |s| > 1 {
      assert DigitOf(s[|s| - 2]).Some?;
      DigitsHaveValue(s[..|s| - 1]);
    }
  }

  // ... and nothing but digits and such underscores has a value.
  ghost predicate Numeral(s: string) {
    && s != "" && s[0] != '_' && s[|s| - 1] != '_'
    && (forall i | 0 <= i < |s| :: s[i] == '_' || '0' <= s[i] <= '9')
    && forall i | 0 < i < |s| :: !(s[i - 1] == '_' && s[i] == '_')
  }

  lemma {:induction false} NumeralIff(s: string)
    ensures DigitsValue(s).Some? <==> Numeral(s)
  {
    if |s| > 1 && DigitOf(s[|s| - 1]).Some? {
      var cut := if s[|s| - 2] == '_' then |s| - 2 else |s| - 1;
      var front := s[..cut];
      NumeralIff(front);
      if Numeral(s) {
        assert cut > 0;
        assert front[|front| - 1] == s[cut - 1];
        assert Numeral(front);
      }
      if Numeral(front) {
        assert front[|front| - 1] == s[cut - 1];
        forall i | 0 <= i < |s| ensures s[i] == '_' || '0' <= s[i] <= '9' { if i < cut { assert s[i] == front[i]; } }
        forall i | 0 < i < |s| ensures !(s[i - 1] == '_' && s[i] == '_') {
          if i < cut { assert s[i - 1] == front[i - 1] && s[i] == front[i]; }
        }
      }
    }
  }

  lemma NothingToStrip(s: string)
    requires AllDigits(s)
    ensures Strip(s) == s && s[0] != '-' && s[0] != '+'
  {
    assert DigitOf(s[0]).Some? && DigitOf(s[|s| - 1]).Some?;
  }

  lemma ParseIntOfDecimal(n: nat)
    ensures ParseInt(Decimal(n)) == Some(n)
  {
    DecimalReadsBack(n);
    NothingToStrip(Decimal(n));
  }

  lemma ParseIntOfNegative(n: nat)
    ensures ParseInt("-" + Decimal(n)) == Some(0 - n as int)
  {
    DecimalReadsBack(n);
    var s := "-" + Decimal(n);
    assert s[1..] == Decimal(n) && s[|s| - 1] == Decimal(n)[|Decimal(n)| - 1];
    assert DigitOf(s[|s| - 1]).Some?;
    assert Strip(s) == s;
  }

  lemma DecimalInjective(m: nat, n: nat)
    requires Decimal(m) == Decimal(n)
    ensures m == n
  {
    DecimalReadsBack(m);
    DecimalReadsBack(n);
  }

  // ----- splitting on whitespace

  // The characters str.isspace() accepts.
  predicate IsSpace(c: char) {
    var u := c as int;
    || 9 <= u <= 13 || 28 <= u <= 32 || u == 0x85 || u == 0xA0 || u == 0x1680
    || 0x2000 <= u <= 0x200A || u == 0x2028 || u == 0x2029 || u == 0x202F || u == 0x205F || u == 0x3000
  }

  lemma WordAhead(a: string)
    requires a != "" && !IsSpace(a[0])
    ensures var w, rest := a[..WordLength(a)], a[WordLength(a)..];
      Word(w) && (rest == "" || IsSpace(rest[0])) && Split(a) == [w] + Split(rest)
  {
  }

  lemma WordBefore(w: string, rest: string, c: char, b: string)
    requires Word(w) && IsSpace(c) && (rest == "" || IsSpace(rest[0]))
    ensures Split((w + rest) + [c] + b) == [w] + Split(rest + [c] + b)
  {
    var more := rest + [c] + b;
    assert (w + rest) + [c] + b == w + more;
    assert more[0] == if rest == "" then c else rest[0];
    SplitWord(w, more);
  }

  // Splitting cuts at every blank, whatever stands on either side.
  lemma {:induction false} SplitAtBlank(a: string, c: char, b: string)
    requires IsSpace(c)
    ensures Split(a + [c] + b) == Split(a) + Split(b)
    decreases |a|
  {
    var s := a + [c] + b;
    if a == "" {
      assert s[1..] == b;
    } else if IsSpace(a[0]) {
      assert s[1..] == a[1..] + [c] + b;
      SplitAtBlank(a[1..], c, b);
    } else {
      WordAhead(a);
      var w, rest := a[..WordLength(a)], a[WordLength(a)..];
      SplitAtBlank(rest, c, b);
      WordBefore(w, rest, c, b);
      assert a == w + rest;
    }
  }

  function WordLength(s: string): (n: nat)
    ensures n <= |s| && forall i | 0 <= i < n :: !IsSpace(s[i])
    ensures n < |s| ==> IsSpace(s[n])
  {
    if s == "" || IsSpace(s[0]) then 0 else 1 + WordLength(s[1..])
  }

  function Split(s: string): seq<string>
    decreases |s|
  {
    if s == "" then []
    else if IsSpace(s[0]) then Split(s[1..])
    else [s[..WordLength(s)]] + Split(s[WordLength(s)..])
  }

  ghost predicate Word(w: string) {
    w != "" && forall i | 0 <= i < |w| :: !IsSpace(w[i])
  }

  lemma SplitWord(w: string, rest: string)
    requires Word(w) && (rest == "" || IsSpace(rest[0]))
    ensures Split(w + rest) == [w] + Split(rest)
  {
    var s := w + rest;
    var n := WordLength(s);
    assert forall i | 0 <= i < |w| :: s[i] == w[i];
    assert rest != "" ==> s[|w|] == rest[0];
    assert n == |w|;
    assert s[..n] == w && s[n..] == rest;
  }

  // Words joined by single blanks.
  function Joined(words: seq<string>): string {
    if words == [] then "" else if |words| == 1 then words[0] else words[0] + (" " + Joined(words[1..]))
  }

  // Splitting undoes joining.
  lemma {:induction false} SplitJoined(words: seq<string>)
    requires forall i | 0 <= i < |words| :: Word(words[i])
    ensures Split(Joined(words)) == words
  {
    if |words| == 1 {
      SplitWord(words[0], "");
      assert words[0] + "" == words[0] && words == [words[0]];
    } else if |words| > 1 {
      var rest := " " + Joined(words[1..]);
      SplitWord(words[0], rest);
      SplitJoined(words[1..]);
      assert rest[1..] == Joined(words[1..]);
      assert words == [words[0]] + words[1..];
    }
  }

  lemma DecimalIsWord(n: nat)
    ensures Word(Decimal(n))
  {
    DecimalReadsBack(n);
    forall i | 0 <= i < |Decimal(n)| ensures !IsSpace(Decimal(n)[i]) {
      assert DigitOf(Decimal(n)[i]).Some?;
    }
  }

  // ----- calendar fields

  datatype DateTime = DateTime(year: int, month: int, day: int, hour: int, minute: int)

  predicate IsLeap(year: int) {
    year % 4 == 0 && (year % 100 != 0 || year % 400 == 0)
  }

  function DaysInMonth(year: int, month: int): int {
    if month == 2 then (if IsLeap(year) then 29 else 28)
    else if month in {4, 6, 9, 11} then 30
    else 31
  }

  // The field values datetime() accepts (MAXYEAR aside).
  predicate ValidFields(d: DateTime) {
    && 1 <= d.year && 1 <= d.month <= 12 && 1 <= d.day <= DaysInMonth(d.year, d.month)
    && 0 <= d.hour < 24 && 0 <= d.minute < 60
  }

  function DaysBeforeYear(year: int): int {
    (year - 1) * 365 + (year - 1) / 4 - (year - 1) / 100 + (year - 1) / 400
  }

  function DaysBeforeMonth(year: int, month: int): int {
    var leapDay := if IsLeap(year) then 1 else 0;
    match month
    case 1 => 0
    case 2 => 31
    case 3 => 59 + leapDay
    case 4 => 90 + leapDay
    case 5 => 120 + leapDay
    case 6 => 151 + leapDay
    case 7 => 181 + leapDay
    case 8 => 212 + leapDay
    case 9 => 243 + leapDay
    case 10 => 273 + leapDay
    case 11 => 304 + leapDay
    case 12 => 334 + leapDay
    case _ => 0
  }

  function DayNumber(d: DateTime): int {
    DaysBeforeYear(d.year) + DaysBeforeMonth(d.year, d.month) + d.day
  }

  // Whole minutes since a fixed origin: the scale on which datetimes are
  // compared and timedeltas added.
  function Stamp(d: DateTime): int {
    (DayNumber(d) * 24 + d.hour) * 60 + d.minute
  }

  // d + timedelta(minutes=1)
  function NextMinute(d: DateTime): DateTime {
    if d.minute < 59 then d.(minute := d.minute + 1)
    else if d.hour < 23 then d.(hour := d.hour + 1, minute := 0)
    else if d.day < DaysInMonth(d.year, d.month) then d.(day := d.day + 1, hour := 0, minute := 0)
    else if d.month < 12 then d.(month := d.month + 1, day := 1, hour := 0, minute := 0)
    else DateTime(d.year + 1, 1, 1, 0, 0)
  }

  lemma Fourths(y: int)
    ensures y / 4 == (y - 1) / 4 + if y % 4 == 0 then 1 else 0
  {
  }

  lemma Hundredths(y: int)
    ensures y / 100 == (y - 1) / 100 + if y % 100 == 0 then 1 else 0
    ensures y % 100 == 0 ==> y % 4 == 0
  {
  }

  lemma FourHundredths(y: int)
    ensures y / 400 == (y - 1) / 400 + if y % 400 == 0 then 1 else 0
    ensures y % 400 == 0 ==> y % 100 == 0
  {
  }

  lemma YearLength(year: int)
    ensures DaysBeforeYear(year + 1) == DaysBeforeYear(year) + (if IsLeap(year) then 366 else 365)
  {
    Fourths(year);
    Hundredths(year);
    FourHundredths(year);
  }

  lemma MonthLength(year: int, month: int)
    requires 1 <= month <= 12
    ensures month < 12 ==> DaysBeforeMonth(year, month + 1) == DaysBeforeMonth(year, month) + DaysInMonth(year, month)
    ensures month == 12 ==>
        DaysBeforeMonth(year, month) + DaysInMonth(year, month) == if IsLeap(year) then 366 else 365
  {
  }

  lemma NextMinuteStamp(d: DateTime)
    requires ValidFields(d)
    ensures ValidFields(NextMinute(d)) && Stamp(NextMinute(d)) == Stamp(d) + 1
  {
    var e := NextMinute(d);
    if d.minute == 59 && d.hour == 23 && d.day == DaysInMonth(d.year, d.month) {
      MonthLength(d.year, d.month);
      YearLength(d.year);
      assert DayNumber(e) == DayNumber(d) + 1;
    }
  }

  lemma {:induction false} YearsGrow(a: int, b: int)
    requires a <= b
    ensures DaysBeforeYear(a) <= DaysBeforeYear(b)
    decreases b - a
  {
    if a < b {
      YearsGrow(a, b - 1);
      YearLength(b - 1);
    }
  }

  lemma {:induction false} MonthsGrow(year: int, a: int, b: int)
    requires 1 <= a <= b <= 12
    ensures DaysBeforeMonth(year, a) <= DaysBeforeMonth(year, b)
    ensures a < b ==> DaysBeforeMonth(year, a) + DaysInMonth(year, a) <= DaysBeforeMonth(year, b)
    decreases b - a
  {
    if a < b {
      MonthsGrow(year, a, b - 1);
      MonthLength(year, b - 1);
    }
  }

  lemma DayInsideYear(d: DateTime)
    requires ValidFields(d)
    ensures DaysBeforeYear(d.year) < DayNumber(d) <= DaysBeforeYear(d.year + 1)
  {
    YearLength(d.year);
    MonthsGrow(d.year, 1, d.month);
    MonthsGrow(d.year, d.month, 12);
    MonthLength(d.year, 12);
  }

  lemma LaterYear(a: DateTime, b: DateTime)
    requires ValidFields(a) && ValidFields(b) && a.year < b.year
    ensures DayNumber(a) < DayNumber(b)
  {
    DayInsideYear(a);
    DayInsideYear(b);
    YearsGrow(a.year + 1, b.year);
  }

  lemma LaterMonth(a: DateTime, b: DateTime)
    requires ValidFields(a) && ValidFields(b) && a.year == b.year && a.month < b.month
    ensures DayNumber(a) < DayNumber(b)
  {
    MonthsGrow(a.year, a.month, b.month);
  }

  lemma SameDayNumber(a: DateTime, b: DateTime)
    requires ValidFields(a) && ValidFields(b) && DayNumber(a) == DayNumber(b)
    ensures a.year == b.year && a.month == b.month && a.day == b.day
  {
    if a.year < b.year { LaterYear(a, b); }
    else if b.year < a.year { LaterYear(b, a); }
    else if a.month < b.month { LaterMonth(a, b); }
    else if b.month < a.month { LaterMonth(b, a); }
  }

  // Fields compare from the year down as the minutes they stand for do.
  lemma EarlierIff(a: DateTime, b: DateTime)
    requires ValidFields(a) && ValidFields(b)
    ensures Stamp(a) < Stamp(b) <==>
      || a.year < b.year
      || (a.year == b.year && (a.month < b.month || (a.month == b.month && (a.day < b.day || (a.day == b.day &&
           (a.hour < b.hour || (a.hour == b.hour && a.minute < b.minute)))))))
  {
    if a.year < b.year { LaterYear(a, b); }
    else if b.year < a.year { LaterYear(b, a); }
    else if a.month < b.month { LaterMonth(a, b); }
    else if b.month < a.month { LaterMonth(b, a); }
  }

  // Every whole minute has one calendar reading.
  lemma StampInjective(a: DateTime, b: DateTime)
    requires ValidFields(a) && ValidFields(b) && Stamp(a) == Stamp(b)
    ensures a == b
  {
    SameDayNumber(a, b);
  }
}
