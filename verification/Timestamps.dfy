// The timestamps in report names: strftime("%Y%m%d_%H%M%S_%f"), in years of four
// digits, and their order as text.
module Timestamps {
  import opened Orders
  import opened Text

  datatype Moment = Moment(time: DateTime, second: int, micros: int)

  predicate ValidMoment(m: Moment) {
    ValidFields(m.time) && 1000 <= m.time.year <= 9999 && 0 <= m.second < 60 && 0 <= m.micros < 1_000_000
  }

  function YearDigits(year: int): string
    requires 0 <= year < 10_000
  {
    TwoDigits(year / 100) + TwoDigits(year % 100)
  }

  function MicroDigits(micros: int): string
    requires 0 <= micros < 1_000_000
  {
    TwoDigits(micros / 10_000) + (TwoDigits(micros / 100 % 100) + TwoDigits(micros % 100))
  }

  function DatePart(d: DateTime): string
    requires ValidFields(d) && d.year < 10_000
  {
    YearDigits(d.year) + (TwoDigits(d.month) + TwoDigits(d.day))
  }

  function TimePart(hour: int, minute: int, second: int): string
    requires 0 <= hour < 24 && 0 <= minute < 60 && 0 <= second < 60
  {
    TwoDigits(hour) + (TwoDigits(minute) + TwoDigits(second))
  }

  function Strftime(m: Moment): (t: string)
    requires ValidMoment(m)
    ensures |t| == 22
  {
    DatePart(m.time) + ClockPart(m)
  }

  function ClockPart(m: Moment): string
    requires ValidMoment(m)
  {
    "_" + (TimePart(m.time.hour, m.time.minute, m.second) + ("_" + MicroDigits(m.micros)))
  }

  lemma PartsAreDigits(m: Moment)
    requires ValidMoment(m)
    ensures |DatePart(m.time)| == 8 && forall i | 0 <= i < 8 :: DigitOf(DatePart(m.time)[i]).Some?
    ensures var t := TimePart(m.time.hour, m.time.minute, m.second);
      |t| == 6 && forall i | 0 <= i < 6 :: DigitOf(t[i]).Some?
    ensures |MicroDigits(m.micros)| == 6 && forall i | 0 <= i < 6 :: DigitOf(MicroDigits(m.micros)[i]).Some?
  {
  }

  // Underscores stand after the date and after the time, digits everywhere else.
  lemma StrftimeShape(m: Moment, i: nat)
    requires ValidMoment(m) && i < 22
    ensures if i == 8 || i == 15 then Strftime(m)[i] == '_' else DigitOf(Strftime(m)[i]).Some?
  {
    var d, h, u := DatePart(m.time), TimePart(m.time.hour, m.time.minute, m.second), MicroDigits(m.micros);
    assert Strftime(m) == d + ("_" + (h + ("_" + u)));
    PartsAreDigits(m);
  }

  // ----- order

  lemma TwoDigitsOrder(m: int, n: int)
    requires 0 <= m < 100 && 0 <= n < 100
    ensures StrLess(TwoDigits(m), TwoDigits(n)) <==> m < n
    ensures TwoDigits(m) == TwoDigits(n) <==> m == n
  {
    var s, t := TwoDigits(m), TwoDigits(n);
    assert s[1..] == [s[1]] && t[1..] == [t[1]];
    assert LexLess(CharLess, [s[1]], [t[1]]) <==> s[1] < t[1];
  }

  // Texts of one length compare head first.
  lemma {:induction false} HeadFirst(x: string, s: string, y: string, t: string)
    requires |x| == |y|
    ensures StrLess(x + s, y + t) <==> StrLess(x, y) || (x == y && StrLess(s, t))
    ensures x + s == y + t <==> x == y && s == t
  {
    if x == "" {
      assert x + s == s && y + t == t;
    } else {
      assert (x + s)[1..] == x[1..] + s && (y + t)[1..] == y[1..] + t;
      assert x == [x[0]] + x[1..] && y == [y[0]] + y[1..];
      HeadFirst(x[1..], s, y[1..], t);
      assert x + s == [x[0]] + (x[1..] + s) && y + t == [y[0]] + (y[1..] + t);
    }
  }

  lemma YearOrder(a: int, b: int)
    requires 0 <= a < 10_000 && 0 <= b < 10_000
    ensures StrLess(YearDigits(a), YearDigits(b)) <==> a < b
    ensures YearDigits(a) == YearDigits(b) <==> a == b
  {
    TwoDigitsOrder(a / 100, b / 100);
    TwoDigitsOrder(a % 100, b % 100);
    HeadFirst(TwoDigits(a / 100), TwoDigits(a % 100), TwoDigits(b / 100), TwoDigits(b % 100));
  }

  lemma ThreeOrder(a: int, b: int, c: int, x: int, y: int, z: int)
    requires 0 <= a < 100 && 0 <= b < 100 && 0 <= c < 100 && 0 <= x < 100 && 0 <= y < 100 && 0 <= z < 100
    ensures var s, t := TwoDigits(a) + (TwoDigits(b) + TwoDigits(c)), TwoDigits(x) + (TwoDigits(y) + TwoDigits(z));
      && (StrLess(s, t) <==> a < x || (a == x && (b < y || (b == y && c < z))))
      && (s == t <==> a == x && b == y && c == z)
  {
    TwoDigitsOrder(a, x);
    TwoDigitsOrder(b, y);
    TwoDigitsOrder(c, z);
    HeadFirst(TwoDigits(b), TwoDigits(c), TwoDigits(y), TwoDigits(z));
    HeadFirst(TwoDigits(a), TwoDigits(b) + TwoDigits(c), TwoDigits(x), TwoDigits(y) + TwoDigits(z));
  }

  lemma MicroParts(a: int)
    requires 0 <= a < 1_000_000
    ensures a == 10_000 * (a / 10_000) + 100 * (a / 100 % 100) + a % 100
  {
    assert a / 100 / 100 == a / 10_000;
  }

  lemma MicroOrder(a: int, b: int)
    requires 0 <= a < 1_000_000 && 0 <= b < 1_000_000
    ensures StrLess(MicroDigits(a), MicroDigits(b)) <==> a < b
    ensures MicroDigits(a) == MicroDigits(b) <==> a == b
  {
    var p, q, r, x, y, z := a / 10_000, a / 100 % 100, a % 100, b / 10_000, b / 100 % 100, b % 100;
    MicroParts(a);
    MicroParts(b);
    ThreeOrder(p, q, r, x, y, z);
  }

  lemma DateOrder(a: DateTime, b: DateTime)
    requires ValidFields(a) && ValidFields(b) && a.year < 10_000 && b.year < 10_000
    ensures StrLess(DatePart(a), DatePart(b)) <==>
      a.year < b.year || (a.year == b.year && (a.month < b.month || (a.month == b.month && a.day < b.day)))
    ensures DatePart(a) == DatePart(b) <==> a.year == b.year && a.month == b.month && a.day == b.day
  {
    YearOrder(a.year, b.year);
    TwoDigitsOrder(a.month, b.month);
    TwoDigitsOrder(a.day, b.day);
    HeadFirst(TwoDigits(a.month), TwoDigits(a.day), TwoDigits(b.month), TwoDigits(b.day));
    HeadFirst(YearDigits(a.year), TwoDigits(a.month) + TwoDigits(a.day),
              YearDigits(b.year), TwoDigits(b.month) + TwoDigits(b.day));
  }

  // Whole minutes, then seconds, then microseconds.
  predicate Earlier(a: Moment, b: Moment) {
    || Stamp(a.time) < Stamp(b.time)
    || (Stamp(a.time) == Stamp(b.time) && (a.second < b.second || (a.second == b.second && a.micros < b.micros)))
  }

  lemma ClockOrder(a: Moment, b: Moment)
    requires ValidMoment(a) && ValidMoment(b)
    ensures StrLess(ClockPart(a), ClockPart(b)) <==>
            a.time.hour < b.time.hour || (a.time.hour == b.time.hour &&
            (a.time.minute < b.time.minute || (a.time.minute == b.time.minute &&
            (a.second < b.second || (a.second == b.second && a.micros < b.micros)))))
    ensures ClockPart(a) == ClockPart(b) <==>
            a.time.hour == b.time.hour && a.time.minute == b.time.minute && a.second == b.second && a.micros == b.micros
  {
    var h, i := TimePart(a.time.hour, a.time.minute, a.second), TimePart(b.time.hour, b.time.minute, b.second);
    var u, v := MicroDigits(a.micros), MicroDigits(b.micros);
    ThreeOrder(a.time.hour, a.time.minute, a.second, b.time.hour, b.time.minute, b.second);
    MicroOrder(a.micros, b.micros);
    HeadFirst("_", u, "_", v);
    HeadFirst(h, "_" + u, i, "_" + v);
    HeadFirst("_", h + ("_" + u), "_", i + ("_" + v));
  }

  // Timestamps compare as text exactly as the moments do in time, and tell them apart.
  lemma StrftimeOrder(a: Moment, b: Moment)
    requires ValidMoment(a) && ValidMoment(b)
    ensures StrLess(Strftime(a), Strftime(b)) <==> Earlier(a, b)
    ensures Strftime(a) == Strftime(b) <==> a == b
  {
    DateOrder(a.time, b.time);
    ClockOrder(a, b);
    EarlierIff(a.time, b.time);
    if Stamp(a.time) == Stamp(b.time) { StampInjective(a.time, b.time); }
    HeadFirst(DatePart(a.time), ClockPart(a), DatePart(b.time), ClockPart(b));
    StrIrreflexive(DatePart(a.time));
  }

  lemma StrIrreflexive(s: string)
    ensures !StrLess(s, s)
  {
    StrStrictTotal();
  }
}
