// planning_14: the session with the highest token pressure, kept by a loop
// that treats nearly equal ratios as ties.  Exact arithmetic.
module Pressure {
  import opened Orders

  datatype Session = Session(key: string, inputTokens: Option<int>, contextTokens: Option<int>)

  datatype Kept = Kept(key: string, ratio: real)

  const TOLERANCE: real := 0.000000001

  predicate Valid(s: Session) {
    s.inputTokens.Some? && s.contextTokens.Some? && s.contextTokens.value > 0
  }

  function Ratio(s: Session): real {
    if Valid(s) then s.inputTokens.value as real / s.contextTokens.value as real else 0.0
  }

  function Abs(x: real): real { if x < 0.0 then -x else x }
  function Max(x: real, y: real): real { if x < y then y else x }

  // math.isclose(a, b, abs_tol=1e-9), whose relative tolerance defaults to 1e-9 too
  predicate IsClose(a: real, b: real) {
    Abs(a - b) <= Max(TOLERANCE * Max(Abs(a), Abs(b)), TOLERANCE)
  }

  // A usable session of this key, with its two counts.
  ghost predicate Counts(s: Session, key: string, input: int, context: int) {
    s == Session(key, Some(input), Some(context)) && context >= 1
  }

  lemma UsableIff(s: Session)
    ensures Valid(s) <==> exists input, context :: Counts(s, s.key, input, context)
    ensures forall input, context | Counts(s, s.key, input, context) :: Ratio(s) * context as real == input as real
  {
    if Valid(s) { assert Counts(s, s.key, s.inputTokens.value, s.contextTokens.value); }
  }

  // ----- what the loop keeps

  function Keep(best: Option<Kept>, s: Session): Option<Kept> {
    if !Valid(s) then best
    else if best.None? || Ratio(s) > best.value.ratio
            || (IsClose(Ratio(s), best.value.ratio) && StrLess(s.key, best.value.key))
    then Some(Kept(s.key, Ratio(s)))
    else best
  }

  function KeepAll(sessions: seq<Session>): Option<Kept> {
    if sessions == [] then None else Keep(KeepAll(sessions[..|sessions| - 1]), sessions[|sessions| - 1])
  }

  // ----- what it guarantees

  function ValidCount(sessions: seq<Session>): nat {
    if sessions == [] then 0
    else ValidCount(sessions[..|sessions| - 1]) + if Valid(sessions[|sessions| - 1]) then 1 else 0
  }

  ghost predicate KeptOf(sessions: seq<Session>, s: Session, k: Kept) {
    s in sessions && Valid(s) && k == Kept(s.key, Ratio(s))
  }

  // The answer is one of the usable sessions, and there is one unless none is usable.
  lemma {:induction false} KeptIsASession(sessions: seq<Session>)
    ensures KeepAll(sessions).None? <==> forall s | s in sessions :: !Valid(s)
    ensures KeepAll(sessions).Some? ==> exists s :: KeptOf(sessions, s, KeepAll(sessions).value)
  {
    if sessions != [] {
      var front, last := sessions[..|sessions| - 1], sessions[|sessions| - 1];
      KeptIsASession(front);
      assert forall s :: s in sessions <==> s in front || s == last;
      if KeepAll(front).Some? {
        var s :| KeptOf(front, s, KeepAll(front).value);
        assert KeptOf(sessions, s, KeepAll(front).value);
      }
      if Valid(last) { assert KeptOf(sessions, last, Kept(last.key, Ratio(last))); }
    }
  }

  // Non-negative ratios, none above `top`.
  ghost predicate Bounded(sessions: seq<Session>, top: real) {
    forall s | s in sessions && Valid(s) :: 0.0 <= Ratio(s) <= top
  }

  // 1e-9 * max(1, top)
  function Slip(top: real): real { TOLERANCE * Max(1.0, top) }

  lemma CloseWithinSlip(a: real, b: real, top: real)
    requires 0.0 <= a <= top && 0.0 <= b <= top && IsClose(a, b)
    ensures Abs(a - b) <= Slip(top)
  {
    assert Max(Abs(a), Abs(b)) <= Max(1.0, top);
  }

  lemma KeepMovesLittle(best: Kept, last: Session, top: real)
    requires 0.0 <= best.ratio <= top && (Valid(last) ==> 0.0 <= Ratio(last) <= top)
    ensures var r := Keep(Some(best), last).value.ratio;
      && 0.0 <= r <= top && best.ratio - Slip(top) <= r
      && if Valid(last) then Ratio(last) <= r else r == best.ratio
  {
    if Valid(last) && IsClose(Ratio(last), best.ratio) { CloseWithinSlip(Ratio(last), best.ratio, top); }
  }

  // n * slip, by addition.
  function Drift(n: nat, slip: real): real {
    if n == 0 then 0.0 else Drift(n - 1, slip) + slip
  }

  lemma {:induction false} DriftIsProduct(n: nat, slip: real)
    requires slip >= 0.0
    ensures Drift(n, slip) == n as real * slip && Drift(n, slip) >= 0.0
  {
    if n > 0 {
      DriftIsProduct(n - 1, slip);
      assert n as real * slip == (n - 1) as real * slip + slip;
    }
  }

  lemma {:induction false} DriftSum(sessions: seq<Session>, top: real, slip: real, s: Session)
    requires Bounded(sessions, top) && s in sessions && Valid(s) && slip == Slip(top) && slip >= 0.0
    ensures KeepAll(sessions).Some? && ValidCount(sessions) >= 1
    ensures KeepAll(sessions).value.ratio >= Ratio(s) - Drift(ValidCount(sessions) - 1, slip)
    ensures 0.0 <= KeepAll(sessions).value.ratio <= top
  {
    var front, last := sessions[..|sessions| - 1], sessions[|sessions| - 1];
    assert forall x :: x in sessions <==> x in front || x == last;
    KeptIsASession(front);
    if KeepAll(front).Some? {
      var k :| KeptOf(front, k, KeepAll(front).value);
      DriftSum(front, top, slip, if s in front then s else k);
      DriftIsProduct(ValidCount(front) - 1, slip);
      KeepMovesLittle(KeepAll(front).value, last, top);
    } else {
      assert s == last;
      NoneValidCount(front);
    }
  }

  // Drift bound: every usable session after the first costs at most one
  // tolerance, so the kept ratio is at least M - (n - 1) * 1e-9 * max(1, M).
  lemma DriftBound(sessions: seq<Session>, top: real, slip: real, s: Session)
    requires Bounded(sessions, top) && s in sessions && Valid(s) && slip == Slip(top)
    ensures KeepAll(sessions).Some? && ValidCount(sessions) >= 1
    ensures KeepAll(sessions).value.ratio >= Ratio(s) - (ValidCount(sessions) - 1) as real * slip
    ensures KeepAll(sessions).value.ratio <= top
  {
    DriftSum(sessions, top, slip, s);
    DriftIsProduct(ValidCount(sessions) - 1, slip);
  }

  function Repeated(n: nat): string { if n == 0 then "" else "a" + Repeated(n - 1) }

  lemma {:induction false} ShorterIsLess(n: nat)
    ensures StrLess(Repeated(n), Repeated(n + 1))
  {
    if n > 0 {
      ShorterIsLess(n - 1);
      assert Repeated(n)[1..] == Repeated(n - 1) && Repeated(n + 1)[1..] == Repeated(n);
    }
  }

  // The first m of n sessions, each one tolerance below the one before, with
  // shrinking keys.
  function Staircase(n: nat, m: nat): seq<Session>
    requires m <= n
  {
    if m == 0 then []
    else Staircase(n, m - 1) + [Session(Repeated(n - m), Some(1_000_000_001 - m), Some(1_000_000_000))]
  }

  // The ratio of session number m.
  function Step(m: nat): real { 1.0 - (m as real - 1.0) * TOLERANCE }

  lemma StepDown(m: nat, key: string, last: Session)
    requires 1 <= m <= 1_000_000_001
    requires last.inputTokens == Some(1_000_000_001 - m) && last.contextTokens == Some(1_000_000_000)
    ensures Ratio(last) == Step(m) && 0.0 <= Step(m) <= 1.0
    ensures StrLess(last.key, key) && m > 1 ==>
              Keep(Some(Kept(key, Step(m - 1))), last) == Some(Kept(last.key, Step(m)))
  {
    assert Ratio(last) == (1_000_000_001 - m) as real / 1_000_000_000.0;
    if m > 1 {
      assert Abs(Step(m) - Step(m - 1)) == TOLERANCE;
      assert IsClose(Step(m), Step(m - 1));
    }
  }

  lemma {:induction false} StaircaseDescends(n: nat, m: nat)
    requires 1 <= m <= n <= 1_000_000_001
    ensures Bounded(Staircase(n, m), 1.0) && ValidCount(Staircase(n, m)) == m
    ensures |Staircase(n, m)| == m
    ensures Staircase(n, m)[0] == Session(Repeated(n - 1), Some(1_000_000_000), Some(1_000_000_000))
    ensures KeepAll(Staircase(n, m)) == Some(Kept(Repeated(n - m), Step(m)))
  {
    var sessions, front := Staircase(n, m), Staircase(n, m - 1);
    var last := Session(Repeated(n - m), Some(1_000_000_001 - m), Some(1_000_000_000));
    assert sessions == front + [last] && sessions[..|sessions| - 1] == front;
    StepDown(m, Repeated(n - m + 1), last);
    if m > 1 {
      StaircaseDescends(n, m - 1);
      ShorterIsLess(n - m);
    }
  }

  lemma StepLoss(n: nat)
    requires n >= 1
    ensures Step(1) == 1.0 && Step(n) == 1.0 - (n - 1) as real * Slip(1.0)
  {
    assert Slip(1.0) == TOLERANCE;
  }

  // The drift bound is attained: n sessions lose n - 1 whole tolerances.
  lemma DriftAttained(n: nat) returns (sessions: seq<Session>, s: Session)
    requires 1 <= n <= 1_000_000_001
    ensures Bounded(sessions, 1.0) && ValidCount(sessions) == n && s in sessions && Valid(s) && Ratio(s) == 1.0
    ensures KeepAll(sessions).Some?
    ensures KeepAll(sessions).value.ratio == Ratio(s) - (n - 1) as real * Slip(1.0)
  {
    sessions := Staircase(n, n);
    StaircaseDescends(n, n);
    s := Session(Repeated(n - 1), Some(1_000_000_000), Some(1_000_000_000));
    assert sessions[0] == s;
    StepDown(1, "", s);
    StepLoss(n);
  }

  lemma {:induction false} NoneValidCount(sessions: seq<Session>)
    requires forall s | s in sessions :: !Valid(s)
    ensures ValidCount(sessions) == 0
  {
    if sessions != [] {
      assert sessions[|sessions| - 1] in sessions;
      NoneValidCount(sessions[..|sessions| - 1]);
    }
  }

  // Different ratios are further apart than the tolerance.
  ghost predicate Separated(sessions: seq<Session>) {
    forall s, t | s in sessions && t in sessions && Valid(s) && Valid(t) && Ratio(s) != Ratio(t) ::
      !IsClose(Ratio(s), Ratio(t))
  }

  // No usable session has a greater ratio, or the same ratio and a smaller key.
  ghost predicate Unbeaten(sessions: seq<Session>, k: Kept) {
    forall s | s in sessions && Valid(s) :: Ratio(s) < k.ratio || (Ratio(s) == k.ratio && !StrLess(s.key, k.key))
  }

  // The greatest ratio, and the least key among the sessions that have it.
  ghost predicate TrueMaximum(sessions: seq<Session>, k: Kept) {
    (exists s :: KeptOf(sessions, s, k)) && Unbeaten(sessions, k)
  }

  // The true maximum in the sessions' own counts: the key and ratio of a usable
  // session, no usable session above that ratio, and none at it with a smaller key.
  lemma TrueMaximumIff(sessions: seq<Session>, k: Kept)
    ensures TrueMaximum(sessions, k) <==>
      && (exists s, input, context :: s in sessions && Counts(s, k.key, input, context) &&
            k.ratio * context as real == input as real)
      && (forall s, input, context | s in sessions && Counts(s, s.key, input, context) ::
            && k.ratio * context as real >= input as real
            && (k.ratio * context as real == input as real ==> !StrLess(s.key, k.key)))
  {
    forall s, input, context | s in sessions && Counts(s, s.key, input, context)
      ensures Ratio(s) <= k.ratio <==> k.ratio * context as real >= input as real
      ensures Ratio(s) == k.ratio <==> k.ratio * context as real == input as real
    {
      Scaled(Ratio(s), k.ratio, context as real, input as real);
    }
    if TrueMaximum(sessions, k) {
      var s :| KeptOf(sessions, s, k);
      assert Counts(s, k.key, s.inputTokens.value, s.contextTokens.value);
    }
    if s, input, context :| s in sessions && Counts(s, k.key, input, context) &&
                            k.ratio * context as real == input as real {
      assert KeptOf(sessions, s, k);
    }
    forall s | s in sessions && Valid(s) ensures Counts(s, s.key, s.inputTokens.value, s.contextTokens.value) {}
  }

  lemma Scaled(r: real, q: real, context: real, input: real)
    requires context > 0.0 && r == input / context
    ensures r <= q <==> q * context >= input
    ensures r == q <==> q * context == input
  {
    assert r * context == input;
    if r < q { assert r * context < q * context; }
    if r > q { assert r * context > q * context; }
  }

  // ----- exactly when the answer is the true maximum

  predicate Holder(s: Session, k: Kept) {
    Valid(s) && Kept(s.key, Ratio(s)) == k
  }

  // A session with a smaller ratio that would still displace k: within the
  // tolerance, and with a smaller key.
  predicate Challenger(s: Session, k: Kept) {
    Valid(s) && Ratio(s) < k.ratio && IsClose(Ratio(s), k.ratio) && StrLess(s.key, k.key)
  }

  // The tolerance written out: a usable session of smaller ratio and smaller key,
  // no further below than 1e-9, or than 1e-9 times the larger of the two ratios in
  // absolute value.
  lemma ChallengerIff(s: Session, k: Kept)
    ensures Challenger(s, k) <==>
      && Valid(s) && StrLess(s.key, k.key) && 0.0 < k.ratio - Ratio(s)
      && (k.ratio - Ratio(s) <= 0.000000001 || k.ratio - Ratio(s) <= 0.000000001 * k.ratio ||
          k.ratio - Ratio(s) <= 0.000000001 * (0.0 - Ratio(s)))
  {
    if Ratio(s) < k.ratio {
      assert Max(Abs(Ratio(s)), Abs(k.ratio)) == Max(k.ratio, 0.0 - Ratio(s));
    }
  }

  // Some session holds k, and no challenger comes after it.
  ghost predicate Survives(sessions: seq<Session>, k: Kept) {
    exists i :: SurvivesFrom(sessions, k, i)
  }

  ghost predicate SurvivesFrom(sessions: seq<Session>, k: Kept, i: int) {
    0 <= i < |sessions| && Holder(sessions[i], k) && forall j | i < j < |sessions| :: !Challenger(sessions[j], k)
  }

  lemma SurvivesNext(front: seq<Session>, last: Session, k: Kept)
    ensures Survives(front + [last], k) <==> Holder(last, k) || (Survives(front, k) && !Challenger(last, k))
  {
    var sessions := front + [last];
    if Holder(last, k) { assert SurvivesFrom(sessions, k, |front|); }
    if Survives(front, k) && !Challenger(last, k) {
      var i :| SurvivesFrom(front, k, i);
      assert SurvivesFrom(sessions, k, i);
    }
    if Survives(sessions, k) && !Holder(last, k) {
      var i :| SurvivesFrom(sessions, k, i);
      assert sessions[|front|] == last;
      assert forall j | 0 <= j < |front| :: front[j] == sessions[j];
      assert SurvivesFrom(front, k, i);
    }
  }

  // One step: only a holder of k installs it, only a challenger removes it.
  lemma KeepStep(best: Option<Kept>, last: Session, k: Kept)
    requires best.Some? ==> best.value.ratio < k.ratio ||
                            (best.value.ratio == k.ratio && !StrLess(best.value.key, k.key))
    requires Valid(last) ==> Ratio(last) < k.ratio || (Ratio(last) == k.ratio && !StrLess(last.key, k.key))
    ensures Keep(best, last) == Some(k) <==> Holder(last, k) || (best == Some(k) && !Challenger(last, k))
  {
    StrStrictTotal();
  }

  lemma {:induction false} KeptIffSurvives(sessions: seq<Session>, k: Kept)
    requires Unbeaten(sessions, k)
    ensures KeepAll(sessions) == Some(k) <==> Survives(sessions, k)
  {
    if sessions != [] {
      var front, last := sessions[..|sessions| - 1], sessions[|sessions| - 1];
      assert sessions == front + [last];
      KeptIffSurvives(front, k);
      KeptIsASession(front);
      SurvivesNext(front, last, k);
      KeepStep(KeepAll(front), last, k);
    }
  }

  // The loop returns the true maximum exactly when no challenger follows the
  // last session that holds it.
  lemma MaximumKeptIffSurvives(sessions: seq<Session>, k: Kept)
    requires TrueMaximum(sessions, k)
    ensures KeepAll(sessions) == Some(k) <==> Survives(sessions, k)
  {
    KeptIffSurvives(sessions, k);
  }

  lemma SameElements(a: seq<Session>, b: seq<Session>, s: Session)
    requires multiset(a) == multiset(b)
    ensures s in a <==> s in b
  {
    assert s in a <==> s in multiset(a);
    assert s in b <==> s in multiset(b);
  }

  // It returns the true maximum for every order of the sessions exactly when
  // there is no challenger.
  lemma EveryOrderIffNoChallenger(sessions: seq<Session>, k: Kept)
    requires TrueMaximum(sessions, k)
    ensures (forall t: seq<Session> | multiset(t) == multiset(sessions) :: KeepAll(t) == Some(k)) <==>
            forall s | s in sessions :: !Challenger(s, k)
  {
    if forall s | s in sessions :: !Challenger(s, k) {
      forall t: seq<Session> | multiset(t) == multiset(sessions) ensures KeepAll(t) == Some(k) {
        NoChallengerKeeps(sessions, t, k);
      }
    }
    if c :| c in sessions && Challenger(c, k) {
      var t := ChallengerLast(sessions, k, c);
    }
  }

  lemma NoChallengerKeeps(sessions: seq<Session>, t: seq<Session>, k: Kept)
    requires TrueMaximum(sessions, k) && multiset(t) == multiset(sessions)
    requires forall s | s in sessions :: !Challenger(s, k)
    ensures KeepAll(t) == Some(k)
  {
    forall s ensures s in t <==> s in sessions { SameElements(t, sessions, s); }
    var h :| KeptOf(sessions, h, k);
    var i :| 0 <= i < |t| && t[i] == h;
    assert SurvivesFrom(t, k, i);
    KeptIffSurvives(t, k);
  }

  // With a challenger placed last, the maximum is lost.
  lemma ChallengerLast(sessions: seq<Session>, k: Kept, c: Session) returns (t: seq<Session>)
    requires TrueMaximum(sessions, k) && c in sessions && Challenger(c, k)
    ensures multiset(t) == multiset(sessions) && KeepAll(t) != Some(k)
  {
    var i :| 0 <= i < |sessions| && sessions[i] == c;
    var front := sessions[..i] + sessions[i + 1..];
    t := front + [c];
    assert sessions == sessions[..i] + [c] + sessions[i + 1..];
    forall s ensures s in t <==> s in sessions { SameElements(t, sessions, s); }
    KeptIffSurvives(t, k);
    SurvivesNext(front, c, k);
  }

  // Ratios further apart than the tolerance leave no challenger, in any order.
  lemma SeparatedGivesMaximum(sessions: seq<Session>, k: Kept)
    requires Separated(sessions) && TrueMaximum(sessions, k)
    ensures forall t: seq<Session> | multiset(t) == multiset(sessions) :: KeepAll(t) == Some(k)
  {
    var h :| KeptOf(sessions, h, k);
    EveryOrderIffNoChallenger(sessions, k);
  }

  // Wherever there is a usable session there is a true maximum.
  lemma {:induction false} MaximumExists(sessions: seq<Session>) returns (k: Kept)
    requires exists s :: s in sessions && Valid(s)
    ensures TrueMaximum(sessions, k)
  {
    StrStrictTotal();
    var front, last := sessions[..|sessions| - 1], sessions[|sessions| - 1];
    assert sessions == front + [last];
    if exists s :: s in front && Valid(s) {
      var before := MaximumExists(front);
      var h :| KeptOf(front, h, before);
      if Valid(last) && (Ratio(last) > before.ratio || (Ratio(last) == before.ratio && StrLess(last.key, before.key))) {
        k := Kept(last.key, Ratio(last));
        assert KeptOf(sessions, last, k);
      } else {
        k := before;
        assert KeptOf(sessions, h, k);
      }
    } else {
      k := Kept(last.key, Ratio(last));
      assert KeptOf(sessions, last, k);
    }
  }

  // There is only one, whatever the order of the sessions.
  lemma MaximumUnique(a: seq<Session>, b: seq<Session>, k: Kept, l: Kept)
    requires Elements(a) == Elements(b) && TrueMaximum(a, k) && TrueMaximum(b, l)
    ensures k == l
  {
    StrStrictTotal();
    var s :| KeptOf(a, s, k);
    var t :| KeptOf(b, t, l);
    assert s in Elements(a) && t in Elements(b);
  }

  // Without separation the maximum can be lost, and the order matters: two
  // sessions one tolerance apart.
  lemma ToleranceCanLoseMaximum()
    ensures var high, low := Session("b", Some(1_000_000_000), Some(1_000_000_000)),
                             Session("a", Some(999_999_999), Some(1_000_000_000));
      && KeepAll([high, low]) == Some(Kept("a", 0.999999999)) && Ratio(high) == 1.0
  {
    var high := Session("b", Some(1_000_000_000), Some(1_000_000_000));
    var low := Session("a", Some(999_999_999), Some(1_000_000_000));
    assert [high, low][..1] == [high] && [high][..0] == [];
    assert KeepAll([high]) == Some(Kept("b", 1.0));
    assert StrLess("a", "b");
  }

  // ----- the loop itself

  ghost predicate MaximalWhenSurviving(sessions: seq<Session>, r: Kept) {
    forall k | TrueMaximum(sessions, k) :: r == k <==> Survives(sessions, k)
  }

  ghost predicate NearMaximal(sessions: seq<Session>, ratio: real) {
    forall top, s | Bounded(sessions, top) && s in sessions && Valid(s) ::
      ValidCount(sessions) >= 1 && ratio >= Ratio(s) - Drift(ValidCount(sessions) - 1, Slip(top))
  }

  // ("", 0.0) when no session is usable.  Otherwise the answer is a usable
  // session's; it is the true maximum exactly when no challenger follows the
  // last holder; and it is at most one tolerance per further usable session
  // below any ratio.
  method HighestPressureSession(sessions: seq<Session>) returns (key: string, ratio: real)
    ensures Kept(key, ratio) == if KeepAll(sessions).Some? then KeepAll(sessions).value else Kept("", 0.0)
    ensures (forall s | s in sessions :: !Valid(s)) ==> key == "" && ratio == 0.0
    ensures (exists s :: s in sessions && Valid(s)) ==> exists s :: KeptOf(sessions, s, Kept(key, ratio))
    ensures MaximalWhenSurviving(sessions, Kept(key, ratio)) && NearMaximal(sessions, ratio)
  {
    var bestKey, bestRatio, found := "", 0.0, false;
    for i := 0 to |sessions|
      invariant KeepAll(sessions[..i]) == if found then Some(Kept(bestKey, bestRatio)) else None
    {
      assert sessions[..i + 1][..i] == sessions[..i];
      var s := sessions[i];
      if s.inputTokens.None? || s.contextTokens.None? || s.contextTokens.value <= 0 { continue; }
      var r := s.inputTokens.value as real / s.contextTokens.value as real;
      if !found || r > bestRatio || (IsClose(r, bestRatio) && StrLess(s.key, bestKey)) {
        bestKey, bestRatio, found := s.key, r, true;
      }
    }
    assert sessions[..|sessions|] == sessions;
    key, ratio := if found then bestKey else "", if found then bestRatio else 0.0;
    KeepAllGuarantees(sessions, Kept(key, ratio));
  }

  lemma KeepAllGuarantees(sessions: seq<Session>, r: Kept)
    requires r == if KeepAll(sessions).Some? then KeepAll(sessions).value else Kept("", 0.0)
    ensures (forall s | s in sessions :: !Valid(s)) ==> r == Kept("", 0.0)
    ensures (exists s :: s in sessions && Valid(s)) ==> exists s :: KeptOf(sessions, s, r)
    ensures MaximalWhenSurviving(sessions, r) && NearMaximal(sessions, r.ratio)
  {
    KeptIsASession(sessions);
    forall k | TrueMaximum(sessions, k) ensures r == k <==> Survives(sessions, k) {
      var h :| KeptOf(sessions, h, k);
      MaximumKeptIffSurvives(sessions, k);
    }
    forall top, s | Bounded(sessions, top) && s in sessions && Valid(s)
      ensures ValidCount(sessions) >= 1 && r.ratio >= Ratio(s) - Drift(ValidCount(sessions) - 1, Slip(top))
    {
      DriftSum(sessions, top, Slip(top), s);
    }
  }
}
