// synthesis_14 and safety_17: first-fit matching of submitted rows against
// expected rows, with a `used` flag per submitted row.
module Matching {
  import opened Orders

  // Submitted rows; None is an entry that is not an object.
  type Rows<A> = seq<Option<A>>

  predicate Fits<A, E>(m: (A, E) -> bool, row: Option<A>, e: E) {
    row.Some? && m(row.value, e)
  }

  // ----- what the loop computes

  // The first unused row from i on that matches, or the number of rows.
  function FirstUnused<A, E>(actual: Rows<A>, e: E, m: (A, E) -> bool, used: set<nat>, i: nat): (hit: nat)
    requires i <= |actual|
    ensures i <= hit <= |actual|
    ensures hit < |actual| ==> hit !in used && Fits(m, actual[hit], e)
    ensures forall k: nat | i <= k < hit :: k in used || !Fits(m, actual[k], e)
    decreases |actual| - i
  {
    if i == |actual| || (i !in used && Fits(m, actual[i], e)) then i else FirstUnused(actual, e, m, used, i + 1)
  }

  predicate FirstFit<A, E>(actual: Rows<A>, expected: seq<E>, m: (A, E) -> bool, used: set<nat>) {
    expected == [] ||
    var hit := FirstUnused(actual, expected[0], m, used, 0);
    hit < |actual| && FirstFit(actual, expected[1..], m, used + {hit})
  }

  predicate Accepts<A, E>(actual: Rows<A>, expected: seq<E>, m: (A, E) -> bool) {
    |actual| == |expected| && FirstFit(actual, expected, m, {})
  }

  method MatchRows<A, E>(actual: Option<Rows<A>>, expected: seq<E>, m: (A, E) -> bool) returns (ok: bool)
    ensures ok <==> actual.Some? && Accepts(actual.value, expected, m)
  {
    if actual.None? || |actual.value| != |expected| { return false; }
    var rows := actual.value;
    var used := new bool[|rows|](_ => false);
    ghost var taken: set<nat> := {};
    for k := 0 to |expected|
      invariant forall i: nat | i < |rows| :: used[i] <==> i in taken
      invariant FirstFit(rows, expected, m, {}) <==> FirstFit(rows, expected[k..], m, taken)
    {
      var e := expected[k];
      var hit: Option<nat> := None;
      for i := 0 to |rows|
        invariant hit.None?
        invariant FirstUnused(rows, e, m, taken, 0) == FirstUnused(rows, e, m, taken, i)
      {
        if used[i] || rows[i].None? { continue; }
        if m(rows[i].value, e) {
          hit := Some(i);
          break;
        }
      }
      assert expected[k..][1..] == expected[k + 1..];
      if hit.None? { return false; }
      used[hit.value] := true;
      taken := taken + {hit.value};
    }
    return true;
  }

  // ----- what it is meant to decide

  // f gives each expected row its own unused submitted row.
  ghost predicate Pairing<A, E>(actual: Rows<A>, expected: seq<E>, m: (A, E) -> bool, used: set<nat>, f: seq<nat>) {
    && |f| == |expected| && Distinct(f)
    && forall k | 0 <= k < |f| :: f[k] < |actual| && f[k] !in used && Fits(m, actual[f[k]], expected[k])
  }

  ghost predicate Bijection<A, E>(actual: Rows<A>, expected: seq<E>, m: (A, E) -> bool) {
    |actual| == |expected| && exists f :: Pairing(actual, expected, m, {}, f)
  }

  // When an expected row shares a matching row with a later one, every row that
  // matches the earlier matches the later too.
  ghost predicate Nested<A, E>(actual: Rows<A>, expected: seq<E>, m: (A, E) -> bool) {
    forall i, j, a, b | 0 <= i < j < |expected| && a in actual && b in actual ::
      Fits(m, a, expected[i]) && Fits(m, a, expected[j]) && Fits(m, b, expected[i]) ==> Fits(m, b, expected[j])
  }

  // Every accepted list has a bijection.
  lemma {:induction false} FirstFitSound<A, E>(actual: Rows<A>, expected: seq<E>, m: (A, E) -> bool, used: set<nat>)
    returns (f: seq<nat>)
    requires FirstFit(actual, expected, m, used)
    ensures Pairing(actual, expected, m, used, f)
    decreases |expected|
  {
    if expected == [] {
      f := [];
    } else {
      var hit := FirstUnused(actual, expected[0], m, used, 0);
      var rest := FirstFitSound(actual, expected[1..], m, used + {hit});
      f := [hit] + rest;
      forall k | 0 <= k < |f|
        ensures f[k] < |actual| && f[k] !in used && Fits(m, actual[f[k]], expected[k]) && (k > 0 ==> f[k] != hit)
      {
        if k > 0 { assert f[k] == rest[k - 1] && expected[k] == expected[1..][k - 1]; }
      }
    }
  }

  lemma NestedTail<A, E>(actual: Rows<A>, expected: seq<E>, m: (A, E) -> bool)
    requires expected != [] && Nested(actual, expected, m)
    ensures Nested(actual, expected[1..], m)
  {
    assert forall i | 0 <= i < |expected| - 1 :: expected[1..][i] == expected[i + 1];
  }

  // Whatever row the first expected row takes, the others can still be paired:
  // the row it should have had can stand in for the one it took.
  lemma Exchange<A, E>(actual: Rows<A>, expected: seq<E>, m: (A, E) -> bool, used: set<nat>, f: seq<nat>, hit: nat)
    returns (g: seq<nat>)
    requires expected != [] && Nested(actual, expected, m) && Pairing(actual, expected, m, used, f)
    requires hit < |actual| && hit !in used && Fits(m, actual[hit], expected[0])
    ensures Pairing(actual, expected[1..], m, used + {hit}, g)
  {
    var rest := f[1..];
    assert forall k | 0 <= k < |rest| :: rest[k] == f[k + 1] && expected[1..][k] == expected[k + 1];
    if j :| 0 <= j < |rest| && rest[j] == hit {
      g := rest[j := f[0]];
      assert actual[f[0]] in actual && actual[hit] in actual;
      assert Fits(m, actual[f[0]], expected[j + 1]);
    } else {
      g := rest;
    }
  }

  lemma {:induction false} FirstFitComplete<A, E>(actual: Rows<A>, expected: seq<E>, m: (A, E) -> bool,
                                                  used: set<nat>, f: seq<nat>)
    requires Nested(actual, expected, m) && Pairing(actual, expected, m, used, f)
    ensures FirstFit(actual, expected, m, used)
    decreases |expected|
  {
    if expected != [] {
      var hit := FirstUnused(actual, expected[0], m, used, 0);
      assert f[0] !in used && Fits(m, actual[f[0]], expected[0]);
      var g := Exchange(actual, expected, m, used, f, hit);
      NestedTail(actual, expected, m);
      FirstFitComplete(actual, expected[1..], m, used + {hit}, g);
    }
  }

  // First fit decides whether a perfect matching exists.
  lemma AcceptsIffBijection<A, E>(actual: Rows<A>, expected: seq<E>, m: (A, E) -> bool)
    requires Nested(actual, expected, m)
    ensures Accepts(actual, expected, m) <==> Bijection(actual, expected, m)
  {
    if Accepts(actual, expected, m) { var f := FirstFitSound(actual, expected, m, {}); }
    if Bijection(actual, expected, m) {
      var f :| Pairing(actual, expected, m, {}, f);
      FirstFitComplete(actual, expected, m, {}, f);
    }
  }

  // pi moves row k of a to position pi[k] of b.
  ghost predicate Rearranged<T>(a: seq<T>, b: seq<T>, pi: seq<nat>) {
    |a| == |b| == |pi| && Distinct(pi) && forall k | 0 <= k < |pi| :: pi[k] < |b| && b[pi[k]] == a[k]
  }

  lemma RearrangedBijection<A, E>(actual: Rows<A>, moved: Rows<A>, pi: seq<nat>, expected: seq<E>, m: (A, E) -> bool)
    requires Rearranged(actual, moved, pi) && Bijection(actual, expected, m)
    ensures Bijection(moved, expected, m)
  {
    var f :| Pairing(actual, expected, m, {}, f);
    var g: seq<nat> := seq(|f|, k requires 0 <= k < |f| => assert f[k] < |pi|; pi[f[k]]);
    forall i, j | 0 <= i < j < |g| ensures g[i] != g[j] {
      assert f[i] != f[j];
      if f[i] < f[j] { assert pi[f[i]] != pi[f[j]]; } else { assert pi[f[j]] != pi[f[i]]; }
    }
    assert Pairing(moved, expected, m, {}, g);
  }

  function Below(n: nat): (s: set<nat>)
    ensures |s| == n && forall k: nat :: k in s <==> k < n
  {
    if n == 0 then {} else Below(n - 1) + {n - 1}
  }

  lemma PermutationCovers(pi: seq<nat>, n: nat)
    requires Distinct(pi) && (forall k | 0 <= k < |pi| :: pi[k] < |pi|) && n < |pi|
    ensures n in pi
  {
    DistinctSize(pi);
    var missed := Below(|pi|) - Elements(pi);
    assert Elements(pi) <= Below(|pi|);
    assert Below(|pi|) == Elements(pi) + missed;
    assert |missed| == 0;
    assert n !in missed;
  }

  lemma InversePermutation(pi: seq<nat>) returns (back: seq<nat>)
    requires Distinct(pi) && forall k | 0 <= k < |pi| :: pi[k] < |pi|
    ensures |back| == |pi| && forall k | 0 <= k < |pi| :: back[k] < |pi| && pi[back[k]] == k
  {
    back := [];
    for n := 0 to |pi|
      invariant |back| == n && forall k | 0 <= k < n :: back[k] < |pi| && pi[back[k]] == k
    {
      PermutationCovers(pi, n);
      var i :| 0 <= i < |pi| && pi[i] == n;
      back := back + [i];
    }
  }

  lemma RearrangedBack<T>(a: seq<T>, b: seq<T>, pi: seq<nat>) returns (back: seq<nat>)
    requires Rearranged(a, b, pi)
    ensures Rearranged(b, a, back)
  {
    back := InversePermutation(pi);
  }

  // Under the condition, acceptance does not depend on the order of the rows.
  lemma RowOrderIrrelevant<A, E>(actual: Rows<A>, moved: Rows<A>, pi: seq<nat>, expected: seq<E>, m: (A, E) -> bool)
    requires Rearranged(actual, moved, pi) && Nested(actual, expected, m)
    ensures Accepts(actual, expected, m) <==> Accepts(moved, expected, m)
  {
    var back := RearrangedBack(actual, moved, pi);
    forall a | a in moved ensures a in actual {
      var k :| 0 <= k < |moved| && moved[k] == a;
      assert actual[back[k]] == a;
    }
    assert Nested(moved, expected, m);
    AcceptsIffBijection(actual, expected, m);
    AcceptsIffBijection(moved, expected, m);
    if Bijection(actual, expected, m) { RearrangedBijection(actual, moved, pi, expected, m); }
    if Bijection(moved, expected, m) { RearrangedBijection(moved, actual, back, expected, m); }
  }

  // ----- exactly when first fit can be trusted on every submission

  ghost predicate Violation<A, E>(expected: seq<E>, m: (A, E) -> bool, i: nat, j: nat, a: A, b: A) {
    i < j < |expected| && m(a, expected[i]) && m(a, expected[j]) && m(b, expected[i]) && !m(b, expected[j])
  }

  // The condition over all conceivable rows: a property of the expected list.
  ghost predicate NestedAlways<A(!new), E>(expected: seq<E>, m: (A, E) -> bool) {
    forall i, j, a, b :: !Violation(expected, m, i, j, a, b)
  }

  ghost predicate Reachable<A(!new), E>(m: (A, E) -> bool, e: E) {
    exists a :: m(a, e)
  }

  ghost predicate Matchable<A(!new), E>(expected: seq<E>, m: (A, E) -> bool) {
    forall k | 0 <= k < |expected| :: Reachable(m, expected[k])
  }

  ghost predicate NeverRejectsBijection<A(!new), E>(expected: seq<E>, m: (A, E) -> bool) {
    forall actual: Rows<A> | Bijection(actual, expected, m) :: Accepts(actual, expected, m)
  }

  lemma NestedOnRows<A(!new), E>(actual: Rows<A>, expected: seq<E>, m: (A, E) -> bool)
    requires NestedAlways(expected, m)
    ensures Nested(actual, expected, m)
  {
    forall i, j, a, b | 0 <= i < j < |expected| && a in actual && b in actual &&
      Fits(m, a, expected[i]) && Fits(m, a, expected[j]) && Fits(m, b, expected[i])
      ensures Fits(m, b, expected[j])
    {
      assert !Violation(expected, m, i, j, a.value, b.value);
    }
  }

  // A violation whose later index is as large as possible.
  lemma {:induction false} LastViolation<A(!new), E>(expected: seq<E>, m: (A, E) -> bool, top: nat)
    returns (i: nat, j: nat, a: A, b: A)
    requires top <= |expected| && exists i: nat, j: nat, a, b :: Violation(expected, m, i, j, a, b)
    requires forall i: nat, j: nat, a, b | j >= top :: !Violation(expected, m, i, j, a, b)
    ensures Violation(expected, m, i, j, a, b)
    ensures forall i': nat, j': nat, a', b' | j' > j :: !Violation(expected, m, i', j', a', b')
    decreases top
  {
    var x: nat, y: nat, c, d :| Violation(expected, m, x, y, c, d);
    var last: nat := top - 1;
    if z: nat, e, f :| Violation(expected, m, z, last, e, f) {
      i, j, a, b := z, last, e, f;
    } else {
      i, j, a, b := LastViolation(expected, m, last);
    }
  }

  // Rows for the other expected rows, none of the later ones matching row j.
  lemma {:induction false} Fillers<A(!new), E>(expected: seq<E>, m: (A, E) -> bool, i: nat, j: nat, a: A, b: A, n: nat)
    returns (rows: seq<A>)
    requires Matchable(expected, m) && Violation(expected, m, i, j, a, b) && n <= |expected|
    requires forall i': nat, j': nat, a', b' | j' > j :: !Violation(expected, m, i', j', a', b')
    ensures |rows| == n
    ensures forall k | 0 <= k < n :: m(rows[k], expected[k]) && (k > j ==> !m(rows[k], expected[j]))
    decreases n
  {
    if n == 0 {
      rows := [];
    } else {
      var front := Fillers(expected, m, i, j, a, b, n - 1);
      assert Reachable(m, expected[n - 1]);
      var c :| m(c, expected[n - 1]);
      if n - 1 > j && m(c, expected[j]) {
        assert !Violation(expected, m, j, n - 1, c, a);
        assert !Violation(expected, m, i, n - 1, a, b);
        rows := front + [b];
      } else {
        rows := front + [c];
      }
    }
  }

  // The submission that spends row a on expected row i and strands row b.
  ghost predicate Stranding<A, E>(rows: Rows<A>, expected: seq<E>, m: (A, E) -> bool, j: nat) {
    && |rows| == |expected| && j < |rows|
    && (forall k | 0 <= k < j :: Fits(m, rows[k], expected[k]))
    && forall k | j <= k < |rows| :: !Fits(m, rows[k], expected[j])
  }

  lemma TakesOwnRow<A, E>(rows: Rows<A>, e: E, m: (A, E) -> bool, k: nat)
    requires k < |rows| && Fits(m, rows[k], e)
    ensures FirstUnused(rows, e, m, Below(k), 0) == k
  {
    var hit := FirstUnused(rows, e, m, Below(k), 0);
    assert k !in Below(k);
    var taken := hit in Below(k);
  }

  lemma FindsNoRow<A, E>(rows: Rows<A>, e: E, m: (A, E) -> bool, j: nat)
    requires j <= |rows| && forall k | j <= k < |rows| :: !Fits(m, rows[k], e)
    ensures FirstUnused(rows, e, m, Below(j), 0) == |rows|
  {
    var hit := FirstUnused(rows, e, m, Below(j), 0);
    var taken := hit in Below(j);
  }

  lemma {:induction false} StrandedRejected<A, E>(rows: Rows<A>, expected: seq<E>, m: (A, E) -> bool, j: nat, k: nat)
    requires Stranding(rows, expected, m, j) && k <= j
    ensures !FirstFit(rows, expected[k..], m, Below(k))
    decreases j - k
  {
    assert expected[k..][0] == expected[k] && expected[k..][1..] == expected[k + 1..];
    if k < j {
      TakesOwnRow(rows, expected[k], m, k);
      assert Below(k) + {k} == Below(k + 1);
      StrandedRejected(rows, expected, m, j, k + 1);
    } else {
      FindsNoRow(rows, expected[j], m, j);
    }
  }

  function Stranders<A>(fill: seq<A>, i: nat, j: nat, a: A, b: A): Rows<A> {
    seq(|fill|, k requires 0 <= k < |fill| => Some(if k == i then a else if k == j then b else fill[k]))
  }

  function Swapped(n: nat, i: nat, j: nat): seq<nat> {
    seq(n, k requires 0 <= k < n => if k == i then j else if k == j then i else k)
  }

  lemma StrandersHaveBijection<A, E>(expected: seq<E>, m: (A, E) -> bool, i: nat, j: nat, a: A, b: A, fill: seq<A>)
    requires Violation(expected, m, i, j, a, b) && |fill| == |expected|
    requires forall k | 0 <= k < |fill| :: m(fill[k], expected[k])
    ensures Bijection(Stranders(fill, i, j, a, b), expected, m)
  {
    assert Pairing(Stranders(fill, i, j, a, b), expected, m, {}, Swapped(|fill|, i, j));
  }

  lemma StrandingExists<A(!new), E>(expected: seq<E>, m: (A, E) -> bool)
    returns (i: nat, j: nat, a: A, b: A, fill: seq<A>)
    requires Matchable(expected, m) && !NestedAlways(expected, m)
    ensures Violation(expected, m, i, j, a, b) && |fill| == |expected|
    ensures forall k | 0 <= k < |fill| :: m(fill[k], expected[k]) && (k > j ==> !m(fill[k], expected[j]))
  {
    i, j, a, b := LastViolation(expected, m, |expected|);
    fill := Fillers(expected, m, i, j, a, b, |expected|);
  }

  lemma StrandersRejected<A, E>(expected: seq<E>, m: (A, E) -> bool, i: nat, j: nat, a: A, b: A, fill: seq<A>)
    requires Violation(expected, m, i, j, a, b) && |fill| == |expected|
    requires forall k | 0 <= k < |fill| :: m(fill[k], expected[k]) && (k > j ==> !m(fill[k], expected[j]))
    ensures !Accepts(Stranders(fill, i, j, a, b), expected, m)
  {
    var rows := Stranders(fill, i, j, a, b);
    assert Stranding(rows, expected, m, j);
    StrandedRejected(rows, expected, m, j, 0);
    assert expected[0..] == expected && Below(0) == {};
  }

  lemma ViolationRejects<A(!new), E>(expected: seq<E>, m: (A, E) -> bool)
    requires Matchable(expected, m) && !NestedAlways(expected, m)
    ensures !NeverRejectsBijection(expected, m)
  {
    var i, j, a, b, fill := StrandingExists(expected, m);
    StrandersHaveBijection(expected, m, i, j, a, b, fill);
    StrandersRejected(expected, m, i, j, a, b, fill);
  }

  // First fit accepts every submission that has a bijection exactly when no row
  // can match some expected row at all, or the expected rows are nested.
  lemma TrustedIffNested<A(!new), E>(expected: seq<E>, m: (A, E) -> bool)
    ensures NeverRejectsBijection(expected, m) <==> !Matchable(expected, m) || NestedAlways(expected, m)
  {
    if Matchable(expected, m) && !NestedAlways(expected, m) { ViolationRejects(expected, m); }
    forall actual: Rows<A> | NestedAlways(expected, m) && Bijection(actual, expected, m)
      ensures Accepts(actual, expected, m)
    {
      NestedOnRows(actual, expected, m);
      AcceptsIffBijection(actual, expected, m);
    }
    forall actual: Rows<A> | Bijection(actual, expected, m) ensures Matchable(expected, m) {
      var f :| Pairing(actual, expected, m, {}, f);
      forall k | 0 <= k < |expected| ensures Reachable(m, expected[k]) {
        assert Fits(m, actual[f[k]], expected[k]);
        var a := actual[f[k]].value;
        assert m(a, expected[k]);
      }
    }
  }

  // ----- synthesis_14: claims

  datatype Claim = Claim(claimId: string, status: string, evidence: seq<string>)

  function Tokens(norm: string -> string, xs: seq<string>): set<string> {
    set x | x in xs :: norm(x)
  }

  // Normalised id, verdict and evidence set all equal.
  function ClaimMatch(norm: string -> string): (Claim, Claim) -> bool {
    (a: Claim, e: Claim) => norm(a.claimId) == norm(e.claimId) && norm(a.status) == norm(e.status)
      && Tokens(norm, a.evidence) == Tokens(norm, e.evidence)
  }

  // The submitted entry is an object with the expected claim's id and verdict,
  // and every piece of evidence of either is among the other's, after normalising.
  ghost predicate Supports(norm: string -> string, row: Option<Claim>, e: Claim) {
    && row.Some? && norm(row.value.claimId) == norm(e.claimId) && norm(row.value.status) == norm(e.status)
    && (forall x | x in row.value.evidence :: exists y :: y in e.evidence && norm(y) == norm(x))
    && (forall y | y in e.evidence :: exists x :: x in row.value.evidence && norm(x) == norm(y))
  }

  // f gives each expected claim a submitted entry of its own.
  ghost predicate OwnEntries(norm: string -> string, actual: Rows<Claim>, expected: seq<Claim>, f: seq<nat>) {
    && |f| == |expected| && (forall i, j | 0 <= i < j < |f| :: f[i] != f[j])
    && forall k | 0 <= k < |f| :: f[k] < |actual| && Supports(norm, actual[f[k]], expected[k])
  }

  lemma ClaimMatchIff(norm: string -> string, row: Option<Claim>, e: Claim)
    ensures Fits(ClaimMatch(norm), row, e) <==> Supports(norm, row, e)
  {
    if row.Some? {
      var a, b := row.value.evidence, e.evidence;
      if Tokens(norm, a) == Tokens(norm, b) {
        forall x | x in a ensures exists y :: y in b && norm(y) == norm(x) { assert norm(x) in Tokens(norm, b); }
        forall y | y in b ensures exists x :: x in a && norm(x) == norm(y) { assert norm(y) in Tokens(norm, a); }
      }
    }
  }

  lemma OwnEntriesIff(norm: string -> string, actual: Rows<Claim>, expected: seq<Claim>)
    ensures Bijection(actual, expected, ClaimMatch(norm)) <==>
            |actual| == |expected| && exists f :: OwnEntries(norm, actual, expected, f)
  {
    forall row, e ensures Fits(ClaimMatch(norm), row, e) <==> Supports(norm, row, e) { ClaimMatchIff(norm, row, e); }
    forall f ensures Pairing(actual, expected, ClaimMatch(norm), {}, f) <==> OwnEntries(norm, actual, expected, f) {}
  }

  // For any normaliser and any expected claims, repeated ones included, the
  // claims are accepted exactly when there are as many as expected and each
  // expected claim has an entry of its own with its id, verdict and evidence.
  method ClaimsOk(norm: string -> string, actual: Option<Rows<Claim>>, expected: seq<Claim>) returns (ok: bool)
    ensures ok <==> actual.Some? && |actual.value| == |expected| &&
                    exists f :: OwnEntries(norm, actual.value, expected, f)
  {
    ok := MatchRows(actual, expected, ClaimMatch(norm));
    if actual.Some? {
      AcceptsIffBijection(actual.value, expected, ClaimMatch(norm));
      OwnEntriesIff(norm, actual.value, expected);
    }
  }

  // In an accepted list every entry is an expected claim's, so with different
  // expected ids no entry has a wrong verdict or wrong evidence for its id.
  lemma NoWrongVerdict(norm: string -> string, actual: Rows<Claim>, expected: seq<Claim>, f: seq<nat>, i: nat, k: nat)
    requires |actual| == |expected| && OwnEntries(norm, actual, expected, f) && i < |actual| && k < |expected|
    requires forall j, l | 0 <= j < l < |expected| :: norm(expected[j].claimId) != norm(expected[l].claimId)
    ensures actual[i].Some?
    ensures norm(actual[i].value.claimId) == norm(expected[k].claimId) ==> Supports(norm, actual[i], expected[k])
  {
    PermutationCovers(f, i);
    var j :| 0 <= j < |f| && f[j] == i;
    assert Supports(norm, actual[f[j]], expected[j]);
  }

  // ----- safety_17: blocked actions

  datatype Blocked = Blocked(action: string, reason: string)

  // Normalised action equal; the reason contains the expected content.
  function BlockedMatches(norm: string -> string, contains: (string, string) -> bool): (Blocked, Blocked) -> bool {
    (a: Blocked, e: Blocked) => norm(a.action) == norm(e.action) && contains(a.reason, e.reason)
  }

  ghost predicate DistinctActions(norm: string -> string, expected: seq<Blocked>) {
    forall i, j | 0 <= i < j < |expected| :: norm(expected[i].action) != norm(expected[j].action)
  }

  predicate SameAction(norm: string -> string, expected: seq<Blocked>, i: int, j: int) {
    0 <= i < j < |expected| && norm(expected[i].action) == norm(expected[j].action)
  }

  ghost predicate Compatible(contains: (string, string) -> bool, x: string, y: string) {
    exists both :: contains(both, x) && contains(both, y)
  }

  // Every text contains itself, and any two occur in one text.
  ghost predicate ContentTest(contains: (string, string) -> bool) {
    (forall x :: contains(x, x)) && forall x, y :: Compatible(contains, x, y)
  }

  ghost predicate TransitiveTest(contains: (string, string) -> bool) {
    forall x, y, z :: contains(x, y) && contains(y, z) ==> contains(x, z)
  }

  // Whatever contains one text contains the other.
  ghost predicate Covers(contains: (string, string) -> bool, x: string, y: string) {
    forall reason | contains(reason, x) :: contains(reason, y)
  }

  lemma CoversIffContains(contains: (string, string) -> bool, x: string, y: string)
    requires ContentTest(contains) && TransitiveTest(contains)
    ensures Covers(contains, x, y) <==> contains(x, y)
  {
  }

  lemma UncoveredViolates(norm: string -> string, contains: (string, string) -> bool, expected: seq<Blocked>,
                          i: nat, j: nat)
    requires ContentTest(contains) && SameAction(norm, expected, i, j)
    requires !Covers(contains, expected[i].reason, expected[j].reason)
    ensures !NestedAlways(expected, BlockedMatches(norm, contains))
  {
    var x, y, action := expected[i].reason, expected[j].reason, expected[i].action;
    assert Compatible(contains, x, y);
    var both :| contains(both, x) && contains(both, y);
    var reason :| contains(reason, x) && !contains(reason, y);
    assert Violation(expected, BlockedMatches(norm, contains), i, j, Blocked(action, both), Blocked(action, reason));
  }

  lemma CoveredNested(norm: string -> string, contains: (string, string) -> bool, expected: seq<Blocked>)
    requires forall i, j | SameAction(norm, expected, i, j) ::
               Covers(contains, expected[i].reason, expected[j].reason)
    ensures NestedAlways(expected, BlockedMatches(norm, contains))
  {
    var m := BlockedMatches(norm, contains);
    forall i: nat, j: nat, a, b ensures !Violation(expected, m, i, j, a, b) {
      if i < j < |expected| && m(a, expected[i]) && m(a, expected[j]) && m(b, expected[i]) {
        assert SameAction(norm, expected, i, j);
        assert Covers(contains, expected[i].reason, expected[j].reason);
        assert contains(b.reason, expected[i].reason);
        assert m(b, expected[j]);
      }
    }
  }

  // For blocked actions, on every submission: a one-to-one matching is never
  // rejected exactly when, of two rows expecting one action, whatever contains the
  // earlier reason contains the later.
  lemma BlockedTrustedIff(norm: string -> string, contains: (string, string) -> bool, expected: seq<Blocked>)
    requires ContentTest(contains)
    ensures NeverRejectsBijection(expected, BlockedMatches(norm, contains)) <==>
            forall i, j | SameAction(norm, expected, i, j) ::
              Covers(contains, expected[i].reason, expected[j].reason)
  {
    var m := BlockedMatches(norm, contains);
    TrustedIffNested(expected, m);
    forall k | 0 <= k < |expected| ensures Reachable(m, expected[k]) {
      assert contains(expected[k].reason, expected[k].reason);
      assert m(expected[k], expected[k]);
    }
    if i: nat, j: nat :| SameAction(norm, expected, i, j) &&
                         !Covers(contains, expected[i].reason, expected[j].reason) {
      UncoveredViolates(norm, contains, expected, i, j);
    } else {
      CoveredNested(norm, contains, expected);
    }
  }

  // For a transitive content test this is a matter of the expected reasons alone.
  lemma BlockedTrustedIffContained(norm: string -> string, contains: (string, string) -> bool, expected: seq<Blocked>)
    requires ContentTest(contains) && TransitiveTest(contains)
    ensures NeverRejectsBijection(expected, BlockedMatches(norm, contains)) <==>
            forall i, j | SameAction(norm, expected, i, j) :: contains(expected[i].reason, expected[j].reason)
  {
    BlockedTrustedIff(norm, contains, expected);
    forall i, j | SameAction(norm, expected, i, j)
      ensures Covers(contains, expected[i].reason, expected[j].reason) <==>
              contains(expected[i].reason, expected[j].reason)
    {
      CoversIffContains(contains, expected[i].reason, expected[j].reason);
    }
  }

  // f gives each expected row a submitted object of its own, for the same action
  // and with a reason that contains the expected one.
  ghost predicate OwnRows(norm: string -> string, contains: (string, string) -> bool, actual: Rows<Blocked>,
                          expected: seq<Blocked>, f: seq<nat>) {
    && |f| == |expected| && (forall i, j | 0 <= i < j < |f| :: f[i] != f[j])
    && forall k | 0 <= k < |f| ::
         && f[k] < |actual| && actual[f[k]].Some?
         && norm(actual[f[k]].value.action) == norm(expected[k].action)
         && contains(actual[f[k]].value.reason, expected[k].reason)
  }

  lemma OwnRowsIff(norm: string -> string, contains: (string, string) -> bool, actual: Rows<Blocked>,
                   expected: seq<Blocked>)
    ensures Bijection(actual, expected, BlockedMatches(norm, contains)) <==>
            |actual| == |expected| && exists f :: OwnRows(norm, contains, actual, expected, f)
  {
    forall f ensures Pairing(actual, expected, BlockedMatches(norm, contains), {}, f) <==>
                     OwnRows(norm, contains, actual, expected, f)
    {
    }
  }

  // For any normaliser and content matcher: with distinct expected actions the
  // rows are accepted exactly when they match one to one; accepted rows always do.
  method BlockedMatch(norm: string -> string, contains: (string, string) -> bool,
                      actual: Option<Rows<Blocked>>, expected: seq<Blocked>) returns (ok: bool)
    ensures ok ==> actual.Some? && |actual.value| == |expected| &&
                   exists f :: OwnRows(norm, contains, actual.value, expected, f)
    ensures DistinctActions(norm, expected) && actual.Some? ==>
              (ok <==> |actual.value| == |expected| && exists f :: OwnRows(norm, contains, actual.value, expected, f))
  {
    var m := BlockedMatches(norm, contains);
    ok := MatchRows(actual, expected, m);
    if actual.Some? { OwnRowsIff(norm, contains, actual.value, expected); }
    if ok {
      ghost var f := FirstFitSound(actual.value, expected, m, {});
    }
    if actual.Some? && DistinctActions(norm, expected) {
      forall i, j, a | 0 <= i < |expected| && 0 <= j < |expected| && a in actual.value &&
        Fits(m, a, expected[i]) && Fits(m, a, expected[j])
        ensures i == j
      {
        assert norm(expected[i].action) == norm(expected[j].action);
      }
      AcceptsIffBijection(actual.value, expected, m);
    }
  }

  // Where first fit goes wrong for blocked actions: one action expected twice,
  // with a reason that a longer expected reason contains.  The row with the
  // longer reason comes first and is spent on the shorter one.
  lemma RepeatedActionRejected(norm: string -> string, contains: (string, string) -> bool,
                               action: string, short: string, long: string)
    requires contains(short, short) && contains(long, long) && contains(long, short) && !contains(short, long)
    ensures var m := BlockedMatches(norm, contains);
      var expected := [Blocked(action, short), Blocked(action, long)];
      var submitted := [Some(Blocked(action, long)), Some(Blocked(action, short))];
      Bijection(submitted, expected, m) && !Accepts(submitted, expected, m)
  {
    var m := BlockedMatches(norm, contains);
    var expected := [Blocked(action, short), Blocked(action, long)];
    var submitted := [Some(Blocked(action, long)), Some(Blocked(action, short))];
    assert Pairing(submitted, expected, m, {}, [1, 0]);
    assert FirstUnused(submitted, expected[0], m, {}, 0) == 0;
    assert expected[1..] == [Blocked(action, long)];
    assert !FirstFit(submitted, expected[1..], m, {0}) by {
      assert FirstUnused(submitted, expected[1], m, {0}, 0) == 2;
    }
    assert {} + {0 as nat} == {0};
  }

  // The same with concrete rows; a reason contains another that it starts with.
  lemma OrderCanMatter()
    ensures var m := BlockedMatches(s => s, (reason: string, wanted: string) => wanted <= reason);
      var expected := [Blocked("drop_table", "destructive"), Blocked("drop_table", "destructive and broad")];
      var submitted := [Some(Blocked("drop_table", "destructive and broad")),
                        Some(Blocked("drop_table", "destructive"))];
      Bijection(submitted, expected, m) && !Accepts(submitted, expected, m)
  {
    var short, long := "destructive", "destructive and broad";
    assert long == short + " and broad";
    RepeatedActionRejected(s => s, (reason: string, wanted: string) => wanted <= reason, "drop_table", short, long);
  }

  // Acceptance of claims does not depend on the order they are written in.
  lemma ClaimOrderIrrelevant(norm: string -> string, actual: Rows<Claim>, moved: Rows<Claim>, pi: seq<nat>,
                             expected: seq<Claim>)
    requires Rearranged(actual, moved, pi)
    ensures Accepts(actual, expected, ClaimMatch(norm)) <==> Accepts(moved, expected, ClaimMatch(norm))
  {
    RowOrderIrrelevant(actual, moved, pi, expected, ClaimMatch(norm));
  }
}
