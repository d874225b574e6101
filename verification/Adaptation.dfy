// constraints_10: for every slot, the feasible set of workloads with the most
// throughput; then which workloads end up delayed or cancelled.
module Adaptation {
  import opened Orders
  import opened Enumeration
  import opened Search

  datatype Workload = Workload(units: int, latency: real, memory: real, concurrency: int, errorRate: real,
                               delayable: bool, cancelable: bool)

  datatype Limits = Limits(start: int, memory: real, concurrency: int, latency: real, errorRate: real)

  type WorkloadMap = map<string, Workload>

  const SLACK: real := 0.000000001

  function Lookup(wm: WorkloadMap, name: string): Workload {
    if name in wm then wm[name] else Workload(0, 0.0, 0.0, 0, 0.0, false, false)
  }

  function Units(wm: WorkloadMap): string -> int { n => Lookup(wm, n).units }
  function Concurrency(wm: WorkloadMap): string -> int { n => Lookup(wm, n).concurrency }
  function Memory(wm: WorkloadMap): string -> real { n => Lookup(wm, n).memory }

  function SumInt(f: string -> int, names: seq<string>): int {
    if names == [] then 0 else f(names[0]) + SumInt(f, names[1..])
  }

  function SumReal(f: string -> real, names: seq<string>): real {
    if names == [] then 0.0 else f(names[0]) + SumReal(f, names[1..])
  }

  // ----- feasibility of one subset in one slot

  ghost predicate WithinRates(wm: WorkloadMap, slot: Limits, name: string) {
    Lookup(wm, name).latency <= slot.latency + SLACK && Lookup(wm, name).errorRate <= slot.errorRate + SLACK
  }

  ghost predicate Feasible(wm: WorkloadMap, slot: Limits, subset: seq<string>) {
    && SumReal(Memory(wm), subset) <= slot.memory + SLACK
    && SumInt(Concurrency(wm), subset) <= slot.concurrency
    && forall n | n in subset :: WithinRates(wm, slot, n)
  }

  method FeasibleSubset(wm: WorkloadMap, slot: Limits, subset: seq<string>) returns (ok: bool)
    ensures ok <==> Feasible(wm, slot, subset)
  {
    var memoryTotal := SumReal(Memory(wm), subset);
    var concurrencyTotal := SumInt(Concurrency(wm), subset);
    if memoryTotal > slot.memory + SLACK || concurrencyTotal > slot.concurrency { return false; }
    for k := 0 to |subset|
      invariant forall j | 0 <= j < k :: WithinRates(wm, slot, subset[j])
    {
      assert subset[k] in subset;
      var item := Lookup(wm, subset[k]);
      if item.latency > slot.latency + SLACK { return false; }
      if item.errorRate > slot.errorRate + SLACK { return false; }
    }
    return true;
  }

  // A set of workloads, written in the one way the search writes it: sorted.
  ghost predicate Choice(wm: WorkloadMap, subset: seq<string>) {
    Ascending(StrLess, subset) && forall n | n in subset :: n in wm
  }

  method AllSubsets(names: seq<string>, ghost keys: set<string>) returns (subsets: seq<seq<string>>)
    requires SortedListing(keys, names)
    ensures forall c :: c in subsets <==> Ascending(StrLess, c) && forall n | n in c :: n in keys
  {
    SortedListingFacts(keys, names);
    StrStrictTotal();
    subsets := [];
    for size := 0 to |names| + 1
      invariant forall c :: c in subsets <==> Ascending(StrLess, c) && |c| < size && forall n | n in c :: n in names
    {
      forall c ensures c in Combinations(names, size) <==>
        |c| == size && Ascending(StrLess, c) && forall n | n in c :: n in names
      {
        CombinationsExact(StrLess, names, size, c);
      }
      subsets := subsets + Combinations(names, size);
    }
    forall c | Ascending(StrLess, c) && (forall n | n in c :: n in names) ensures |c| <= |names| {
      ChoiceNoLonger(names, c);
    }
  }

  lemma ChoiceNoLonger(names: seq<string>, c: seq<string>)
    requires Distinct(names) && Ascending(StrLess, c) && forall n | n in c :: n in names
    ensures |c| <= |names|
  {
    assert SortedListing(Elements(c), c);
    SortedListingFacts(Elements(c), c);
    DistinctSize(c);
    DistinctSize(names);
    assert Elements(names) == Elements(c) + (Elements(names) - Elements(c));
  }

  // ----- the best subset of one slot

  ghost predicate Candidate(wm: WorkloadMap, slot: Limits, subset: seq<string>) {
    Choice(wm, subset) && Feasible(wm, slot, subset)
  }

  // More throughput; then the lexicographically smaller list of names.
  predicate Beats(wm: WorkloadMap, a: seq<string>, b: seq<string>) {
    || SumInt(Units(wm), a) > SumInt(Units(wm), b)
    || (SumInt(Units(wm), a) == SumInt(Units(wm), b) && LexLess(StrLess, a, b))
  }

  ghost predicate BestSubset(wm: WorkloadMap, slot: Limits, subset: seq<string>) {
    && Candidate(wm, slot, subset)
    && forall other | Candidate(wm, slot, other) && other != subset :: Beats(wm, subset, other)
  }

  ghost function IsCandidate(wm: WorkloadMap, slot: Limits): seq<string> -> bool { c => Candidate(wm, slot, c) }
  ghost function IsBetter(wm: WorkloadMap): (seq<string>, seq<string>) -> bool { (a, b) => Beats(wm, a, b) }

  lemma BetterIsOrder(wm: WorkloadMap)
    ensures StrictOrder(IsBetter(wm))
    ensures forall a, b | a != b :: Beats(wm, a, b) != Beats(wm, b, a)
  {
    StrStrictTotal();
    LexStrictTotal(StrLess);
    forall a, b | a != b ensures Beats(wm, a, b) != Beats(wm, b, a) {
      assert Lex(StrLess)(a, b) || Lex(StrLess)(b, a);
      assert !Lex(StrLess)(a, a) && (Lex(StrLess)(a, b) && Lex(StrLess)(b, a) ==> Lex(StrLess)(a, a));
    }
    forall a ensures !IsBetter(wm)(a, a) { assert !Lex(StrLess)(a, a); }
    forall a, b, c | IsBetter(wm)(a, b) && IsBetter(wm)(b, c) ensures IsBetter(wm)(a, c) {
      if LexLess(StrLess, a, b) && LexLess(StrLess, b, c) { LexTransitive(StrLess, a, b, c); }
    }
  }

  method ConsiderSubset(wm: WorkloadMap, slot: Limits, subset: seq<string>, ghost tried: set<seq<string>>,
                        best: Option<seq<string>>, bestThroughput: int)
    returns (best': Option<seq<string>>, bestThroughput': int)
    requires Choice(wm, subset) && Champion(IsCandidate(wm, slot), IsBetter(wm), tried, best)
    requires best.Some? ==> bestThroughput == SumInt(Units(wm), best.value)
    ensures Champion(IsCandidate(wm, slot), IsBetter(wm), tried + {subset}, best')
    ensures best'.Some? ==> bestThroughput' == SumInt(Units(wm), best'.value)
  {
    best', bestThroughput' := best, bestThroughput;
    BetterIsOrder(wm);
    Challenge(IsCandidate(wm, slot), IsBetter(wm), tried, best, subset);
    var feasible := FeasibleSubset(wm, slot, subset);
    if !feasible { return; }
    var throughput := SumInt(Units(wm), subset);
    SortedListingFacts(Elements(subset), subset);
    SortNamesUnique(subset, subset);
    var normalizedSubset := SortNames(subset);
    if best.None? || throughput > bestThroughput {
      return Some(normalizedSubset), throughput;
    } else if throughput == bestThroughput && LexLess(StrLess, normalizedSubset, best.value) {
      return Some(normalizedSubset), bestThroughput;
    }
  }

  method BestForSlot(wm: WorkloadMap, slot: Limits, subsets: seq<seq<string>>)
    returns (best: Option<seq<string>>, throughput: int)
    requires forall c :: c in subsets <==> Choice(wm, c)
    ensures best.None? <==> Hopeless(wm, slot)
    ensures best.Some? ==> BestSubset(wm, slot, best.value) && throughput == SumInt(Units(wm), best.value)
  {
    best, throughput := None, 0;
    ghost var tried: set<seq<string>> := {};
    for k := 0 to |subsets|
      invariant Champion(IsCandidate(wm, slot), IsBetter(wm), tried, best)
      invariant best.Some? ==> throughput == SumInt(Units(wm), best.value)
      invariant tried == Elements(subsets[..k])
    {
      assert subsets[k] in subsets;
      best, throughput := ConsiderSubset(wm, slot, subsets[k], tried, best, throughput);
      assert subsets[..k + 1] == subsets[..k] + [subsets[k]];
      AppendElements(subsets[..k], subsets[k]);
      tried := tried + {subsets[k]};
    }
    assert subsets[..|subsets|] == subsets;
    ChampionIsBest(wm, slot, subsets, best);
  }

  lemma ChampionIsBest(wm: WorkloadMap, slot: Limits, subsets: seq<seq<string>>, best: Option<seq<string>>)
    requires forall c :: c in subsets <==> Choice(wm, c)
    requires Champion(IsCandidate(wm, slot), IsBetter(wm), Elements(subsets), best)
    ensures best.None? <==> Hopeless(wm, slot)
    ensures best.Some? ==> BestSubset(wm, slot, best.value)
  {
    BetterIsOrder(wm);
    forall c | Candidate(wm, slot, c)
      ensures best.Some? && (c != best.value ==> Beats(wm, best.value, c))
    {
      assert c in Elements(subsets) && IsCandidate(wm, slot)(c);
      if best.Some? { assert !IsBetter(wm)(c, best.value); }
    }
    if best.Some? { assert IsCandidate(wm, slot)(best.value); }
  }

  // ----- all slots

  datatype Decision = Decision(start: int, active: seq<string>, units: int)

  datatype Outcome =
    | Plan(decisions: seq<Decision>, delayed: seq<string>, cancelled: seq<string>, totalUnits: int)
    | NoFeasibleSubset(start: int)
    | NoLastSlot

  ghost predicate DecisionBest(wm: WorkloadMap, slot: Limits, d: Decision) {
    d.start == slot.start && BestSubset(wm, slot, d.active) && d.units == SumInt(Units(wm), d.active)
  }

  function TotalUnits(ds: seq<Decision>): int {
    if ds == [] then 0 else TotalUnits(ds[..|ds| - 1]) + ds[|ds| - 1].units
  }

  // Delayable, not cancelable: the workloads whose absence from the last slot counts.
  function Postponable(wm: WorkloadMap): set<string> {
    set n | n in wm && wm[n].delayable && !wm[n].cancelable
  }

  function Cancelable(wm: WorkloadMap): set<string> {
    set n | n in wm && wm[n].cancelable
  }

  function ActiveAny(ds: seq<Decision>): set<string> {
    set d, n | d in ds && n in d.active :: n
  }

  // No subset at all, not even the empty one, is feasible in the slot.
  ghost predicate Hopeless(wm: WorkloadMap, slot: Limits) {
    forall c :: !Candidate(wm, slot, c)
  }

  ghost predicate FirstHopeless(wm: WorkloadMap, slots: seq<Limits>, i: int) {
    0 <= i < |slots| && Hopeless(wm, slots[i]) && forall k | 0 <= k < i :: !Hopeless(wm, slots[k])
  }

  lemma BestMeansNotHopeless(wm: WorkloadMap, slots: seq<Limits>, ds: seq<Decision>)
    requires |ds| <= |slots| && forall k | 0 <= k < |ds| :: DecisionBest(wm, slots[k], ds[k])
    ensures forall k | 0 <= k < |ds| :: !Hopeless(wm, slots[k])
  {
    forall k | 0 <= k < |ds| ensures !Hopeless(wm, slots[k]) {
      assert DecisionBest(wm, slots[k], ds[k]);
      assert Candidate(wm, slots[k], ds[k].active);
    }
  }

  method DecideSlot(wm: WorkloadMap, slot: Limits, subsets: seq<seq<string>>) returns (d: Option<Decision>)
    requires forall c :: c in subsets <==> Choice(wm, c)
    ensures d.None? <==> Hopeless(wm, slot)
    ensures d.Some? ==> DecisionBest(wm, slot, d.value)
  {
    var best, throughput := BestForSlot(wm, slot, subsets);
    return if best.None? then None else Some(Decision(slot.start, best.value, throughput));
  }

  method DecideSlots(wm: WorkloadMap, slots: seq<Limits>)
    returns (decisions: seq<Decision>, activeAny: set<string>, totalUnits: int, failed: Option<int>)
    ensures |decisions| <= |slots| && forall i | 0 <= i < |decisions| :: DecisionBest(wm, slots[i], decisions[i])
    ensures failed.None? ==>
        |decisions| == |slots| && activeAny == ActiveAny(decisions) && totalUnits == TotalUnits(decisions)
    ensures failed.Some? ==>
        && |decisions| < |slots| && failed.value == slots[|decisions|].start
        && FirstHopeless(wm, slots, |decisions|)
  {
    var names := SortedKeys(wm.Keys);
    var subsets := AllSubsets(names, wm.Keys);
    assert forall c :: c in subsets <==> Choice(wm, c);
    decisions, activeAny, totalUnits, failed := [], {}, 0, None;
    for i := 0 to |slots|
      invariant |decisions| == i && forall k | 0 <= k < i :: DecisionBest(wm, slots[k], decisions[k])
      invariant activeAny == ActiveAny(decisions) && totalUnits == TotalUnits(decisions) && failed.None?
    {
      var d := DecideSlot(wm, slots[i], subsets);
      if d.None? {
        BestMeansNotHopeless(wm, slots, decisions);
        return decisions, activeAny, totalUnits, Some(slots[i].start);
      }
      ActiveAnyAppend(decisions, d.value);
      decisions := decisions + [d.value];
      activeAny := activeAny + Elements(d.value.active);
      totalUnits := totalUnits + d.value.units;
    }
  }

  lemma ActiveAnyAppend(ds: seq<Decision>, d: Decision)
    ensures ActiveAny(ds + [d]) == ActiveAny(ds) + Elements(d.active)
    ensures TotalUnits(ds + [d]) == TotalUnits(ds) + d.units
  {
    assert (ds + [d])[..|ds|] == ds;
    forall n ensures n in ActiveAny(ds + [d]) <==> n in ActiveAny(ds) + Elements(d.active) {
      assert forall x :: x in ds + [d] <==> x in ds || x == d;
    }
  }

  // The reported lists of a plan: delayed from the last slot, cancelled from all.
  ghost predicate Reported(wm: WorkloadMap, slots: seq<Limits>, r: Outcome)
    requires r.Plan? && |r.decisions| == |slots|
  {
    && SortedListing(Cancelable(wm) - ActiveAny(r.decisions), r.cancelled)
    && SortedListing(if slots == [] then {} else Postponable(wm) - Elements(r.decisions[|slots| - 1].active), r.delayed)
  }

  // No workload is reported both delayed and cancelled, and none that is
  // reported runs in the last slot.
  lemma ReportsDisjoint(wm: WorkloadMap, slots: seq<Limits>, r: Outcome)
    requires r.Plan? && |r.decisions| == |slots| && Reported(wm, slots, r)
    ensures Elements(r.delayed) !! Elements(r.cancelled)
    ensures slots != [] ==>
        (Elements(r.delayed) + Elements(r.cancelled)) !! Elements(r.decisions[|slots| - 1].active)
  {
    if slots != [] {
      var last := r.decisions[|slots| - 1];
      assert last in r.decisions;
      assert forall n | n in Elements(last.active) :: n in ActiveAny(r.decisions);
    }
  }

  method BestPlan(wm: WorkloadMap, slots: seq<Limits>) returns (r: Outcome)
    ensures r.NoFeasibleSubset? <==> exists i :: FirstHopeless(wm, slots, i)
    ensures r.NoFeasibleSubset? ==> exists i :: FirstHopeless(wm, slots, i) && r.start == slots[i].start
    ensures r.NoLastSlot? <==> slots == [] && Postponable(wm) != {}
    ensures r.Plan? ==>
        && |r.decisions| == |slots| && (forall i | 0 <= i < |slots| :: DecisionBest(wm, slots[i], r.decisions[i]))
        && r.totalUnits == TotalUnits(r.decisions)
        && Reported(wm, slots, r)
        && Elements(r.delayed) !! Elements(r.cancelled)
  {
    var decisions, activeAny, totalUnits, failed := DecideSlots(wm, slots);
    if failed.Some? { return NoFeasibleSubset(failed.value); }
    BestMeansNotHopeless(wm, slots, decisions);
    // The last decision is looked up only when some workload could be delayed.
    if Postponable(wm) != {} && decisions == [] { return NoLastSlot; }
    var present := if decisions == [] then {} else Elements(decisions[|decisions| - 1].active);
    var delayed := SortedKeys(Postponable(wm) - present);
    var cancelled := SortedKeys(Cancelable(wm) - activeAny);
    r := Plan(decisions, delayed, cancelled, totalUnits);
    ReportsDisjoint(wm, slots, r);
  }

  // ----- what the decisions amount to

  function TotalOf(wm: WorkloadMap, choices: seq<seq<string>>): int {
    if choices == [] then 0
    else TotalOf(wm, choices[..|choices| - 1]) + SumInt(Units(wm), choices[|choices| - 1])
  }

  // Choosing slot by slot is jointly optimal: no sequence of feasible subsets
  // completes more units in total.
  lemma {:induction false} JointlyOptimal(wm: WorkloadMap, slots: seq<Limits>, ds: seq<Decision>,
                                          choices: seq<seq<string>>)
    requires |ds| == |slots| == |choices|
    requires forall i | 0 <= i < |slots| :: DecisionBest(wm, slots[i], ds[i]) && Candidate(wm, slots[i], choices[i])
    ensures TotalOf(wm, choices) <= TotalUnits(ds)
  {
    if slots != [] {
      var n := |slots| - 1;
      JointlyOptimal(wm, slots[..n], ds[..n], choices[..n]);
      assert DecisionBest(wm, slots[n], ds[n]) && Candidate(wm, slots[n], choices[n]);
    }
  }

  function Actives(ds: seq<Decision>): seq<seq<string>> {
    seq(|ds|, i requires 0 <= i < |ds| => ds[i].active)
  }

  // The decisions themselves reach that bound.
  lemma {:induction false} BoundIsReached(wm: WorkloadMap, slots: seq<Limits>, ds: seq<Decision>)
    requires |ds| == |slots| && forall i | 0 <= i < |slots| :: DecisionBest(wm, slots[i], ds[i])
    ensures TotalOf(wm, Actives(ds)) == TotalUnits(ds)
    ensures forall i | 0 <= i < |slots| :: Candidate(wm, slots[i], Actives(ds)[i])
  {
    if slots != [] {
      var n := |slots| - 1;
      BoundIsReached(wm, slots[..n], ds[..n]);
      assert Actives(ds)[..n] == Actives(ds[..n]);
      assert DecisionBest(wm, slots[n], ds[n]);
      forall i | 0 <= i < |slots| ensures Candidate(wm, slots[i], Actives(ds)[i]) {
        assert DecisionBest(wm, slots[i], ds[i]);
      }
    }
  }

  lemma DecisionUnique(wm: WorkloadMap, slot: Limits, a: Decision, b: Decision)
    requires DecisionBest(wm, slot, a) && DecisionBest(wm, slot, b)
    ensures a == b
  {
    BetterIsOrder(wm);
  }

  ghost predicate NonNegativeDemands(wm: WorkloadMap) {
    forall n | n in wm :: wm[n].memory >= 0.0 && wm[n].concurrency >= 0
  }

  // Leaving out non-negative terms lowers a sum.
  lemma {:induction false} SumsShrink(f: string -> int, g: string -> real, small: seq<string>, large: seq<string>)
    requires Ascending(StrLess, small) && Ascending(StrLess, large) && forall n | n in small :: n in large
    requires forall n | n in large :: f(n) >= 0 && g(n) >= 0.0
    ensures SumInt(f, small) <= SumInt(f, large) && SumReal(g, small) <= SumReal(g, large)
    decreases |large|
  {
    if large == [] {
      assert Elements(small) <= Elements(large);
      ElementsEmpty(small);
      ElementsEmpty(large);
    } else {
      var rest := large[1..];
      assert large == [large[0]] + rest;
      assert large[0] in large;
      assert forall n | n in rest :: n in large;
      if small == [] {
        SumsShrink(f, g, small, rest);
      } else {
        TailInTail(small, large);
        SumsShrink(f, g, if small[0] == large[0] then small[1..] else small, rest);
      }
    }
  }

  lemma TailInTail(small: seq<string>, large: seq<string>)
    requires small != [] && large != [] && Ascending(StrLess, small) && Ascending(StrLess, large)
    requires forall n | n in small :: n in large
    ensures forall n | n in small[1..] :: n in large[1..]
    ensures small[0] != large[0] ==> forall n | n in small :: n in large[1..]
  {
    StrStrictTotal();
    assert large == [large[0]] + large[1..];
    assert small[0] in small;
    HeadLeast(StrLess, large, small[0]);
    forall k | 1 <= k < |small| ensures small[k] in large[1..] {
      assert small[k] in small && StrLess(small[0], small[k]);
    }
  }

  // Feasibility is closed under taking subsets.
  lemma SubsetFeasible(wm: WorkloadMap, slot: Limits, small: seq<string>, large: seq<string>)
    requires NonNegativeDemands(wm) && Choice(wm, small) && Candidate(wm, slot, large)
    requires forall n | n in small :: n in large
    ensures Candidate(wm, slot, small)
  {
    SumsShrink(Concurrency(wm), Memory(wm), small, large);
  }

  // Throughput, concurrency and memory of a list of workloads, in their own fields.
  ghost predicate Totals(wm: WorkloadMap, names: seq<string>, units: int, concurrency: int, memory: real) {
    if names == [] then units == 0 && concurrency == 0 && memory == 0.0
    else
      var last := names[|names| - 1];
      last in wm && Totals(wm, names[..|names| - 1], units - wm[last].units, concurrency - wm[last].concurrency,
                           memory - wm[last].memory)
  }

  lemma {:induction false} SumsAppend(f: string -> int, g: string -> real, names: seq<string>, last: string)
    ensures SumInt(f, names + [last]) == SumInt(f, names) + f(last)
    ensures SumReal(g, names + [last]) == SumReal(g, names) + g(last)
  {
    if names == [] {
      assert names + [last] == [last];
    } else {
      assert (names + [last])[1..] == names[1..] + [last];
      SumsAppend(f, g, names[1..], last);
    }
  }

  lemma {:induction false} TotalsIff(wm: WorkloadMap, names: seq<string>, units: int, concurrency: int, memory: real)
    requires forall n | n in names :: n in wm
    ensures Totals(wm, names, units, concurrency, memory) <==>
      units == SumInt(Units(wm), names) && concurrency == SumInt(Concurrency(wm), names) &&
      memory == SumReal(Memory(wm), names)
  {
    if names != [] {
      var front, last := names[..|names| - 1], names[|names| - 1];
      assert names == front + [last];
      assert last in names;
      TotalsIff(wm, front, units - wm[last].units, concurrency - wm[last].concurrency, memory - wm[last].memory);
      SumsAppend(Units(wm), Memory(wm), front, last);
      SumsAppend(Concurrency(wm), Memory(wm), front, last);
    }
  }

  // The candidates of a slot, in the workloads' and the slot's own fields.
  lemma CandidateIff(wm: WorkloadMap, slot: Limits, subset: seq<string>)
    ensures Candidate(wm, slot, subset) <==>
      && Ascending(StrLess, subset) && (forall n | n in subset :: n in wm)
      && (forall n | n in subset :: wm[n].latency - slot.latency <= 0.000000001)
      && (forall n | n in subset :: wm[n].errorRate - slot.errorRate <= 0.000000001)
      && exists units, concurrency, memory :: Totals(wm, subset, units, concurrency, memory) &&
           concurrency <= slot.concurrency && memory - slot.memory <= 0.000000001
  {
    if forall n | n in subset :: n in wm {
      var units, concurrency, memory :=
        SumInt(Units(wm), subset), SumInt(Concurrency(wm), subset), SumReal(Memory(wm), subset);
      TotalsIff(wm, subset, units, concurrency, memory);
      forall u, c, m ensures Totals(wm, subset, u, c, m) <==> u == units && c == concurrency && m == memory {
        TotalsIff(wm, subset, u, c, m);
      }
      forall n | n in subset
        ensures WithinRates(wm, slot, n) <==>
          wm[n].latency - slot.latency <= 0.000000001 && wm[n].errorRate - slot.errorRate <= 0.000000001
      {
      }
    }
  }

  // What a decision is worth: the units of its workloads; no candidate has more,
  // and none with as many is smaller at the first difference.
  lemma DecisionIsBest(wm: WorkloadMap, slot: Limits, d: Decision, other: seq<string>, units: int, concurrency: int,
                       memory: real)
    requires DecisionBest(wm, slot, d) && Candidate(wm, slot, other) && Totals(wm, other, units, concurrency, memory)
    ensures units <= d.units
    ensures units == d.units && other != d.active ==> exists k: nat :: FirstDifference(StrLess, d.active, other, k)
    ensures exists c, m :: Totals(wm, d.active, d.units, c, m)
  {
    TotalsIff(wm, other, units, concurrency, memory);
    TotalsIff(wm, d.active, d.units, SumInt(Concurrency(wm), d.active), SumReal(Memory(wm), d.active));
    LexIsFirstDifference(StrLess, d.active, other);
  }

  // Who is reported: cancelable workloads that no slot runs, and workloads that can
  // be delayed but not cancelled and that the last slot does not run.
  lemma ReportedIff(wm: WorkloadMap, slots: seq<Limits>, r: Outcome, n: string)
    requires r.Plan? && |r.decisions| == |slots| && Reported(wm, slots, r)
    ensures n in r.cancelled <==>
              n in wm && wm[n].cancelable && forall i | 0 <= i < |slots| :: n !in r.decisions[i].active
    ensures n in r.delayed <==> slots != [] && n in wm && wm[n].delayable && !wm[n].cancelable &&
                                n !in r.decisions[|slots| - 1].active
  {
    assert n in r.cancelled <==> n in Elements(r.cancelled);
    assert n in r.delayed <==> n in Elements(r.delayed);
    assert n in ActiveAny(r.decisions) <==> exists i :: 0 <= i < |slots| && n in r.decisions[i].active by {
      if d :| d in r.decisions && n in d.active {
        var i :| 0 <= i < |slots| && r.decisions[i] == d;
      }
    }
  }

  // Loosening limits never makes a slot hopeless and never lowers the throughput
  // of its decision.
  lemma LooserNeverWorse(wm: WorkloadMap, tight: Limits, loose: Limits)
    requires tight.memory <= loose.memory && tight.concurrency <= loose.concurrency
    requires tight.latency <= loose.latency && tight.errorRate <= loose.errorRate
    ensures !Hopeless(wm, tight) ==> !Hopeless(wm, loose)
    ensures forall d, e | DecisionBest(wm, tight, d) && DecisionBest(wm, loose, e) :: d.units <= e.units
  {
    forall c | Candidate(wm, tight, c) ensures Candidate(wm, loose, c) {
      forall n | n in c ensures WithinRates(wm, loose, n) { assert WithinRates(wm, tight, n); }
    }
  }
}
