// constraints_11: one worker, tasks with time windows and dependencies; the
// exhaustive search for the best plan.
module TimeWindow {
  import opened Orders
  import opened Enumeration
  import opened Search
  import opened Text

  // `rank` is the priority as a number, None when reading it raises.
  datatype Task = Task(windowStart: int, windowEnd: int, duration: int, deps: seq<string>, resource: Option<string>,
                       rank: Option<int>)

  type TaskMap = map<string, Task>

  // A plan names the scheduled tasks and when each starts.
  type Starts = map<string, int>

  function Lookup(tm: TaskMap, name: string): Task {
    if name in tm then tm[name] else Task(0, 0, 0, [], None, None)
  }

  function EndOf(tm: TaskMap, starts: Starts, name: string): int
    requires name in starts
  {
    starts[name] + Lookup(tm, name).duration
  }

  // str(priority).replace("P", "")
  function WithoutP(s: string): (r: string)
    ensures 'P' !in r && |r| <= |s| && ('P' !in s ==> r == s)
  {
    if s == "" then "" else (if s[0] == 'P' then "" else [s[0]]) + WithoutP(s[1..])
  }

  function PriorityRank(priority: string): Option<int> { ParseInt(WithoutP(priority)) }

  lemma {:induction false} NoPToRemove(s: string)
    requires AllDigits(s) || s == ""
    ensures WithoutP(s) == s
  {
    if s != "" {
      assert DigitOf(s[0]).Some?;
      assert forall i | 0 <= i < |s[1..]| :: s[1..][i] == s[i + 1];
      NoPToRemove(s[1..]);
    }
  }

  lemma {:induction false} WithoutPJoins(s: string, t: string)
    ensures WithoutP(s + t) == WithoutP(s) + WithoutP(t)
  {
    if s == "" {
      assert s + t == t;
    } else {
      assert (s + t)[1..] == s[1..] + t;
      WithoutPJoins(s[1..], t);
    }
  }

  // "P0", "P1", "P2", ... rank 0, 1, 2, ...
  lemma PriorityRankOfLevel(n: nat)
    ensures PriorityRank("P" + Decimal(n)) == Some(n)
  {
    DecimalReadsBack(n);
    NoPToRemove(Decimal(n));
    assert ("P" + Decimal(n))[1..] == Decimal(n);
    assert WithoutP("P" + Decimal(n)) == "" + WithoutP(Decimal(n)) == Decimal(n);
    ParseIntOfDecimal(n);
  }

  // ----- what a valid plan is

  predicate Overlaps(start: int, end: int, otherStart: int, otherEnd: int) {
    !(end <= otherStart || start >= otherEnd)
  }

  ghost predicate InWindows(tm: TaskMap, starts: Starts) {
    forall n | n in starts :: n in tm && tm[n].windowStart <= starts[n] && EndOf(tm, starts, n) <= tm[n].windowEnd
  }

  ghost predicate DepsDone(tm: TaskMap, starts: Starts, name: string)
    requires name in starts
  {
    forall d | d in Lookup(tm, name).deps :: d in starts && EndOf(tm, starts, d) <= starts[name]
  }

  ghost predicate Disjoint(tm: TaskMap, starts: Starts, a: string, b: string)
    requires a in starts && b in starts
  {
    !Overlaps(starts[a], EndOf(tm, starts, a), starts[b], EndOf(tm, starts, b))
  }

  // Windows, dependencies finished first, and no two tasks at the same time.
  ghost predicate ValidPlan(tm: TaskMap, starts: Starts) {
    && InWindows(tm, starts)
    && (forall n | n in starts :: DepsDone(tm, starts, n))
    && (forall a, b | a in starts && b in starts && a != b :: Disjoint(tm, starts, a, b))
  }

  // Validity in the tasks' own fields.
  lemma ValidPlanIff(tm: TaskMap, starts: Starts)
    ensures ValidPlan(tm, starts) <==>
      && (forall n | n in starts ::
            n in tm && tm[n].windowStart <= starts[n] && starts[n] + tm[n].duration <= tm[n].windowEnd)
      && (forall n, d | n in starts && d in tm[n].deps ::
            d in starts && starts[d] + tm[d].duration <= starts[n])
      && (forall a, b | a in starts && b in starts && a != b ::
            starts[a] + tm[a].duration <= starts[b] || starts[b] + tm[b].duration <= starts[a])
  {
    if InWindows(tm, starts) {
      forall n | n in starts ensures Lookup(tm, n) == tm[n] {}
      forall n | n in starts
        ensures DepsDone(tm, starts, n) <==>
                forall d | d in tm[n].deps :: d in starts && starts[d] + tm[d].duration <= starts[n]
      {
      }
      forall a, b | a in starts && b in starts
        ensures Disjoint(tm, starts, a, b) <==>
                starts[a] + tm[a].duration <= starts[b] || starts[b] + tm[b].duration <= starts[a]
      {
      }
    }
  }

  // ----- the emitted slots of a plan

  datatype Slot = Slot(start: int, name: string, end: int)

  // The sort key of a scheduled entry.
  predicate EntryLess(a: Slot, b: Slot) {
    a.start < b.start || (a.start == b.start && StrLess(a.name, b.name))
  }

  // Python's order on (start, name, end).
  predicate SlotLess(a: Slot, b: Slot) {
    a.start < b.start || (a.start == b.start && (StrLess(a.name, b.name) || (a.name == b.name && a.end < b.end)))
  }

  function SlotOf(tm: TaskMap, starts: Starts, name: string): Slot
    requires name in starts
  {
    Slot(starts[name], name, EndOf(tm, starts, name))
  }

  function SlotSet(tm: TaskMap, starts: Starts): set<Slot> {
    set n | n in starts :: SlotOf(tm, starts, n)
  }

  // The slots of exactly the scheduled tasks, by start and then name.
  ghost predicate SlotsOfPlan(tm: TaskMap, starts: Starts, slots: seq<Slot>) {
    Ascending(EntryLess, slots) && Elements(slots) == SlotSet(tm, starts)
  }

  lemma EntriesSeparate(tm: TaskMap, starts: Starts)
    ensures Separates(EntryLess, SlotSet(tm, starts))
  {
    StrStrictTotal();
  }

  lemma SlotStrictTotal()
    ensures StrictTotal(SlotLess)
  {
    StrStrictTotal();
  }

  lemma {:induction false} SlotsExist(tm: TaskMap, starts: Starts)
    ensures exists slots :: SlotsOfPlan(tm, starts, slots)
    decreases |starts|
  {
    if starts == map[] {
      assert SlotsOfPlan(tm, starts, []);
    } else {
      var n :| n in starts;
      var rest := starts - {n};
      assert starts.Keys == rest.Keys + {n};
      SlotsExist(tm, rest);
      var slots :| SlotsOfPlan(tm, rest, slots);
      assert SlotSet(tm, starts) == {SlotOf(tm, starts, n)} + SlotSet(tm, rest) by {
        forall m | m in rest ensures SlotOf(tm, rest, m) == SlotOf(tm, starts, m) {}
        assert forall s | s in SlotSet(tm, rest) :: s.name in rest && s == SlotOf(tm, rest, s.name);
      }
      EntriesSeparate(tm, starts);
      assert SlotOf(tm, starts, n) !in Elements(slots);
      InsertAscending(EntryLess, SlotOf(tm, starts, n), slots);
      InsertElements(EntryLess, SlotOf(tm, starts, n), slots);
      assert SlotsOfPlan(tm, starts, Insert(EntryLess, SlotOf(tm, starts, n), slots));
    }
  }

  ghost function SlotSeq(tm: TaskMap, starts: Starts): (slots: seq<Slot>)
    ensures SlotsOfPlan(tm, starts, slots)
  {
    SlotsExist(tm, starts);
    var slots :| SlotsOfPlan(tm, starts, slots);
    slots
  }

  lemma SlotSeqUnique(tm: TaskMap, starts: Starts, slots: seq<Slot>)
    requires SlotsOfPlan(tm, starts, slots)
    ensures slots == SlotSeq(tm, starts)
  {
    EntriesSeparate(tm, starts);
    AscendingUnique(EntryLess, slots, SlotSeq(tm, starts));
  }

  // The emitted slots: one per scheduled task with its times, ascending by start
  // and then by name.
  lemma SlotSeqIff(tm: TaskMap, starts: Starts, slots: seq<Slot>)
    ensures slots == SlotSeq(tm, starts) <==>
      && (forall s: Slot :: s in slots <==>
            s.name in starts && s.start == starts[s.name] && s.end == s.start + Lookup(tm, s.name).duration)
      && forall i, j | 0 <= i < j < |slots| ::
           slots[i].start < slots[j].start ||
           (slots[i].start == slots[j].start && StrLess(slots[i].name, slots[j].name))
  {
    forall s: Slot ensures s in SlotSet(tm, starts) <==>
        s.name in starts && s.start == starts[s.name] && s.end == s.start + Lookup(tm, s.name).duration
    {
      if s.name in starts && s.start == starts[s.name] && s.end == s.start + Lookup(tm, s.name).duration {
        assert s == SlotOf(tm, starts, s.name);
      }
    }
    assert forall s: Slot :: s in slots <==> s in Elements(slots);
    if Ascending(EntryLess, slots) && Elements(slots) == SlotSet(tm, starts) { SlotSeqUnique(tm, starts, slots); }
    assert SlotsOfPlan(tm, starts, SlotSeq(tm, starts));
  }

  // The slots tell the plan.
  lemma SlotSeqInjective(tm: TaskMap, a: Starts, b: Starts)
    requires SlotSeq(tm, a) == SlotSeq(tm, b)
    ensures a == b
  {
    forall n | n in a ensures n in b && b[n] == a[n] { assert SlotOf(tm, a, n) in SlotSet(tm, b); }
    forall n | n in b ensures n in a { assert SlotOf(tm, b, n) in SlotSet(tm, a); }
  }

  // ----- the objective

  // How many scheduled tasks have this priority.
  function Completed(tm: TaskMap, starts: Starts, rank: int): set<string> {
    set n | n in starts && Lookup(tm, n).rank == Some(rank)
  }

  function PriorityCounts(tm: TaskMap, starts: Starts): seq<int> {
    [|Completed(tm, starts, 0)|, |Completed(tm, starts, 1)|, |Completed(tm, starts, 2)|]
  }

  datatype Key = Key(count: int, priorities: seq<int>, slots: seq<Slot>)

  predicate KeyBeats(a: Key, b: Key) {
    || a.count > b.count
    || (a.count == b.count && LexLess(IntLess, b.priorities, a.priorities))
    || (a.count == b.count && a.priorities == b.priorities && LexLess(SlotLess, a.slots, b.slots))
  }

  ghost function KeyOf(tm: TaskMap, starts: Starts): Key {
    Key(|starts|, PriorityCounts(tm, starts), SlotSeq(tm, starts))
  }

  // More completions; then more P0, P1, P2 completions; then the smaller slot sequence.
  ghost predicate Beats(tm: TaskMap, a: Starts, b: Starts) {
    KeyBeats(KeyOf(tm, a), KeyOf(tm, b))
  }

  lemma KeyOrder()
    ensures StrictTotal(KeyBeats)
  {
    SlotStrictTotal();
    LexStrictTotal(SlotLess);
    LexStrictTotal(IntLess);
    forall a, b | a != b ensures KeyBeats(a, b) || KeyBeats(b, a) {
      assert a.slots != b.slots ==> Lex(SlotLess)(a.slots, b.slots) || Lex(SlotLess)(b.slots, a.slots);
      assert a.priorities != b.priorities ==>
          Lex(IntLess)(a.priorities, b.priorities) || Lex(IntLess)(b.priorities, a.priorities);
    }
    forall a ensures !KeyBeats(a, a) {
      assert !Lex(SlotLess)(a.slots, a.slots) && !Lex(IntLess)(a.priorities, a.priorities);
    }
    forall a, b, c | KeyBeats(a, b) && KeyBeats(b, c) ensures KeyBeats(a, c) {
      KeyBeatsTransitive(a, b, c);
    }
  }

  lemma KeyBeatsTransitive(a: Key, b: Key, c: Key)
    requires KeyBeats(a, b) && KeyBeats(b, c)
    ensures KeyBeats(a, c)
  {
    SlotStrictTotal();
    if LexLess(IntLess, b.priorities, a.priorities) && LexLess(IntLess, c.priorities, b.priorities) {
      LexTransitive(IntLess, c.priorities, b.priorities, a.priorities);
    }
    if LexLess(SlotLess, a.slots, b.slots) && LexLess(SlotLess, b.slots, c.slots) {
      LexTransitive(SlotLess, a.slots, b.slots, c.slots);
    }
  }

  // The objective never leaves two different plans level.
  lemma BeatsIsTotal(tm: TaskMap, a: Starts, b: Starts)
    requires a != b
    ensures Beats(tm, a, b) != Beats(tm, b, a)
  {
    KeyOrder();
    if KeyOf(tm, a) == KeyOf(tm, b) { SlotSeqInjective(tm, a, b); }
  }

  // The plan every other valid plan loses to.
  ghost predicate BestPlanOf(tm: TaskMap, starts: Starts) {
    ValidPlan(tm, starts) && forall other | ValidPlan(tm, other) && other != starts :: Beats(tm, starts, other)
  }

  lemma BestPlanUnique(tm: TaskMap, a: Starts, b: Starts)
    requires BestPlanOf(tm, a) && BestPlanOf(tm, b)
    ensures a == b
  {
    if a != b { BeatsIsTotal(tm, a, b); }
  }

  // Of the priorities 0, 1, 2, the first whose numbers of completed tasks differ
  // has more of them in plan a.
  ghost predicate MoreUrgent(tm: TaskMap, a: Starts, b: Starts) {
    || |Completed(tm, a, 0)| > |Completed(tm, b, 0)|
    || (|Completed(tm, a, 0)| == |Completed(tm, b, 0)| && |Completed(tm, a, 1)| > |Completed(tm, b, 1)|)
    || (|Completed(tm, a, 0)| == |Completed(tm, b, 0)| && |Completed(tm, a, 1)| == |Completed(tm, b, 1)|
        && |Completed(tm, a, 2)| > |Completed(tm, b, 2)|)
  }

  // At the first difference s has the earlier start, or the same start and the
  // smaller name.
  ghost predicate EarlierAt(s: seq<Slot>, t: seq<Slot>, k: nat) {
    && k < |s| && k < |t| && s[..k] == t[..k]
    && (s[k].start < t[k].start || (s[k].start == t[k].start && StrLess(s[k].name, t[k].name)))
  }

  lemma PrioritiesIff(tm: TaskMap, a: Starts, b: Starts)
    ensures LexLess(IntLess, PriorityCounts(tm, b), PriorityCounts(tm, a)) <==> MoreUrgent(tm, a, b)
  {
    var s, t := PriorityCounts(tm, b), PriorityCounts(tm, a);
    assert s[1..] == [s[1], s[2]] && t[1..] == [t[1], t[2]];
    assert s[1..][1..] == [s[2]] && t[1..][1..] == [t[2]];
    assert LexLess(IntLess, [s[2]], [t[2]]) <==> s[2] < t[2];
  }

  lemma SlotCount(tm: TaskMap, starts: Starts)
    ensures |SlotSeq(tm, starts)| == |starts|
  {
    NamesDiffer(tm, starts, SlotSeq(tm, starts));
    CountOfPlan(tm, starts, SlotSeq(tm, starts));
  }

  lemma SameSlot(tm: TaskMap, a: Starts, b: Starts, x: Slot, y: Slot)
    requires x in SlotSeq(tm, a) && y in SlotSeq(tm, b)
    ensures x.start == y.start && x.name == y.name ==> x == y
  {
    assert x in Elements(SlotSeq(tm, a)) && y in Elements(SlotSeq(tm, b));
  }

  // A slot's name fixes its end, and sequences of one length have no proper
  // prefix, so the comparison comes down to starts and names.
  lemma SlotsIff(tm: TaskMap, a: Starts, b: Starts)
    requires |a| == |b|
    ensures LexLess(SlotLess, SlotSeq(tm, a), SlotSeq(tm, b)) <==>
            exists k: nat :: EarlierAt(SlotSeq(tm, a), SlotSeq(tm, b), k)
  {
    var s, t := SlotSeq(tm, a), SlotSeq(tm, b);
    SlotCount(tm, a);
    SlotCount(tm, b);
    LexIsFirstDifference(SlotLess, s, t);
    StrStrictTotal();
    if k: nat :| FirstDifference(SlotLess, s, t, k) {
      SameSlot(tm, a, b, s[k], t[k]);
      assert EarlierAt(s, t, k);
    }
    if k: nat :| EarlierAt(s, t, k) { assert FirstDifference(SlotLess, s, t, k); }
  }

  // The best plan, said without the keys: it is valid, and against every other
  // valid plan it completes more tasks, or as many and more urgent ones, or as
  // many and as urgent ones in an earlier sequence of slots.
  lemma BestPlanIff(tm: TaskMap, starts: Starts)
    ensures BestPlanOf(tm, starts) <==>
      && ValidPlan(tm, starts)
      && forall other | ValidPlan(tm, other) && other != starts ::
           && |other| <= |starts|
           && (|other| == |starts| ==>
                 && !MoreUrgent(tm, other, starts)
                 && (MoreUrgent(tm, starts, other) ||
                     exists k: nat :: EarlierAt(SlotSeq(tm, starts), SlotSeq(tm, other), k)))
  {
    forall other | other != starts
      ensures Beats(tm, starts, other) <==>
        && |other| <= |starts|
        && (|other| == |starts| ==>
              && !MoreUrgent(tm, other, starts)
              && (MoreUrgent(tm, starts, other) ||
                  exists k: nat :: EarlierAt(SlotSeq(tm, starts), SlotSeq(tm, other), k)))
    {
      BeatsIff(tm, starts, other);
    }
  }

  lemma BeatsIff(tm: TaskMap, a: Starts, b: Starts)
    ensures Beats(tm, a, b) <==>
      && |b| <= |a|
      && (|b| == |a| ==>
            && !MoreUrgent(tm, b, a)
            && (MoreUrgent(tm, a, b) || exists k: nat :: EarlierAt(SlotSeq(tm, a), SlotSeq(tm, b), k)))
  {
    PrioritiesIff(tm, a, b);
    assert PriorityCounts(tm, a) == PriorityCounts(tm, b) <==>
      |Completed(tm, a, 0)| == |Completed(tm, b, 0)| && |Completed(tm, a, 1)| == |Completed(tm, b, 1)| &&
      |Completed(tm, a, 2)| == |Completed(tm, b, 2)|;
    if |a| == |b| { SlotsIff(tm, a, b); }
  }

  // ----- the assignments the search enumerates

  // range(lo, hi)
  function Range(lo: int, hi: int): (r: seq<int>)
    ensures forall x :: x in r <==> lo <= x < hi
    decreases hi - lo
  {
    if hi <= lo then [] else Range(lo, hi - 1) + [hi - 1]
  }

  function CandidateStarts(task: Task): (starts: seq<int>)
    ensures forall s :: s in starts <==> task.windowStart <= s && s + task.duration <= task.windowEnd
  {
    Range(task.windowStart, task.windowEnd - task.duration + 1)
  }

  function Somes(xs: seq<int>): (r: seq<Option<int>>)
    ensures forall o :: o in r <==> o.Some? && o.value in xs
  {
    if xs == [] then [] else
      assert xs == [xs[0]] + xs[1..];
      [Some(xs[0])] + Somes(xs[1..])
  }

  function OptionsOf(task: Task): (options: seq<Option<int>>)
    ensures forall o :: o in options <==>
        o.None? || (task.windowStart <= o.value && o.value + task.duration <= task.windowEnd)
  {
    [None] + Somes(CandidateStarts(task))
  }

  function AllOptions(tm: TaskMap, names: seq<string>): seq<seq<Option<int>>> {
    seq(|names|, i requires 0 <= i < |names| => OptionsOf(Lookup(tm, names[i])))
  }

  // dict(zip(names, values)), keeping the scheduled names.
  function Assigned(names: seq<string>, values: seq<Option<int>>): Starts
    requires |names| == |values|
  {
    if names == [] then map[]
    else
      var n := |names| - 1;
      var rest := Assigned(names[..n], values[..n]);
      if values[n].Some? then rest[names[n] := values[n].value] else rest
  }

  lemma {:induction false} AssignedExact(names: seq<string>, values: seq<Option<int>>)
    requires |names| == |values| && Distinct(names)
    ensures forall x | x in Assigned(names, values) :: x in names
    ensures forall i | 0 <= i < |names| ::
        && (names[i] in Assigned(names, values) <==> values[i].Some?)
        && (values[i].Some? ==> Assigned(names, values)[names[i]] == values[i].value)
  {
    if names != [] {
      var n := |names| - 1;
      AssignedExact(names[..n], values[..n]);
      assert forall i | 0 <= i < n :: names[..n][i] == names[i] && values[..n][i] == values[i];
      assert names[n] !in names[..n];
    }
  }

  // Every enumerated assignment keeps the windows ...
  lemma EnumeratedInWindows(tm: TaskMap, names: seq<string>, values: seq<Option<int>>)
    requires SortedListing(tm.Keys, names) && values in Product(AllOptions(tm, names))
    ensures |values| == |names| && InWindows(tm, Assigned(names, values))
  {
    SortedListingFacts(tm.Keys, names);
    ProductExact(AllOptions(tm, names), values);
    AssignedExact(names, values);
    var starts := Assigned(names, values);
    forall n | n in starts
      ensures n in tm && tm[n].windowStart <= starts[n] && EndOf(tm, starts, n) <= tm[n].windowEnd
    {
      var i :| 0 <= i < |names| && names[i] == n;
      assert values[i] in OptionsOf(Lookup(tm, names[i]));
    }
  }

  function ValuesOf(names: seq<string>, starts: Starts): seq<Option<int>> {
    seq(|names|, i requires 0 <= i < |names| => if names[i] in starts then Some(starts[names[i]]) else None)
  }

  lemma AssignedValuesOf(names: seq<string>, starts: Starts)
    requires Distinct(names) && forall n | n in starts :: n in names
    ensures Assigned(names, ValuesOf(names, starts)) == starts
  {
    var values := ValuesOf(names, starts);
    var back := Assigned(names, values);
    AssignedExact(names, values);
    forall n | n in starts ensures n in back && back[n] == starts[n] {
      var i :| 0 <= i < |names| && names[i] == n;
      assert values[i] == Some(starts[n]);
    }
    forall n | n in back ensures n in starts {
      var i :| 0 <= i < |names| && names[i] == n;
    }
  }

  // ... and every assignment that keeps them is enumerated.
  lemma InWindowsEnumerated(tm: TaskMap, names: seq<string>, starts: Starts)
    requires SortedListing(tm.Keys, names) && InWindows(tm, starts)
    ensures ValuesOf(names, starts) in Product(AllOptions(tm, names))
    ensures Assigned(names, ValuesOf(names, starts)) == starts
  {
    SortedListingFacts(tm.Keys, names);
    AssignedValuesOf(names, starts);
    var values := ValuesOf(names, starts);
    forall i | 0 <= i < |values| ensures values[i] in AllOptions(tm, names)[i] {
      assert AllOptions(tm, names)[i] == OptionsOf(Lookup(tm, names[i]));
    }
    ProductExact(AllOptions(tm, names), values);
  }

  // ----- checking one assignment

  method DepsFinished(tm: TaskMap, starts: Starts, name: string) returns (ok: bool)
    requires name in starts
    ensures ok <==> DepsDone(tm, starts, name)
  {
    var deps := Lookup(tm, name).deps;
    for k := 0 to |deps|
      invariant forall j | 0 <= j < k :: deps[j] in starts && EndOf(tm, starts, deps[j]) <= starts[name]
    {
      if deps[k] !in starts { return false; }
      var depEnd := starts[deps[k]] + Lookup(tm, deps[k]).duration;
      if depEnd > starts[name] { return false; }
    }
    return true;
  }

  method ClashesWithEarlier(tm: TaskMap, scheduled: seq<Slot>, slot: Slot) returns (clash: bool)
    ensures clash <==> exists k :: 0 <= k < |scheduled| &&
                         Overlaps(slot.start, slot.end, scheduled[k].start, scheduled[k].end)
  {
    var resource := Lookup(tm, slot.name).resource;
    for k := 0 to |scheduled|
      invariant forall j | 0 <= j < k :: !Overlaps(slot.start, slot.end, scheduled[j].start, scheduled[j].end)
    {
      var overlaps := Overlaps(slot.start, slot.end, scheduled[k].start, scheduled[k].end);
      if overlaps { return true; }
      // The per-resource test below the first one can never fire.
      var other := Lookup(tm, scheduled[k].name).resource;
      if resource.Some? && other == resource && overlaps { return true; }
    }
    return false;
  }

  function SlotsAmong(tm: TaskMap, starts: Starts, names: seq<string>): set<Slot> {
    set n | n in starts && n in names :: SlotOf(tm, starts, n)
  }

  ghost predicate ValidAmong(tm: TaskMap, starts: Starts, names: seq<string>) {
    && (forall n | n in starts && n in names :: DepsDone(tm, starts, n))
    && (forall a, b | a in starts && b in starts && a in names && b in names && a != b :: Disjoint(tm, starts, a, b))
  }

  lemma AmongGrows(tm: TaskMap, starts: Starts, names: seq<string>, name: string)
    requires name !in names
    ensures name !in starts ==> SlotsAmong(tm, starts, names + [name]) == SlotsAmong(tm, starts, names)
    ensures name in starts ==>
              SlotsAmong(tm, starts, names + [name]) == SlotsAmong(tm, starts, names) + {SlotOf(tm, starts, name)}
  {
    assert forall x :: x in names + [name] <==> x in names || x == name;
    if name in starts {
      assert name in names + [name];
    }
  }

  lemma ValidAmongGrows(tm: TaskMap, starts: Starts, names: seq<string>, name: string)
    requires name !in names && ValidAmong(tm, starts, names)
    ensures name !in starts ==> ValidAmong(tm, starts, names + [name])
    ensures name in starts ==> (ValidAmong(tm, starts, names + [name]) <==>
        DepsDone(tm, starts, name) && !exists b :: b in starts && b in names && !Disjoint(tm, starts, name, b))
  {
    assert forall x :: x in names + [name] <==> x in names || x == name;
    if name in starts {
      assert name in names + [name];
    }
  }

  lemma ValidAmongPart(tm: TaskMap, starts: Starts, names: seq<string>)
    requires !ValidAmong(tm, starts, names)
    ensures !ValidPlan(tm, starts)
  {
  }

  // Testing a task only against the earlier names still tests every pair.
  method CheckAssignment(tm: TaskMap, names: seq<string>, starts: Starts) returns (valid: bool, scheduled: seq<Slot>)
    requires Distinct(names) && InWindows(tm, starts) && forall n | n in starts :: n in names
    ensures valid <==> ValidPlan(tm, starts)
    ensures valid ==> Elements(scheduled) == SlotSet(tm, starts)
    ensures valid ==> forall i, j | 0 <= i < j < |scheduled| :: scheduled[i].name != scheduled[j].name
  {
    scheduled := [];
    for i := 0 to |names|
      invariant ValidAmong(tm, starts, names[..i])
      invariant Elements(scheduled) == SlotsAmong(tm, starts, names[..i])
      invariant forall s | s in scheduled :: s.name in names[..i]
      invariant forall k, j | 0 <= k < j < |scheduled| :: scheduled[k].name != scheduled[j].name
    {
      var name := names[i];
      assert names[..i + 1] == names[..i] + [name];
      assert name !in names[..i];
      AmongGrows(tm, starts, names[..i], name);
      ValidAmongGrows(tm, starts, names[..i], name);
      if !ValidAmong(tm, starts, names[..i + 1]) { ValidAmongPart(tm, starts, names[..i + 1]); }
      if name in starts {
        var ready := DepsFinished(tm, starts, name);
        if !ready { return false, []; }
        var slot := Slot(starts[name], name, starts[name] + Lookup(tm, name).duration);
        var clash := ClashesWithEarlier(tm, scheduled, slot);
        ClashMeaning(tm, starts, names[..i], name, scheduled);
        if clash { return false, []; }
        AppendElements(scheduled, slot);
        scheduled := scheduled + [slot];
      }
    }
    assert names[..|names|] == names;
    return true, scheduled;
  }

  lemma ClashMeaning(tm: TaskMap, starts: Starts, names: seq<string>, name: string, scheduled: seq<Slot>)
    requires name in starts && name !in names && ValidAmong(tm, starts, names)
    requires Elements(scheduled) == SlotsAmong(tm, starts, names)
    ensures var slot := SlotOf(tm, starts, name);
      (exists k :: 0 <= k < |scheduled| && Overlaps(slot.start, slot.end, scheduled[k].start, scheduled[k].end)) <==>
      (exists b :: b in starts && b in names && !Disjoint(tm, starts, name, b))
  {
    var slot := SlotOf(tm, starts, name);
    if k :| 0 <= k < |scheduled| && Overlaps(slot.start, slot.end, scheduled[k].start, scheduled[k].end) {
      assert scheduled[k] in SlotsAmong(tm, starts, names);
      assert !Disjoint(tm, starts, name, scheduled[k].name);
    }
    if b :| b in starts && b in names && !Disjoint(tm, starts, name, b) {
      assert SlotOf(tm, starts, b) in Elements(scheduled);
      var k :| 0 <= k < |scheduled| && scheduled[k] == SlotOf(tm, starts, b);
      assert Overlaps(slot.start, slot.end, scheduled[k].start, scheduled[k].end);
    }
  }

  // ----- scoring one valid assignment

  function CountRank(tm: TaskMap, slots: seq<Slot>, rank: int): int {
    if slots == [] then 0
    else (if Lookup(tm, slots[0].name).rank == Some(rank) then 1 else 0) + CountRank(tm, slots[1..], rank)
  }

  function NamesOfRank(tm: TaskMap, slots: seq<Slot>, rank: int): set<string> {
    set s | s in slots && Lookup(tm, s.name).rank == Some(rank) :: s.name
  }

  lemma NamesOfRankCons(tm: TaskMap, head: Slot, rest: seq<Slot>, rank: int)
    ensures NamesOfRank(tm, [head] + rest, rank) ==
            (if Lookup(tm, head.name).rank == Some(rank) then {head.name} else {}) + NamesOfRank(tm, rest, rank)
  {
    forall n ensures n in NamesOfRank(tm, [head] + rest, rank) <==>
      (Lookup(tm, head.name).rank == Some(rank) && n == head.name) || n in NamesOfRank(tm, rest, rank)
    {
      assert forall s :: s in [head] + rest <==> s == head || s in rest;
    }
  }

  lemma {:induction false} CountRankIsSize(tm: TaskMap, slots: seq<Slot>, rank: int)
    requires forall i, j | 0 <= i < j < |slots| :: slots[i].name != slots[j].name
    ensures CountRank(tm, slots, rank) == |NamesOfRank(tm, slots, rank)|
  {
    if slots != [] {
      var head, rest := slots[0], slots[1..];
      assert slots == [head] + rest;
      CountRankIsSize(tm, rest, rank);
      NamesOfRankCons(tm, head, rest, rank);
      forall s | s in rest ensures s.name != head.name {
        var i :| 0 <= i < |rest| && rest[i] == s;
        assert slots[i + 1] == s;
      }
    }
  }

  lemma RankOfPlan(tm: TaskMap, starts: Starts, slots: seq<Slot>, rank: int)
    requires Elements(slots) == SlotSet(tm, starts)
    requires forall i, j | 0 <= i < j < |slots| :: slots[i].name != slots[j].name
    ensures CountRank(tm, slots, rank) == |Completed(tm, starts, rank)|
  {
    CountRankIsSize(tm, slots, rank);
    forall n ensures n in NamesOfRank(tm, slots, rank) <==> n in Completed(tm, starts, rank) {
      if n in Completed(tm, starts, rank) { assert SlotOf(tm, starts, n) in Elements(slots); }
      if n in NamesOfRank(tm, slots, rank) {
        var s :| s in slots && Lookup(tm, s.name).rank == Some(rank) && s.name == n;
        assert s in Elements(slots);
      }
    }
    assert NamesOfRank(tm, slots, rank) == Completed(tm, starts, rank);
  }

  lemma CountOfPlan(tm: TaskMap, starts: Starts, slots: seq<Slot>)
    requires Elements(slots) == SlotSet(tm, starts)
    requires forall i, j | 0 <= i < j < |slots| :: slots[i].name != slots[j].name
    ensures |slots| == |starts| && Distinct(slots)
  {
    var names := seq(|slots|, i requires 0 <= i < |slots| => slots[i].name);
    DistinctSize(names);
    forall n ensures n in Elements(names) <==> n in starts.Keys {
      if n in starts {
        assert SlotOf(tm, starts, n) in Elements(slots);
        var i :| 0 <= i < |slots| && slots[i] == SlotOf(tm, starts, n);
        assert names[i] == n;
      }
      if n in names {
        var i :| 0 <= i < |names| && names[i] == n;
        assert slots[i] in Elements(slots);
      }
    }
    assert Elements(names) == starts.Keys;
  }

  lemma SortedSlots(tm: TaskMap, starts: Starts, scheduled: seq<Slot>)
    requires Elements(scheduled) == SlotSet(tm, starts) && Distinct(scheduled)
    ensures Sort(EntryLess, scheduled) == SlotSeq(tm, starts)
  {
    EntriesSeparate(tm, starts);
    SortCorrect(EntryLess, scheduled);
    SlotSeqUnique(tm, starts, Sort(EntryLess, scheduled));
  }

  method Score(tm: TaskMap, ghost starts: Starts, scheduled: seq<Slot>) returns (key: Key)
    requires Elements(scheduled) == SlotSet(tm, starts)
    requires forall i, j | 0 <= i < j < |scheduled| :: scheduled[i].name != scheduled[j].name
    ensures key == KeyOf(tm, starts)
  {
    CountOfPlan(tm, starts, scheduled);
    SortedSlots(tm, starts, scheduled);
    var slots := Sort(EntryLess, scheduled);
    CountOfPlan(tm, starts, slots) by {
      EntriesSeparate(tm, starts);
      NamesDiffer(tm, starts, slots);
    }
    NamesDiffer(tm, starts, slots);
    RankOfPlan(tm, starts, slots, 0);
    RankOfPlan(tm, starts, slots, 1);
    RankOfPlan(tm, starts, slots, 2);
    var priorityCounts := seq(3, rank requires 0 <= rank => CountRank(tm, slots, rank));
    assert priorityCounts == PriorityCounts(tm, starts);
    key := Key(|slots|, priorityCounts, slots);
  }

  lemma NamesDiffer(tm: TaskMap, starts: Starts, slots: seq<Slot>)
    requires SlotsOfPlan(tm, starts, slots)
    ensures forall i, j | 0 <= i < j < |slots| :: slots[i].name != slots[j].name
  {
    EntriesSeparate(tm, starts);
    forall i, j | 0 <= i < j < |slots| ensures slots[i].name != slots[j].name {
      assert slots[i] in Elements(slots) && slots[j] in Elements(slots) && EntryLess(slots[i], slots[j]);
    }
  }

  // ----- the search

  datatype Outcome =
    | Plan(slots: seq<Slot>, unresolved: seq<string>, completionCount: int)
    | WorkerCountError
    | PriorityError
    | NoPlanError

  // Some scheduled task has a priority that cannot be read.
  ghost predicate BadPriority(tm: TaskMap, starts: Starts) {
    exists n :: n in starts && Lookup(tm, n).rank.None?
  }

  method PrioritiesRead(tm: TaskMap, ghost starts: Starts, scheduled: seq<Slot>) returns (ok: bool)
    requires Elements(scheduled) == SlotSet(tm, starts)
    ensures ok <==> !BadPriority(tm, starts)
  {
    for k := 0 to |scheduled|
      invariant forall j | 0 <= j < k :: Lookup(tm, scheduled[j].name).rank.Some?
    {
      if Lookup(tm, scheduled[k].name).rank.None? {
        assert scheduled[k] in Elements(scheduled);
        return false;
      }
    }
    forall n | n in starts ensures Lookup(tm, n).rank.Some? {
      assert SlotOf(tm, starts, n) in Elements(scheduled);
      var j :| 0 <= j < |scheduled| && scheduled[j] == SlotOf(tm, starts, n);
    }
    return true;
  }

  ghost function IsValid(tm: TaskMap): Starts -> bool { starts => ValidPlan(tm, starts) }
  ghost function IsBetter(tm: TaskMap): (Starts, Starts) -> bool { (a, b) => Beats(tm, a, b) }

  lemma BetterIsOrder(tm: TaskMap)
    ensures StrictOrder(IsBetter(tm))
  {
    KeyOrder();
    forall a ensures !IsBetter(tm)(a, a) { assert !KeyBeats(KeyOf(tm, a), KeyOf(tm, a)); }
    forall a, b, c | IsBetter(tm)(a, b) && IsBetter(tm)(b, c) ensures IsBetter(tm)(a, c) {
      KeyBeatsTransitive(KeyOf(tm, a), KeyOf(tm, b), KeyOf(tm, c));
    }
  }

  // The stored key, slots and unresolved list belong to the plan kept.
  ghost predicate Stored(tm: TaskMap, best: Option<Starts>, bestKey: Option<Key>, bestSlots: seq<Slot>,
                         bestUnresolved: seq<string>) {
    && (best.None? <==> bestKey.None?)
    && (best.Some? ==>
          && bestKey.value == KeyOf(tm, best.value)
          && bestSlots == SlotSeq(tm, best.value)
          && SortedListing(tm.Keys - best.value.Keys, bestUnresolved))
  }

  method ConsiderAssignment(tm: TaskMap, names: seq<string>, starts: Starts, ghost tried: set<Starts>,
                            ghost best: Option<Starts>, bestKey: Option<Key>, bestSlots: seq<Slot>,
                            bestUnresolved: seq<string>)
    returns (ghost best': Option<Starts>, bestKey': Option<Key>, bestSlots': seq<Slot>, bestUnresolved': seq<string>,
             failed: bool)
    requires SortedListing(tm.Keys, names) && InWindows(tm, starts)
    requires Champion(IsValid(tm), IsBetter(tm), tried, best) && Stored(tm, best, bestKey, bestSlots, bestUnresolved)
    ensures failed <==> ValidPlan(tm, starts) && BadPriority(tm, starts)
    ensures !failed ==> Champion(IsValid(tm), IsBetter(tm), tried + {starts}, best')
    ensures !failed ==> Stored(tm, best', bestKey', bestSlots', bestUnresolved')
  {
    best', bestKey', bestSlots', bestUnresolved', failed := best, bestKey, bestSlots, bestUnresolved, false;
    SortedListingFacts(tm.Keys, names);
    BetterIsOrder(tm);
    Challenge(IsValid(tm), IsBetter(tm), tried, best, starts);
    var valid, scheduled := CheckAssignment(tm, names, starts);
    if !valid { return; }
    var read := PrioritiesRead(tm, starts, scheduled);
    if !read {
      failed := true;
      return;
    }
    var key := Score(tm, starts, scheduled);
    if bestKey.None? || key.count > bestKey.value.count {
      bestKey' := Some(key);
    } else if key.count == bestKey.value.count {
      if LexLess(IntLess, bestKey.value.priorities, key.priorities) {
        bestKey' := Some(key);
      } else if key.priorities == bestKey.value.priorities && LexLess(SlotLess, key.slots, bestKey.value.slots) {
        bestKey' := Some(key);
      } else {
        return;
      }
    } else {
      return;
    }
    best' := Some(starts);
    bestSlots' := key.slots;
    bestUnresolved' := SortedKeys(set n | n in tm && n !in starts);
    assert (set n | n in tm && n !in starts) == tm.Keys - starts.Keys;
  }

  method BestPlan(tm: TaskMap, workerCount: int) returns (r: Outcome)
    ensures workerCount != 1 <==> r.WorkerCountError?
    ensures !r.NoPlanError?
    ensures r.PriorityError? <==> workerCount == 1 && exists starts :: ValidPlan(tm, starts) && BadPriority(tm, starts)
    ensures r.Plan? ==> exists starts ::
        && BestPlanOf(tm, starts)
        && r.slots == SlotSeq(tm, starts)
        && SortedListing(tm.Keys - starts.Keys, r.unresolved)
        && r.completionCount == |starts|
  {
    var names := SortedKeys(tm.Keys);
    if workerCount != 1 { return WorkerCountError; }
    var bestKey: Option<Key> := None;
    var bestSlots: seq<Slot> := [];
    var bestUnresolved: seq<string> := [];
    ghost var best: Option<Starts> := None;
    ghost var tried: set<Starts> := {};
    var assignments := Product(AllOptions(tm, names));
    for k := 0 to |assignments|
      invariant Champion(IsValid(tm), IsBetter(tm), tried, best) && Stored(tm, best, bestKey, bestSlots, bestUnresolved)
      invariant AllTried(names, assignments, k, tried)
      invariant forall starts | starts in tried && ValidPlan(tm, starts) :: !BadPriority(tm, starts)
    {
      assert assignments[k] in assignments;
      EnumeratedInWindows(tm, names, assignments[k]);
      var starts := Assigned(names, assignments[k]);
      AllTriedStep(names, assignments, k, tried);
      var failed;
      best, bestKey, bestSlots, bestUnresolved, failed :=
        ConsiderAssignment(tm, names, starts, tried, best, bestKey, bestSlots, bestUnresolved);
      if failed { return PriorityError; }
      tried := tried + {starts};
    }
    AllWindowsTried(tm, names, assignments, tried);
    ChampionIsBest(tm, tried, best);
    if bestKey.None? { return NoPlanError; }
    return Plan(bestSlots, bestUnresolved, bestKey.value.count);
  }

  ghost predicate AllTried(names: seq<string>, assignments: seq<seq<Option<int>>>, n: nat, tried: set<Starts>) {
    && n <= |assignments|
    && forall i | 0 <= i < n && |assignments[i]| == |names| :: Assigned(names, assignments[i]) in tried
  }

  lemma AllTriedStep(names: seq<string>, assignments: seq<seq<Option<int>>>, n: nat, tried: set<Starts>)
    requires AllTried(names, assignments, n, tried) && n < |assignments| && |assignments[n]| == |names|
    ensures AllTried(names, assignments, n + 1, tried + {Assigned(names, assignments[n])})
  {
  }

  lemma AllWindowsTried(tm: TaskMap, names: seq<string>, assignments: seq<seq<Option<int>>>, tried: set<Starts>)
    requires SortedListing(tm.Keys, names) && assignments == Product(AllOptions(tm, names))
    requires AllTried(names, assignments, |assignments|, tried)
    ensures forall starts | InWindows(tm, starts) :: starts in tried
  {
    forall starts | InWindows(tm, starts) ensures starts in tried {
      InWindowsEnumerated(tm, names, starts);
      var i :| 0 <= i < |assignments| && assignments[i] == ValuesOf(names, starts);
    }
  }

  // The empty plan is valid, so the search cannot end without a plan.
  lemma ChampionIsBest(tm: TaskMap, tried: set<Starts>, best: Option<Starts>)
    requires Champion(IsValid(tm), IsBetter(tm), tried, best)
    requires forall starts | InWindows(tm, starts) :: starts in tried
    ensures best.Some? && BestPlanOf(tm, best.value)
  {
    var none: Starts := map[];
    assert none in tried && IsValid(tm)(none);
    forall other | ValidPlan(tm, other) && other != best.value ensures Beats(tm, best.value, other) {
      assert other in tried && IsValid(tm)(other);
      assert !IsBetter(tm)(other, best.value);
      BeatsIsTotal(tm, other, best.value);
    }
  }

  // ----- dependencies

  // Each name on the path depends on the next.
  ghost predicate DepPath(tm: TaskMap, p: seq<string>) {
    |p| >= 1 && forall i | 0 <= i < |p| - 1 :: p[i] in tm && p[i + 1] in tm[p[i]].deps
  }

  ghost predicate PositiveDurations(tm: TaskMap) {
    forall n | n in tm :: tm[n].duration >= 1
  }

  // Transitive dependencies of a scheduled task are scheduled and finish first.
  lemma {:induction false} DependenciesFinishFirst(tm: TaskMap, starts: Starts, p: seq<string>, i: nat)
    requires PositiveDurations(tm) && ValidPlan(tm, starts) && DepPath(tm, p) && p[0] in starts && i < |p|
    ensures p[i] in starts && (i > 0 ==> EndOf(tm, starts, p[i]) <= starts[p[0]])
    decreases i
  {
    if i > 0 {
      DependenciesFinishFirst(tm, starts, p, i - 1);
      assert DepsDone(tm, starts, p[i - 1]);
      assert p[i - 1 + 1] in tm[p[i - 1]].deps;
    }
  }

  // A task that reaches an unknown task or a dependency cycle is never scheduled.
  lemma NeverScheduled(tm: TaskMap, starts: Starts, p: seq<string>, i: nat)
    requires PositiveDurations(tm) && ValidPlan(tm, starts) && DepPath(tm, p)
    requires p[|p| - 1] !in tm || (i < |p| - 1 && p[i] == p[|p| - 1])
    ensures p[0] !in starts
  {
    if p[0] in starts {
      DependenciesFinishFirst(tm, starts, p, |p| - 1);
      if p[|p| - 1] in tm {
        DependenciesFinishFirst(tm, starts, p, i);
        assert DepPath(tm, p[i..]);
        DependenciesFinishFirst(tm, starts, p[i..], |p| - 1 - i);
      }
      assert false;
    }
  }

  // ----- packing

  function TotalDuration(tm: TaskMap, slots: seq<Slot>): int {
    if slots == [] then 0 else TotalDuration(tm, slots[..|slots| - 1]) + Lookup(tm, slots[|slots| - 1].name).duration
  }

  lemma SlotFacts(tm: TaskMap, starts: Starts, slots: seq<Slot>, i: nat)
    requires PositiveDurations(tm) && ValidPlan(tm, starts) && SlotsOfPlan(tm, starts, slots) && i < |slots|
    ensures slots[i].name in tm && slots[i].end == slots[i].start + tm[slots[i].name].duration
    ensures tm[slots[i].name].windowStart <= slots[i].start && slots[i].end <= tm[slots[i].name].windowEnd
    ensures i > 0 ==> slots[i - 1].end <= slots[i].start
  {
    assert slots[i] in Elements(slots);
    if i > 0 {
      assert slots[i - 1] in Elements(slots);
      NamesDiffer(tm, starts, slots);
      assert Disjoint(tm, starts, slots[i - 1].name, slots[i].name);
      assert EntryLess(slots[i - 1], slots[i]);
    }
  }

  // The time between one slot's end and the next one's start, summed.
  function IdleTime(slots: seq<Slot>): int {
    if |slots| <= 1 then 0
    else IdleTime(slots[..|slots| - 1]) + (slots[|slots| - 1].start - slots[|slots| - 2].end)
  }

  // The emitted slots follow one another: their durations and the idle time, which
  // is never negative, add up to the time from the first start to the last end.
  lemma {:induction false} PackingBound(tm: TaskMap, starts: Starts, slots: seq<Slot>, n: nat)
    requires PositiveDurations(tm) && ValidPlan(tm, starts) && SlotsOfPlan(tm, starts, slots) && 0 < n <= |slots|
    ensures TotalDuration(tm, slots[..n]) + IdleTime(slots[..n]) == slots[n - 1].end - slots[0].start
    ensures IdleTime(slots[..n]) >= 0
    decreases n
  {
    SlotFacts(tm, starts, slots, n - 1);
    assert slots[..n][..n - 1] == slots[..n - 1];
    if n > 1 { PackingBound(tm, starts, slots, n - 1); }
  }
}
