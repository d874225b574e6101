// intel_h03: the oracle that derives every optimal timetable, the validator
// that reads a submitted one, and the grade that compares the two.
module ScheduleOracle {
  import opened Orders
  import opened Enumeration

  // Times are instants counted in microseconds.
  const HOUR: int := 3_600_000_000

  datatype Task = Task(id: string, duration: int, earliest: int, deadline: int, skill: string)

  type TaskMap = map<string, Task>

  function Length(t: Task): int { HOUR * t.duration }

  // ----- loading

  datatype RawTask =
    | NotAnObject
    | Raw(id: string, start: Option<int>, deadline: Option<int>, duration: Option<int>, skill: string)

  predicate Usable(r: RawTask) {
    && r.Raw? && r.id != "" && r.start.Some? && r.deadline.Some?
    && r.duration.Some? && r.duration.value > 0 && r.skill != ""
  }

  function Parsed(r: RawTask): Task
    requires Usable(r)
  {
    Task(r.id, r.duration.value, r.start.value, r.deadline.value, r.skill)
  }

  ghost predicate Loaded(tm: TaskMap) {
    forall id | id in tm :: tm[id].id == id && tm[id].duration >= 1 && id != "" && tm[id].skill != ""
  }

  // The row is an object with exactly these fields.
  ghost predicate Reads(r: RawTask, t: Task) {
    && r == Raw(t.id, Some(t.earliest), Some(t.deadline), Some(t.duration), t.skill)
    && t.id != "" && t.duration > 0 && t.skill != ""
  }

  // Row i is the last of the first n rows that defines a task of this id.
  ghost predicate Defines(raws: seq<RawTask>, n: nat, t: Task, i: int) {
    && n <= |raws| && 0 <= i < n && Reads(raws[i], t)
    && forall j, u | i < j < n && Reads(raws[j], u) :: u.id != t.id
  }

  ghost predicate Defined(raws: seq<RawTask>, n: nat, t: Task) {
    exists i :: Defines(raws, n, t, i)
  }

  lemma DefinedNext(raws: seq<RawTask>, n: nat, t: Task)
    requires n < |raws|
    ensures Defined(raws, n + 1, t) <==>
            if Usable(raws[n]) && raws[n].id == t.id then t == Parsed(raws[n]) else Defined(raws, n, t)
  {
    if Usable(raws[n]) { assert Reads(raws[n], Parsed(raws[n])); }
    if Usable(raws[n]) && t == Parsed(raws[n]) { assert Defines(raws, n + 1, t, n); }
    if i :| Defines(raws, n, t, i) {
      if !(Usable(raws[n]) && raws[n].id == t.id) { assert Defines(raws, n + 1, t, i); }
    }
    if Defined(raws, n + 1, t) {
      var i :| Defines(raws, n + 1, t, i);
      if i < n { assert Defines(raws, n, t, i); }
    }
  }

  // The map holds exactly the tasks defined by the last row of their id.
  method LoadTasks(raws: seq<RawTask>) returns (tm: TaskMap)
    ensures Loaded(tm)
    ensures forall t: Task :: t.id in tm && tm[t.id] == t <==> Defined(raws, |raws|, t)
  {
    tm := map[];
    for n := 0 to |raws|
      invariant Loaded(tm)
      invariant forall t: Task :: t.id in tm && tm[t.id] == t <==> Defined(raws, n, t)
    {
      ghost var before := tm;
      if Usable(raws[n]) { tm := tm[raws[n].id := Parsed(raws[n])]; }
      forall t: Task ensures t.id in tm && tm[t.id] == t <==> Defined(raws, n + 1, t) {
        DefinedNext(raws, n, t);
        assert t.id in before && before[t.id] == t <==> Defined(raws, n, t);
      }
    }
  }

  // ----- one order, placed

  datatype Slot = Slot(id: string, start: int, end: int)

  // Slots carry out the order one after the other, each inside its window.
  ghost predicate Timetable(order: seq<Task>, slots: seq<Slot>) {
    && |slots| == |order|
    && (forall i | 0 <= i < |order| ::
          && slots[i].id == order[i].id
          && slots[i].end == slots[i].start + Length(order[i])
          && order[i].earliest <= slots[i].start
          && slots[i].end <= order[i].deadline)
    && forall i | 0 < i < |order| :: slots[i - 1].end <= slots[i].start
  }

  ghost predicate Feasible(order: seq<Task>) {
    exists slots :: Timetable(order, slots)
  }

  // Start times that keep the windows and the order, an hour being 3600 seconds.
  ghost predicate FitsAt(order: seq<Task>, starts: seq<int>) {
    && |starts| == |order|
    && (forall i | 0 <= i < |order| :: order[i].earliest <= starts[i])
    && (forall i | 0 <= i < |order| :: starts[i] + 3_600_000_000 * order[i].duration <= order[i].deadline)
    && forall i | 0 < i < |order| :: starts[i - 1] + 3_600_000_000 * order[i - 1].duration <= starts[i]
  }

  lemma FeasibleIffFits(order: seq<Task>)
    ensures Feasible(order) <==> exists starts :: FitsAt(order, starts)
  {
    if slots: seq<Slot> :| Timetable(order, slots) {
      var starts := seq(|slots|, i requires 0 <= i < |slots| => slots[i].start);
      assert FitsAt(order, starts);
    }
    if starts: seq<int> :| FitsAt(order, starts) {
      var slots := seq(|starts|, i requires 0 <= i < |starts| && i < |order| =>
        Slot(order[i].id, starts[i], starts[i] + Length(order[i])));
      assert Timetable(order, slots);
    }
  }

  ghost predicate NoLater(a: seq<Slot>, b: seq<Slot>) {
    |a| == |b| && forall i | 0 <= i < |a| :: a[i].start <= b[i].start && a[i].end <= b[i].end
  }

  // No timetable of the same order starts or ends any task earlier.
  ghost predicate LeftShifted(order: seq<Task>, slots: seq<Slot>) {
    forall other | Timetable(order, other) :: NoLater(slots, other)
  }

  function StartAfter(currentEnd: Option<int>, task: Task): int {
    if currentEnd.None? || currentEnd.value <= task.earliest then task.earliest else currentEnd.value
  }

  function EndOf(slots: seq<Slot>): Option<int> {
    if slots == [] then None else Some(slots[|slots| - 1].end)
  }

  // The next greedy slot bounds the next slot of every timetable from below.
  lemma NextSlotNoLater(order: seq<Task>, slots: seq<Slot>, task: Task, other: seq<Slot>)
    requires LeftShifted(order, slots) && |slots| == |order| && Timetable(order + [task], other)
    ensures NoLater(slots, other[..|order|])
    ensures StartAfter(EndOf(slots), task) <= other[|order|].start
    ensures StartAfter(EndOf(slots), task) + Length(task) <= other[|order|].end <= task.deadline
  {
    var n := |order|;
    assert (order + [task])[..n] == order && (order + [task])[n] == task;
    assert forall i | 0 <= i < n :: (order + [task])[i] == order[i];
    assert Timetable(order, other[..n]);
    if n > 0 {
      assert slots[n - 1].end <= other[..n][n - 1].end;
    }
  }

  lemma PlaceNext(order: seq<Task>, slots: seq<Slot>, task: Task, slot: Slot)
    requires Timetable(order, slots) && LeftShifted(order, slots)
    requires slot.id == task.id && slot.start == StartAfter(EndOf(slots), task) && slot.end == slot.start + Length(task)
    requires slot.end <= task.deadline
    ensures Timetable(order + [task], slots + [slot]) && LeftShifted(order + [task], slots + [slot])
  {
    forall other | Timetable(order + [task], other) ensures NoLater(slots + [slot], other) {
      NextSlotNoLater(order, slots, task, other);
      assert forall i | 0 <= i < |order| :: other[..|order|][i] == other[i];
    }
  }

  lemma PlaceFails(order: seq<Task>, slots: seq<Slot>, task: Task, rest: seq<Task>)
    requires Timetable(order, slots) && LeftShifted(order, slots)
    requires StartAfter(EndOf(slots), task) + Length(task) > task.deadline
    ensures !Feasible(order + [task] + rest)
  {
    var whole := order + [task] + rest;
    forall other ensures !Timetable(whole, other) {
      if Timetable(whole, other) {
        assert whole[..|order| + 1] == order + [task];
        TimetablePrefix(whole, other, |order| + 1);
        NextSlotNoLater(order, slots, task, other[..|order| + 1]);
        assert false;
      }
    }
  }

  lemma TimetablePrefix(order: seq<Task>, slots: seq<Slot>, n: nat)
    requires Timetable(order, slots) && n <= |order|
    ensures Timetable(order[..n], slots[..n])
  {
  }

  // Greedy placement decides feasibility of the order, gaps included: whenever
  // some timetable exists the greedy one exists and is the earliest throughout.
  method ScheduleOrder(tasks: seq<Task>) returns (r: Option<seq<Slot>>)
    ensures r.Some? <==> Feasible(tasks)
    ensures r.Some? ==> Timetable(tasks, r.value) && LeftShifted(tasks, r.value)
  {
    var currentEnd: Option<int> := None;
    var scheduled: seq<Slot> := [];
    for i := 0 to |tasks|
      invariant Timetable(tasks[..i], scheduled) && LeftShifted(tasks[..i], scheduled)
      invariant currentEnd == EndOf(scheduled)
    {
      var task := tasks[i];
      var start := StartAfter(currentEnd, task);
      var end := start + Length(task);
      assert tasks[..i + 1] == tasks[..i] + [task];
      if end > task.deadline {
        PlaceFails(tasks[..i], scheduled, task, tasks[i + 1..]);
        assert tasks == tasks[..i] + [task] + tasks[i + 1..];
        return None;
      }
      PlaceNext(tasks[..i], scheduled, task, Slot(task.id, start, end));
      scheduled := scheduled + [Slot(task.id, start, end)];
      currentEnd := Some(end);
    }
    assert tasks[..|tasks|] == tasks;
    return Some(scheduled);
  }

  lemma GapCloses(order: seq<Task>, slots: seq<Slot>, i: nat, k: nat)
    requires Timetable(order, slots) && i < |order| && Length(order[i]) >= 0 && 0 < k < |order| - 1
    ensures slots[if k - 1 < i then k - 1 else k].end <= slots[if k < i then k else k + 1].start
  {
    if k == i { assert slots[i - 1].end <= slots[i].start <= slots[i].end; }
    if k >= i { assert slots[k + 1 - 1].end <= slots[k + 1].start; }
  }

  // Deleting a task keeps an order feasible.
  lemma DeletionKeepsFeasible(order: seq<Task>, i: nat)
    requires Feasible(order) && i < |order| && forall t | t in order :: t.duration >= 1
    ensures Feasible(Without(order, i))
  {
    var slots: seq<Slot> :| Timetable(order, slots);
    var less, fewer := Without(order, i), Without(slots, i);
    assert order[i] in order;
    assert Length(order[i]) >= 0;
    assert forall k | 0 <= k < |less| :: less[k] == order[if k < i then k else k + 1];
    assert forall k | 0 <= k < |less| :: fewer[k] == slots[if k < i then k else k + 1];
    forall k | 0 < k < |less| ensures fewer[k - 1].end <= fewer[k].start {
      GapCloses(order, slots, i, k);
    }
    assert Timetable(less, fewer);
  }

  function ReasonIfUnschedulable(task: Task): string {
    if task.earliest + HOUR * task.duration > task.deadline then "deadline_exceeded" else "time_conflict"
  }

  // The reason tells whether the task could ever run, even on its own.
  lemma ReasonMeaning(task: Task)
    ensures ReasonIfUnschedulable(task) == "deadline_exceeded" <==> !Feasible([task])
    ensures ReasonIfUnschedulable(task) == "time_conflict" <==> Feasible([task])
  {
    var slots := [Slot(task.id, task.earliest, task.earliest + Length(task))];
    if task.earliest + Length(task) <= task.deadline {
      assert Timetable([task], slots);
    } else {
      assert LeftShifted([], []);
      PlaceFails([], [], task, []);
      assert [] + [task] + [] == [task];
    }
  }

  // A task that cannot meet its own deadline is in no feasible order.
  lemma FeasibleTasksMeetDeadlines(order: seq<Task>, i: nat)
    requires Feasible(order) && i < |order|
    ensures ReasonIfUnschedulable(order[i]) != "deadline_exceeded"
  {
    var slots: seq<Slot> :| Timetable(order, slots);
    assert slots[i].end == slots[i].start + Length(order[i]);
  }

  // ----- keys

  function Hours(order: seq<Task>): int {
    if order == [] then 0 else Hours(order[..|order| - 1]) + order[|order| - 1].duration
  }

  function Key(order: seq<Task>): (int, int) { (Hours(order), |order|) }

  predicate KeyLess(a: (int, int), b: (int, int)) {
    a.0 < b.0 || (a.0 == b.0 && a.1 < b.1)
  }

  lemma {:induction false} HoursNonNegative(order: seq<Task>)
    requires forall t | t in order :: t.duration >= 1
    ensures Hours(order) >= |order|
  {
    if order != [] {
      assert order[|order| - 1] in order;
      HoursNonNegative(order[..|order| - 1]);
    }
  }

  lemma {:induction false} HoursConcat(a: seq<Task>, b: seq<Task>)
    ensures Hours(a + b) == Hours(a) + Hours(b)
  {
    if b == [] {
      assert a + b == a;
    } else {
      assert (a + b)[..|a + b| - 1] == a + b[..|b| - 1];
      HoursConcat(a, b[..|b| - 1]);
    }
  }

  // ----- what the oracle searches

  function Ids(order: seq<Task>): seq<string> { seq(|order|, i requires 0 <= i < |order| => order[i].id) }

  function Lookup(tm: TaskMap, id: string): Task {
    if id in tm then tm[id] else Task(id, 0, 0, 0, "")
  }

  function Order(tm: TaskMap, ids: seq<string>): seq<Task> {
    seq(|ids|, i requires 0 <= i < |ids| => Lookup(tm, ids[i]))
  }

  // A repetition-free list of tasks whose skills are ready.
  ghost predicate Candidate(tm: TaskMap, ready: set<string>, ids: seq<string>) {
    Distinct(ids) && forall id | id in ids :: id in tm && tm[id].skill in ready
  }

  ghost predicate Admissible(tm: TaskMap, ready: set<string>, ids: seq<string>) {
    Candidate(tm, ready, ids) && Feasible(Order(tm, ids))
  }

  // No admissible order has more hours, or as many hours and more tasks.
  ghost predicate Optimal(tm: TaskMap, ready: set<string>, ids: seq<string>) {
    && Admissible(tm, ready, ids)
    && forall other | Admissible(tm, ready, other) ::
         || Hours(Order(tm, other)) < Hours(Order(tm, ids))
         || (Hours(Order(tm, other)) == Hours(Order(tm, ids)) && |other| <= |ids|)
  }

  // Different known tasks whose skills are ready, with start times that fit.
  ghost predicate Workable(tm: TaskMap, ready: set<string>, ids: seq<string>) {
    && (forall i, j | 0 <= i < j < |ids| :: ids[i] != ids[j])
    && (forall i | 0 <= i < |ids| :: ids[i] in tm && tm[ids[i]].skill in ready)
    && exists starts :: FitsAt(Order(tm, ids), starts)
  }

  lemma WorkableIffAdmissible(tm: TaskMap, ready: set<string>, ids: seq<string>)
    ensures Workable(tm, ready, ids) <==> Admissible(tm, ready, ids)
  {
    FeasibleIffFits(Order(tm, ids));
    forall i | 0 <= i < |ids| ensures ids[i] in ids {}
  }

  // The optimal orders, by start times: as many hours as can be had, and then as
  // many tasks.
  lemma OptimalIff(tm: TaskMap, ready: set<string>, ids: seq<string>)
    ensures Optimal(tm, ready, ids) <==>
      && Workable(tm, ready, ids)
      && (forall other | Workable(tm, ready, other) :: Hours(Order(tm, other)) <= Hours(Order(tm, ids)))
      && (forall other | Workable(tm, ready, other) && Hours(Order(tm, other)) == Hours(Order(tm, ids)) ::
            |other| <= |ids|)
  {
    forall other ensures Workable(tm, ready, other) <==> Admissible(tm, ready, other) {
      WorkableIffAdmissible(tm, ready, other);
    }
  }

  datatype BlockedRow = BlockedRow(id: string, reason: string, requiredSkill: string)
  datatype LeftRow = LeftRow(id: string, reason: string)
  datatype Plan = Plan(scheduled: seq<Slot>, unschedulable: seq<LeftRow>, totalHours: int)
  datatype Expected = Expected(blocked: seq<BlockedRow>, optimalTotalHours: int, optimalPlans: map<seq<string>, Plan>)

  function BlockedIds(rows: seq<BlockedRow>): seq<string> { seq(|rows|, i requires 0 <= i < |rows| => rows[i].id) }
  function LeftIds(rows: seq<LeftRow>): seq<string> { seq(|rows|, i requires 0 <= i < |rows| => rows[i].id) }

  function BlockedSet(tm: TaskMap, ready: set<string>): set<string> {
    set id | id in tm && tm[id].skill !in ready
  }

  function AvailableSet(tm: TaskMap, ready: set<string>): set<string> {
    set id | id in tm && tm[id].skill in ready
  }

  function LeftSet(tm: TaskMap, ready: set<string>, ids: seq<string>): set<string> {
    set id | id in tm && tm[id].skill in ready && id !in ids
  }

  // Exactly the tasks whose skill is missing, by id.
  ghost predicate BlockedExact(tm: TaskMap, ready: set<string>, rows: seq<BlockedRow>) {
    && SortedListing(BlockedSet(tm, ready), BlockedIds(rows))
    && forall r | r in rows :: r.id in tm && r.reason == "skill_unavailable" && r.requiredSkill == tm[r.id].skill
  }

  // Exactly the available tasks the order leaves out, by id, each with its reason.
  ghost predicate LeftExact(tm: TaskMap, ready: set<string>, ids: seq<string>, rows: seq<LeftRow>) {
    && SortedListing(LeftSet(tm, ready, ids), LeftIds(rows))
    && forall r | r in rows :: r.id in tm && r.reason == ReasonIfUnschedulable(tm[r.id])
  }

  ghost predicate PlanCorrect(tm: TaskMap, ready: set<string>, ids: seq<string>, plan: Plan) {
    && Admissible(tm, ready, ids)
    && Timetable(Order(tm, ids), plan.scheduled) && LeftShifted(Order(tm, ids), plan.scheduled)
    && LeftExact(tm, ready, ids, plan.unschedulable)
    && plan.totalHours == Hours(Order(tm, ids))
  }

  lemma BlockedUnique(tm: TaskMap, ready: set<string>, a: seq<BlockedRow>, b: seq<BlockedRow>)
    requires BlockedExact(tm, ready, a) && BlockedExact(tm, ready, b)
    ensures a == b
  {
    SortedListingUnique(BlockedSet(tm, ready), BlockedIds(a), BlockedIds(b));
    assert |a| == |BlockedIds(a)| == |b|;
    forall i | 0 <= i < |a| ensures a[i] == b[i] {
      assert BlockedIds(a)[i] == BlockedIds(b)[i];
      assert a[i] in a && b[i] in b;
    }
  }

  lemma LeftUnique(tm: TaskMap, ready: set<string>, ids: seq<string>, a: seq<LeftRow>, b: seq<LeftRow>)
    requires LeftExact(tm, ready, ids, a) && LeftExact(tm, ready, ids, b)
    ensures a == b
  {
    SortedListingUnique(LeftSet(tm, ready, ids), LeftIds(a), LeftIds(b));
    assert |a| == |LeftIds(a)| == |b|;
    forall i | 0 <= i < |a| ensures a[i] == b[i] {
      assert LeftIds(a)[i] == LeftIds(b)[i];
      assert a[i] in a && b[i] in b;
    }
  }

  // Orders built by permuting the available tasks are the candidates.
  lemma ArrangementsAreCandidates(tm: TaskMap, ready: set<string>, ids: seq<string>, p: seq<Task>)
    requires Loaded(tm) && SortedListing(AvailableSet(tm, ready), ids)
    requires Arrangement(Order(tm, ids), |p|, p)
    ensures Candidate(tm, ready, Ids(p)) && Order(tm, Ids(p)) == p
  {
    SortedListingFacts(AvailableSet(tm, ready), ids);
    var pool := Order(tm, ids);
    forall i | 0 <= i < |p| ensures p[i].id in tm && tm[p[i].id] == p[i] && p[i].skill in ready {
      assert p[i] in p;
      var k :| 0 <= k < |pool| && pool[k] == p[i];
      assert ids[k] in ids;
    }
    forall i, j | 0 <= i < j < |p| ensures Ids(p)[i] != Ids(p)[j] {
      assert p[i] != p[j];
    }
  }

  lemma CandidatesAreArrangements(tm: TaskMap, ready: set<string>, ids: seq<string>, c: seq<string>)
    requires Loaded(tm) && SortedListing(AvailableSet(tm, ready), ids)
    requires Candidate(tm, ready, c)
    ensures Distinct(Order(tm, ids)) && |c| <= |ids|
    ensures Arrangement(Order(tm, ids), |c|, Order(tm, c)) && Ids(Order(tm, c)) == c
  {
    var available := AvailableSet(tm, ready);
    SortedListingFacts(available, ids);
    var pool := Order(tm, ids);
    var p := Order(tm, c);
    forall i, j | 0 <= i < j < |pool| ensures pool[i] != pool[j] {
      assert ids[i] in ids && ids[j] in ids && ids[i] != ids[j];
    }
    forall i, j | 0 <= i < j < |p| ensures p[i] != p[j] {
      assert c[i] in c && c[j] in c && c[i] != c[j];
    }
    forall t | t in p ensures t in pool {
      var i :| 0 <= i < |p| && p[i] == t;
      assert c[i] in c;
      assert c[i] in ids;
      var k :| 0 <= k < |ids| && ids[k] == c[i];
      assert pool[k] == t;
    }
    forall i | 0 <= i < |c| ensures Ids(p)[i] == c[i] { assert c[i] in c; }
    DistinctSize(c);
    assert Elements(c) <= available;
    SubsetSize(Elements(c), available);
  }

  method Unscheduled(tm: TaskMap, ready: set<string>, ids: seq<string>) returns (rows: seq<LeftRow>)
    ensures LeftExact(tm, ready, ids, rows)
  {
    var left := SortedKeys(LeftSet(tm, ready, ids));
    SortedListingFacts(LeftSet(tm, ready, ids), left);
    forall i | 0 <= i < |left| ensures left[i] in tm { assert left[i] in left; }
    rows := seq(|left|, i requires 0 <= i < |left| => LeftRow(left[i], ReasonIfUnschedulable(tm[left[i]])));
    assert LeftIds(rows) == left;
  }

  // The running best over the candidates tried so far: the best key met, and
  // a correct plan for exactly the candidates that reach it.
  ghost predicate BestOf<C, P>(adm: C -> bool, key: C -> (int, int), correct: (C, P) -> bool,
                               tried: set<C>, bestKey: (int, int), plans: map<C, P>) {
    && (forall c | c in tried && adm(c) :: !KeyLess(bestKey, key(c)))
    && (forall c | c in tried && adm(c) && key(c) == bestKey :: c in plans)
    && (forall c | c in plans :: adm(c) && correct(c, plans[c]) && key(c) == bestKey)
    && (plans == map[] ==> bestKey == (-1, -1))
  }

  lemma TryPlan<C, P>(adm: C -> bool, key: C -> (int, int), correct: (C, P) -> bool,
                      tried: set<C>, bestKey: (int, int), plans: map<C, P>, c: C, plan: P)
    requires BestOf(adm, key, correct, tried, bestKey, plans)
    requires adm(c) ==> correct(c, plan)
    ensures !adm(c) ==> BestOf(adm, key, correct, tried + {c}, bestKey, plans)
    ensures adm(c) && KeyLess(bestKey, key(c)) ==> BestOf(adm, key, correct, tried + {c}, key(c), map[c := plan])
    ensures adm(c) && key(c) == bestKey ==> BestOf(adm, key, correct, tried + {c}, bestKey, plans[c := plan])
    ensures adm(c) && key(c) == bestKey && c in plans ==> BestOf(adm, key, correct, tried + {c}, bestKey, plans)
    ensures adm(c) && KeyLess(key(c), bestKey) ==> BestOf(adm, key, correct, tried + {c}, bestKey, plans)
  {
    assert c in map[c := plan];
    assert c in plans[c := plan];
  }

  lemma BestOfAll<C, P>(adm: C -> bool, key: C -> (int, int), correct: (C, P) -> bool,
                        tried: set<C>, bestKey: (int, int), plans: map<C, P>)
    requires BestOf(adm, key, correct, tried, bestKey, plans) && plans != map[]
    requires forall c | c in plans :: c in tried || adm(c)
    ensures forall c | c in plans, d | d in tried && adm(d) :: !KeyLess(key(c), key(d))
    ensures forall d | d in tried && adm(d) && (forall c | c in plans :: !KeyLess(key(d), key(c))) :: d in plans
  {
    var some :| some in plans;
  }

  ghost function IsAdmissible(tm: TaskMap, ready: set<string>): seq<string> -> bool {
    ids => Admissible(tm, ready, ids)
  }

  function KeyOf(tm: TaskMap): seq<string> -> (int, int) {
    ids => Key(Order(tm, ids))
  }

  ghost function IsCorrect(tm: TaskMap, ready: set<string>): (seq<string>, Plan) -> bool {
    (ids, plan) => PlanCorrect(tm, ready, ids, plan)
  }

  lemma OrderKeyNonNegative(tm: TaskMap, ids: seq<string>)
    requires Loaded(tm) && forall id | id in ids :: id in tm
    ensures Hours(Order(tm, ids)) >= |ids|
  {
    var order := Order(tm, ids);
    forall t | t in order ensures t.duration >= 1 {
      var i :| 0 <= i < |order| && order[i] == t;
      assert ids[i] in ids;
    }
    HoursNonNegative(order);
  }

  method Consider(tm: TaskMap, ready: set<string>, order: seq<Task>, ghost tried: set<seq<string>>,
                  bestKey: (int, int), plans: map<seq<string>, Plan>)
    returns (bestKey': (int, int), plans': map<seq<string>, Plan>)
    requires Loaded(tm) && Candidate(tm, ready, Ids(order)) && Order(tm, Ids(order)) == order
    requires BestOf(IsAdmissible(tm, ready), KeyOf(tm), IsCorrect(tm, ready), tried, bestKey, plans)
    ensures BestOf(IsAdmissible(tm, ready), KeyOf(tm), IsCorrect(tm, ready), tried + {Ids(order)}, bestKey', plans')
  {
    bestKey', plans' := bestKey, plans;
    var planKey := Ids(order);
    var scheduled := ScheduleOrder(order);
    if scheduled.None? {
      TryPlan(IsAdmissible(tm, ready), KeyOf(tm), IsCorrect(tm, ready), tried, bestKey, plans, planKey,
              Plan([], [], 0));
      return;
    }
    var totalHours := Hours(order);
    var key := (totalHours, |order|);
    var rows := Unscheduled(tm, ready, planKey);
    var plan := Plan(scheduled.value, rows, totalHours);
    OrderKeyNonNegative(tm, planKey);
    TryPlan(IsAdmissible(tm, ready), KeyOf(tm), IsCorrect(tm, ready), tried, bestKey, plans, planKey, plan);
    if KeyLess(bestKey', key) {
      bestKey' := key;
      plans' := map[];
    }
    if key == bestKey' && planKey !in plans' {
      plans' := plans'[planKey := plan];
      assert planKey in plans';
    }
  }

  ghost predicate AllTried(orders: seq<seq<Task>>, n: nat, tried: set<seq<string>>) {
    n <= |orders| && forall i | 0 <= i < n :: Ids(orders[i]) in tried
  }

  lemma AllTriedStep(orders: seq<seq<Task>>, n: nat, tried: set<seq<string>>)
    requires AllTried(orders, n, tried) && n < |orders|
    ensures AllTried(orders, n + 1, tried + {Ids(orders[n])})
  {
  }

  // One size of the search: every order of that size is tried.
  method TrySize(tm: TaskMap, ready: set<string>, ids: seq<string>, size: nat, ghost tried: set<seq<string>>,
                 bestKey: (int, int), plans: map<seq<string>, Plan>)
    returns (bestKey': (int, int), plans': map<seq<string>, Plan>, ghost tried': set<seq<string>>)
    requires Loaded(tm) && SortedListing(AvailableSet(tm, ready), ids)
    requires BestOf(IsAdmissible(tm, ready), KeyOf(tm), IsCorrect(tm, ready), tried, bestKey, plans)
    ensures BestOf(IsAdmissible(tm, ready), KeyOf(tm), IsCorrect(tm, ready), tried', bestKey', plans')
    ensures tried <= tried' && forall c | Candidate(tm, ready, c) && |c| == size :: c in tried'
  {
    bestKey', plans', tried' := bestKey, plans, tried;
    var orders := Permutations(Order(tm, ids), size);
    for k := 0 to |orders|
      invariant BestOf(IsAdmissible(tm, ready), KeyOf(tm), IsCorrect(tm, ready), tried', bestKey', plans')
      invariant tried <= tried' && AllTried(orders, k, tried')
    {
      assert orders[k] in orders;
      VisitedIsCandidate(tm, ready, ids, size, orders[k]);
      bestKey', plans' := Consider(tm, ready, orders[k], tried', bestKey', plans');
      AllTriedStep(orders, k, tried');
      tried' := tried' + {Ids(orders[k])};
    }
    forall c | Candidate(tm, ready, c) && |c| == size ensures c in tried' {
      var i := CandidateIsVisited(tm, ready, ids, size, orders, c);
      assert Ids(orders[i]) in tried';
    }
  }

  lemma VisitedIsCandidate(tm: TaskMap, ready: set<string>, ids: seq<string>, size: nat, order: seq<Task>)
    requires Loaded(tm) && SortedListing(AvailableSet(tm, ready), ids)
    requires order in Permutations(Order(tm, ids), size)
    ensures Candidate(tm, ready, Ids(order)) && Order(tm, Ids(order)) == order && |order| == size
  {
    CandidatesAreArrangements(tm, ready, ids, []);
    PermutationsExact(Order(tm, ids), size, order);
    ArrangementsAreCandidates(tm, ready, ids, order);
  }

  lemma CandidateIsVisited(tm: TaskMap, ready: set<string>, ids: seq<string>, size: nat, orders: seq<seq<Task>>,
                           c: seq<string>) returns (i: nat)
    requires Loaded(tm) && SortedListing(AvailableSet(tm, ready), ids)
    requires orders == Permutations(Order(tm, ids), size) && Candidate(tm, ready, c) && |c| == size
    ensures i < |orders| && Ids(orders[i]) == c
  {
    CandidatesAreArrangements(tm, ready, ids, c);
    PermutationsExact(Order(tm, ids), size, Order(tm, c));
    i :| 0 <= i < |orders| && orders[i] == Order(tm, c);
  }

  method BlockedRows(tm: TaskMap, ready: set<string>) returns (rows: seq<BlockedRow>)
    ensures BlockedExact(tm, ready, rows)
  {
    var ids := SortedKeys(BlockedSet(tm, ready));
    SortedListingFacts(BlockedSet(tm, ready), ids);
    forall i | 0 <= i < |ids| ensures ids[i] in tm { assert ids[i] in ids; }
    rows := seq(|ids|, i requires 0 <= i < |ids| => BlockedRow(ids[i], "skill_unavailable", tm[ids[i]].skill));
    assert BlockedIds(rows) == ids;
  }

  method DeriveExpected(tm: TaskMap, ready: set<string>) returns (e: Expected)
    requires Loaded(tm)
    ensures BlockedExact(tm, ready, e.blocked)
    ensures forall ids :: ids in e.optimalPlans <==> Optimal(tm, ready, ids)
    ensures forall ids | ids in e.optimalPlans ::
              PlanCorrect(tm, ready, ids, e.optimalPlans[ids]) && e.optimalPlans[ids].totalHours == e.optimalTotalHours
    ensures e.optimalPlans != map[]
  {
    var blocked := BlockedRows(tm, ready);
    var ids := SortedKeys(AvailableSet(tm, ready));
    var bestKey := (-1, -1);
    var plans: map<seq<string>, Plan> := map[];
    ghost var tried: set<seq<string>> := {};
    for size := 0 to |ids| + 1
      invariant BestOf(IsAdmissible(tm, ready), KeyOf(tm), IsCorrect(tm, ready), tried, bestKey, plans)
      invariant forall c | Candidate(tm, ready, c) && |c| < size :: c in tried
    {
      bestKey, plans, tried := TrySize(tm, ready, ids, size, tried, bestKey, plans);
    }
    forall c | Candidate(tm, ready, c) ensures c in tried { CandidatesAreArrangements(tm, ready, ids, c); }

    // The fallback for "no plan at all" is dead: the empty order always fits.
    EmptyOrderFits(tm, ready, tried, bestKey, plans);
    if bestKey == (-1, -1) {
      bestKey := (0, 0);
      plans := plans[[] := Plan([], [], 0)];
    }
    PlansAreOptimal(tm, ready, tried, bestKey, plans);
    e := Expected(blocked, bestKey.0, plans);
  }

  lemma EmptyOrderFits(tm: TaskMap, ready: set<string>, tried: set<seq<string>>, bestKey: (int, int),
                       plans: map<seq<string>, Plan>)
    requires BestOf(IsAdmissible(tm, ready), KeyOf(tm), IsCorrect(tm, ready), tried, bestKey, plans) && [] in tried
    ensures bestKey != (-1, -1) && plans != map[]
  {
    assert Timetable(Order(tm, []), []);
    assert IsAdmissible(tm, ready)([]) && KeyOf(tm)([]) == (0, 0);
  }

  lemma PlansAreOptimal(tm: TaskMap, ready: set<string>, tried: set<seq<string>>, bestKey: (int, int),
                        plans: map<seq<string>, Plan>)
    requires BestOf(IsAdmissible(tm, ready), KeyOf(tm), IsCorrect(tm, ready), tried, bestKey, plans) && plans != map[]
    requires forall c | Candidate(tm, ready, c) :: c in tried
    ensures forall ids :: ids in plans <==> Optimal(tm, ready, ids)
    ensures forall ids | ids in plans :: PlanCorrect(tm, ready, ids, plans[ids]) && plans[ids].totalHours == bestKey.0
  {
    BestOfAll(IsAdmissible(tm, ready), KeyOf(tm), IsCorrect(tm, ready), tried, bestKey, plans);
    forall ids | ids in plans
      ensures Optimal(tm, ready, ids) && PlanCorrect(tm, ready, ids, plans[ids]) && plans[ids].totalHours == bestKey.0
    {
      assert IsAdmissible(tm, ready)(ids) && IsCorrect(tm, ready)(ids, plans[ids]) && KeyOf(tm)(ids) == bestKey;
      forall other | Admissible(tm, ready, other) ensures !KeyLess(Key(Order(tm, ids)), Key(Order(tm, other))) {
        assert other in tried && IsAdmissible(tm, ready)(other);
        assert !KeyLess(KeyOf(tm)(ids), KeyOf(tm)(other));
      }
    }
    forall ids | Optimal(tm, ready, ids) ensures ids in plans {
      assert ids in tried && IsAdmissible(tm, ready)(ids);
      forall c | c in plans ensures !KeyLess(KeyOf(tm)(ids), KeyOf(tm)(c)) {
        assert IsAdmissible(tm, ready)(c);
      }
    }
  }

  // ----- the validator

  datatype SubmittedRow = NotARow | Row(id: string, start: Option<int>, end: Option<int>)
  datatype Submission = NotAList | RowList(rows: seq<SubmittedRow>)

  datatype Detail =
    | ScheduledIds(ids: seq<string>)
    | NotListed
    | NotObject
    | Unknown(id: string)
    | Duplicate(id: string)
    | Blocked(id: string)
    | BadTimes(id: string)
    | DurationMismatch(id: string)
    | WindowViolation(id: string)
    | Overlap(id: string)

  // One row on its own: a ready task, of its full duration, inside its window.
  ghost predicate RowFits(tm: TaskMap, ready: set<string>, r: SubmittedRow) {
    && r.Row? && r.id in tm && tm[r.id].skill in ready && r.start.Some? && r.end.Some?
    && r.end.value - r.start.value == Length(tm[r.id])
    && tm[r.id].earliest <= r.start.value && r.end.value <= tm[r.id].deadline
  }

  ghost predicate ValidRows(tm: TaskMap, ready: set<string>, rows: seq<SubmittedRow>) {
    && (forall i | 0 <= i < |rows| :: RowFits(tm, ready, rows[i]))
    && (forall i, j | 0 <= i < j < |rows| :: rows[i].id != rows[j].id)
    && (forall i | 0 < i < |rows| :: rows[i - 1].end.value <= rows[i].start.value)
  }

  function RowIds(rows: seq<SubmittedRow>): seq<string> {
    seq(|rows|, i requires 0 <= i < |rows| => if rows[i].Row? then rows[i].id else "")
  }

  function EndBefore(rows: seq<SubmittedRow>, i: nat): Option<int> {
    if 0 < i <= |rows| && rows[i - 1].Row? then rows[i - 1].end else None
  }

  // The detail names the fault of row i that the source looks for first.
  ghost predicate Explains(tm: TaskMap, ready: set<string>, rows: seq<SubmittedRow>, i: nat, d: Detail)
    requires i < |rows|
  {
    var r := rows[i];
    match d
    case NotObject => r.NotARow?
    case Unknown(id) => r.Row? && r.id == id && id !in tm
    case Duplicate(id) => r.Row? && r.id == id && id in tm && id in RowIds(rows[..i])
    case Blocked(id) => NewTask(tm, rows, i, id) && tm[id].skill !in ready
    case BadTimes(id) => NewTask(tm, rows, i, id) && tm[id].skill in ready && (r.start.None? || r.end.None?)
    case DurationMismatch(id) => TimedTask(tm, ready, rows, i, id) && r.end.value - r.start.value != Length(tm[id])
    case WindowViolation(id) => TimedTask(tm, ready, rows, i, id) && r.end.value - r.start.value == Length(tm[id])
      && (r.start.value < tm[id].earliest || r.end.value > tm[id].deadline)
    case Overlap(id) => r.Row? && r.id == id && id !in RowIds(rows[..i]) && RowFits(tm, ready, r)
      && EndBefore(rows, i).Some? && r.start.value < EndBefore(rows, i).value
    case _ => false
  }

  ghost predicate NewTask(tm: TaskMap, rows: seq<SubmittedRow>, i: nat, id: string) {
    i < |rows| && rows[i].Row? && rows[i].id == id && id in tm && id !in RowIds(rows[..i])
  }

  ghost predicate TimedTask(tm: TaskMap, ready: set<string>, rows: seq<SubmittedRow>, i: nat, id: string) {
    NewTask(tm, rows, i, id) && tm[id].skill in ready && rows[i].start.Some? && rows[i].end.Some?
  }

  // The first row that spoils the list, and why.
  ghost predicate FirstFault(tm: TaskMap, ready: set<string>, rows: seq<SubmittedRow>, d: Detail) {
    exists i: nat :: FaultAt(tm, ready, rows, i, d)
  }

  ghost predicate FaultAt(tm: TaskMap, ready: set<string>, rows: seq<SubmittedRow>, i: nat, d: Detail) {
    && i < |rows| && ValidRows(tm, ready, rows[..i]) && !ValidRows(tm, ready, rows[..i + 1])
    && Explains(tm, ready, rows, i, d)
  }

  method ValidateScheduledRows(sub: Submission, tm: TaskMap, ready: set<string>)
    returns (ok: bool, detail: Detail, ids: seq<string>, hours: int)
    ensures ok <==> sub.RowList? && ValidRows(tm, ready, sub.rows)
    ensures ok ==> detail == ScheduledIds(ids) && ids == RowIds(sub.rows) && hours == Hours(Order(tm, ids))
    ensures !ok ==> ids == [] && hours == 0
    ensures sub.NotAList? ==> detail == NotListed
    ensures sub.RowList? && !ok ==> FirstFault(tm, ready, sub.rows, detail)
  {
    if sub.NotAList? {
      return false, NotListed, [], 0;
    }
    var rows := sub.rows;
    var previousEnd: Option<int> := None;
    var seenIds: set<string> := {};
    ids, hours := [], 0;
    for i := 0 to |rows|
      invariant ValidRows(tm, ready, rows[..i])
      invariant previousEnd == EndBefore(rows, i)
      invariant ids == RowIds(rows[..i]) && seenIds == Elements(ids) && hours == Hours(Order(tm, ids))
    {
      var fault := RowFault(tm, ready, rows, i, seenIds, previousEnd);
      if fault.Some? {
        assert FaultAt(tm, ready, rows, i, fault.value);
        InvalidPrefix(tm, ready, rows, i + 1);
        return false, fault.value, [], 0;
      }
      previousEnd := rows[i].end;
      NextId(tm, rows, i);
      ids := ids + [rows[i].id];
      seenIds := seenIds + {rows[i].id};
      hours := hours + tm[rows[i].id].duration;
    }
    assert rows[..|rows|] == rows;
    return true, ScheduledIds(ids), ids, hours;
  }

  lemma NextId(tm: TaskMap, rows: seq<SubmittedRow>, i: nat)
    requires i < |rows| && rows[i].Row?
    ensures RowIds(rows[..i + 1]) == RowIds(rows[..i]) + [rows[i].id]
    ensures Elements(RowIds(rows[..i + 1])) == Elements(RowIds(rows[..i])) + {rows[i].id}
    ensures Hours(Order(tm, RowIds(rows[..i + 1]))) ==
            Hours(Order(tm, RowIds(rows[..i]))) + Lookup(tm, rows[i].id).duration
  {
    var before, after := RowIds(rows[..i]), RowIds(rows[..i + 1]);
    assert after == before + [rows[i].id];
    AppendElements(before, rows[i].id);
    assert Order(tm, after)[..i] == Order(tm, before);
  }

  lemma InvalidPrefix(tm: TaskMap, ready: set<string>, rows: seq<SubmittedRow>, n: nat)
    requires n <= |rows| && !ValidRows(tm, ready, rows[..n])
    ensures !ValidRows(tm, ready, rows)
  {
    if ValidRows(tm, ready, rows) { PrefixStaysValid(tm, ready, rows, n); }
  }

  lemma PrefixStaysValid(tm: TaskMap, ready: set<string>, rows: seq<SubmittedRow>, n: nat)
    requires n <= |rows| && ValidRows(tm, ready, rows)
    ensures ValidRows(tm, ready, rows[..n])
  {
  }

  // A list has at most one first fault, and at most one detail describes it.
  lemma FaultUnique(tm: TaskMap, ready: set<string>, rows: seq<SubmittedRow>, i: nat, d: Detail, j: nat, e: Detail)
    requires FaultAt(tm, ready, rows, i, d) && FaultAt(tm, ready, rows, j, e)
    ensures i == j && d == e
  {
    ShorterStaysValid(tm, ready, rows, i);
    ShorterStaysValid(tm, ready, rows, j);
  }

  lemma ShorterStaysValid(tm: TaskMap, ready: set<string>, rows: seq<SubmittedRow>, m: nat)
    requires m <= |rows| && ValidRows(tm, ready, rows[..m])
    ensures forall n | 0 <= n <= m :: ValidRows(tm, ready, rows[..n])
  {
    forall n | 0 <= n <= m ensures ValidRows(tm, ready, rows[..n]) {
      assert rows[..m][..n] == rows[..n];
      PrefixStaysValid(tm, ready, rows[..m], n);
    }
  }

  // The checks on one row, in the order the validator makes them.
  method RowFault(tm: TaskMap, ready: set<string>, rows: seq<SubmittedRow>, i: nat,
                  seenIds: set<string>, previousEnd: Option<int>)
    returns (fault: Option<Detail>)
    requires i < |rows| && ValidRows(tm, ready, rows[..i]) && seenIds == Elements(RowIds(rows[..i]))
    requires previousEnd == EndBefore(rows, i)
    ensures fault.None? <==> ValidRows(tm, ready, rows[..i + 1])
    ensures fault.Some? ==> Explains(tm, ready, rows, i, fault.value)
  {
    ghost var before, upTo := rows[..i], rows[..i + 1];
    assert upTo == before + [rows[i]];
    assert upTo[i] == rows[i];
    assert forall k | 0 <= k < i :: upTo[k] == before[k] == rows[k];
    if rows[i].NotARow? { return Some(NotObject); }
    var id := rows[i].id;
    if id !in tm { return Some(Unknown(id)); }
    if id in seenIds {
      ghost var k :| 0 <= k < |RowIds(before)| && RowIds(before)[k] == id;
      assert upTo[k].id == upTo[i].id;
      return Some(Duplicate(id));
    }
    forall k | 0 <= k < i ensures upTo[k].id != id {
      assert RowFits(tm, ready, before[k]);
      assert RowIds(before)[k] in RowIds(before);
    }
    var task := tm[id];
    if task.skill !in ready { return Some(Blocked(id)); }
    if rows[i].start.None? || rows[i].end.None? { return Some(BadTimes(id)); }
    var start, end := rows[i].start.value, rows[i].end.value;
    if end - start != HOUR * task.duration { return Some(DurationMismatch(id)); }
    if start < task.earliest || end > task.deadline { return Some(WindowViolation(id)); }
    if previousEnd.Some? && start < previousEnd.value {
      assert RowFits(tm, ready, before[i - 1]);
      return Some(Overlap(id));
    }
    return None;
  }

  // ----- validator and oracle agree

  function RowsOf(slots: seq<Slot>): seq<SubmittedRow> {
    seq(|slots|, i requires 0 <= i < |slots| => Row(slots[i].id, Some(slots[i].start), Some(slots[i].end)))
  }

  function SlotsOf(rows: seq<SubmittedRow>): seq<Slot> {
    seq(|rows|, i requires 0 <= i < |rows| =>
      if rows[i].Row? && rows[i].start.Some? && rows[i].end.Some?
      then Slot(rows[i].id, rows[i].start.value, rows[i].end.value) else Slot("", 0, 0))
  }

  // Every valid submission, with whatever gaps, is an order the oracle finds feasible.
  lemma ValidRowsAreAdmissible(tm: TaskMap, ready: set<string>, rows: seq<SubmittedRow>)
    requires Loaded(tm) && ValidRows(tm, ready, rows)
    ensures Admissible(tm, ready, RowIds(rows)) && Timetable(Order(tm, RowIds(rows)), SlotsOf(rows))
  {
    var ids := RowIds(rows);
    forall i | 0 <= i < |rows| ensures RowFits(tm, ready, rows[i]) && ids[i] == rows[i].id == SlotsOf(rows)[i].id {}
    assert Timetable(Order(tm, ids), SlotsOf(rows));
  }

  // Left-shift dominance: a stored plan for the submitted order runs every task
  // no later than the submission does.
  lemma StoredPlanDominates(tm: TaskMap, ready: set<string>, rows: seq<SubmittedRow>, plan: Plan, i: nat)
    requires Loaded(tm) && ValidRows(tm, ready, rows) && i < |rows|
    requires PlanCorrect(tm, ready, RowIds(rows), plan)
    ensures i < |plan.scheduled| && plan.scheduled[i].id == rows[i].id
    ensures plan.scheduled[i].start <= rows[i].start.value && plan.scheduled[i].end <= rows[i].end.value
  {
    ValidRowsAreAdmissible(tm, ready, rows);
    assert NoLater(plan.scheduled, SlotsOf(rows));
    assert RowFits(tm, ready, rows[i]);
  }

  // Every timetable of an admissible order, the stored one included, passes the validator.
  lemma TimetablesAreValid(tm: TaskMap, ready: set<string>, ids: seq<string>, slots: seq<Slot>)
    requires Loaded(tm) && Candidate(tm, ready, ids) && Timetable(Order(tm, ids), slots)
    ensures ValidRows(tm, ready, RowsOf(slots)) && RowIds(RowsOf(slots)) == ids
  {
    var rows := RowsOf(slots);
    forall i | 0 <= i < |rows| ensures RowFits(tm, ready, rows[i]) && rows[i].id == ids[i] {
      assert ids[i] in ids;
      assert Order(tm, ids)[i] == tm[ids[i]];
    }
  }

  ghost predicate RowIs(tm: TaskMap, ready: set<string>, r: SubmittedRow, id: string, start: int, end: int) {
    && r == Row(id, Some(start), Some(end)) && id in tm && tm[id].skill in ready
    && end == start + 3_600_000_000 * tm[id].duration && tm[id].earliest <= start && end <= tm[id].deadline
  }

  ghost predicate FullRow(tm: TaskMap, ready: set<string>, r: SubmittedRow) {
    exists id, start, end :: RowIs(tm, ready, r, id, start, end)
  }

  lemma FitsIffFull(tm: TaskMap, ready: set<string>, r: SubmittedRow)
    ensures RowFits(tm, ready, r) <==> FullRow(tm, ready, r)
  {
    if RowFits(tm, ready, r) { assert RowIs(tm, ready, r, r.id, r.start.value, r.end.value); }
  }

  // What a list of rows is valid for, in the rows' and the tasks' own fields.
  lemma ValidRowsIff(tm: TaskMap, ready: set<string>, rows: seq<SubmittedRow>)
    ensures ValidRows(tm, ready, rows) <==>
      && (forall i | 0 <= i < |rows| :: FullRow(tm, ready, rows[i]))
      && (forall i, j | 0 <= i < j < |rows| :: rows[i].id != rows[j].id)
      && (forall i | 0 < i < |rows| :: rows[i - 1].end.value <= rows[i].start.value)
  {
    forall i | 0 <= i < |rows| ensures RowFits(tm, ready, rows[i]) <==> FullRow(tm, ready, rows[i]) {
      FitsIffFull(tm, ready, rows[i]);
    }
  }

  // The hours of a list of rows.
  function RowHours(tm: TaskMap, rows: seq<SubmittedRow>): int { Hours(Order(tm, RowIds(rows))) }

  // A valid submission with no valid submission of more hours, or of as many
  // hours and more rows.
  ghost predicate BestValid(tm: TaskMap, ready: set<string>, rows: seq<SubmittedRow>) {
    && ValidRows(tm, ready, rows)
    && forall other | ValidRows(tm, ready, other) ::
         || RowHours(tm, other) < RowHours(tm, rows)
         || (RowHours(tm, other) == RowHours(tm, rows) && |other| <= |rows|)
  }

  lemma BestValidIffOptimal(tm: TaskMap, ready: set<string>, rows: seq<SubmittedRow>)
    requires Loaded(tm) && ValidRows(tm, ready, rows)
    ensures BestValid(tm, ready, rows) <==> Optimal(tm, ready, RowIds(rows))
  {
    ValidRowsAreAdmissible(tm, ready, rows);
    if Optimal(tm, ready, RowIds(rows)) {
      forall other | ValidRows(tm, ready, other)
        ensures RowHours(tm, other) < RowHours(tm, rows) ||
                (RowHours(tm, other) == RowHours(tm, rows) && |other| <= |rows|)
      {
        ValidRowsAreAdmissible(tm, ready, other);
        assert |RowIds(other)| == |other|;
      }
    }
    if BestValid(tm, ready, rows) {
      var hours := RowHours(tm, rows);
      forall other | Admissible(tm, ready, other)
        ensures Hours(Order(tm, other)) < hours || (Hours(Order(tm, other)) == hours && |other| <= |rows|)
      {
        var slots :| Timetable(Order(tm, other), slots);
        TimetablesAreValid(tm, ready, other, slots);
        assert RowHours(tm, RowsOf(slots)) == Hours(Order(tm, other));
      }
    }
  }

  datatype Payload = Payload(blocked: seq<BlockedRow>, scheduled: Submission, unschedulable: seq<LeftRow>,
                             totalHours: Option<int>)

  datatype Grades = Grades(blockedOk: bool, feasible: bool, isOptimal: bool, unschedulableOk: bool, totalHoursOk: bool)

  // The graded decisions, against a meaning that mentions neither the search
  // nor the greedy placement.
  method Grade(tm: TaskMap, ready: set<string>, payload: Payload) returns (g: Grades)
    requires Loaded(tm)
    ensures g.blockedOk <==> BlockedExact(tm, ready, payload.blocked)
    ensures g.feasible <==> payload.scheduled.RowList? && ValidRows(tm, ready, payload.scheduled.rows)
    ensures g.isOptimal <==> payload.scheduled.RowList? && BestValid(tm, ready, payload.scheduled.rows)
    ensures g.unschedulableOk <==>
              g.isOptimal && LeftExact(tm, ready, RowIds(payload.scheduled.rows), payload.unschedulable)
    ensures g.totalHoursOk <==>
              g.isOptimal && payload.totalHours == Some(RowHours(tm, payload.scheduled.rows))
  {
    var expected := DeriveExpected(tm, ready);
    var blockedOk := payload.blocked == expected.blocked;
    if BlockedExact(tm, ready, payload.blocked) {
      BlockedUnique(tm, ready, payload.blocked, expected.blocked);
    }
    var feasible, detail, orderedIds, actualTotalHours := ValidateScheduledRows(payload.scheduled, tm, ready);
    var isOptimal := feasible && orderedIds in expected.optimalPlans;
    var expectedUnschedulable :=
      if orderedIds in expected.optimalPlans then expected.optimalPlans[orderedIds].unschedulable else [];
    var unschedulableOk := isOptimal && payload.unschedulable == expectedUnschedulable;
    var totalHoursOk := isOptimal && payload.totalHours.Some?
      && payload.totalHours.value == actualTotalHours && actualTotalHours == expected.optimalTotalHours;
    if feasible {
      BestValidIffOptimal(tm, ready, payload.scheduled.rows);
      if isOptimal {
        assert PlanCorrect(tm, ready, orderedIds, expected.optimalPlans[orderedIds]);
        if LeftExact(tm, ready, orderedIds, payload.unschedulable) {
          LeftUnique(tm, ready, orderedIds, payload.unschedulable, expectedUnschedulable);
        }
      }
    }
    return Grades(blockedOk, feasible, isOptimal, unschedulableOk, totalHoursOk);
  }

  // Blocked, scheduled and unschedulable ids split the task map between them.
  lemma PartitionOfTasks(tm: TaskMap, ready: set<string>, ids: seq<string>, plan: Plan, blocked: seq<BlockedRow>)
    requires PlanCorrect(tm, ready, ids, plan) && BlockedExact(tm, ready, blocked)
    ensures Elements(BlockedIds(blocked)) + Elements(ids) + Elements(LeftIds(plan.unschedulable)) == tm.Keys
    ensures Elements(BlockedIds(blocked)) !! Elements(ids) !! Elements(LeftIds(plan.unschedulable))
    ensures |blocked| + |ids| + |plan.unschedulable| == |tm|
  {
    var b, l := BlockedIds(blocked), LeftIds(plan.unschedulable);
    SortedListingFacts(BlockedSet(tm, ready), b);
    SortedListingFacts(LeftSet(tm, ready, ids), l);
    DistinctSize(ids);
    SetsPartition(tm, ready, ids);
    assert |tm| == |tm.Keys|;
  }

  lemma SetsPartition(tm: TaskMap, ready: set<string>, ids: seq<string>)
    requires Candidate(tm, ready, ids)
    ensures BlockedSet(tm, ready) + Elements(ids) + LeftSet(tm, ready, ids) == tm.Keys
    ensures BlockedSet(tm, ready) !! Elements(ids) !! LeftSet(tm, ready, ids)
    ensures |tm.Keys| == |BlockedSet(tm, ready)| + |Elements(ids)| + |LeftSet(tm, ready, ids)|
  {
    assert tm.Keys == BlockedSet(tm, ready) + Elements(ids) + LeftSet(tm, ready, ids);
  }

  function Inserted(ids: seq<string>, id: string, at: nat): seq<string>
    requires at <= |ids|
  {
    ids[..at] + [id] + ids[at..]
  }

  lemma InsertedIsCandidate(tm: TaskMap, ready: set<string>, ids: seq<string>, id: string, at: nat)
    requires Candidate(tm, ready, ids) && id in tm && tm[id].skill in ready && id !in ids && at <= |ids|
    ensures Candidate(tm, ready, Inserted(ids, id, at))
  {
    var more := Inserted(ids, id, at);
    forall k | 0 <= k < |more| ensures more[k] == if k < at then ids[k] else if k == at then id else ids[k - 1] {}
    forall x | x in more ensures x == id || x in ids {}
  }

  lemma InsertedHours(tm: TaskMap, ids: seq<string>, id: string, at: nat)
    requires at <= |ids|
    ensures Hours(Order(tm, Inserted(ids, id, at))) == Hours(Order(tm, ids)) + Lookup(tm, id).duration
  {
    var before, one, after := Order(tm, ids[..at]), [Lookup(tm, id)], Order(tm, ids[at..]);
    assert Order(tm, Inserted(ids, id, at)) == before + one + after;
    assert Order(tm, ids) == before + after;
    HoursConcat(before, after);
    HoursConcat(before + one, after);
    HoursConcat(before, one);
    assert one[..0] == [];
  }

  // No task left out of an optimal plan fits anywhere into its order.
  lemma OptimalIsMaximal(tm: TaskMap, ready: set<string>, ids: seq<string>, id: string, at: nat)
    requires Loaded(tm) && Optimal(tm, ready, ids)
    requires id in tm && tm[id].skill in ready && id !in ids && at <= |ids|
    ensures !Feasible(Order(tm, Inserted(ids, id, at)))
  {
    InsertedIsCandidate(tm, ready, ids, id, at);
    InsertedHours(tm, ids, id, at);
    assert KeyLess(Key(Order(tm, ids)), Key(Order(tm, Inserted(ids, id, at))));
  }
}
