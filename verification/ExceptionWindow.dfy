// constraints_12: one task per required hour, freeze windows and start limits,
// and a dependent task that loses value unless its dependency ran before it.
module ExceptionWindow {
  import opened Orders
  import opened Enumeration
  import opened Search

  datatype Task = Task(value: int, valueIfMissing: int, dependsOn: string, earliestStart: Option<int>,
                       mustStartBefore: Option<int>, scope: string)

  type TaskMap = map<string, Task>

  // Which task runs at which hour.
  type Assignment = map<int, string>

  method TaskAllowedAtHour(task: Task, freezeHours: set<int>, hour: int) returns (allowed: bool)
    ensures allowed <==> Allowed(task, freezeHours, hour)
  {
    if task.earliestStart.Some? && hour < task.earliestStart.value { return false; }
    if task.mustStartBefore.Some? && hour >= task.mustStartBefore.value { return false; }
    if task.scope == "external" && hour in freezeHours { return false; }
    return true;
  }

  // From the earliest start on, before the start limit, and not in a freeze if external.
  ghost predicate Allowed(task: Task, freezeHours: set<int>, hour: int) {
    && (task.earliestStart.Some? ==> task.earliestStart.value <= hour)
    && (task.mustStartBefore.Some? ==> hour < task.mustStartBefore.value)
    && (task.scope == "external" ==> hour !in freezeHours)
  }

  ghost predicate Injective(f: Assignment) {
    forall g, h | g in f && h in f && f[g] == f[h] :: g == h
  }

  // Full value when there is no dependency or it runs at a strictly earlier hour.
  ghost predicate DependencyMet(task: Task, f: Assignment, hour: int) {
    task.dependsOn == "" || exists h :: h in f && f[h] == task.dependsOn && h < hour
  }

  ghost function ValueAt(tm: TaskMap, f: Assignment, name: string, hour: int): int {
    if name !in tm then 0
    else if DependencyMet(tm[name], f, hour) then tm[name].value else tm[name].valueIfMissing
  }

  // `items` is the order in which the dict of assigned hours iterates.
  method ValueAtExecution(tm: TaskMap, name: string, f: Assignment, items: seq<int>, hour: int) returns (value: int)
    requires name in tm && Injective(f) && Elements(items) == f.Keys
    ensures value == ValueAt(tm, f, name, hour)
  {
    var task := tm[name];
    if task.dependsOn != "" {
      var dependencyHour: Option<int> := None;
      assert forall k | 0 <= k < |items| :: items[k] in Elements(items);
      for k := 0 to |items|
        invariant dependencyHour.None?
        invariant forall j | 0 <= j < k :: f[items[j]] != task.dependsOn
      {
        if f[items[k]] == task.dependsOn {
          dependencyHour := Some(items[k]);
          break;
        }
      }
      assert dependencyHour.None? ==> forall h | h in f :: f[h] != task.dependsOn by {
        assert forall h | h in f :: h in Elements(items);
      }
      if dependencyHour.None? || dependencyHour.value >= hour {
        return task.valueIfMissing;
      }
    }
    return task.value;
  }

  // Each required hour is assigned the task at its place in the sequence; a
  // repeated hour keeps the last one.
  function Assigned(hours: seq<int>, sequence: seq<string>): Assignment
    requires |hours| == |sequence|
  {
    if hours == [] then map[]
    else Assigned(hours[..|hours| - 1], sequence[..|hours| - 1])[hours[|hours| - 1] := sequence[|hours| - 1]]
  }

  // The index whose task the hour keeps.
  ghost predicate LastAt(hours: seq<int>, hour: int, i: int) {
    0 <= i < |hours| && hours[i] == hour && forall j | i < j < |hours| :: hours[j] != hour
  }

  lemma {:induction false} AssignedExact(hours: seq<int>, sequence: seq<string>)
    requires |hours| == |sequence|
    ensures Assigned(hours, sequence).Keys == Elements(hours)
    ensures forall h | h in Assigned(hours, sequence) ::
        exists i :: LastAt(hours, h, i) && Assigned(hours, sequence)[h] == sequence[i]
  {
    if hours != [] {
      var n := |hours| - 1;
      var f, shorter := Assigned(hours, sequence), Assigned(hours[..n], sequence[..n]);
      AssignedExact(hours[..n], sequence[..n]);
      assert hours == hours[..n] + [hours[n]];
      AppendElements(hours[..n], hours[n]);
      forall h | h in f ensures exists i :: LastAt(hours, h, i) && f[h] == sequence[i] {
        if h == hours[n] {
          assert LastAt(hours, h, n);
        } else {
          var i :| LastAt(hours[..n], h, i) && shorter[h] == sequence[..n][i];
          assert LastAt(hours, h, i);
        }
      }
    }
  }

  lemma AssignedInjective(hours: seq<int>, sequence: seq<string>)
    requires |hours| == |sequence| && Distinct(sequence)
    ensures Injective(Assigned(hours, sequence))
  {
    var f := Assigned(hours, sequence);
    AssignedExact(hours, sequence);
    forall g, h | g in f && h in f && f[g] == f[h] ensures g == h {
      var i :| LastAt(hours, g, i) && f[g] == sequence[i];
      var j :| LastAt(hours, h, j) && f[h] == sequence[j];
      assert i == j;
    }
  }

  // ----- scoring

  datatype SlotRow = SlotRow(hour: int, task: string, value: int)

  function TaskAt(f: Assignment, hour: int): string {
    if hour in f then f[hour] else ""
  }

  ghost predicate Covers(tm: TaskMap, hours: seq<int>, f: Assignment) {
    forall h | h in hours :: h in f && f[h] in tm
  }

  // The value of a whole assignment: the sum over the required hours.
  ghost function TotalValue(tm: TaskMap, hours: seq<int>, f: Assignment): int {
    if hours == [] then 0
    else
      var n := |hours| - 1;
      TotalValue(tm, hours[..n], f) + ValueAt(tm, f, TaskAt(f, hours[n]), hours[n])
  }

  ghost function RowAt(tm: TaskMap, f: Assignment, hour: int): SlotRow {
    SlotRow(hour, TaskAt(f, hour), ValueAt(tm, f, TaskAt(f, hour), hour))
  }

  ghost predicate SlotPlanOf(tm: TaskMap, hours: seq<int>, f: Assignment, rows: seq<SlotRow>) {
    |rows| == |hours| && forall i | 0 <= i < |hours| :: rows[i] == RowAt(tm, f, hours[i])
  }

  lemma NextRow(tm: TaskMap, hours: seq<int>, f: Assignment, rows: seq<SlotRow>, i: nat)
    requires i < |hours| && SlotPlanOf(tm, hours[..i], f, rows)
    ensures SlotPlanOf(tm, hours[..i + 1], f, rows + [RowAt(tm, f, hours[i])])
    ensures TotalValue(tm, hours[..i + 1], f) == TotalValue(tm, hours[..i], f) + RowAt(tm, f, hours[i]).value
  {
    assert hours[..i + 1][..i] == hours[..i];
  }

  function TaskKey(rows: seq<SlotRow>): seq<string> { seq(|rows|, i requires 0 <= i < |rows| => rows[i].task) }

  // The tasks in hour order.
  function TasksOf(hours: seq<int>, f: Assignment): seq<string> {
    seq(|hours|, i requires 0 <= i < |hours| => TaskAt(f, hours[i]))
  }

  lemma AssignedCovers(tm: TaskMap, hours: seq<int>, sequence: seq<string>)
    requires |sequence| == |hours| && Distinct(sequence) && forall t | t in sequence :: t in tm
    ensures Covers(tm, hours, Assigned(hours, sequence)) && Injective(Assigned(hours, sequence))
    ensures Assigned(hours, sequence).Keys == Elements(hours)
  {
    var f := Assigned(hours, sequence);
    AssignedExact(hours, sequence);
    AssignedInjective(hours, sequence);
    forall h | h in hours ensures h in f && f[h] in tm {
      assert h in Elements(hours);
      var i :| LastAt(hours, h, i) && f[h] == sequence[i];
      assert sequence[i] in sequence;
    }
  }

  method ScheduleScore(tm: TaskMap, hours: seq<int>, sequence: seq<string>)
    returns (totalValue: int, slotPlan: seq<SlotRow>, deferred: seq<string>)
    requires |sequence| == |hours| && Distinct(sequence) && forall t | t in sequence :: t in tm
    ensures Covers(tm, hours, Assigned(hours, sequence))
    ensures totalValue == TotalValue(tm, hours, Assigned(hours, sequence))
    ensures SlotPlanOf(tm, hours, Assigned(hours, sequence), slotPlan)
    ensures SortedListing(tm.Keys - Assigned(hours, sequence).Values, deferred)
  {
    var f := Assigned(hours, sequence);
    AssignedCovers(tm, hours, sequence);
    totalValue, slotPlan := 0, [];
    for i := 0 to |hours|
      invariant totalValue == TotalValue(tm, hours[..i], f)
      invariant SlotPlanOf(tm, hours[..i], f, slotPlan)
    {
      assert hours[i] in hours;
      var name := f[hours[i]];
      var value := ValueAtExecution(tm, name, f, hours, hours[i]);
      NextRow(tm, hours, f, slotPlan, i);
      slotPlan := slotPlan + [SlotRow(hours[i], name, value)];
      totalValue := totalValue + value;
    }
    assert hours[..|hours|] == hours;
    deferred := SortedKeys(set t | t in tm && t !in f.Values);
    assert (set t | t in tm && t !in f.Values) == tm.Keys - f.Values;
  }

  // ----- the search

  // A repetition-free sequence of tasks, each permitted at its hour.
  ghost predicate Permitted(tm: TaskMap, freezeHours: set<int>, hours: seq<int>, q: seq<string>) {
    && |q| == |hours| && Distinct(q)
    && forall i | 0 <= i < |q| :: q[i] in tm && Allowed(tm[q[i]], freezeHours, hours[i])
  }

  // The limits in the tasks' own fields.
  lemma PermittedIff(tm: TaskMap, freezeHours: set<int>, hours: seq<int>, q: seq<string>)
    ensures Permitted(tm, freezeHours, hours, q) <==>
      && |q| == |hours|
      && (forall i, j | 0 <= i < j < |q| :: q[i] != q[j])
      && (forall i | 0 <= i < |q| :: q[i] in tm)
      && (forall i | 0 <= i < |q| :: tm[q[i]].earliestStart.None? || hours[i] >= tm[q[i]].earliestStart.value)
      && (forall i | 0 <= i < |q| :: tm[q[i]].mustStartBefore.None? || hours[i] < tm[q[i]].mustStartBefore.value)
      && (forall i | 0 <= i < |q| :: tm[q[i]].scope != "external" || hours[i] !in freezeHours)
  {
    if |q| == |hours| && Distinct(q) && forall i | 0 <= i < |q| :: q[i] in tm {
      forall i | 0 <= i < |q|
        ensures Allowed(tm[q[i]], freezeHours, hours[i]) <==>
          && (tm[q[i]].earliestStart.None? || hours[i] >= tm[q[i]].earliestStart.value)
          && (tm[q[i]].mustStartBefore.None? || hours[i] < tm[q[i]].mustStartBefore.value)
          && (tm[q[i]].scope != "external" || hours[i] !in freezeHours)
      {
      }
    }
  }

  // (total value, tasks in hour order) of a sequence.
  datatype Key = Key(value: int, tasks: seq<string>)

  ghost function KeyOf(tm: TaskMap, hours: seq<int>, f: Assignment): Key {
    Key(TotalValue(tm, hours, f), TasksOf(hours, f))
  }

  predicate KeyBeats(a: Key, b: Key) {
    a.value > b.value || (a.value == b.value && LexLess(StrLess, a.tasks, b.tasks))
  }

  lemma KeyBeatsOrder()
    ensures StrictTotal(KeyBeats)
  {
    StrStrictTotal();
    LexStrictTotal(StrLess);
    forall a, b | a != b ensures KeyBeats(a, b) || KeyBeats(b, a) {
      assert a.tasks != b.tasks ==> Lex(StrLess)(a.tasks, b.tasks) || Lex(StrLess)(b.tasks, a.tasks);
    }
    forall a ensures !KeyBeats(a, a) { assert !Lex(StrLess)(a.tasks, a.tasks); }
    forall a, b, c | KeyBeats(a, b) && KeyBeats(b, c) ensures KeyBeats(a, c) {
      if LexLess(StrLess, a.tasks, b.tasks) && LexLess(StrLess, b.tasks, c.tasks) {
        LexTransitive(StrLess, a.tasks, b.tasks, c.tasks);
      }
    }
  }

  ghost function SeqKey(tm: TaskMap, hours: seq<int>, q: seq<string>): Key {
    if |q| == |hours| then KeyOf(tm, hours, Assigned(hours, q)) else Key(0, [])
  }

  // No permitted sequence has more value, or the same value and smaller tasks.
  ghost predicate BestSequence(tm: TaskMap, freezeHours: set<int>, hours: seq<int>, q: seq<string>) {
    && Permitted(tm, freezeHours, hours, q)
    && forall other | Permitted(tm, freezeHours, hours, other) ::
         !KeyBeats(SeqKey(tm, hours, other), SeqKey(tm, hours, q))
  }

  ghost function IsPermitted(tm: TaskMap, freezeHours: set<int>, hours: seq<int>): seq<string> -> bool {
    q => Permitted(tm, freezeHours, hours, q)
  }

  ghost function IsBetter(tm: TaskMap, hours: seq<int>): (seq<string>, seq<string>) -> bool {
    (a, b) => KeyBeats(SeqKey(tm, hours, a), SeqKey(tm, hours, b))
  }

  lemma BetterIsOrder(tm: TaskMap, hours: seq<int>)
    ensures StrictOrder(IsBetter(tm, hours))
  {
    KeyBeatsOrder();
  }

  datatype Plan = Plan(totalValue: int, slotPlan: seq<SlotRow>, deferred: seq<string>)
  datatype Outcome = Found(plan: Plan) | NoPlanError

  // The stored plan is the plan of that sequence.
  ghost predicate PlanOf(tm: TaskMap, hours: seq<int>, q: seq<string>, plan: Plan) {
    && |q| == |hours|
    && plan.totalValue == TotalValue(tm, hours, Assigned(hours, q))
    && SlotPlanOf(tm, hours, Assigned(hours, q), plan.slotPlan)
    && SortedListing(tm.Keys - Assigned(hours, q).Values, plan.deferred)
  }

  lemma PlanKey(tm: TaskMap, hours: seq<int>, q: seq<string>, plan: Plan)
    requires PlanOf(tm, hours, q, plan)
    ensures SeqKey(tm, hours, q) == Key(plan.totalValue, TaskKey(plan.slotPlan))
  {
    var f := Assigned(hours, q);
    assert TaskKey(plan.slotPlan) == TasksOf(hours, f);
  }

  method SequenceFeasible(tm: TaskMap, freezeHours: set<int>, hours: seq<int>, q: seq<string>) returns (ok: bool)
    requires |q| == |hours| && Distinct(q) && forall t | t in q :: t in tm
    ensures ok <==> Permitted(tm, freezeHours, hours, q)
  {
    for i := 0 to |q|
      invariant forall k | 0 <= k < i :: q[k] in tm && Allowed(tm[q[k]], freezeHours, hours[k])
    {
      assert q[i] in q;
      var allowed := TaskAllowedAtHour(tm[q[i]], freezeHours, hours[i]);
      if !allowed { return false; }
    }
    return true;
  }

  ghost predicate Kept(tm: TaskMap, hours: seq<int>, best: Option<seq<string>>, stored: Option<Plan>) {
    (best.None? <==> stored.None?) && (best.Some? ==> PlanOf(tm, hours, best.value, stored.value))
  }

  method ConsiderSequence(tm: TaskMap, freezeHours: set<int>, hours: seq<int>, q: seq<string>,
                          ghost tried: set<seq<string>>, ghost best: Option<seq<string>>, stored: Option<Plan>)
    returns (ghost best': Option<seq<string>>, stored': Option<Plan>)
    requires |q| == |hours| && Distinct(q) && forall t | t in q :: t in tm
    requires Champion(IsPermitted(tm, freezeHours, hours), IsBetter(tm, hours), tried, best)
    requires Kept(tm, hours, best, stored)
    ensures Champion(IsPermitted(tm, freezeHours, hours), IsBetter(tm, hours), tried + {q}, best')
    ensures Kept(tm, hours, best', stored')
  {
    best', stored' := best, stored;
    BetterIsOrder(tm, hours);
    Challenge(IsPermitted(tm, freezeHours, hours), IsBetter(tm, hours), tried, best, q);
    var feasible := SequenceFeasible(tm, freezeHours, hours, q);
    if !feasible { return; }
    var totalValue, slotPlan, deferred := ScheduleScore(tm, hours, q);
    var candidate := Plan(totalValue, slotPlan, deferred);
    PlanKey(tm, hours, q, candidate);
    if stored.None? { return Some(q), Some(candidate); }
    PlanKey(tm, hours, best.value, stored.value);
    if candidate.totalValue > stored.value.totalValue { return Some(q), Some(candidate); }
    if candidate.totalValue == stored.value.totalValue {
      if LexLess(StrLess, TaskKey(candidate.slotPlan), TaskKey(stored.value.slotPlan)) {
        return Some(q), Some(candidate);
      }
    }
  }

  method BestPlan(tm: TaskMap, freezeHours: set<int>, hours: seq<int>) returns (r: Outcome)
    ensures r.NoPlanError? <==> !exists q :: Permitted(tm, freezeHours, hours, q)
    ensures r.Found? ==> exists q :: BestSequence(tm, freezeHours, hours, q) && PlanOf(tm, hours, q, r.plan)
  {
    var tasks := Listing(tm.Keys);
    assert forall t :: t in tasks <==> t in Elements(tasks);
    var stored: Option<Plan> := None;
    ghost var best: Option<seq<string>> := None;
    ghost var tried: set<seq<string>> := {};
    var sequences := Permutations(tasks, |hours|);
    for k := 0 to |sequences|
      invariant Champion(IsPermitted(tm, freezeHours, hours), IsBetter(tm, hours), tried, best)
      invariant Kept(tm, hours, best, stored)
      invariant forall i | 0 <= i < k :: sequences[i] in tried
    {
      assert sequences[k] in sequences;
      PermutationsExact(tasks, |hours|, sequences[k]);
      best, stored := ConsiderSequence(tm, freezeHours, hours, sequences[k], tried, best, stored);
      tried := tried + {sequences[k]};
    }
    forall q | Permitted(tm, freezeHours, hours, q) ensures q in tried && IsPermitted(tm, freezeHours, hours)(q) {
      PermutationsExact(tasks, |hours|, q);
      var i :| 0 <= i < |sequences| && sequences[i] == q;
    }
    if stored.None? { return NoPlanError; }
    assert BestSequence(tm, freezeHours, hours, best.value) by {
      assert IsPermitted(tm, freezeHours, hours)(best.value);
      forall other | Permitted(tm, freezeHours, hours, other)
        ensures !KeyBeats(SeqKey(tm, hours, other), SeqKey(tm, hours, best.value))
      {
        assert !IsBetter(tm, hours)(other, best.value);
      }
    }
    return Found(stored.value);
  }

  // What the plan found promises about every row, repeated hours included: the
  // task is known and runs no sooner than its earliest start, before its start
  // limit and, if external, outside the freeze; no two hours share a task; and
  // no scheduled task is deferred.
  lemma PlanKeepsLimits(tm: TaskMap, freezeHours: set<int>, hours: seq<int>, q: seq<string>, plan: Plan, i: nat, j: nat)
    requires Permitted(tm, freezeHours, hours, q) && PlanOf(tm, hours, q, plan) && i < |hours| && j < |hours|
    ensures var row := plan.slotPlan[i];
      && row.hour == hours[i] && row.task in tm && row.task !in plan.deferred
      && (tm[row.task].earliestStart.Some? ==> tm[row.task].earliestStart.value <= row.hour)
      && (tm[row.task].mustStartBefore.Some? ==> row.hour < tm[row.task].mustStartBefore.value)
      && !(tm[row.task].scope == "external" && row.hour in freezeHours)
    ensures hours[i] != hours[j] ==> plan.slotPlan[i].task != plan.slotPlan[j].task
  {
    var f := Assigned(hours, q);
    AssignedExact(hours, q);
    AssignedInjective(hours, q);
    assert hours[i] in Elements(hours) && hours[j] in Elements(hours);
    var at :| LastAt(hours, hours[i], at) && f[hours[i]] == q[at];
    assert Allowed(tm[q[at]], freezeHours, hours[at]);
    SortedListingFacts(tm.Keys - f.Values, plan.deferred);
  }

  ghost predicate RunsBefore(rows: seq<SlotRow>, name: string, hour: int) {
    exists j :: 0 <= j < |rows| && rows[j].task == name && rows[j].hour < hour
  }

  function RowsValue(rows: seq<SlotRow>): int {
    if rows == [] then 0 else rows[0].value + RowsValue(rows[1..])
  }

  lemma {:induction false} RowsValueAppend(rows: seq<SlotRow>, row: SlotRow)
    ensures RowsValue(rows + [row]) == RowsValue(rows) + row.value
  {
    if rows == [] {
      assert rows + [row] == [row];
    } else {
      assert (rows + [row])[1..] == rows[1..] + [row];
      RowsValueAppend(rows[1..], row);
    }
  }

  lemma {:induction false} TotalIsRowsValue(tm: TaskMap, hours: seq<int>, f: Assignment, rows: seq<SlotRow>)
    requires SlotPlanOf(tm, hours, f, rows)
    ensures TotalValue(tm, hours, f) == RowsValue(rows)
  {
    if hours != [] {
      var n := |hours| - 1;
      TotalIsRowsValue(tm, hours[..n], f, rows[..n]);
      RowsValueAppend(rows[..n], rows[n]);
      assert rows == rows[..n] + [rows[n]];
    }
  }

  // What the rows are worth, read off the plan: a task's full value when it
  // depends on nothing or on a task the plan runs at an earlier hour, its reduced
  // value otherwise; the total is their sum.
  lemma PlanValues(tm: TaskMap, freezeHours: set<int>, hours: seq<int>, q: seq<string>, plan: Plan)
    requires Permitted(tm, freezeHours, hours, q) && PlanOf(tm, hours, q, plan)
    ensures plan.totalValue == RowsValue(plan.slotPlan)
    ensures forall row | row in plan.slotPlan :: row.task in tm && row.value == (
              if tm[row.task].dependsOn == "" || RunsBefore(plan.slotPlan, tm[row.task].dependsOn, row.hour)
              then tm[row.task].value else tm[row.task].valueIfMissing)
  {
    var f, rows := Assigned(hours, q), plan.slotPlan;
    TotalIsRowsValue(tm, hours, f, rows);
    AssignedCovers(tm, hours, q);
    forall name, hour ensures RunsBefore(rows, name, hour) <==> exists h :: h in f && f[h] == name && h < hour {
      if h :| h in f && f[h] == name && h < hour {
        assert h in Elements(hours);
        var j :| 0 <= j < |hours| && hours[j] == h;
        assert rows[j].task == name;
      }
      if RunsBefore(rows, name, hour) {
        var j :| 0 <= j < |rows| && rows[j].task == name && rows[j].hour < hour;
        assert hours[j] in hours;
      }
    }
    forall row | row in rows ensures row.task in tm && row == RowAt(tm, f, row.hour) {
      var i :| 0 <= i < |rows| && rows[i] == row;
      assert hours[i] in hours;
    }
  }

  // The first task list is smaller at the first difference.
  ghost predicate SmallerTasks(a: seq<string>, b: seq<string>) {
    exists k: nat :: FirstDifference(StrLess, a, b, k)
  }

  // The best sequence, said without the keys: no permitted sequence has a greater
  // total, and none with the same total has a smaller list of tasks.
  lemma BestSequenceIff(tm: TaskMap, freezeHours: set<int>, hours: seq<int>, q: seq<string>)
    ensures BestSequence(tm, freezeHours, hours, q) <==>
      && Permitted(tm, freezeHours, hours, q)
      && forall other | Permitted(tm, freezeHours, hours, other) ::
           var f, g := Assigned(hours, q), Assigned(hours, other);
           && TotalValue(tm, hours, g) <= TotalValue(tm, hours, f)
           && (TotalValue(tm, hours, g) == TotalValue(tm, hours, f) ==>
                 !SmallerTasks(TasksOf(hours, g), TasksOf(hours, f)))
  {
    forall a: seq<string>, b ensures LexLess(StrLess, a, b) <==> SmallerTasks(a, b) {
      LexIsFirstDifference(StrLess, a, b);
    }
  }

  // The same, read off the plan found and the plan of any permitted sequence.
  lemma BestPlanIsBest(tm: TaskMap, freezeHours: set<int>, hours: seq<int>, q: seq<string>, plan: Plan,
                       other: seq<string>, rival: Plan)
    requires BestSequence(tm, freezeHours, hours, q) && PlanOf(tm, hours, q, plan)
    requires Permitted(tm, freezeHours, hours, other) && PlanOf(tm, hours, other, rival)
    ensures RowsValue(rival.slotPlan) <= plan.totalValue == RowsValue(plan.slotPlan)
    ensures RowsValue(rival.slotPlan) == plan.totalValue ==>
              !SmallerTasks(TaskKey(rival.slotPlan), TaskKey(plan.slotPlan))
  {
    BestSequenceIff(tm, freezeHours, hours, q);
    PlanKey(tm, hours, q, plan);
    PlanKey(tm, hours, other, rival);
    PlanValues(tm, freezeHours, hours, q, plan);
    PlanValues(tm, freezeHours, hours, other, rival);
  }

  lemma TasksFixAssignment(hours: seq<int>, a: seq<string>, b: seq<string>)
    requires |a| == |b| == |hours|
    requires TasksOf(hours, Assigned(hours, a)) == TasksOf(hours, Assigned(hours, b))
    ensures Assigned(hours, a) == Assigned(hours, b)
  {
    var f, g := Assigned(hours, a), Assigned(hours, b);
    AssignedExact(hours, a);
    AssignedExact(hours, b);
    forall h | h in f ensures h in g && g[h] == f[h] {
      var i :| LastAt(hours, h, i) && f[h] == a[i];
      assert hours[i] in Elements(hours);
      assert TasksOf(hours, f)[i] == TasksOf(hours, g)[i];
    }
  }

  // The plan found does not depend on the order in which tasks are enumerated.
  lemma PlanUnique(tm: TaskMap, freezeHours: set<int>, hours: seq<int>, a: seq<string>, b: seq<string>,
                   p: Plan, r: Plan)
    requires BestSequence(tm, freezeHours, hours, a) && BestSequence(tm, freezeHours, hours, b)
    requires PlanOf(tm, hours, a, p) && PlanOf(tm, hours, b, r)
    ensures p == r
  {
    KeyBeatsOrder();
    assert SeqKey(tm, hours, a) == SeqKey(tm, hours, b);
    var f, g := Assigned(hours, a), Assigned(hours, b);
    TasksFixAssignment(hours, a, b);
    SortedListingUnique(tm.Keys - f.Values, p.deferred, r.deferred);
    assert p.slotPlan == r.slotPlan;
  }

  // ----- the same optimum over assignments of tasks to distinct hours

  // Every required hour gets its own permitted task.
  ghost predicate ValidAssignment(tm: TaskMap, freezeHours: set<int>, hours: seq<int>, f: Assignment) {
    && f.Keys == Elements(hours) && Injective(f)
    && forall h | h in f :: f[h] in tm && Allowed(tm[f[h]], freezeHours, h)
  }

  ghost predicate BestAssignment(tm: TaskMap, freezeHours: set<int>, hours: seq<int>, f: Assignment) {
    && ValidAssignment(tm, freezeHours, hours, f)
    && forall g | ValidAssignment(tm, freezeHours, hours, g) && g != f ::
         KeyBeats(KeyOf(tm, hours, f), KeyOf(tm, hours, g))
  }

  lemma AssignedAt(hours: seq<int>, q: seq<string>)
    requires Distinct(hours) && |q| == |hours|
    ensures forall i | 0 <= i < |hours| :: hours[i] in Assigned(hours, q) && Assigned(hours, q)[hours[i]] == q[i]
    ensures TasksOf(hours, Assigned(hours, q)) == q
  {
    AssignedExact(hours, q);
    var f := Assigned(hours, q);
    forall i | 0 <= i < |hours| ensures hours[i] in f && f[hours[i]] == q[i] {
      assert hours[i] in Elements(hours);
      var j :| LastAt(hours, hours[i], j) && f[hours[i]] == q[j];
    }
  }

  lemma SequenceIsAssignment(tm: TaskMap, freezeHours: set<int>, hours: seq<int>, q: seq<string>)
    requires Distinct(hours) && Permitted(tm, freezeHours, hours, q)
    ensures ValidAssignment(tm, freezeHours, hours, Assigned(hours, q)) && TasksOf(hours, Assigned(hours, q)) == q
  {
    AssignedExact(hours, q);
    AssignedInjective(hours, q);
    AssignedAt(hours, q);
    var f := Assigned(hours, q);
    forall h | h in f ensures f[h] in tm && Allowed(tm[f[h]], freezeHours, h) {
      var j :| LastAt(hours, h, j) && f[h] == q[j];
    }
  }

  lemma AssignmentIsSequence(tm: TaskMap, freezeHours: set<int>, hours: seq<int>, f: Assignment)
    requires Distinct(hours) && ValidAssignment(tm, freezeHours, hours, f)
    ensures Permitted(tm, freezeHours, hours, TasksOf(hours, f)) && Assigned(hours, TasksOf(hours, f)) == f
  {
    var q := TasksOf(hours, f);
    forall i | 0 <= i < |hours| ensures hours[i] in f { assert hours[i] in Elements(hours); }
    assert Permitted(tm, freezeHours, hours, q);
    AssignedExact(hours, q);
    forall h | h in f ensures Assigned(hours, q)[h] == f[h] {
      var j :| LastAt(hours, h, j) && Assigned(hours, q)[h] == q[j];
    }
  }

  lemma BestSequenceBeatsAssignments(tm: TaskMap, freezeHours: set<int>, hours: seq<int>, q: seq<string>, g: Assignment)
    requires Distinct(hours) && BestSequence(tm, freezeHours, hours, q)
    requires ValidAssignment(tm, freezeHours, hours, g) && g != Assigned(hours, q)
    ensures KeyBeats(KeyOf(tm, hours, Assigned(hours, q)), KeyOf(tm, hours, g))
  {
    KeyBeatsOrder();
    SequenceIsAssignment(tm, freezeHours, hours, q);
    AssignmentIsSequence(tm, freezeHours, hours, g);
    assert SeqKey(tm, hours, TasksOf(hours, g)) == KeyOf(tm, hours, g);
    assert TasksOf(hours, g) != q;
  }

  lemma BestAssignmentBeatsSequences(tm: TaskMap, freezeHours: set<int>, hours: seq<int>, q: seq<string>,
                                     other: seq<string>)
    requires Distinct(hours) && Permitted(tm, freezeHours, hours, q) && Permitted(tm, freezeHours, hours, other)
    requires BestAssignment(tm, freezeHours, hours, Assigned(hours, q))
    ensures !KeyBeats(SeqKey(tm, hours, other), SeqKey(tm, hours, q))
  {
    KeyBeatsOrder();
    SequenceIsAssignment(tm, freezeHours, hours, other);
    if Assigned(hours, other) != Assigned(hours, q) {
      assert KeyBeats(SeqKey(tm, hours, q), SeqKey(tm, hours, other));
    }
  }

  // On distinct hours the best sequence is the one best assignment: most total
  // value, then least task sequence.
  lemma BestSequenceIffBestAssignment(tm: TaskMap, freezeHours: set<int>, hours: seq<int>, q: seq<string>)
    requires Distinct(hours) && Permitted(tm, freezeHours, hours, q)
    ensures BestSequence(tm, freezeHours, hours, q) <==> BestAssignment(tm, freezeHours, hours, Assigned(hours, q))
  {
    SequenceIsAssignment(tm, freezeHours, hours, q);
    if BestSequence(tm, freezeHours, hours, q) {
      forall g | ValidAssignment(tm, freezeHours, hours, g) && g != Assigned(hours, q)
        ensures KeyBeats(KeyOf(tm, hours, Assigned(hours, q)), KeyOf(tm, hours, g))
      {
        BestSequenceBeatsAssignments(tm, freezeHours, hours, q, g);
      }
    }
    if BestAssignment(tm, freezeHours, hours, Assigned(hours, q)) {
      forall other | Permitted(tm, freezeHours, hours, other)
        ensures !KeyBeats(SeqKey(tm, hours, other), SeqKey(tm, hours, q))
      {
        BestAssignmentBeatsSequences(tm, freezeHours, hours, q, other);
      }
    }
  }

  // The best assignment, said without the keys: every other valid assignment has
  // a smaller total, or the same total and a greater list of tasks.
  lemma BestAssignmentIff(tm: TaskMap, freezeHours: set<int>, hours: seq<int>, f: Assignment)
    ensures BestAssignment(tm, freezeHours, hours, f) <==>
      && ValidAssignment(tm, freezeHours, hours, f)
      && forall g | ValidAssignment(tm, freezeHours, hours, g) && g != f ::
           || TotalValue(tm, hours, g) < TotalValue(tm, hours, f)
           || (TotalValue(tm, hours, g) == TotalValue(tm, hours, f) &&
               SmallerTasks(TasksOf(hours, f), TasksOf(hours, g)))
  {
    forall g: Assignment
      ensures LexLess(StrLess, TasksOf(hours, f), TasksOf(hours, g)) <==>
              SmallerTasks(TasksOf(hours, f), TasksOf(hours, g))
    {
      LexIsFirstDifference(StrLess, TasksOf(hours, f), TasksOf(hours, g));
    }
  }

  // On distinct hours the error means that no permitted injective assignment exists.
  lemma NoSequenceIffNoAssignment(tm: TaskMap, freezeHours: set<int>, hours: seq<int>)
    requires Distinct(hours)
    ensures (exists q :: Permitted(tm, freezeHours, hours, q)) <==>
            (exists f :: ValidAssignment(tm, freezeHours, hours, f))
  {
    if q :| Permitted(tm, freezeHours, hours, q) { SequenceIsAssignment(tm, freezeHours, hours, q); }
    if f :| ValidAssignment(tm, freezeHours, hours, f) { AssignmentIsSequence(tm, freezeHours, hours, f); }
  }
}
