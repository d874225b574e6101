# Verified models of ClawProBench's searching graders

ClawProBench grades agents. Most of its graders compare a JSON answer with
constants, but a small group works the right answer out by itself: it searches
all schedules, sweeps a calendar, scans for a free minute or matches rows. This
project models those graders in Dafny and proves that what they compute is what
they are for, over all inputs: the tasks, rules, slots, meetings and rows that
the repository reads from fixtures are parameters here.

- `ScheduleOracle.dfy` (intel_h03): the oracle tries every order of every
  subset of tasks and places it greedily; the validator reads a submitted
  timetable with arbitrary gaps. `Grade` is proved against a meaning that
  mentions neither the search nor the greedy placement: a submission is judged
  optimal exactly when it is valid and no valid submission beats it.
- `TimeWindow.dfy` (constraints_11), `ExceptionWindow.dfy` (constraints_12) and
  `Adaptation.dfy` (constraints_10): three exhaustive optimisers with
  tie-breaks. Each returns the one optimum over all valid plans, and raises its
  errors exactly when stated.
- `HourSweep.dfy` (planning_06): hour-bucket sweeps for rooms and attendees,
  equal to pairwise overlap of the meetings' hour ranges, and when that is
  overlap in time.
- `CronSlot.dfy` (constraints_19): the minute scan finds the earliest
  admissible minute; the cron text it prints is read back, and exactly when.
- `Dependency.dfy` (intel_m07): two dependency validators describe the same
  plans; a plan exists exactly for acyclic graphs; the least number of parallel
  groups is the length of the longest chain.
- `Matching.dfy` (synthesis_14, safety_17): first-fit matching, and exactly
  which expected lists make it decide the existence of a one-to-one matching.
- `Pressure.dfy` (planning_14): a maximum taken with a closeness tolerance, its
  error bound and when it is exact.
- `Resume.dfy` (run.py), with `Timestamps.dfy`: which report a run resumes and
  which it writes; over any history of runs a complete report is never written
  again, and of a model's own reports the most recent is resumed.

`Orders.dfy` (lexicographic comparison, `sorted`), `Enumeration.dfy`
(`permutations`, `combinations`, `product`), `Search.dfy` (the running best) and
`Text.dfy` (decimal text, `int()`, `split()`, calendar fields) hold what several
of these share. Times are integers (microseconds, whole minutes or hours, as
the source counts them), measured quantities are reals, and strings compare by
code point. Iteration order of a dict or set is left arbitrary and the results
are proved not to depend on it.

Each optimum, acceptance test and report state is also stated on the inputs' own
fields, without the comparison functions and predicates that the programs share
with the proofs: the lemmas whose names end in `Iff`, with
`ExceptionWindow.BestPlanIsBest`, `Adaptation.DecisionIsBest`,
`Matching.NoWrongVerdict` and `Resume.FinishedReportsSurvive`.

Seven properties one might expect do not hold of the code as written. Each has a
concrete case and the exact condition under which it does hold:

- The cron text carries no year, so it reads back as the chosen minute exactly
  when the request is dated in the chosen year (`CronSlot.CronRoundTrip`,
  `CronSlot.ChosenMinuteReadsBack`; the case is `CronSlot.LeapDayLost`).
- The scan cuts the seconds off the window's start, so the chosen minute can
  precede the window: exactly when there are seconds to cut off and the truncated
  start is itself admissible and before the window's end
  (`CronSlot.ChosenBeforeWindow`, `CronSlot.TruncatedStartChosen`).
- The hour sweeps drop the minutes: two timed meetings count as overlapping exactly
  when both run in the last minute of some hour, which is overlap in time when they
  end on the hour (`HourSweep.HourOverlapIff`). Meetings that end in the hour they
  start in are never seen (`HourSweep.ShortMeetingsUnseen`).
- An accepted execution order can repeat a task (`Dependency.RepeatedTaskAccepted`);
  it names every task once exactly when it is as long as there are tasks
  (`Dependency.OrderIsPermutationIff`).
- First-fit matching can reject rows that do match one to one, when an action is
  expected twice (`Matching.RepeatedActionRejected`, `Matching.OrderCanMatter`).
  It never rejects them exactly when the expected rows are nested or some row is
  unmatchable (`Matching.TrustedIffNested`); for blocked actions, exactly when of
  two rows expecting one action whatever contains the earlier reason contains the
  later (`Matching.BlockedTrustedIff`). The expected actions of safety_17
  are constant and distinct, where this never arises (`Matching.BlockedMatch`),
  and the claims matcher needs no condition.
- The tolerance can lose the maximum (`Pressure.ToleranceCanLoseMaximum`), by no
  more than `Pressure.DriftBound` allows, and by all of that on some lists
  (`Pressure.DriftAttained`). A list gives the true maximum exactly
  when no challenger follows the last session that holds it
  (`Pressure.MaximumKeptIffSurvives`), and every order of the list does exactly
  when there is no challenger (`Pressure.EveryOrderIffNoChallenger`).
- A run can write another model's report (`Resume.ContinueMayTakeAnotherModel`):
  exactly when the report is incomplete and is either given explicitly, not
  being an alias, or the latest match of `--continue` (`Resume.OtherModelWritten`).
  The search goes by file name, so one model's search matches a name reserved
  for another exactly when its prefix runs along that name's stem
  (`Resume.ForeignNameMatches`). A pair of models has such a name exactly when the
  searching model's slug, closed by an underscore, begins the other's, or the other
  way round and what is left of it is the start of a timestamp up to one of its
  underscores (`Resume.MatchIffCanCollide`), and exactly then `--continue` for the
  one can write a report of the other (`Resume.ContinueWritesOtherIff`).

Where the code and what is written about it differ, the code is modelled. The
rules of constraints_11 speak of overlap per resource and list the hours of the
day; its scorer has one worker, forbids every overlap (so its resource test can
never fire) and uses only the task windows.

`dafny verify dfyconfig.toml` checks the whole project.

## Model

| member | source | states |
|---|---|---|
| ScheduleOracle.LoadTasks | custom_checks/intel_h03_temporal_constraint_scheduling.py:33-54 | a task is in the map exactly when some row is an object with its id, start, deadline, duration and skill, the texts not empty and the duration positive, and no such later row has its id |
| ScheduleOracle.FeasibleIffFits | custom_checks/intel_h03_temporal_constraint_scheduling.py:63-79 | an order has a timetable exactly when start times exist that keep every window and follow one another, an hour counting 3600 seconds |
| ScheduleOracle.ScheduleOrder | custom_checks/intel_h03_temporal_constraint_scheduling.py:63-79 | greedy placement succeeds exactly when the order has some timetable, and its timetable starts and ends every task no later than any other |
| ScheduleOracle.DeletionKeepsFeasible | custom_checks/intel_h03_temporal_constraint_scheduling.py:63-79 | deleting any task from a feasible order leaves a feasible order |
| ScheduleOracle.ReasonMeaning | custom_checks/intel_h03_temporal_constraint_scheduling.py:57-60 | the reason is deadline_exceeded exactly when the task cannot be placed even alone, time_conflict exactly when it can |
| ScheduleOracle.FeasibleTasksMeetDeadlines | custom_checks/intel_h03_temporal_constraint_scheduling.py:57-79 | a deadline_exceeded task is in no feasible order |
| ScheduleOracle.TrySize | custom_checks/intel_h03_temporal_constraint_scheduling.py:103-129 | one round tries every candidate order of its size and keeps the best key with a correct plan for exactly the orders that reach it |
| ScheduleOracle.DeriveExpected | custom_checks/intel_h03_temporal_constraint_scheduling.py:82-143 | the stored plans are exactly the feasible orders that no feasible order exceeds in hours, or in tasks at equal hours, each with its earliest timetable, its left-out tasks and the optimal hours; blocked rows are exactly the tasks whose skill is missing; the empty fallback is dead |
| ScheduleOracle.OptimalIff | custom_checks/intel_h03_temporal_constraint_scheduling.py:100-129 | the optimal orders are exactly the workable ones with as many hours as any workable order, and with as many tasks as any workable order of those hours |
| ScheduleOracle.ValidateScheduledRows | custom_checks/intel_h03_temporal_constraint_scheduling.py:146-184 | accepts exactly the valid row lists, returns their ids and hours, and otherwise names the first fault of the first row that spoils the list |
| ScheduleOracle.ValidRowsIff | custom_checks/intel_h03_temporal_constraint_scheduling.py:154-184 | valid lists hold known ready tasks, none twice, each with a start and an end its duration apart inside its window, each starting no sooner than the previous ends |
| ScheduleOracle.RowFault | custom_checks/intel_h03_temporal_constraint_scheduling.py:159-178 | the checks on one row fail exactly when the list up to that row is invalid, and say why |
| ScheduleOracle.FaultUnique | custom_checks/intel_h03_temporal_constraint_scheduling.py:154-184 | the first fault of a list and the detail that names it are determined by the list |
| ScheduleOracle.ValidRowsAreAdmissible | custom_checks/intel_h03_temporal_constraint_scheduling.py:154-184 | every valid submission, gaps included, is an order the oracle finds feasible |
| ScheduleOracle.TimetablesAreValid | custom_checks/intel_h03_temporal_constraint_scheduling.py:104-129 | every timetable of a candidate order, the stored one included, passes the validator |
| ScheduleOracle.StoredPlanDominates | custom_checks/intel_h03_temporal_constraint_scheduling.py:63-79 | the stored plan for a submitted order starts and ends every task no later than the submission |
| ScheduleOracle.BestValidIffOptimal | custom_checks/intel_h03_temporal_constraint_scheduling.py:272-273 | a valid submission is unbeaten among valid submissions exactly when its order is one of the oracle's optimal orders |
| ScheduleOracle.Grade | custom_checks/intel_h03_temporal_constraint_scheduling.py:251-307 | all five graded decisions hold exactly when the submission has the property they stand for, with no reference to the search |
| ScheduleOracle.PartitionOfTasks | custom_checks/intel_h03_temporal_constraint_scheduling.py:83-119 | blocked, scheduled and unschedulable ids are disjoint and together are the task map |
| ScheduleOracle.OptimalIsMaximal | custom_checks/intel_h03_temporal_constraint_scheduling.py:100-129 | no available task left out of an optimal order can be inserted at any position |
| Orders.LexIsFirstDifference | custom_checks/constraints_11_time_window_optimization_live.py:167-173 | the comparison used for every tie-break is Python's: decided at the first difference, a proper prefix being smaller |
| Orders.StrLessIff | custom_checks/constraints_11_time_window_optimization_live.py:160-173 | texts compare by code point at the first difference, a proper prefix being smaller |
| Orders.LexStrictTotal | custom_checks/constraints_11_time_window_optimization_live.py:167-173 | lexicographic comparison over a strict total order is a strict total order |
| Enumeration.PermutationsExact | custom_checks/constraints_12_exception_window_live.py:134 | permutations visits exactly the repetition-free sequences of the given length |
| Enumeration.CombinationsExact | custom_checks/constraints_10_dynamic_adaptation_live.py:117-120 | combinations of a sorted list visits exactly its sorted choices of the given size |
| Enumeration.ProductExact | custom_checks/constraints_11_time_window_optimization_live.py:117 | product visits exactly the ways of choosing one option per position |
| TimeWindow.PriorityRankOfLevel | custom_checks/constraints_11_time_window_optimization_live.py:80-81 | the priority text P followed by a decimal number ranks as that number |
| TimeWindow.WithoutPJoins | custom_checks/constraints_11_time_window_optimization_live.py:80-81 | every P is removed, wherever it stands, and nothing else |
| TimeWindow.CandidateStarts | custom_checks/constraints_11_time_window_optimization_live.py:84-88 | the starts offered are exactly those that keep the task inside its window |
| TimeWindow.EnumeratedInWindows | custom_checks/constraints_11_time_window_optimization_live.py:108-118 | every enumerated assignment keeps the windows |
| TimeWindow.InWindowsEnumerated | custom_checks/constraints_11_time_window_optimization_live.py:108-118 | every assignment that keeps the windows is enumerated |
| TimeWindow.ValidPlanIff | custom_checks/constraints_11_time_window_optimization_live.py:119-157 | a plan is valid exactly when every task runs inside its window, every dependency is scheduled and ends by the start, and of any two tasks one ends by the start of the other |
| TimeWindow.SlotSeqIff | custom_checks/constraints_11_time_window_optimization_live.py:160-161 | a plan's slots are exactly its tasks with their start and end, ascending by start and then name |
| TimeWindow.DepsFinished | custom_checks/constraints_11_time_window_optimization_live.py:130-138 | accepts exactly when every dependency is scheduled and ends by the task's start |
| TimeWindow.ClashesWithEarlier | custom_checks/constraints_11_time_window_optimization_live.py:142-150 | reports a clash exactly when the slot overlaps one already scheduled |
| TimeWindow.CheckAssignment | custom_checks/constraints_11_time_window_optimization_live.py:119-157 | the incremental test against earlier names accepts exactly the plans with dependencies done and all pairs disjoint, and lists exactly their slots |
| TimeWindow.Score | custom_checks/constraints_11_time_window_optimization_live.py:159-165 | the key is the plan's completion count, its P0, P1, P2 counts and its slots in (start, name) order |
| TimeWindow.ConsiderAssignment | custom_checks/constraints_11_time_window_optimization_live.py:117-183 | after each assignment no valid plan tried so far beats the one kept, and the stored key, slots and unresolved list are that plan's |
| TimeWindow.BestPlan | custom_checks/constraints_11_time_window_optimization_live.py:105-187 | returns the plan that beats every other valid plan, with its slots, unresolved names and count; the no-plan error is unreachable; a worker count other than 1 and an unreadable priority in some valid plan are the only errors |
| TimeWindow.BestPlanIff | custom_checks/constraints_11_time_window_optimization_live.py:167-177 | the best plan is the valid one that against every other completes more tasks; or as many, and more of the first priority of P0, P1, P2 in which they differ; or as many of each, and at the first differing slot has the earlier start, or the same start and the smaller name |
| TimeWindow.BeatsIff | custom_checks/constraints_11_time_window_optimization_live.py:167-177 | the same for any two plans, which is the comparison the loop makes on its keys |
| TimeWindow.BeatsIsTotal | custom_checks/constraints_11_time_window_optimization_live.py:167-177 | the objective puts one of any two different plans strictly ahead |
| TimeWindow.BestPlanUnique | custom_checks/constraints_11_time_window_optimization_live.py:117-187 | there is one best plan, so the result does not depend on enumeration order |
| TimeWindow.DependenciesFinishFirst | custom_checks/constraints_11_time_window_optimization_live.py:130-140 | with durations of at least 1, transitive dependencies of a scheduled task are scheduled and finish before it starts |
| TimeWindow.NeverScheduled | custom_checks/constraints_11_time_window_optimization_live.py:130-140 | a task that reaches an unknown task or a dependency cycle is in no valid plan |
| TimeWindow.SlotFacts | custom_checks/constraints_11_time_window_optimization_live.py:142-182 | every emitted slot lies in its task's window and ends no later than the next starts |
| TimeWindow.PackingBound | custom_checks/constraints_11_time_window_optimization_live.py:142-182 | the durations of the emitted slots and the idle time between them, which is never negative, add up to the last end minus the first start |
| ExceptionWindow.PlanKeepsLimits | custom_checks/constraints_12_exception_window_live.py:88-141 | every row of the plan runs a known task no sooner than its earliest start, before its start limit and outside the freeze if external; different hours run different tasks and no scheduled task is deferred |
| ExceptionWindow.PermittedIff | custom_checks/constraints_12_exception_window_live.py:88-141 | the sequences searched are exactly those of different known tasks, each at an hour from its earliest start on, before its start limit and, if external, outside the freeze |
| ExceptionWindow.PlanValues | custom_checks/constraints_12_exception_window_live.py:101-127 | each row is worth its task's value when the task depends on nothing or on a task that the plan runs at an earlier hour, its reduced value otherwise, and the total is the sum of the rows |
| ExceptionWindow.ValueAtExecution | custom_checks/constraints_12_exception_window_live.py:101-113 | full value exactly when there is no dependency or it runs at a strictly earlier hour |
| ExceptionWindow.ScheduleScore | custom_checks/constraints_12_exception_window_live.py:116-127 | the total is the sum over the required hours, the rows are the hours' tasks and values, and deferred is exactly the complement |
| ExceptionWindow.ConsiderSequence | custom_checks/constraints_12_exception_window_live.py:134-154 | no permitted sequence tried so far beats the one kept, and the stored plan is that sequence's |
| ExceptionWindow.BestPlan | custom_checks/constraints_12_exception_window_live.py:130-157 | returns the plan of an unbeaten permitted sequence, and the error exactly when no permitted sequence exists |
| ExceptionWindow.BestSequenceIff | custom_checks/constraints_12_exception_window_live.py:147-154 | a permitted sequence is best exactly when none has a greater total and none of the same total has a task list that is smaller at the first difference |
| ExceptionWindow.BestPlanIsBest | custom_checks/constraints_12_exception_window_live.py:147-154 | no plan of a permitted sequence has rows worth more than the plan found, and at equal worth none has the smaller task list |
| ExceptionWindow.PlanUnique | custom_checks/constraints_12_exception_window_live.py:130-157 | all unbeaten sequences give the same plan, so task enumeration order is irrelevant |
| ExceptionWindow.BestSequenceIffBestAssignment | custom_checks/constraints_12_exception_window_live.py:134-157 | on distinct hours the unbeaten sequence is the one best injective permitted assignment of tasks to hours: most value, then least task sequence |
| ExceptionWindow.BestAssignmentIff | custom_checks/constraints_12_exception_window_live.py:147-154 | the best assignment is the valid one against which every other has a smaller total, or the same total and a greater task list |
| ExceptionWindow.NoSequenceIffNoAssignment | custom_checks/constraints_12_exception_window_live.py:155-156 | on distinct hours the error means that no permitted injective assignment exists |
| Adaptation.FeasibleSubset | custom_checks/constraints_10_dynamic_adaptation_live.py:94-111 | accepts exactly the subsets within the memory, concurrency, latency and error limits, with the slack where the source has it |
| Adaptation.CandidateIff | custom_checks/constraints_10_dynamic_adaptation_live.py:94-111 | a sorted list of workloads is a candidate exactly when its memory and concurrency add up to no more than the slot has and each latency and error rate is within the slot's, memory, latency and error rate with a slack of 1e-9 |
| Adaptation.AllSubsets | custom_checks/constraints_10_dynamic_adaptation_live.py:116-120 | the list holds exactly the sorted sets of workloads |
| Adaptation.BestForSlot | custom_checks/constraints_10_dynamic_adaptation_live.py:127-140 | returns the feasible subset with most throughput and, among those, the least list of names; nothing exactly when none is feasible |
| Adaptation.DecisionIsBest | custom_checks/constraints_10_dynamic_adaptation_live.py:127-140 | a decision's units are those of its workloads, no candidate has more units, and one with as many is greater at the first differing name |
| Adaptation.DecideSlots | custom_checks/constraints_10_dynamic_adaptation_live.py:122-149 | every slot up to the first hopeless one is decided best, with the active set and the total of units |
| Adaptation.BestPlan | custom_checks/constraints_10_dynamic_adaptation_live.py:114-161 | best decision per slot, total units, delayed and cancelled lists; each error exactly when it occurs, the missing last slot included |
| Adaptation.ReportedIff | custom_checks/constraints_10_dynamic_adaptation_live.py:151-160 | cancelled are exactly the cancelable workloads that no slot runs, delayed exactly the delayable and not cancelable ones that the last slot does not run |
| Adaptation.JointlyOptimal | custom_checks/constraints_10_dynamic_adaptation_live.py:126-149 | no sequence of feasible subsets has a greater total throughput than the slot decisions |
| Adaptation.BoundIsReached | custom_checks/constraints_10_dynamic_adaptation_live.py:126-149 | the decisions themselves are such a sequence and reach that total |
| Adaptation.DecisionUnique | custom_checks/constraints_10_dynamic_adaptation_live.py:134-138 | a slot has one best decision |
| Adaptation.SubsetFeasible | custom_checks/constraints_10_dynamic_adaptation_live.py:94-111 | with non-negative demands every subset of a feasible subset is feasible |
| Adaptation.LooserNeverWorse | custom_checks/constraints_10_dynamic_adaptation_live.py:94-138 | loosening the limits of a slot that has a decision leaves it with one, and never lowers the throughput of its decision |
| Adaptation.ReportsDisjoint | custom_checks/constraints_10_dynamic_adaptation_live.py:151-160 | the delayed and cancelled lists of a plan share no workload, and none of either runs in the last slot |
| HourSweep.AddMeeting | custom_checks/planning_06_constraint_satisfaction.py:145-154 | a meeting's room is added to exactly the hours of its range, and nothing when an hour does not parse |
| HourSweep.CommonHourOfThree | custom_checks/planning_06_constraint_satisfaction.py:149-158 | three meetings that overlap pairwise share one hour |
| HourSweep.HourOverlapIff | custom_checks/planning_06_constraint_satisfaction.py:145-154 | two meetings with minute times count as overlapping exactly when both run in the last minute of some hour; such meetings overlap in time, and when both end on the hour the two notions agree |
| HourSweep.TimedHours | custom_checks/planning_06_constraint_satisfaction.py:145-147 | times written HH:MM are read as the hours of their minutes, the start rounded down and the end too |
| HourSweep.ShortMeetingsUnseen | custom_checks/planning_06_constraint_satisfaction.py:145-158 | meetings in any number of rooms at one time are no violation when that time ends in the hour it starts in |
| HourSweep.RoomViolation | custom_checks/planning_06_constraint_satisfaction.py:138-160 | a violation is reported exactly when three meetings in three different rooms have pairwise overlapping hour ranges |
| HourSweep.TripleBookedIff | custom_checks/planning_06_constraint_satisfaction.py:145-158 | that is the case exactly when some hour lies in the ranges of meetings in three rooms, a range being read from the texts before the colons, and a meeting with an unreadable one lying in none |
| HourSweep.SignIn | custom_checks/planning_06_constraint_satisfaction.py:233-238 | one hour's bucket gains exactly the attendees, and a clash is a name already there or listed twice |
| HourSweep.AttendeeConflict | custom_checks/planning_06_constraint_satisfaction.py:217-240 | a conflict is reported exactly when two different occurrences of one name have overlapping hours, a name repeated inside one meeting included |
| HourSweep.DoubleBookedIff | custom_checks/planning_06_constraint_satisfaction.py:217-240 | that is the case exactly when some hour lies in the ranges of two different occurrences of a name |
| CronSlot.Blocked | custom_checks/constraints_19_cron_conflict_buffer_live.py:92-96 | a minute is blocked exactly when it is not more than the gap outside some event |
| CronSlot.ExpectedSchedule | custom_checks/constraints_19_cron_conflict_buffer_live.py:73-101 | the scan ends and returns the earliest admissible whole minute of the window with its cron text, and nothing exactly when there is none |
| CronSlot.EarliestIff | custom_checks/constraints_19_cron_conflict_buffer_live.py:84-100 | in microseconds: the minute lies from the truncated start to before the end, is preferred if any are, is not to be avoided, is more than the gap before or after every event, and is the earliest such |
| CronSlot.ChosenBeforeWindow | custom_checks/constraints_19_cron_conflict_buffer_live.py:84-99 | the chosen minute precedes the window's real start exactly when seconds were cut off and the truncated start is admissible and before the window's end |
| CronSlot.TruncatedStartChosen | custom_checks/constraints_19_cron_conflict_buffer_live.py:84-99 | a window opening thirty seconds past the minute is answered with that minute |
| CronSlot.ParsedIff | custom_checks/constraints_19_cron_conflict_buffer_live.py:60-70 | cron text is read as a date exactly when it has five fields, the last a star and the others the minute, hour, day and month as integers, the date's first four characters are the year, and the fields form a date |
| CronSlot.CronRoundTrip | custom_checks/constraints_19_cron_conflict_buffer_live.py:60-70 | reading printed cron text gives the same fields in the request's year, and nothing exactly when that year is unreadable, below 1 or lacks the day |
| CronSlot.ChosenMinuteReadsBack | custom_checks/constraints_19_cron_conflict_buffer_live.py:97-99 | the chosen minute reads back as itself exactly when the request is dated in its year |
| CronSlot.LeapDayLost | custom_checks/constraints_19_cron_conflict_buffer_live.py:67-70 | 29 February does not read back for a request dated in 2023 |
| Text.NextMinuteStamp | custom_checks/constraints_19_cron_conflict_buffer_live.py:85-100 | adding a minute to calendar fields gives valid fields one minute later, across hours, days, months and leap years |
| Text.StampInjective | custom_checks/constraints_19_cron_conflict_buffer_live.py:84-100 | a whole minute has one calendar reading |
| Text.ParseIntOfDecimal | custom_checks/constraints_19_cron_conflict_buffer_live.py:68-98 | int() undoes decimal printing |
| Text.ParseIntOfNegative | custom_checks/planning_06_constraint_satisfaction.py:146-147 | int() reads a minus sign before decimal digits |
| Text.NumeralIff | custom_checks/constraints_19_cron_conflict_buffer_live.py:68-69 | int() accepts exactly digits with single underscores between them, apart from a sign and blanks around |
| Text.UnderscoreSkipped | custom_checks/constraints_19_cron_conflict_buffer_live.py:68-69 | an underscore between digits does not change the number |
| Text.SplitAtBlank | custom_checks/constraints_19_cron_conflict_buffer_live.py:61 | split() cuts at every blank, however many there are and wherever they stand |
| Text.SplitJoined | custom_checks/constraints_19_cron_conflict_buffer_live.py:61-98 | split() undoes joining words with blanks |
| Dependency.IsValidTopoOrder | custom_checks/intel_m07_planning_dependency_chain.py:46-56 | accepts exactly the lists over all tasks in which every dependency precedes its task |
| Dependency.OrderIsPermutationIff | custom_checks/intel_m07_planning_dependency_chain.py:46-56 | an accepted list is at least as long as there are tasks, and names every task once exactly when it is as long |
| Dependency.RepeatedTaskAccepted | custom_checks/intel_m07_planning_dependency_chain.py:46-56 | a list naming its one task twice is accepted |
| Dependency.GroupAccepted | custom_checks/intel_m07_planning_dependency_chain.py:68-78 | accepts a group exactly when its tasks are known, their dependencies are in earlier groups and none is in the group itself |
| Dependency.ValidateParallelGroups | custom_checks/intel_m07_planning_dependency_chain.py:59-80 | accepts exactly the group lists that are valid in that sense and cover all tasks |
| Dependency.GroupsFlatten | custom_checks/intel_m07_planning_dependency_chain.py:46-80 | accepted groups, written out, are an accepted order |
| Dependency.OrderAsSingletons | custom_checks/intel_m07_planning_dependency_chain.py:46-80 | an accepted order, one task per group, is accepted as groups |
| Dependency.OrderExistsIffAcyclic | custom_checks/intel_m07_planning_dependency_chain.py:46-56 | an accepted order exists exactly when all dependencies are known and there is no cycle |
| Dependency.GroupsBoundChains | custom_checks/intel_m07_planning_dependency_chain.py:59-80 | accepted groups are at least as many as the tasks of any dependency chain |
| Dependency.GroupCountIsChainLength | custom_checks/intel_m07_planning_dependency_chain.py:59-80 | some grouping into n groups is accepted exactly when all dependencies are known and no chain is longer than n |
| Matching.MatchRows | custom_checks/synthesis_14_claim_support_matrix_live.py:25-40 | the loop with its used flags accepts exactly what first fit accepts |
| Matching.FirstFitSound | custom_checks/synthesis_14_claim_support_matrix_live.py:27-40 | whatever is accepted has a one-to-one matching, for any matcher |
| Matching.AcceptsIffBijection | custom_checks/safety_17_boundary_action_triage_live.py:19-36 | for nested expected rows, acceptance is the existence of a one-to-one matching |
| Matching.RowOrderIrrelevant | custom_checks/safety_17_boundary_action_triage_live.py:20-22 | for nested expected rows, acceptance is unchanged by rearranging the submitted rows |
| Matching.TrustedIffNested | custom_checks/safety_17_boundary_action_triage_live.py:25-36 | first fit accepts every submission that has a one-to-one matching exactly when some expected row is unmatchable or the expected rows are nested |
| Matching.BlockedTrustedIff | custom_checks/safety_17_boundary_action_triage_live.py:25-36 | for any normaliser and any content test in which a text contains itself and any two have a common container: no submission with a one-to-one matching is rejected exactly when, of two rows expecting one action, whatever contains the earlier reason contains the later |
| Matching.BlockedTrustedIffContained | custom_checks/safety_17_boundary_action_triage_live.py:25-36 | if containment is transitive too, exactly when the earlier reason contains the later |
| Matching.RepeatedActionRejected | custom_checks/safety_17_boundary_action_triage_live.py:25-36 | for any normaliser: with one action expected twice and one reason containing the other, two rows that match one to one are rejected when the longer reason comes first |
| Matching.OrderCanMatter | custom_checks/safety_17_boundary_action_triage_live.py:25-36 | the same with concrete rows |
| Matching.ClaimsOk | custom_checks/synthesis_14_claim_support_matrix_live.py:22-40 | claims are accepted exactly when there are as many as expected and each expected claim has an entry of its own with the same normalised id, verdict and set of evidence, for any normaliser and any expected list |
| Matching.NoWrongVerdict | custom_checks/synthesis_14_claim_support_matrix_live.py:30-40 | in an accepted list every entry is an object, and with different expected ids an entry for an expected id has its verdict and its evidence |
| Matching.OwnEntriesIff | custom_checks/synthesis_14_claim_support_matrix_live.py:30-40 | the one-to-one matchings of claims, in the claims' own fields |
| Matching.ClaimOrderIrrelevant | custom_checks/synthesis_14_claim_support_matrix_live.py:23-24 | the order in which claims are submitted does not matter |
| Matching.BlockedMatch | custom_checks/safety_17_boundary_action_triage_live.py:19-36 | in accepted lists each expected row has an object of its own for the same normalised action and with a reason containing the expected one; with distinct expected actions such lists are always accepted, for any normaliser and content matcher |
| Matching.OwnRowsIff | custom_checks/safety_17_boundary_action_triage_live.py:25-36 | the one-to-one matchings of blocked rows, in the rows' own fields |
| Pressure.HighestPressureSession | custom_checks/planning_14_openclaw_session_pressure_live.py:29-44 | the answer is a usable session's, empty when none is usable; it is the true maximum exactly when no challenger follows the last holder, and is within the drift bound of every usable ratio |
| Pressure.UsableIff | custom_checks/planning_14_openclaw_session_pressure_live.py:33-37 | a session is usable exactly when it has an input count and a positive context count, even a count above the context, and its ratio times the context is the input |
| Pressure.KeptIsASession | custom_checks/planning_14_openclaw_session_pressure_live.py:33-43 | the answer is the key and ratio of a usable session, and there is one unless none is usable |
| Pressure.DriftBound | custom_checks/planning_14_openclaw_session_pressure_live.py:38-43 | with n usable sessions the kept ratio is at most n - 1 tolerances below the maximum, a tolerance being 1e-9 times the larger of 1 and the maximum |
| Pressure.DriftAttained | custom_checks/planning_14_openclaw_session_pressure_live.py:38-43 | the bound is attained: for every n up to 1000000001 some n usable sessions with ratios from 0 to 1 lose exactly n - 1 tolerances |
| Pressure.DriftSum | custom_checks/planning_14_openclaw_session_pressure_live.py:38-43 | the same bound by induction over the sessions: each usable session after the first costs at most one tolerance, and the kept ratio never exceeds the maximum |
| Pressure.TrueMaximumIff | custom_checks/planning_14_openclaw_session_pressure_live.py:38-43 | the true maximum in the sessions' counts: some usable session has the key and the ratio, no usable session has more input than the ratio of its context, and none with exactly that has a smaller key |
| Pressure.ChallengerIff | custom_checks/planning_14_openclaw_session_pressure_live.py:38-43 | a challenger is a usable session with a smaller key whose ratio is smaller by at most 1e-9, or by at most 1e-9 times the larger ratio |
| Pressure.MaximumKeptIffSurvives | custom_checks/planning_14_openclaw_session_pressure_live.py:38-43 | the loop returns the true maximum with the least key exactly when no session within the tolerance below it and with a smaller key follows the last session that holds it |
| Pressure.EveryOrderIffNoChallenger | custom_checks/planning_14_openclaw_session_pressure_live.py:38-43 | every order of the sessions gives the true maximum exactly when there is no such session |
| Pressure.SeparatedGivesMaximum | custom_checks/planning_14_openclaw_session_pressure_live.py:38-43 | when different ratios are further apart than the tolerance, every order gives the true maximum with the least key |
| Pressure.MaximumExists | custom_checks/planning_14_openclaw_session_pressure_live.py:38-43 | wherever a session is usable there is a true maximum |
| Pressure.MaximumUnique | custom_checks/planning_14_openclaw_session_pressure_live.py:38-43 | the true maximum with the least key is unique and independent of the order of the sessions |
| Pressure.ToleranceCanLoseMaximum | custom_checks/planning_14_openclaw_session_pressure_live.py:38-43 | two sessions one tolerance apart for which the smaller ratio is returned |
| Resume.ModelSlug | run.py:69-70 | the slug keeps every character but slashes and colons, which become underscores |
| Resume.ReservedName | harness/reporter.py:84-90 | a reserved name is result_, the slug, the timestamp, the attempt from 1 on and .json, and the model's search finds it |
| Resume.ReserveReportPath | harness/reporter.py:82-91 | the suffix loop ends and returns the first attempt that no file has, a name under the model's own prefix |
| Resume.FindLatestReport | run.py:90-93 | returns the matching file with the greatest name, and nothing exactly when none matches |
| Resume.NameMatchesIff | run.py:90-93 | the search finds exactly the names that are result_, the slug, an underscore, any text and .json |
| Resume.NameOrder | run.py:93 | a model's reserved names sort by moment, and by suffix only within one microsecond |
| Resume.LatestIsMostRecent | run.py:90-93 | when the report found is one reserved for the model, no other report reserved for it was reserved at a later moment |
| Resume.SourceUnique | run.py:230-250 | the arguments and the files present determine the source |
| Resume.CompleteIff | run.py:96-108 | with c completed scenarios out of n requested a report is complete exactly when 1 <= n <= c, both numbers being the progress entries or, when missing, the number of scenarios and the recorded total or else the number of scenarios |
| Resume.AliasIff | harness/runner.py:43-48 | two different names count as one model exactly when they differ by the Pro/ after siliconflow/ or are the two Qianfan names |
| Resume.RunCommon | run.py:230-265 | chooses the source and target: an error exactly for both flags or an unreadable source, the source itself when it may be written, a fresh path otherwise |
| Resume.OnlyTheSourceChanges | run.py:252-265 | a run changes a report only by resuming from it, and only if it is incomplete and not an explicitly given alias |
| Resume.CompleteReportsSurvive | run.py:103-108 | over any history of runs a report that is complete keeps its contents through every later run |
| Resume.FinishedReportsSurvive | run.py:103-108 | over any history of runs a report of c completed scenarios out of n requested, 1 <= n <= c, keeps its contents, with missing entries read as the source reads them |
| Resume.SourceIsTargetIff | run.py:252-265 | the source is the target exactly when it is unfinished and is no alias given explicitly |
| Resume.ExplicitAliasSurvives | run.py:254-260 | a run told to resume from an alias model's report never writes that report |
| Resume.NewReportsAreOwn | run.py:262-265 | reports appear only in the results directory under the running model's prefix |
| Resume.ChangeIffWrites | run.py:246-265 | a run can change an existing report exactly when it may choose that report as its target |
| Resume.OtherModelWritten | run.py:246-265 | a report of another model is written exactly when it is incomplete and either given explicitly and no alias, or the latest match of --continue |
| Resume.ForeignNameMatches | run.py:90-93 | one model's search matches a name reserved for another exactly when its prefix runs along that name's stem |
| Resume.ForeignNameMatchesBySlug | run.py:69-93 | for a model name no longer than the other that depends on the slugs alone, equal slugs included; for a longer one on the timestamp too |
| Timestamps.StrftimeShape | harness/reporter.py:85 | a timestamp has underscores after the date and after the time and digits everywhere else |
| Timestamps.StrftimeOrder | harness/reporter.py:85 | timestamps compare as text exactly as their moments do in time, across months, years and leap days, and differ for different moments |
| Resume.StampPrefixes | harness/reporter.py:85-89 | what a reserved name has after its slug reaches an underscore only as the start of a timestamp, after the date, the time or the microseconds |
| Resume.ContinueWritesNameIff | run.py:90-265 | a directory of own-named reports in which --continue writes the other model's report of a given reserved name exists exactly when the search matches that name |
| Resume.MatchIffCanCollide | run.py:69-93 | the search of one model matches some name reserved for the other exactly when its slug, closed by an underscore, begins the other's, or the reverse with a rest that starts a timestamp and ends at one of its underscores |
| Resume.ContinueWritesOtherIff | run.py:90-265 | --continue for one model writes a report of the other in some directory of own-named reports exactly under that condition |
| Resume.ContinueWritesOwnModel | run.py:246-265 | among own-named reports of models outside that condition, --continue writes reports of its own model only |
| Resume.TailCollides | run.py:69-93 | a model can take names of any model that continues its name after an underscore; the reverse needs a continuation that starts a timestamp |
| Resume.SlugsCanCoincide | run.py:69-70 | a/b and a_b share a slug and can take each other's names |
| Resume.ContinueMayTakeAnotherModel | run.py:90-93 | for every timestamp and directory, --continue for model a can write an incomplete report of model a_b |
| Resume.ButNotTheReverse | run.py:90-93 | no name reserved for a matches the search of a_b |

## Left out

- Everything that only compares fields with constants, the keyword, regex and trace-scanning checkpoints, `grade_process`, weights and detail strings: settled by reading one branch.
- Files, JSON, YAML, the OpenClaw command line and argument parsing: inputs arrive parsed, and values of an unexpected JSON type appear only where the source branches on them.
- Overflow of datetime beyond years 1 to 9999, file names with a year of fewer than four digits, time zones and mixing naive with aware datetimes.
- Floating point: memory, latency, error rates and token ratios are exact reals, with the source's slack and tolerance; the final rounding to three places in planning_14 is not modelled.
- `int()` on digits outside ASCII, and Unicode normalisation inside `norm_token` and `contains_content`: the matchers take any normaliser and any content test as parameters.
- The ISO text that constraints_19 returns beside the cron text, and its minute comparison.
- constraints_12 with repeated required hours: `ExceptionWindow.BestPlan` and `ExceptionWindow.PlanUnique` cover them, the restatement over assignments assumes distinct hours.
- The room sweep's default keys and aliases for a meeting's fields, and attendees that are not a list of names.
- What the runner puts into a report, and glob characters inside a model name; a run may write any contents, to its target and that target's temporary file only, so reports named `.tmp` are outside the survival theorems.
- Matching.BlockedMatch: the converse is stated for distinct expected actions, as the constant list has them; `Matching.BlockedTrustedIff` gives the exact condition for arbitrary lists.
- Matching.BlockedTrustedIffContained: assumes a transitive content test; `contains_content` accepts substrings as well as token sets and is not transitive across the two, so for it `Matching.BlockedTrustedIff` is the statement that applies.
