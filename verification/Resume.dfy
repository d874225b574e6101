// run.py: which report a run resumes from and which one it writes, over any
// history of runs; with the path reservation and the report writer it uses.
module Resume {
  import opened Orders
  import opened Text
  import opened Timestamps

  datatype Path = Path(dir: string, name: string)

  // The progress entries are None when missing or not coercible to int.
  datatype Report = Report(model: string, completed: Option<int>, requested: Option<int>, scenarioCount: nat,
                           totalScenarios: int)

  // The files there are; None is a file that is not a readable report.
  type Disk = map<Path, Option<Report>>

  datatype Args = Args(model: string, resultsDir: string, resumeFrom: Option<Path>, continueRun: bool)

  function CoerceInt(value: Option<int>, default: int): int {
    if value.Some? then value.value else default
  }

  predicate ReportIsComplete(r: Report) {
    var completed := CoerceInt(r.completed, r.scenarioCount);
    var requested := CoerceInt(r.requested, if r.totalScenarios != 0 then r.totalScenarios else r.scenarioCount);
    requested > 0 && completed >= requested
  }

  // The number of completed scenarios: the progress entry, or the number of
  // scenarios in the report when there is none.
  ghost predicate CompletedIs(r: Report, c: int) {
    r.completed == Some(c) || (r.completed == None && r.scenarioCount == c)
  }

  // The number of requested scenarios: the progress entry, or else the recorded
  // total unless that is 0, or else the number of scenarios in the report.
  ghost predicate RequestedIs(r: Report, n: int) {
    || r.requested == Some(n)
    || (r.requested == None && r.totalScenarios == n && n != 0)
    || (r.requested == None && r.totalScenarios == 0 && r.scenarioCount == n)
  }

  lemma CompleteIff(r: Report, c: int, n: int)
    requires CompletedIs(r, c) && RequestedIs(r, n)
    ensures ReportIsComplete(r) <==> n >= 1 && n <= c
  {
  }

  // ----- file names

  function ModelSlug(model: string): (slug: string)
    ensures |slug| == |model|
    ensures forall i | 0 <= i < |model| :: slug[i] == if model[i] in {'/', ':'} then '_' else model[i]
  {
    if model == "" then ""
    else [if model[0] == '/' || model[0] == ':' then '_' else model[0]] + ModelSlug(model[1..])
  }

  function Prefix(model: string): string { "result_" + ModelSlug(model) + "_" }

  predicate EndsWith(s: string, t: string) { |t| <= |s| && s[|s| - |t|..] == t }

  // The glob f"{prefix}*.json".
  predicate NameMatches(model: string, name: string) {
    Prefix(model) <= name && EndsWith(name[|Prefix(model)|..], ".json")
  }

  // The timestamps names are reserved with.
  ghost predicate IsTimestamp(t: string) {
    exists m :: ValidMoment(m) && t == Strftime(m)
  }

  const NOON := Moment(DateTime(2025, 1, 1, 12, 0), 0, 0)

  function SuffixPart(k: nat): string { if k == 0 then "" else "_" + Decimal(k) }

  // A reserved name without its extension.
  function Stem(model: string, timestamp: string, k: nat): string {
    Prefix(model) + timestamp + SuffixPart(k)
  }

  function Suffixed(model: string, timestamp: string, k: nat): string {
    Stem(model, timestamp, k) + ".json"
  }

  ghost predicate NameIs(model: string, name: string, middle: string) {
    name == "result_" + ModelSlug(model) + "_" + middle + ".json"
  }

  // The glob in the name's own letters.
  lemma NameMatchesIff(model: string, name: string)
    ensures NameMatches(model, name) <==> exists middle :: NameIs(model, name, middle)
  {
    var n := |Prefix(model)|;
    if NameMatches(model, name) {
      var rest := name[n..];
      var middle := rest[..|rest| - 5];
      assert rest == middle + ".json";
      assert NameIs(model, name, middle);
    }
    if middle :| NameIs(model, name, middle) {
      assert name == Prefix(model) + middle + ".json";
      assert name[..n] == Prefix(model) && name[n..] == middle + ".json";
    }
  }

  // The reserved names, and which of them a search finds.
  lemma ReservedName(model: string, timestamp: string, k: nat)
    ensures Suffixed(model, timestamp, k) == "result_" + ModelSlug(model) + "_" + timestamp +
              (if k == 0 then ".json" else "_" + Decimal(k) + ".json")
    ensures NameMatches(model, Suffixed(model, timestamp, k))
  {
    var base := "result_" + ModelSlug(model) + "_" + timestamp;
    assert base + "" + ".json" == base + ".json";
    assert base + ("_" + Decimal(k)) + ".json" == base + ("_" + Decimal(k) + ".json");
    SuffixedMatches(model, timestamp, k);
  }

  lemma SuffixedInjective(model: string, timestamp: string, j: nat, k: nat)
    requires Suffixed(model, timestamp, j) == Suffixed(model, timestamp, k)
    ensures j == k
  {
    var base := Prefix(model) + timestamp;
    var x, y := SuffixPart(j), SuffixPart(k);
    assert base + x + ".json" == base + y + ".json";
    assert |x| == |y|;
    assert x == (base + x + ".json")[|base|..|base| + |x|];
    assert y == (base + y + ".json")[|base|..|base| + |y|];
    if j > 0 && k > 0 {
      assert Decimal(j) == x[1..] && Decimal(k) == y[1..];
      DecimalInjective(j, k);
    }
  }

  lemma SuffixedMatches(model: string, timestamp: string, k: nat)
    ensures NameMatches(model, Suffixed(model, timestamp, k))
  {
    var tail := timestamp + SuffixPart(k);
    assert Suffixed(model, timestamp, k) == Prefix(model) + (tail + ".json");
    assert (Prefix(model) + (tail + ".json"))[|Prefix(model)|..] == tail + ".json";
  }

  function Attempt(dir: string, model: string, timestamp: string, k: nat): Path {
    Path(dir, Suffixed(model, timestamp, k))
  }

  // The first k attempts are all taken.
  ghost predicate TakenBelow(disk: Disk, dir: string, model: string, timestamp: string, k: nat) {
    forall j: nat | j < k :: Attempt(dir, model, timestamp, j) in disk
  }

  // Only finitely many attempts can be taken.
  lemma {:induction false} TakenAreFew(disk: Disk, dir: string, model: string, timestamp: string, k: nat)
    returns (tried: set<Path>)
    requires TakenBelow(disk, dir, model, timestamp, k)
    ensures tried <= disk.Keys && |tried| == k
    ensures forall p | p in tried :: exists j: nat :: j < k && p == Attempt(dir, model, timestamp, j)
    decreases k
  {
    if k == 0 {
      tried := {};
    } else {
      var fewer := TakenAreFew(disk, dir, model, timestamp, k - 1);
      var last := Attempt(dir, model, timestamp, k - 1);
      if last in fewer {
        var j: nat :| j < k - 1 && last == Attempt(dir, model, timestamp, j);
        SuffixedInjective(model, timestamp, j, k - 1);
      }
      tried := fewer + {last};
    }
  }

  // A path no file has, under the model's own prefix.
  ghost predicate Fresh(disk: Disk, dir: string, model: string, p: Path) {
    p !in disk && p.dir == dir && NameMatches(model, p.name)
  }

  // The first attempt, in the order of suffixes, that no file has.
  ghost predicate FirstFree(disk: Disk, dir: string, model: string, timestamp: string, k: nat) {
    Attempt(dir, model, timestamp, k) !in disk && TakenBelow(disk, dir, model, timestamp, k)
  }

  // A name reserved for the model, at some moment.
  ghost predicate OwnName(model: string, name: string) {
    exists timestamp, k: nat :: IsTimestamp(timestamp) && name == Suffixed(model, timestamp, k)
  }

  // The suffix loop ends, and what it returns is free.
  method ReserveReportPath(disk: Disk, dir: string, model: string, timestamp: string) returns (path: Path)
    ensures Fresh(disk, dir, model, path)
    ensures exists k: nat :: FirstFree(disk, dir, model, timestamp, k) && path == Attempt(dir, model, timestamp, k)
    ensures IsTimestamp(timestamp) ==> OwnName(model, path.name)
  {
    path := Path(dir, Suffixed(model, timestamp, 0));
    var suffix := 1;
    while path in disk
      invariant suffix >= 1 && path == Attempt(dir, model, timestamp, suffix - 1)
      invariant TakenBelow(disk, dir, model, timestamp, suffix - 1)
      decreases |disk.Keys| - suffix
    {
      ghost var tried := TakenAreFew(disk, dir, model, timestamp, suffix);
      SubsetSize(tried, disk.Keys);
      path := Path(dir, Suffixed(model, timestamp, suffix));
      suffix := suffix + 1;
    }
    SuffixedMatches(model, timestamp, suffix - 1);
    assert FirstFree(disk, dir, model, timestamp, suffix - 1);
  }

  // ----- the source of a resumed run

  ghost predicate Matches(disk: Disk, dir: string, model: string, p: Path) {
    p in disk && p.dir == dir && NameMatches(model, p.name)
  }

  // The match with the greatest name, if there is any match.
  ghost predicate Latest(disk: Disk, dir: string, model: string, found: Option<Path>) {
    && (found.None? ==> forall p :: !Matches(disk, dir, model, p))
    && (found.Some? ==> Matches(disk, dir, model, found.value))
    && (found.Some? ==>
          forall p | Matches(disk, dir, model, p) :: p == found.value || StrLess(p.name, found.value.name))
  }

  method FindLatestReport(disk: Disk, dir: string, model: string) returns (found: Option<Path>)
    ensures Latest(disk, dir, model, found)
  {
    var matchSet := set p | p in disk && p.dir == dir && NameMatches(model, p.name) :: p.name;
    var names := SortedKeys(matchSet);
    SortedListingFacts(matchSet, names);
    assert forall p :: Matches(disk, dir, model, p) ==> p.name in names;
    if names == [] { return None; }
    var last := names[|names| - 1];
    assert last in names;
    forall p | Matches(disk, dir, model, p) ensures p == Path(dir, last) || StrLess(p.name, last) {
      var i :| 0 <= i < |names| && names[i] == p.name;
      if i < |names| - 1 { assert StrLess(names[i], names[|names| - 1]); }
    }
    return Some(Path(dir, last));
  }

  lemma SuffixedParts(model: string, timestamp: string, k: nat)
    ensures Suffixed(model, timestamp, k) == Prefix(model) + (timestamp + (SuffixPart(k) + ".json"))
  {
  }

  lemma MiddleFirst(head: string, x: string, s: string, y: string, t: string)
    requires |x| == |y|
    ensures StrLess(head + (x + s), head + (y + t)) <==> StrLess(x, y) || (x == y && StrLess(s, t))
    ensures head + (x + s) == head + (y + t) <==> x == y && s == t
  {
    HeadFirst(head, x + s, head, y + t);
    HeadFirst(x, s, y, t);
    StrIrreflexive(head);
  }

  // A model's reserved names compare as their moments do; only within one
  // microsecond the suffixes decide.
  lemma NameOrder(model: string, m: Moment, k: nat, n: Moment, j: nat)
    requires ValidMoment(m) && ValidMoment(n)
    ensures StrLess(Suffixed(model, Strftime(m), k), Suffixed(model, Strftime(n), j)) <==>
            Earlier(m, n) || (m == n && StrLess(SuffixPart(k) + ".json", SuffixPart(j) + ".json"))
    ensures Suffixed(model, Strftime(m), k) == Suffixed(model, Strftime(n), j) ==> m == n
  {
    SuffixedParts(model, Strftime(m), k);
    SuffixedParts(model, Strftime(n), j);
    MiddleFirst(Prefix(model), Strftime(m), SuffixPart(k) + ".json", Strftime(n), SuffixPart(j) + ".json");
    StrftimeOrder(m, n);
  }

  // So of the reports reserved for the model, --continue resumes a most recent one.
  lemma LatestIsMostRecent(disk: Disk, dir: string, model: string, m: Moment, k: nat, n: Moment, j: nat)
    requires ValidMoment(m) && ValidMoment(n)
    requires Latest(disk, dir, model, Some(Attempt(dir, model, Strftime(m), k)))
    requires Attempt(dir, model, Strftime(n), j) in disk
    ensures !Earlier(m, n)
  {
    SuffixedMatches(model, Strftime(n), j);
    assert Matches(disk, dir, model, Attempt(dir, model, Strftime(n), j));
    NameOrder(model, n, j, m, k);
  }

  const PRO_PREFIX := "siliconflow/Pro/"

  // Model names that count as the same model when resuming.
  function NormalizeResumeModel(model: string): string {
    if PRO_PREFIX <= model then "siliconflow/" + model[|PRO_PREFIX|..]
    else if model == "baiduqianfan/ernie-4.5-turbo-20260402" then "baiduqianfancodingplan/qianfan-code-latest"
    else model
  }

  // b is a with the Pro/ after siliconflow/ left out, and has none itself.
  ghost predicate ProPair(a: string, b: string) {
    !("siliconflow/Pro/" <= b) && "siliconflow/Pro/" <= a && b == "siliconflow/" + a[16..]
  }

  ghost predicate QianfanPair(a: string, b: string) {
    a == "baiduqianfan/ernie-4.5-turbo-20260402" && b == "baiduqianfancodingplan/qianfan-code-latest"
  }

  lemma ProForms(a: string, b: string)
    requires PRO_PREFIX <= a
    ensures NormalizeResumeModel(a) == "siliconflow/" + a[16..]
    ensures PRO_PREFIX <= b && a != b ==> NormalizeResumeModel(a) != NormalizeResumeModel(b)
    ensures !QianfanPair(a, b) && !QianfanPair(b, a) && NormalizeResumeModel(a)[0] == 's'
  {
    assert a[0] == 's' && PRO_PREFIX[..12] == "siliconflow/";
    if PRO_PREFIX <= b {
      assert a == PRO_PREFIX + a[16..] && b == PRO_PREFIX + b[16..];
      assert NormalizeResumeModel(a)[12..] == a[16..] && NormalizeResumeModel(b)[12..] == b[16..];
    } else if b == "baiduqianfancodingplan/qianfan-code-latest" {
      assert b[0] == 'b';
    } else if b == "baiduqianfan/ernie-4.5-turbo-20260402" {
      assert b[0] == 'b';
    }
  }

  // Two different names count as one model exactly when one is the other with Pro/
  // put in after siliconflow/, or they are the two names of one Qianfan model.
  lemma AliasIff(a: string, b: string)
    requires a != b
    ensures NormalizeResumeModel(a) == NormalizeResumeModel(b) <==>
            ProPair(a, b) || ProPair(b, a) || QianfanPair(a, b) || QianfanPair(b, a)
  {
    if PRO_PREFIX <= a { ProForms(a, b); }
    if PRO_PREFIX <= b { ProForms(b, a); }
  }

  ghost predicate AliasOf(r: Report, model: string) {
    r.model != model && NormalizeResumeModel(r.model) == NormalizeResumeModel(model)
  }

  datatype Choice =
    | BothFlagsError
    | LoadError
    | Target(source: Option<Path>, target: Path)

  ghost predicate SourceOf(disk: Disk, args: Args, source: Option<Path>) {
    if args.resumeFrom.Some? then source == args.resumeFrom
    else if args.continueRun then Latest(disk, args.resultsDir, args.model, source)
    else source == None
  }

  ghost predicate Readable(disk: Disk, p: Path) { p in disk && disk[p].Some? }

  // The arguments and the disk fix the source.
  lemma SourceUnique(disk: Disk, args: Args, a: Option<Path>, b: Option<Path>)
    requires SourceOf(disk, args, a) && SourceOf(disk, args, b)
    ensures a == b
  {
    StrStrictTotal();
    if args.resumeFrom.None? && args.continueRun && a.Some? && b.Some? {
      assert Matches(disk, args.resultsDir, args.model, a.value);
      assert Matches(disk, args.resultsDir, args.model, b.value);
    }
  }

  // A run keeps off a complete source, and off an alias-model source given explicitly.
  ghost predicate Preserved(args: Args, r: Report) {
    ReportIsComplete(r) || (args.resumeFrom.Some? && AliasOf(r, args.model))
  }

  // A run writes its source when it may, and a fresh path otherwise.
  ghost predicate Chosen(disk: Disk, args: Args, source: Option<Path>, target: Path) {
    && !(args.continueRun && args.resumeFrom.Some?)
    && SourceOf(disk, args, source)
    && (source.Some? ==> Readable(disk, source.value))
    && if source.Some? && !Preserved(args, disk[source.value].value) then target == source.value
       else Fresh(disk, args.resultsDir, args.model, target)
  }

  method RunCommon(disk: Disk, args: Args, timestamp: string) returns (c: Choice)
    ensures c.BothFlagsError? <==> args.continueRun && args.resumeFrom.Some?
    ensures c.LoadError? <==> !(args.continueRun && args.resumeFrom.Some?) && exists source: Option<Path> ::
        SourceOf(disk, args, source) && source.Some? && !Readable(disk, source.value)
    ensures c.Target? ==> Chosen(disk, args, c.source, c.target)
  {
    if args.continueRun && args.resumeFrom.Some? { return BothFlagsError; }
    var source: Option<Path> := None;
    if args.resumeFrom.Some? {
      source := args.resumeFrom;
    } else if args.continueRun {
      source := FindLatestReport(disk, args.resultsDir, args.model);
    }
    forall s | SourceOf(disk, args, s) ensures s == source { SourceUnique(disk, args, s, source); }
    if source.Some? && (source.value !in disk || disk[source.value].None?) { return LoadError; }
    var preserveCompleted := source.Some? && ReportIsComplete(disk[source.value].value);
    var preserveAlias := source.Some? && args.resumeFrom.Some?
      && disk[source.value].value.model != args.model
      && NormalizeResumeModel(disk[source.value].value.model) == NormalizeResumeModel(args.model);
    var target;
    if preserveCompleted || preserveAlias || source.None? {
      target := ReserveReportPath(disk, args.resultsDir, args.model, timestamp);
    } else {
      target := source.value;
    }
    return Target(source, target);
  }

  // ----- what runs do to the disk

  // write_report goes through this file and renames it.
  function TempOf(p: Path): Path { p.(name := p.name + ".tmp") }

  // Whatever checkpoints a run writes, and wherever it stops, it touches its
  // target and the target's temporary file only.
  ghost predicate Touches(before: Disk, after: Disk, target: Path) {
    forall p | p != target && p != TempOf(target) ::
      (p in after <==> p in before) && (p in before ==> after[p] == before[p])
  }

  ghost predicate RunStep(before: Disk, after: Disk, args: Args) {
    before == after || exists source, target :: Chosen(before, args, source, target) && Touches(before, after, target)
  }

  ghost predicate History(disks: seq<Disk>, runs: seq<Args>) {
    |disks| == |runs| + 1 && forall i | 0 <= i < |runs| :: RunStep(disks[i], disks[i + 1], runs[i])
  }

  ghost predicate Same(before: Disk, after: Disk, p: Path) {
    p in before && p in after && after[p] == before[p]
  }

  // A run changes a report only by resuming from it, and then only if that
  // report is incomplete and not an explicitly given alias.
  lemma OnlyTheSourceChanges(before: Disk, after: Disk, args: Args, p: Path)
    requires RunStep(before, after, args) && p in before && !EndsWith(p.name, ".tmp")
    ensures Same(before, after, p) ||
            (SourceOf(before, args, Some(p)) && Readable(before, p) && !Preserved(args, before[p].value))
  {
    if before != after {
      var source, target :| Chosen(before, args, source, target) && Touches(before, after, target);
      assert EndsWith(TempOf(target).name, ".tmp");
      assert p != TempOf(target);
    }
  }

  ghost predicate CompleteAt(disk: Disk, p: Path) {
    Readable(disk, p) && ReportIsComplete(disk[p].value)
  }

  // Over any history, a report that is complete after some run keeps its
  // contents through every later run.
  lemma {:induction false} CompleteReportsSurvive(disks: seq<Disk>, runs: seq<Args>, i: nat, j: nat, p: Path)
    requires History(disks, runs) && i <= j < |disks| && CompleteAt(disks[i], p) && !EndsWith(p.name, ".tmp")
    ensures Same(disks[i], disks[j], p)
    decreases j - i
  {
    if i < j {
      CompleteReportsSurvive(disks, runs, i, j - 1, p);
      assert RunStep(disks[j - 1], disks[j - 1 + 1], runs[j - 1]);
      OnlyTheSourceChanges(disks[j - 1], disks[j], runs[j - 1], p);
    }
  }

  // The same in the report's own numbers: a report of c completed scenarios out of
  // n requested, 1 <= n <= c, is never written again.
  lemma FinishedReportsSurvive(disks: seq<Disk>, runs: seq<Args>, i: nat, j: nat, p: Path, c: int, n: int)
    requires History(disks, runs) && i <= j < |disks| && Readable(disks[i], p) && !EndsWith(p.name, ".tmp")
    requires CompletedIs(disks[i][p].value, c) && RequestedIs(disks[i][p].value, n) && 1 <= n <= c
    ensures p in disks[j] && disks[j][p] == disks[i][p]
  {
    CompleteIff(disks[i][p].value, c, n);
    CompleteReportsSurvive(disks, runs, i, j, p);
  }

  // And the other way round: a source that is not finished, and is no alias given
  // explicitly, is the target; a finished one never is.
  lemma SourceIsTargetIff(disk: Disk, args: Args, p: Path, target: Path, c: int, n: int)
    requires Chosen(disk, args, Some(p), target)
    requires CompletedIs(disk[p].value, c) && RequestedIs(disk[p].value, n)
    ensures target == p <==> (n < 1 || c < n) && !(args.resumeFrom == Some(p) && AliasOf(disk[p].value, args.model))
  {
    CompleteIff(disk[p].value, c, n);
  }

  // A run told to resume from an alias model's report never writes that report.
  lemma ExplicitAliasSurvives(before: Disk, after: Disk, args: Args, p: Path)
    requires RunStep(before, after, args) && args.resumeFrom == Some(p)
    requires Readable(before, p) && AliasOf(before[p].value, args.model) && !EndsWith(p.name, ".tmp")
    ensures Same(before, after, p)
  {
    OnlyTheSourceChanges(before, after, args, p);
  }

  // Reports appear only under the running model's prefix.
  lemma NewReportsAreOwn(before: Disk, after: Disk, args: Args, p: Path)
    requires RunStep(before, after, args) && p in after && p !in before && !EndsWith(p.name, ".tmp")
    ensures p.dir == args.resultsDir && NameMatches(args.model, p.name)
  {
    var source, target :| Chosen(before, args, source, target) && Touches(before, after, target);
    assert EndsWith(TempOf(target).name, ".tmp");
    assert p == target;
  }

  // ----- when a run writes a report of another model

  ghost predicate Writes(disk: Disk, args: Args, p: Path) {
    exists source :: Chosen(disk, args, source, p)
  }

  ghost predicate ReportOf(disk: Disk, p: Path, model: string) {
    Readable(disk, p) && disk[p].value.model == model
  }

  // The reports a run can change are the ones it may choose to write.
  lemma ChangeIffWrites(before: Disk, args: Args, p: Path)
    requires Readable(before, p) && !EndsWith(p.name, ".tmp")
    ensures (exists after :: RunStep(before, after, args) && !Same(before, after, p)) <==> Writes(before, args, p)
  {
    if after :| RunStep(before, after, args) && !Same(before, after, p) {
      OnlyTheSourceChanges(before, after, args, p);
      var source, target :| Chosen(before, args, source, target) && Touches(before, after, target);
      assert EndsWith(TempOf(target).name, ".tmp");
      assert p == target;
    }
    if source :| Chosen(before, args, source, p) {
      var r := before[p].value;
      var after := before[p := Some(r.(scenarioCount := r.scenarioCount + 1))];
      assert Touches(before, after, p);
      assert RunStep(before, after, args) && !Same(before, after, p);
    }
  }

  // A report of another model is written exactly when it is incomplete and
  // either given explicitly, not being an alias, or the latest match of --continue.
  lemma OtherModelWritten(disk: Disk, args: Args, p: Path)
    requires Readable(disk, p) && disk[p].value.model != args.model
    ensures Writes(disk, args, p) <==>
            && !ReportIsComplete(disk[p].value)
            && if args.resumeFrom.Some? then
                 args.resumeFrom.value == p && !args.continueRun && !AliasOf(disk[p].value, args.model)
               else args.continueRun && Latest(disk, args.resultsDir, args.model, Some(p))
  {
    if args.continueRun || args.resumeFrom.Some? {
      if !args.continueRun || args.resumeFrom.None? {
        if SourceOf(disk, args, Some(p)) && !Preserved(args, disk[p].value) { assert Chosen(disk, args, Some(p), p); }
      }
    }
  }

  // The search of one model matches a name reserved for another exactly when
  // its prefix runs along that name's stem ...
  lemma ForeignNameMatches(model: string, other: string, timestamp: string, k: nat)
    ensures NameMatches(model, Suffixed(other, timestamp, k)) <==> Prefix(model) <= Stem(other, timestamp, k)
  {
    var stem, name := Stem(other, timestamp, k), Suffixed(other, timestamp, k);
    var n := |Prefix(model)|;
    if n <= |stem| {
      assert name[..n] == stem[..n];
      assert name[n..] == stem[n..] + ".json";
    }
  }

  // ... which for a model name no longer than the other is a matter of the slugs
  // alone (equal slugs included), and for a longer one of the timestamp too.
  lemma ForeignNameMatchesBySlug(model: string, other: string, timestamp: string, k: nat)
    ensures |model| <= |other| ==> (NameMatches(model, Suffixed(other, timestamp, k)) <==>
              ModelSlug(model) + "_" <= ModelSlug(other) + "_")
    ensures |model| > |other| ==> (NameMatches(model, Suffixed(other, timestamp, k)) <==>
              ModelSlug(other) + "_" <= ModelSlug(model) + "_" &&
              (ModelSlug(model) + "_")[|other| + 1..] <= timestamp + SuffixPart(k))
  {
    ForeignNameMatches(model, other, timestamp, k);
    var a, b, rest := ModelSlug(model) + "_", ModelSlug(other) + "_", timestamp + SuffixPart(k);
    PrefixAlongStem(model, other, timestamp, k);
    PrefixOfSum(a, b, rest);
  }

  lemma PrefixAlongStem(model: string, other: string, timestamp: string, k: nat)
    ensures Prefix(model) <= Stem(other, timestamp, k) <==>
            ModelSlug(model) + "_" <= (ModelSlug(other) + "_") + (timestamp + SuffixPart(k))
  {
    var head, part := "result_", SuffixPart(k);
    Regroup(head, ModelSlug(model), "_", "", "");
    Regroup(head, ModelSlug(other), "_", timestamp, part);
    PrefixUnder(head, ModelSlug(model) + "_", (ModelSlug(other) + "_") + (timestamp + part));
  }

  lemma Regroup(a: string, b: string, c: string, d: string, e: string)
    ensures a + b + c + d + e == a + ((b + c) + (d + e))
    ensures a + b + c == a + (b + c)
  {
  }

  lemma PrefixUnder(head: string, a: string, b: string)
    ensures head + a <= head + b <==> a <= b
  {
    if head + a <= head + b {
      assert a == (head + a)[|head|..] && b == (head + b)[|head|..];
      assert (head + b)[..|head + a|][|head|..] == b[..|a|];
    }
    if a <= b { assert (head + b)[..|head + a|] == head + b[..|a|]; }
  }

  lemma PrefixOfSum(a: string, b: string, rest: string)
    ensures |a| <= |b| ==> (a <= b + rest <==> a <= b)
    ensures |a| > |b| ==> (a <= b + rest <==> b <= a && a[|b|..] <= rest)
  {
    if |a| <= |b| {
      assert (b + rest)[..|a|] == b[..|a|];
    } else if |a| <= |b| + |rest| {
      assert (b + rest)[..|a|] == b + rest[..|a| - |b|];
      assert a == a[..|b|] + a[|b|..];
      if a == b + rest[..|a| - |b|] { assert a[..|b|] == b && a[|b|..] == rest[..|a| - |b|]; }
    }
  }

  // Every readable report of the directory lies under a name reserved for its model.
  ghost predicate OwnNames(disk: Disk, dir: string) {
    forall p: Path | p.dir == dir && Readable(disk, p) :: OwnName(disk[p].value.model, p.name)
  }

  function ContinueArgs(model: string, dir: string): Args { Args(model, dir, None, true) }

  lemma OneUnfinished(model: string, p: Path) returns (disk: Disk)
    requires OwnName(model, p.name)
    ensures disk == map[p := Some(Report(model, Some(0), Some(1), 0, 1))] && OwnNames(disk, p.dir)
  {
    disk := map[p := Some(Report(model, Some(0), Some(1), 0, 1))];
    forall q: Path | q.dir == p.dir && Readable(disk, q) ensures q == p {}
  }

  lemma WrittenIsMatched(disk: Disk, model: string, p: Path, dir: string)
    requires Readable(disk, p) && disk[p].value.model != model && Writes(disk, ContinueArgs(model, dir), p)
    ensures p.dir == dir && NameMatches(model, p.name)
  {
    OtherModelWritten(disk, ContinueArgs(model, dir), p);
  }

  lemma MatchedIsWritten(disk: Disk, model: string, other: string, p: Path)
    requires model != other && NameMatches(model, p.name)
    requires disk == map[p := Some(Report(other, Some(0), Some(1), 0, 1))]
    ensures ReportOf(disk, p, other) && Writes(disk, ContinueArgs(model, p.dir), p)
  {
    assert Latest(disk, p.dir, model, Some(p));
    OtherModelWritten(disk, ContinueArgs(model, p.dir), p);
  }

  // In some directory of own-named reports, --continue for one model writes the
  // other model's report of this name, exactly when its search matches the name.
  lemma ContinueWritesNameIff(model: string, other: string, p: Path)
    requires model != other && OwnName(other, p.name)
    ensures (exists disk :: OwnNames(disk, p.dir) && ReportOf(disk, p, other) &&
                            Writes(disk, ContinueArgs(model, p.dir), p)) <==>
            NameMatches(model, p.name)
  {
    if disk :| OwnNames(disk, p.dir) && ReportOf(disk, p, other) && Writes(disk, ContinueArgs(model, p.dir), p) {
      WrittenIsMatched(disk, model, p, p.dir);
    }
    if NameMatches(model, p.name) {
      var disk := OneUnfinished(other, p);
      MatchedIsWritten(disk, model, other, p);
    }
  }

  // A timestamp up to one of its underscores, or with the one before a suffix.
  ghost predicate StampPrefix(x: string) {
    exists m :: StampPrefixOf(x, m)
  }

  ghost predicate StampPrefixOf(x: string, m: Moment) {
    ValidMoment(m) && |x| in {9, 16, 23} && x <= Strftime(m) + "_"
  }

  lemma UnderscorePlaces(m: Moment, k: nat, i: nat)
    requires ValidMoment(m) && i < |Strftime(m) + SuffixPart(k)|
    ensures (Strftime(m) + SuffixPart(k))[i] == '_' ==> i in {8, 15, 22}
  {
    if i < 22 {
      StrftimeShape(m, i);
    } else if i > 22 {
      DecimalReadsBack(k);
      assert (Strftime(m) + SuffixPart(k))[i] == Decimal(k)[i - 23];
    }
  }

  lemma StampPrefixes(x: string, m: Moment, k: nat)
    requires ValidMoment(m) && x <= Strftime(m) + SuffixPart(k) && x != "" && x[|x| - 1] == '_'
    ensures StampPrefixOf(x, m)
  {
    UnderscorePlaces(m, k, |x| - 1);
  }

  lemma TailIsStamp(x: string, timestamp: string, k: nat)
    requires IsTimestamp(timestamp) && x <= timestamp + SuffixPart(k) && x != "" && x[|x| - 1] == '_'
    ensures StampPrefix(x)
  {
    var m :| ValidMoment(m) && timestamp == Strftime(m);
    StampPrefixes(x, m, k);
  }

  lemma StampPrefixOccurs(x: string, m: Moment) returns (k: nat)
    requires StampPrefixOf(x, m)
    ensures x <= Strftime(m) + SuffixPart(k)
  {
    k := if |x| == 23 then 1 else 0;
    assert Strftime(m) + SuffixPart(0) == Strftime(m);
    assert Strftime(m) + SuffixPart(1) == Strftime(m) + "_" + Decimal(1);
  }

  // One slug, closed by an underscore, begins the other; when it is the other
  // model's that is shorter, the rest must look like a timestamp as well.
  ghost predicate CanCollide(model: string, other: string) {
    var a, b := ModelSlug(model) + "_", ModelSlug(other) + "_";
    a <= b || (|b| < |a| && b <= a && StampPrefix(a[|b|..]))
  }

  lemma MatchCollides(model: string, other: string, timestamp: string, k: nat)
    requires IsTimestamp(timestamp) && NameMatches(model, Suffixed(other, timestamp, k))
    ensures CanCollide(model, other)
  {
    var a := ModelSlug(model) + "_";
    ForeignNameMatchesBySlug(model, other, timestamp, k);
    if |other| < |model| { TailIsStamp(a[|other| + 1..], timestamp, k); }
  }

  lemma CollisionOccurs(model: string, other: string) returns (timestamp: string, k: nat)
    requires CanCollide(model, other)
    ensures IsTimestamp(timestamp) && NameMatches(model, Suffixed(other, timestamp, k))
  {
    var m := NOON;
    k := 0;
    if |model| > |other| {
      var x := (ModelSlug(model) + "_")[|other| + 1..];
      m :| StampPrefixOf(x, m);
      k := StampPrefixOccurs(x, m);
    }
    timestamp := Strftime(m);
    ForeignNameMatchesBySlug(model, other, timestamp, k);
  }

  // The search of one model can match a name reserved for the other exactly
  // when the two can collide.
  lemma MatchIffCanCollide(model: string, other: string)
    ensures (exists name :: OwnName(other, name) && NameMatches(model, name)) <==> CanCollide(model, other)
  {
    if name :| OwnName(other, name) && NameMatches(model, name) {
      var timestamp, k: nat :| IsTimestamp(timestamp) && name == Suffixed(other, timestamp, k);
      MatchCollides(model, other, timestamp, k);
    }
    if CanCollide(model, other) {
      var timestamp, k := CollisionOccurs(model, other);
      assert OwnName(other, Suffixed(other, timestamp, k));
    }
  }

  // In some directory of own-named reports --continue for one model writes a
  // report of the other, exactly when the two can collide.
  lemma ContinueWritesOtherIff(model: string, other: string, dir: string)
    requires model != other
    ensures (exists disk, p: Path :: p.dir == dir && OwnNames(disk, dir) && ReportOf(disk, p, other) &&
                                     Writes(disk, ContinueArgs(model, dir), p)) <==>
            CanCollide(model, other)
  {
    MatchIffCanCollide(model, other);
    if disk, p: Path :| p.dir == dir && OwnNames(disk, dir) && ReportOf(disk, p, other) &&
                        Writes(disk, ContinueArgs(model, dir), p) {
      ContinueWritesNameIff(model, other, p);
    }
    if CanCollide(model, other) {
      var name :| OwnName(other, name) && NameMatches(model, name);
      ContinueWritesNameIff(model, other, Path(dir, name));
    }
  }

  // Among own-named reports of models that cannot collide, --continue writes
  // reports of its own model only.
  lemma ContinueWritesOwnModel(disk: Disk, model: string, dir: string, p: Path)
    requires OwnNames(disk, dir) && Readable(disk, p) && Writes(disk, ContinueArgs(model, dir), p)
    requires forall q: Path | q.dir == dir && Readable(disk, q) && disk[q].value.model != model ::
               !CanCollide(model, disk[q].value.model)
    ensures disk[p].value.model == model
  {
    var other := disk[p].value.model;
    if other != model {
      WrittenIsMatched(disk, model, p, dir);
      assert OwnName(other, p.name);
      MatchIffCanCollide(model, other);
      assert false;
    }
  }

  lemma PlainSlug(model: string)
    requires '/' !in model && ':' !in model
    ensures ModelSlug(model) == model
  {
  }

  // A model can take names of every model other_tail, and one of those can take
  // its names exactly when the tail ends where a timestamp has an underscore.
  lemma TailCollides(other: string, tail: string)
    requires '/' !in other + "_" + tail && ':' !in other + "_" + tail
    ensures CanCollide(other, other + "_" + tail)
    ensures CanCollide(other + "_" + tail, other) <==> StampPrefix(tail + "_")
  {
    var model := other + "_" + tail;
    assert forall c | c in other :: c in model;
    PlainSlug(model);
    PlainSlug(other);
    assert model + "_" == (other + "_") + (tail + "_");
    assert (model + "_")[|other| + 1..] == tail + "_";
  }

  lemma SlugsCanCoincide()
    ensures CanCollide("a/b", "a_b") && CanCollide("a_b", "a/b")
  {
    assert ModelSlug("a/b") == "a_b";
    PlainSlug("a_b");
  }

  lemma SearchOfA(timestamp: string)
    ensures NameMatches("a", Suffixed("a_b", timestamp, 0))
  {
    PlainSlug("a_b");
    PlainSlug("a");
    assert "a_b_" == "a_" + "b_";
    ForeignNameMatchesBySlug("a", "a_b", timestamp, 0);
  }

  // Model "a" resumes from, and writes, an incomplete report of model "a_b" ...
  lemma ContinueMayTakeAnotherModel(dir: string, timestamp: string)
    requires IsTimestamp(timestamp)
    ensures exists disk, p: Path :: p == Attempt(dir, "a_b", timestamp, 0) && OwnNames(disk, dir) &&
              ReportOf(disk, p, "a_b") && Writes(disk, ContinueArgs("a", dir), p)
  {
    SearchOfA(timestamp);
    ContinueWritesNameIff("a", "a_b", Attempt(dir, "a_b", timestamp, 0));
  }

  // ... which never takes one of model "a".
  lemma ButNotTheReverse()
    ensures !CanCollide("a_b", "a")
  {
    TailCollides("a", "b");
    assert "a" + "_" + "b" == "a_b";
  }
}
