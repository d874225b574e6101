// intel_m07: the two validators of a dependency plan, over any task graph.
module Dependency {
  import opened Orders

  // Each task's list of dependencies.
  type Graph = map<string, seq<string>>

  // ----- execution orders

  ghost predicate DepsEarlier(g: Graph, order: seq<string>, i: nat)
    requires i < |order|
  {
    order[i] in g ==> forall d | d in g[order[i]] :: d in order[..i]
  }

  // All tasks and nothing else, every dependency before its task.
  ghost predicate TopoOrder(g: Graph, order: seq<string>) {
    Elements(order) == g.Keys && forall i: nat | i < |order| :: DepsEarlier(g, order, i)
  }

  method IsValidTopoOrder(g: Graph, order: seq<string>) returns (ok: bool)
    ensures ok <==> TopoOrder(g, order)
  {
    if Elements(order) != g.Keys { return false; }
    var seen: set<string> := {};
    for i := 0 to |order|
      invariant seen == Elements(order[..i])
      invariant forall k: nat | k < i :: DepsEarlier(g, order, k)
    {
      var deps := if order[i] in g then g[order[i]] else [];
      assert forall d :: d in seen <==> d in order[..i];
      if !(forall d | d in deps :: d in seen) {
        assert !DepsEarlier(g, order, i);
        return false;
      }
      assert order[..i + 1] == order[..i] + [order[i]];
      AppendElements(order[..i], order[i]);
      seen := seen + {order[i]};
    }
    return true;
  }

  // Nothing counts the tasks: an accepted list names every task once exactly when
  // it is as long as there are tasks ...
  lemma OrderIsPermutationIff(g: Graph, order: seq<string>)
    requires TopoOrder(g, order)
    ensures |order| >= |g.Keys|
    ensures Distinct(order) <==> |order| == |g.Keys|
  {
    RepeatSize(order);
    if Distinct(order) { DistinctSize(order); }
  }

  // ... and a list that repeats a task can be accepted.
  lemma RepeatedTaskAccepted()
    ensures TopoOrder(map["t" := []], ["t", "t"]) && !Distinct(["t", "t"])
  {
    var order := ["t", "t"];
    assert order[0] == order[1];
  }

  // ----- parallel groups

  datatype Group = NotAList | Group(ids: seq<string>)
  datatype Groups = NoList | Groups(items: seq<Group>)

  function IdsOf(x: Group): seq<string> { if x.Group? then x.ids else [] }

  function Flatten(gs: seq<Group>): seq<string> {
    if gs == [] then [] else Flatten(gs[..|gs| - 1]) + IdsOf(gs[|gs| - 1])
  }

  ghost predicate GroupOk(g: Graph, gs: seq<Group>, k: nat)
    requires k < |gs|
  {
    && gs[k].Group?
    && forall t | t in gs[k].ids :: t in g && DepsPrior(g, gs, k, t)
  }

  // Every dependency in an earlier group, none in the task's own group.
  ghost predicate DepsPrior(g: Graph, gs: seq<Group>, k: nat, t: string)
    requires k < |gs| && t in g
  {
    forall d | d in g[t] :: d in Flatten(gs[..k]) && d !in IdsOf(gs[k])
  }

  ghost predicate ValidGroups(g: Graph, gs: seq<Group>) {
    Elements(Flatten(gs)) == g.Keys && forall k: nat | k < |gs| :: GroupOk(g, gs, k)
  }

  method GroupAccepted(g: Graph, gs: seq<Group>, k: nat, seen: set<string>) returns (ok: bool, ids: set<string>)
    requires k < |gs| && gs[k].Group? && seen == Elements(Flatten(gs[..k]))
    ensures ok <==> GroupOk(g, gs, k)
    ensures ok ==> ids == Elements(gs[k].ids)
  {
    ids := {};
    var group := gs[k].ids;
    assert forall d :: d in seen <==> d in Flatten(gs[..k]);
    for j := 0 to |group|
      invariant ids == Elements(group[..j])
      invariant forall i | 0 <= i < j :: group[i] in g && DepsPrior(g, gs, k, group[i])
    {
      var t := group[j];
      if t !in g { return false, {}; }
      assert group[..j + 1] == group[..j] + [t];
      AppendElements(group[..j], t);
      ids := ids + {t};
      var deps := g[t];
      if !(forall d | d in deps :: d in seen) {
        assert !DepsPrior(g, gs, k, t);
        return false, {};
      }
      if exists d :: d in deps && d in group {
        assert !DepsPrior(g, gs, k, t);
        return false, {};
      }
    }
    assert group[..|group|] == group;
    return true, ids;
  }

  lemma FlattenNext(gs: seq<Group>, k: nat)
    requires k < |gs|
    ensures Flatten(gs[..k + 1]) == Flatten(gs[..k]) + IdsOf(gs[k])
    ensures Elements(Flatten(gs[..k + 1])) == Elements(Flatten(gs[..k])) + Elements(IdsOf(gs[k]))
  {
    assert gs[..k + 1][..k] == gs[..k];
    forall x ensures x in Flatten(gs[..k + 1]) <==> x in Flatten(gs[..k]) || x in IdsOf(gs[k]) {}
  }

  method ValidateParallelGroups(g: Graph, groups: Groups) returns (ok: bool)
    ensures ok <==> groups.Groups? && ValidGroups(g, groups.items)
  {
    if groups.NoList? { return false; }
    var gs := groups.items;
    var seen, allIds: set<string> := {}, {};
    for k := 0 to |gs|
      invariant seen == allIds == Elements(Flatten(gs[..k]))
      invariant forall i: nat | i < k :: GroupOk(g, gs, i)
    {
      if gs[k].NotAList? {
        assert !GroupOk(g, gs, k);
        return false;
      }
      var accepted, ids := GroupAccepted(g, gs, k, seen);
      if !accepted { return false; }
      FlattenNext(gs, k);
      allIds := allIds + ids;
      seen := seen + Elements(gs[k].ids);
    }
    assert gs[..|gs|] == gs;
    return allIds == g.Keys;
  }

  // ----- the two validators describe the same plans

  lemma {:induction false} FlattenPosition(gs: seq<Group>, n: nat, i: nat) returns (k: nat)
    requires n <= |gs| && i < |Flatten(gs[..n])|
    ensures k < n && Flatten(gs[..n])[i] in IdsOf(gs[k])
    ensures |Flatten(gs[..k])| <= i && Flatten(gs[..k]) == Flatten(gs[..n])[..|Flatten(gs[..k])|]
    decreases n
  {
    FlattenNext(gs, n - 1);
    if i < |Flatten(gs[..n - 1])| {
      k := FlattenPosition(gs, n - 1, i);
    } else {
      k := n - 1;
    }
  }

  // Accepted groups, written out one after another, are an accepted order.
  lemma GroupsFlatten(g: Graph, gs: seq<Group>)
    requires ValidGroups(g, gs)
    ensures TopoOrder(g, Flatten(gs))
  {
    var order := Flatten(gs);
    assert gs[..|gs|] == gs;
    forall i: nat | i < |order| ensures DepsEarlier(g, order, i) {
      var k := FlattenPosition(gs, |gs|, i);
      assert GroupOk(g, gs, k) && DepsPrior(g, gs, k, order[i]);
      forall d | d in g[order[i]] ensures d in order[..i] {
        var j :| 0 <= j < |Flatten(gs[..k])| && Flatten(gs[..k])[j] == d;
        assert order[..i][j] == d;
      }
    }
  }

  function Singletons(order: seq<string>): seq<Group> {
    seq(|order|, i requires 0 <= i < |order| => Group([order[i]]))
  }

  lemma {:induction false} FlattenSingletons(order: seq<string>, n: nat)
    requires n <= |order|
    ensures Flatten(Singletons(order)[..n]) == order[..n]
    decreases n
  {
    if n > 0 {
      FlattenSingletons(order, n - 1);
      FlattenNext(Singletons(order), n - 1);
      assert IdsOf(Singletons(order)[n - 1]) == [order[n - 1]];
      assert order[..n] == order[..n - 1] + [order[n - 1]];
    }
  }

  lemma {:induction false} NoSelfDependency(g: Graph, order: seq<string>, i: nat)
    requires TopoOrder(g, order) && i < |order| && order[i] in g
    ensures order[i] !in g[order[i]]
    decreases i
  {
    assert DepsEarlier(g, order, i);
    if order[i] in g[order[i]] {
      var j :| 0 <= j < i && order[..i][j] == order[i];
      NoSelfDependency(g, order, j);
    }
  }

  // An accepted order, one task per group, is accepted as groups.
  lemma OrderAsSingletons(g: Graph, order: seq<string>)
    requires TopoOrder(g, order)
    ensures ValidGroups(g, Singletons(order))
  {
    var gs := Singletons(order);
    FlattenSingletons(order, |order|);
    assert gs[..|gs|] == gs && order[..|order|] == order;
    forall k: nat | k < |gs| ensures GroupOk(g, gs, k) {
      FlattenSingletons(order, k);
      assert order[k] in Elements(order);
      assert DepsEarlier(g, order, k);
      NoSelfDependency(g, order, k);
    }
  }

  // ----- when a plan exists at all

  ghost predicate AllKnown(g: Graph) {
    forall t, d | t in g && d in g[t] :: d in g
  }

  // Each task of the chain depends on the next.
  ghost predicate Chain(g: Graph, p: seq<string>) {
    |p| >= 1 && p[0] in g && (|p| > 1 ==> p[1] in g[p[0]] && Chain(g, p[1..]))
  }

  lemma {:induction false} ChainDrop(g: Graph, p: seq<string>, i: nat)
    requires Chain(g, p) && i < |p|
    ensures Chain(g, p[i..])
    decreases i
  {
    if i == 0 {
      assert p[0..] == p;
    } else {
      ChainDrop(g, p[1..], i - 1);
      assert p[1..][i - 1..] == p[i..];
    }
  }

  lemma {:induction false} ChainTake(g: Graph, p: seq<string>, j: nat)
    requires Chain(g, p) && 0 < j <= |p|
    ensures Chain(g, p[..j])
    decreases j
  {
    var q := p[..j];
    if j > 1 {
      ChainTake(g, p[1..], j - 1);
      assert q[1..] == p[1..][..j - 1];
    }
  }

  lemma ChainPart(g: Graph, p: seq<string>, i: nat, j: nat)
    requires Chain(g, p) && i < j <= |p|
    ensures Chain(g, p[i..j])
  {
    ChainDrop(g, p, i);
    ChainTake(g, p[i..], j - i);
    assert p[i..][..j - i] == p[i..j];
  }

  ghost predicate Acyclic(g: Graph) {
    forall p | Chain(g, p) && |p| >= 2 :: p[0] != p[|p| - 1]
  }

  lemma {:induction false} ChainStepsBack(g: Graph, order: seq<string>, i: nat, p: seq<string>) returns (j: nat)
    requires TopoOrder(g, order) && i < |order| && Chain(g, p) && p[0] == order[i]
    ensures j + |p| - 1 <= i && order[j] == p[|p| - 1]
    decreases |p|
  {
    if |p| == 1 {
      j := i;
    } else {
      assert DepsEarlier(g, order, i);
      var k :| 0 <= k < i && order[..i][k] == p[1];
      assert order[k] in Elements(order);
      j := ChainStepsBack(g, order, k, p[1..]);
    }
  }

  lemma {:induction false} NoCycleThrough(g: Graph, order: seq<string>, i: nat, p: seq<string>)
    requires TopoOrder(g, order) && i < |order| && Chain(g, p) && |p| >= 2 && p[0] == order[i]
    ensures p[|p| - 1] != p[0]
    decreases i
  {
    if p[|p| - 1] == p[0] {
      var j := ChainStepsBack(g, order, i, p);
      NoCycleThrough(g, order, j, p);
    }
  }

  lemma OrderMeansAcyclic(g: Graph, order: seq<string>)
    requires TopoOrder(g, order)
    ensures AllKnown(g) && Acyclic(g)
  {
    forall t, d | t in g && d in g[t] ensures d in g {
      assert t in Elements(order);
      var i :| 0 <= i < |order| && order[i] == t;
      assert DepsEarlier(g, order, i);
      assert d in order[..i] && d in Elements(order);
    }
    forall p | Chain(g, p) && |p| >= 2 ensures p[0] != p[|p| - 1] {
      assert p[0] in Elements(order);
      var i :| 0 <= i < |order| && order[i] == p[0];
      NoCycleThrough(g, order, i, p);
    }
  }

  ghost predicate DependsInto(g: Graph, t: string, rest: set<string>) {
    t in g && exists d :: d in g[t] && d in rest
  }

  // If every task of `rest` has a dependency in `rest`, chains there grow at will.
  lemma {:induction false} WalkWithin(g: Graph, rest: set<string>, start: string, n: nat) returns (p: seq<string>)
    requires start in rest && forall t | t in rest :: DependsInto(g, t, rest)
    ensures Chain(g, p) && |p| == n + 1 && p[0] == start && Elements(p) <= rest
    decreases n
  {
    assert DependsInto(g, start, rest);
    if n == 0 {
      p := [start];
    } else {
      var d :| d in g[start] && d in rest;
      var q := WalkWithin(g, rest, d, n - 1);
      p := [start] + q;
      assert p[1..] == q;
      ElementsCons(start, q);
    }
  }

  lemma LongWalkRepeats(p: seq<string>, rest: set<string>) returns (i: nat, j: nat)
    requires Elements(p) <= rest && |p| > |rest|
    ensures i < j < |p| && p[i] == p[j]
  {
    SubsetSize(Elements(p), rest);
    if Distinct(p) { DistinctSize(p); }
    i, j :| 0 <= i < j < |p| && p[i] == p[j];
  }

  lemma RepeatIsCycle(g: Graph, p: seq<string>, i: nat, j: nat)
    requires Chain(g, p) && i < j < |p| && p[i] == p[j]
    ensures !Acyclic(g)
  {
    ChainPart(g, p, i, j + 1);
    var c := p[i..j + 1];
    assert c[0] == p[i] && c[|c| - 1] == p[j];
    assert Chain(g, c) && |c| >= 2 && c[0] == c[|c| - 1];
  }

  // In an acyclic graph some unplaced task has all its dependencies placed.
  lemma ReadyTask(g: Graph, placed: set<string>)
    requires AllKnown(g) && Acyclic(g) && placed < g.Keys
    ensures exists t :: t in g && t !in placed && forall d | d in g[t] :: d in placed
  {
    var rest := g.Keys - placed;
    if forall t | t in rest :: DependsInto(g, t, rest) {
      var start :| start in g && start !in placed;
      var p := WalkWithin(g, rest, start, |rest|);
      var i, j := LongWalkRepeats(p, rest);
      RepeatIsCycle(g, p, i, j);
    } else {
      var t :| t in rest && !DependsInto(g, t, rest);
      forall d | d in g[t] ensures d in placed { assert d in g; }
    }
  }

  ghost predicate PartialOrder(g: Graph, order: seq<string>) {
    Elements(order) <= g.Keys && forall i: nat | i < |order| :: DepsEarlier(g, order, i)
  }

  lemma {:induction false} CompleteOrder(g: Graph, order: seq<string>) returns (whole: seq<string>)
    requires AllKnown(g) && Acyclic(g) && PartialOrder(g, order)
    ensures TopoOrder(g, whole)
    decreases |g.Keys - Elements(order)|
  {
    if Elements(order) == g.Keys {
      whole := order;
    } else {
      ReadyTask(g, Elements(order));
      var t :| t in g && t !in Elements(order) && forall d | d in g[t] :: d in Elements(order);
      var longer := order + [t];
      AppendElements(order, t);
      forall i: nat | i < |longer| ensures DepsEarlier(g, longer, i) {
        if i < |order| {
          assert DepsEarlier(g, order, i);
          assert longer[..i] == order[..i];
        } else {
          assert longer[..i] == order;
        }
      }
      assert g.Keys - Elements(order) == (g.Keys - Elements(longer)) + {t};
      whole := CompleteOrder(g, longer);
    }
  }

  // An accepted order exists exactly for graphs whose dependencies are all
  // known and have no cycle.
  lemma OrderExistsIffAcyclic(g: Graph)
    ensures (exists order :: TopoOrder(g, order)) <==> AllKnown(g) && Acyclic(g)
  {
    if order :| TopoOrder(g, order) { OrderMeansAcyclic(g, order); }
    if AllKnown(g) && Acyclic(g) {
      assert PartialOrder(g, []);
      var whole := CompleteOrder(g, []);
    }
  }

  // ----- how many groups a plan needs

  lemma {:induction false} ChainFitsGroups(g: Graph, gs: seq<Group>, k: nat, p: seq<string>)
    requires ValidGroups(g, gs) && k < |gs| && Chain(g, p) && p[0] in IdsOf(gs[k])
    ensures |p| <= k + 1
    decreases |p|
  {
    if |p| > 1 {
      assert GroupOk(g, gs, k) && DepsPrior(g, gs, k, p[0]);
      var i :| 0 <= i < |Flatten(gs[..k])| && Flatten(gs[..k])[i] == p[1];
      var j := FlattenPosition(gs, k, i);
      assert GroupOk(g, gs, j);
      ChainFitsGroups(g, gs, j, p[1..]);
    }
  }

  // Accepted groups are at least as many as the tasks of any dependency chain.
  lemma GroupsBoundChains(g: Graph, gs: seq<Group>, p: seq<string>)
    requires ValidGroups(g, gs) && Chain(g, p)
    ensures |p| <= |gs|
  {
    assert p[0] in Elements(Flatten(gs));
    assert gs[..|gs|] == gs;
    var i :| 0 <= i < |Flatten(gs)| && Flatten(gs)[i] == p[0];
    var k := FlattenPosition(gs, |gs|, i);
    ChainFitsGroups(g, gs, k, p);
  }

  ghost predicate StartsChain(g: Graph, t: string, n: nat) {
    exists p :: Chain(g, p) && |p| == n && p[0] == t
  }

  lemma StartsChainCons(g: Graph, t: string, d: string, n: nat)
    requires t in g && d in g[t] && StartsChain(g, d, n)
    ensures StartsChain(g, t, n + 1)
  {
    var p :| Chain(g, p) && |p| == n && p[0] == d;
    var q := [t] + p;
    assert q[1..] == p && Chain(g, q);
  }

  // Tasks whose longest chain has exactly k + 1 tasks.
  ghost function Level(g: Graph, k: nat): set<string> {
    set t | t in g && StartsChain(g, t, k + 1) && !StartsChain(g, t, k + 2)
  }

  lemma {:induction false} LevelOf(g: Graph, t: string, low: nat, n: nat) returns (k: nat)
    requires t in g && StartsChain(g, t, low + 1) && !StartsChain(g, t, n + 1) && low <= n
    ensures low <= k < n && t in Level(g, k)
    decreases n - low
  {
    if StartsChain(g, t, low + 2) {
      if low + 1 == n { assert false; }
      k := LevelOf(g, t, low + 1, n);
    } else {
      k := low;
    }
  }

  ghost function Levels(g: Graph): nat -> set<string> {
    (k: nat) => Level(g, k)
  }

  ghost predicate GroupsAre(level: nat -> set<string>, gs: seq<Group>) {
    forall k: nat | k < |gs| :: gs[k].Group? && Elements(gs[k].ids) == level(k)
  }

  lemma {:induction false} LevelGroups(g: Graph, n: nat) returns (gs: seq<Group>)
    ensures |gs| == n && GroupsAre(Levels(g), gs)
    decreases n
  {
    if n == 0 {
      gs := [];
    } else {
      var front := LevelGroups(g, n - 1);
      ListingExists(Level(g, n - 1));
      var ids :| Distinct(ids) && Elements(ids) == Level(g, n - 1);
      gs := front + [Group(ids)];
    }
  }

  ghost predicate InSome(level: nat -> set<string>, n: nat, t: string) {
    exists k: nat :: k < n && t in level(k)
  }

  lemma InSomeNext(level: nat -> set<string>, n: nat, t: string)
    ensures InSome(level, n + 1, t) <==> InSome(level, n, t) || t in level(n)
  {
    if k: nat :| k < n + 1 && t in level(k) {
      assert k == n || k < n;
    }
  }

  lemma {:induction false} FlattenLevels(level: nat -> set<string>, gs: seq<Group>, n: nat, t: string)
    requires GroupsAre(level, gs) && n <= |gs|
    ensures t in Flatten(gs[..n]) <==> InSome(level, n, t)
    decreases n
  {
    if n > 0 {
      FlattenLevels(level, gs, n - 1, t);
      FlattenNext(gs, n - 1);
      InSomeNext(level, n - 1, t);
      assert t in IdsOf(gs[n - 1]) <==> t in Elements(gs[n - 1].ids);
    }
  }

  lemma LevelsAreValid(g: Graph, gs: seq<Group>)
    requires AllKnown(g) && GroupsAre(Levels(g), gs) && forall p | Chain(g, p) :: |p| <= |gs|
    ensures ValidGroups(g, gs)
  {
    var n := |gs|;
    assert gs[..n] == gs;
    forall t | t in g ensures StartsChain(g, t, 1) && !StartsChain(g, t, n + 1) {
      assert Chain(g, [t]);
    }
    forall t ensures t in Elements(Flatten(gs)) <==> t in g.Keys {
      FlattenLevels(Levels(g), gs, n, t);
      if t in g {
        var k := LevelOf(g, t, 0, n);
        assert t in Levels(g)(k);
      }
    }
    forall k: nat | k < n ensures GroupOk(g, gs, k) {
      forall t | t in gs[k].ids ensures t in g && DepsPrior(g, gs, k, t) {
        assert t in Level(g, k);
        forall d | d in g[t] ensures d in Flatten(gs[..k]) && d !in IdsOf(gs[k]) {
          if StartsChain(g, d, k + 1) { StartsChainCons(g, t, d, k + 1); }
          assert d !in Level(g, k);
          assert d in IdsOf(gs[k]) <==> d in Elements(gs[k].ids);
          var j := LevelOf(g, d, 0, k);
          assert d in Levels(g)(j);
          FlattenLevels(Levels(g), gs, k, d);
        }
      }
    }
  }

  // A plan in n groups is accepted for some grouping exactly when all
  // dependencies are known and no chain has more than n tasks: the longest
  // chain is the least possible number of groups.
  lemma GroupCountIsChainLength(g: Graph, n: nat)
    ensures (exists gs :: ValidGroups(g, gs) && |gs| == n) <==> AllKnown(g) && forall p | Chain(g, p) :: |p| <= n
  {
    if gs :| ValidGroups(g, gs) && |gs| == n {
      GroupsFlatten(g, gs);
      OrderMeansAcyclic(g, Flatten(gs));
      forall p | Chain(g, p) ensures |p| <= n { GroupsBoundChains(g, gs, p); }
    }
    if AllKnown(g) && forall p | Chain(g, p) :: |p| <= n {
      var gs := LevelGroups(g, n);
      LevelsAreValid(g, gs);
    }
  }
}
