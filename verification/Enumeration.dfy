// The three `itertools` generators the optimisers search with, and what each
// of them visits.
module Enumeration {
  import opened Orders

  function Without<T>(s: seq<T>, i: nat): (r: seq<T>)
    requires i < |s|
  {
    s[..i] + s[i + 1..]
  }

  function Prefixed<T>(x: T, tails: seq<seq<T>>): (r: seq<seq<T>>) {
    seq(|tails|, k requires 0 <= k < |tails| => [x] + tails[k])
  }

  lemma PrefixedMember<T>(x: T, tails: seq<seq<T>>, p: seq<T>)
    ensures p in Prefixed(x, tails) <==> |p| > 0 && p[0] == x && p[1..] in tails
  {
    var r := Prefixed(x, tails);
    if p in r {
      var k :| 0 <= k < |r| && r[k] == p;
      assert p[1..] == tails[k];
    }
    if |p| > 0 && p[0] == x && p[1..] in tails {
      var k :| 0 <= k < |tails| && tails[k] == p[1..];
      assert r[k] == [p[0]] + p[1..] == p;
    }
  }

  // ----- permutations(pool, size), in the order itertools yields them

  function Permutations<T>(pool: seq<T>, size: nat): seq<seq<T>>
    decreases size, 0, 0
  {
    if size == 0 then [[]] else PermutationsFrom(pool, size, 0)
  }

  function PermutationsFrom<T>(pool: seq<T>, size: nat, i: nat): seq<seq<T>>
    requires 0 < size && i <= |pool|
    decreases size - 1, 1, |pool| - i
  {
    if i == |pool| then []
    else Prefixed(pool[i], Permutations(Without(pool, i), size - 1)) + PermutationsFrom(pool, size, i + 1)
  }

  // A repetition-free choice of `size` elements of the pool, in some order.
  ghost predicate Arrangement<T>(pool: seq<T>, size: nat, p: seq<T>) {
    |p| == size && Distinct(p) && forall x | x in p :: x in pool
  }

  lemma WithoutMember<T>(pool: seq<T>, i: nat, x: T)
    requires Distinct(pool) && i < |pool|
    ensures x in Without(pool, i) <==> x in pool && x != pool[i]
    ensures Distinct(Without(pool, i))
  {
    var w := Without(pool, i);
    if x in w {
      var k :| 0 <= k < |w| && w[k] == x;
      assert w[k] == pool[if k < i then k else k + 1];
    }
    if x in pool && x != pool[i] {
      var k :| 0 <= k < |pool| && pool[k] == x;
      assert w[if k < i then k else k - 1] == x;
    }
  }

  lemma ArrangementCons<T>(pool: seq<T>, i: nat, p: seq<T>)
    requires Distinct(pool) && i < |pool| && |p| > 0 && p[0] == pool[i]
    ensures Arrangement(pool, |p|, p) <==> Arrangement(Without(pool, i), |p| - 1, p[1..])
  {
    var t := p[1..];
    assert p == [p[0]] + t;
    forall x ensures x in Without(pool, i) <==> x in pool && x != pool[i] { WithoutMember(pool, i, x); }
    if Arrangement(pool, |p|, p) {
      assert forall k | 0 <= k < |t| :: t[k] == p[k + 1] && t[k] in p;
    }
    if Arrangement(Without(pool, i), |p| - 1, t) {
      assert forall k | 1 <= k < |p| :: p[k] == t[k - 1] && p[k] in t;
    }
  }

  // permutations visits exactly the arrangements: nothing else, and all of them.
  lemma {:induction false} PermutationsExact<T>(pool: seq<T>, size: nat, p: seq<T>)
    requires Distinct(pool)
    ensures p in Permutations(pool, size) <==> Arrangement(pool, size, p)
    decreases size, 0, 0
  {
    if size != 0 {
      PermutationsFromExact(pool, size, 0, p);
      if Arrangement(pool, size, p) { assert p[0] in p; }
    }
  }

  lemma {:induction false} PermutationsFromExact<T>(pool: seq<T>, size: nat, i: nat, p: seq<T>)
    requires Distinct(pool) && 0 < size && i <= |pool|
    ensures p in PermutationsFrom(pool, size, i) <==> Arrangement(pool, size, p) && p[0] in pool[i..]
    decreases size - 1, 1, |pool| - i
  {
    if i < |pool| {
      var here := Permutations(Without(pool, i), size - 1);
      PrefixedMember(pool[i], here, p);
      PermutationsFromExact(pool, size, i + 1, p);
      assert pool[i..] == [pool[i]] + pool[i + 1..];
      assert pool[i] !in pool[i + 1..];
      if |p| > 0 && p[0] == pool[i] {
        WithoutMember(pool, i, pool[i]);
        PermutationsExact(Without(pool, i), size - 1, p[1..]);
        ArrangementCons(pool, i, p);
      }
    }
  }

  // ----- combinations(pool, size), in the order itertools yields them

  function Combinations<T>(pool: seq<T>, size: nat): seq<seq<T>> {
    if size == 0 then [[]]
    else if pool == [] then []
    else Prefixed(pool[0], Combinations(pool[1..], size - 1)) + Combinations(pool[1..], size)
  }

  ghost predicate Choice<T>(less: (T, T) -> bool, pool: seq<T>, c: seq<T>) {
    Ascending(less, c) && forall x | x in c :: x in pool
  }

  // A choice either starts with the first element of the pool or does without it.
  lemma ChoiceSplit<T>(less: (T, T) -> bool, pool: seq<T>, c: seq<T>)
    requires Ascending(less, pool) && Separates(less, Elements(pool)) && pool != [] && c != []
    ensures Choice(less, pool, c) <==>
            (c[0] == pool[0] && Choice(less, pool[1..], c[1..])) || Choice(less, pool[1..], c)
  {
    if Choice(less, pool, c) { ChoiceTail(less, pool, c); }
    assert pool == [pool[0]] + pool[1..];
    if c[0] == pool[0] && Choice(less, pool[1..], c[1..]) { ChoiceCons(less, pool, c); }
  }

  lemma ChoiceCons<T>(less: (T, T) -> bool, pool: seq<T>, c: seq<T>)
    requires Ascending(less, pool) && pool != [] && c != []
    requires c[0] == pool[0] && Choice(less, pool[1..], c[1..])
    ensures Choice(less, pool, c)
  {
    assert pool == [pool[0]] + pool[1..] && c == [c[0]] + c[1..];
    forall j | 1 <= j < |c| ensures less(c[0], c[j]) {
      assert c[j] == c[1..][j - 1] && c[1..][j - 1] in pool[1..];
    }
    forall i, j | 1 <= i < j < |c| ensures less(c[i], c[j]) {
      assert less(c[1..][i - 1], c[1..][j - 1]);
    }
  }

  lemma ChoiceTail<T>(less: (T, T) -> bool, pool: seq<T>, c: seq<T>)
    requires Ascending(less, pool) && Separates(less, Elements(pool))
    requires pool != [] && c != [] && Choice(less, pool, c)
    ensures c[0] == pool[0] ==> Choice(less, pool[1..], c[1..])
    ensures c[0] != pool[0] ==> Choice(less, pool[1..], c)
  {
    forall x | x in c && x != pool[0] ensures x in pool[1..] {
      assert x in pool && pool == [pool[0]] + pool[1..];
    }
    assert c[0] in c;
    HeadLeast(less, pool, c[0]);
    forall k | 1 <= k < |c| ensures c[k] != pool[0] {
      assert c[k] in c && c[k] in Elements(pool) && c[0] in Elements(pool) && pool[0] in Elements(pool);
      assert less(c[0], c[k]);
    }
    assert forall k | 0 <= k < |c[1..]| :: c[1..][k] == c[k + 1] && c[k + 1] in c;
  }

  lemma CombinationsStep<T>(pool: seq<T>, size: nat, c: seq<T>)
    requires pool != [] && size > 0
    ensures c in Combinations(pool, size) <==>
            || (c != [] && c[0] == pool[0] && c[1..] in Combinations(pool[1..], size - 1))
            || c in Combinations(pool[1..], size)
  {
    PrefixedMember(pool[0], Combinations(pool[1..], size - 1), c);
  }

  // From an ascending pool, combinations visits exactly the ascending choices.
  lemma {:induction false} CombinationsExact<T>(less: (T, T) -> bool, pool: seq<T>, size: nat, c: seq<T>)
    requires Ascending(less, pool) && Separates(less, Elements(pool))
    ensures c in Combinations(pool, size) <==> |c| == size && Choice(less, pool, c)
    decreases pool
  {
    if size == 0 {
      assert Combinations(pool, size) == [[]];
    } else if pool == [] {
      assert Combinations(pool, size) == [];
      NoChoiceFromNothing(less, c);
    } else {
      SeparatesTail(less, pool);
      CombinationsStep(pool, size, c);
      CombinationsExact(less, pool[1..], size, c);
      if c != [] {
        CombinationsExact(less, pool[1..], size - 1, c[1..]);
        ChoiceSplit(less, pool, c);
      }
    }
  }

  lemma SeparatesTail<T>(less: (T, T) -> bool, pool: seq<T>)
    requires pool != [] && Ascending(less, pool) && Separates(less, Elements(pool))
    ensures Ascending(less, pool[1..]) && Separates(less, Elements(pool[1..]))
  {
    assert pool == [pool[0]] + pool[1..];
    ElementsCons(pool[0], pool[1..]);
  }

  lemma NoChoiceFromNothing<T>(less: (T, T) -> bool, c: seq<T>)
    ensures Choice(less, [], c) <==> c == []
  {
    if c != [] { assert c[0] in c; }
  }

  // ----- product(*options), the last position varying fastest

  function Product<T>(options: seq<seq<T>>): seq<seq<T>> {
    if options == [] then [[]] else ProductFrom(options[0], Product(options[1..]))
  }

  function ProductFrom<T>(heads: seq<T>, tails: seq<seq<T>>): seq<seq<T>> {
    if heads == [] then [] else Prefixed(heads[0], tails) + ProductFrom(heads[1..], tails)
  }

  lemma {:induction false} ProductFromMember<T>(heads: seq<T>, tails: seq<seq<T>>, v: seq<T>)
    ensures v in ProductFrom(heads, tails) <==> |v| > 0 && v[0] in heads && v[1..] in tails
  {
    if heads != [] {
      PrefixedMember(heads[0], tails, v);
      ProductFromMember(heads[1..], tails, v);
      assert heads == [heads[0]] + heads[1..];
    }
  }

  ghost predicate Selection<T>(options: seq<seq<T>>, v: seq<T>) {
    |v| == |options| && forall i | 0 <= i < |v| :: v[i] in options[i]
  }

  // product visits exactly the ways of choosing one option per position.
  lemma {:induction false} ProductExact<T>(options: seq<seq<T>>, v: seq<T>)
    ensures v in Product(options) <==> Selection(options, v)
  {
    if options != [] {
      ProductFromMember(options[0], Product(options[1..]), v);
      if |v| > 0 {
        ProductExact(options[1..], v[1..]);
        if Selection(options, v) {
          assert forall i | 0 <= i < |v[1..]| :: v[1..][i] == v[i + 1] && options[1..][i] == options[i + 1];
        }
        if v[0] in options[0] && Selection(options[1..], v[1..]) {
          forall i | 0 <= i < |v| ensures v[i] in options[i] {
            if i > 0 { assert v[i] == v[1..][i - 1] && options[i] == options[1..][i - 1]; }
          }
        }
      }
    }
  }
}
