// Total orders, Python's lexicographic comparison of tuples and strings, and
// the `sorted` builtin.  Every grader that breaks a tie does it with these.
module Orders {

  datatype Option<+T> = None | Some(value: T)

  ghost predicate StrictTotal<T(!new)>(less: (T, T) -> bool) {
    && (forall x :: !less(x, x))
    && (forall x, y :: x != y ==> less(x, y) || less(y, x))
    && (forall x, y, z :: less(x, y) && less(y, z) ==> less(x, z))
  }

  // Two sequences compare at their first difference; a proper prefix is smaller.
  predicate LexLess<T(==)>(less: (T, T) -> bool, a: seq<T>, b: seq<T>) {
    if b == [] then false
    else if a == [] then true
    else if a[0] == b[0] then LexLess(less, a[1..], b[1..])
    else less(a[0], b[0])
  }

  // a is a proper prefix of b, or smaller at the first difference.
  ghost predicate FirstDifference<T>(less: (T, T) -> bool, a: seq<T>, b: seq<T>, k: nat) {
    && k <= |a| && k < |b| && a[..k] == b[..k]
    && (k < |a| ==> a[k] != b[k] && less(a[k], b[k]))
  }

  lemma SameHead<T>(less: (T, T) -> bool, a: seq<T>, b: seq<T>, k: nat)
    requires FirstDifference(less, a, b, k) && k > 0
    ensures a != [] && b != [] && a[0] == b[0]
  {
    assert a[..k][0] == b[..k][0];
  }

  lemma {:induction false} LexIsFirstDifference<T>(less: (T, T) -> bool, a: seq<T>, b: seq<T>)
    ensures LexLess(less, a, b) <==> exists k: nat :: FirstDifference(less, a, b, k)
  {
    if a == [] || b == [] || a[0] != b[0] {
      if LexLess(less, a, b) { assert FirstDifference(less, a, b, 0); }
      forall k: nat | FirstDifference(less, a, b, k) ensures k == 0 {
        if k > 0 { SameHead(less, a, b, k); }
      }
    } else {
      LexIsFirstDifference(less, a[1..], b[1..]);
      assert a == [a[0]] + a[1..] && b == [b[0]] + b[1..];
      if k: nat :| FirstDifference(less, a[1..], b[1..], k) {
        assert a[..k + 1] == [a[0]] + a[1..][..k] && b[..k + 1] == [b[0]] + b[1..][..k];
        assert FirstDifference(less, a, b, k + 1);
      }
      if k: nat :| FirstDifference(less, a, b, k) {
        var j: nat := k - 1;
        assert a[1..][..j] == a[..k][1..] && b[1..][..j] == b[..k][1..];
        assert FirstDifference(less, a[1..], b[1..], j);
      }
    }
  }

  function Lex<T(==)>(less: (T, T) -> bool): (seq<T>, seq<T>) -> bool {
    (a, b) => LexLess(less, a, b)
  }

  lemma {:induction false} LexIrreflexive<T>(less: (T, T) -> bool, a: seq<T>)
    ensures !LexLess(less, a, a)
  {
    if a != [] { LexIrreflexive(less, a[1..]); }
  }

  lemma {:induction false} LexTrichotomy<T(!new)>(less: (T, T) -> bool, a: seq<T>, b: seq<T>)
    requires StrictTotal(less) && a != b
    ensures LexLess(less, a, b) || LexLess(less, b, a)
  {
    if a != [] && b != [] && a[0] == b[0] {
      assert a == [a[0]] + a[1..] && b == [b[0]] + b[1..];
      LexTrichotomy(less, a[1..], b[1..]);
    }
  }

  lemma {:induction false} LexTransitive<T(!new)>(less: (T, T) -> bool, a: seq<T>, b: seq<T>, c: seq<T>)
    requires StrictTotal(less) && LexLess(less, a, b) && LexLess(less, b, c)
    ensures LexLess(less, a, c)
  {
    if a != [] && a[0] == b[0] && b[0] == c[0] {
      LexTransitive(less, a[1..], b[1..], c[1..]);
    }
  }

  // A strict total order on elements lifts to a strict total order on sequences.
  lemma LexStrictTotal<T(!new)>(less: (T, T) -> bool)
    requires StrictTotal(less)
    ensures StrictTotal(Lex(less))
  {
    forall a: seq<T> ensures !Lex(less)(a, a) { LexIrreflexive(less, a); }
    forall a: seq<T>, b: seq<T> | a != b ensures Lex(less)(a, b) || Lex(less)(b, a) {
      LexTrichotomy(less, a, b);
    }
    forall a: seq<T>, b: seq<T>, c: seq<T> | Lex(less)(a, b) && Lex(less)(b, c) ensures Lex(less)(a, c) {
      LexTransitive(less, a, b, c);
    }
  }

  predicate IntLess(a: int, b: int) { a < b }

  predicate CharLess(a: char, b: char) { a < b }

  // Python compares strings by code point, position by position.
  predicate StrLess(a: string, b: string) { LexLess(CharLess, a, b) }

  // A text is smaller when it is a proper prefix of the other, or has the smaller
  // character at the first position where they differ.
  lemma StrLessIff(a: string, b: string)
    ensures StrLess(a, b) <==> exists k: nat :: SmallerAt(a, b, k)
  {
    LexIsFirstDifference(CharLess, a, b);
    forall k: nat ensures SmallerAt(a, b, k) <==> FirstDifference(CharLess, a, b, k) {}
  }

  ghost predicate SmallerAt(a: string, b: string, k: nat) {
    k <= |a| && k < |b| && a[..k] == b[..k] && (k == |a| || a[k] as int < b[k] as int)
  }

  lemma StrStrictTotal()
    ensures StrictTotal(StrLess)
  {
    LexStrictTotal(CharLess);
    forall x, y, z | StrLess(x, y) && StrLess(y, z) ensures StrLess(x, z) {
      assert Lex(CharLess)(x, y) && Lex(CharLess)(y, z);
    }
    forall x, y | x != y ensures StrLess(x, y) || StrLess(y, x) {
      assert Lex(CharLess)(x, y) || Lex(CharLess)(y, x);
    }
    forall x ensures !StrLess(x, x) { assert !Lex(CharLess)(x, x); }
  }

  // ----- sequences without repetition, sorted sequences

  ghost predicate Distinct<T>(s: seq<T>) {
    forall i, j :: 0 <= i < j < |s| ==> s[i] != s[j]
  }

  function Elements<T>(s: seq<T>): (r: set<T>) {
    set x | x in s
  }

  // Strictly increasing, hence also without repetition.
  ghost predicate Ascending<T>(less: (T, T) -> bool, s: seq<T>) {
    forall i, j :: 0 <= i < j < |s| ==> less(s[i], s[j])
  }

  function Insert<T(==)>(less: (T, T) -> bool, x: T, s: seq<T>): seq<T> {
    if s == [] then [x]
    else if less(s[0], x) then [s[0]] + Insert(less, x, s[1..])
    else [x] + s
  }

  // `sorted`, on elements whose sort keys are pairwise different.
  function Sort<T(==)>(less: (T, T) -> bool, s: seq<T>): seq<T> {
    if s == [] then [] else Insert(less, s[0], Sort(less, s[1..]))
  }

  // `less` separates and orders the elements of s.
  ghost predicate Separates<T>(less: (T, T) -> bool, s: set<T>) {
    && (forall x | x in s :: !less(x, x))
    && (forall x, y | x in s && y in s && x != y :: less(x, y) || less(y, x))
    && (forall x, y, z | x in s && y in s && z in s && less(x, y) && less(y, z) :: less(x, z))
  }

  lemma ElementsCons<T>(x: T, s: seq<T>)
    ensures Elements([x] + s) == {x} + Elements(s)
  {
    forall y ensures y in Elements([x] + s) <==> y in {x} + Elements(s) {
      assert y in [x] + s <==> y == x || y in s;
    }
  }

  lemma {:induction false} InsertElements<T>(less: (T, T) -> bool, x: T, s: seq<T>)
    ensures Elements(Insert(less, x, s)) == {x} + Elements(s)
    ensures |Insert(less, x, s)| == |s| + 1
  {
    if s == [] {
    } else if less(s[0], x) {
      InsertElements(less, x, s[1..]);
      assert s == [s[0]] + s[1..];
      ElementsCons(s[0], s[1..]);
      ElementsCons(s[0], Insert(less, x, s[1..]));
    } else {
      ElementsCons(x, s);
    }
  }

  lemma {:induction false} InsertAscending<T>(less: (T, T) -> bool, x: T, s: seq<T>)
    requires Ascending(less, s) && x !in s && Separates(less, {x} + Elements(s))
    ensures Ascending(less, Insert(less, x, s))
  {
    if s == [] {
    } else if less(s[0], x) {
      var rest := Insert(less, x, s[1..]);
      assert s == [s[0]] + s[1..];
      assert Elements(s) == {s[0]} + Elements(s[1..]);
      InsertAscending(less, x, s[1..]);
      InsertElements(less, x, s[1..]);
      forall j | 0 <= j < |rest| ensures less(s[0], rest[j]) {
        assert rest[j] in Elements(rest);
        if rest[j] != x {
          var k :| 0 <= k < |s[1..]| && s[1..][k] == rest[j];
          assert s[k + 1] == rest[j];
        }
      }
    } else {
      assert s[0] in Elements(s);
      forall j | 0 <= j < |s| ensures less(x, s[j]) {
        assert s[j] in Elements(s);
        assert less(x, s[0]);
        if j > 0 { assert less(s[0], s[j]); }
      }
    }
  }

  lemma {:induction false} SortCorrect<T>(less: (T, T) -> bool, s: seq<T>)
    requires Distinct(s) && Separates(less, Elements(s))
    ensures Ascending(less, Sort(less, s)) && Elements(Sort(less, s)) == Elements(s) && |Sort(less, s)| == |s|
  {
    if s != [] {
      assert s == [s[0]] + s[1..];
      assert Elements(s) == {s[0]} + Elements(s[1..]);
      assert forall j | 0 <= j < |s[1..]| :: s[1..][j] == s[j + 1];
      SortCorrect(less, s[1..]);
      var t := Sort(less, s[1..]);
      assert s[0] !in s[1..];
      assert s[0] !in Elements(t);
      InsertAscending(less, s[0], t);
      InsertElements(less, s[0], t);
    }
  }

  lemma ElementsEmpty<T>(s: seq<T>)
    ensures Elements(s) == {} <==> s == []
  {
    if s != [] { assert s[0] in Elements(s); }
  }

  lemma HeadLeast<T>(less: (T, T) -> bool, s: seq<T>, x: T)
    requires Ascending(less, s) && x in s
    ensures x == s[0] || less(s[0], x)
  {
  }

  // A set has only one sorted listing: sorting forgets the order of its input.
  lemma {:induction false} AscendingUnique<T>(less: (T, T) -> bool, a: seq<T>, b: seq<T>)
    requires Ascending(less, a) && Ascending(less, b) && Elements(a) == Elements(b)
    requires Separates(less, Elements(a))
    ensures a == b
  {
    if a == [] {
      ElementsEmpty(b);
    } else {
      ElementsEmpty(a);
      ElementsEmpty(b);
      assert a[0] in Elements(a) && b[0] in Elements(b);
      HeadLeast(less, a, b[0]);
      HeadLeast(less, b, a[0]);
      assert a[0] == b[0];
      forall x ensures x in Elements(a[1..]) <==> x in Elements(b[1..]) {
        TailElements(less, a, x);
        TailElements(less, b, x);
      }
      AscendingUnique(less, a[1..], b[1..]);
      assert a == [a[0]] + a[1..] && b == [b[0]] + b[1..];
    }
  }

  lemma TailElements<T>(less: (T, T) -> bool, a: seq<T>, x: T)
    requires a != [] && Ascending(less, a) && Separates(less, Elements(a))
    ensures x in Elements(a[1..]) <==> x in Elements(a) && x != a[0]
  {
    if x in Elements(a) && x != a[0] {
      var i :| 0 <= i < |a| && a[i] == x;
      assert a[1..][i - 1] == x;
    }
    if x in a[1..] {
      var i :| 0 <= i < |a[1..]| && a[1..][i] == x;
      assert a[i + 1] == x && less(a[0], a[i + 1]);
      assert a[0] in Elements(a);
    }
  }

  function SortNames(s: seq<string>): seq<string> { Sort(StrLess, s) }

  lemma SortNamesCorrect(s: seq<string>)
    requires Distinct(s)
    ensures Ascending(StrLess, SortNames(s)) && Elements(SortNames(s)) == Elements(s) && |SortNames(s)| == |s|
    ensures Distinct(SortNames(s))
    ensures forall x :: x in SortNames(s) <==> x in s
  {
    StrStrictTotal();
    SortCorrect(StrLess, s);
    assert forall x :: x in SortNames(s) <==> x in Elements(SortNames(s));
    assert forall x :: x in s <==> x in Elements(s);
  }

  lemma SortNamesUnique(s: seq<string>, t: seq<string>)
    requires Distinct(s) && Ascending(StrLess, t) && Elements(t) == Elements(s)
    ensures SortNames(s) == t
  {
    StrStrictTotal();
    SortNamesCorrect(s);
    AscendingUnique(StrLess, SortNames(s), t);
  }

  // The one sorted listing of a set of names.
  ghost predicate SortedListing(keys: set<string>, r: seq<string>) {
    Ascending(StrLess, r) && Elements(r) == keys
  }

  lemma SortedListingFacts(keys: set<string>, r: seq<string>)
    requires SortedListing(keys, r)
    ensures Distinct(r) && |r| == |keys| && forall x :: x in r <==> x in keys
  {
    StrStrictTotal();
    forall x ensures x in r <==> x in keys { assert x in r <==> x in Elements(r); }
    forall i, j | 0 <= i < j < |r| ensures r[i] != r[j] { assert StrLess(r[i], r[j]); }
    DistinctSize(r);
  }

  lemma {:induction false} DistinctSize<T>(s: seq<T>)
    requires Distinct(s)
    ensures |Elements(s)| == |s|
  {
    if s != [] {
      assert s == [s[0]] + s[1..];
      ElementsCons(s[0], s[1..]);
      DistinctSize(s[1..]);
      assert s[0] !in Elements(s[1..]);
    }
  }

  lemma {:induction false} RepeatSize<T>(s: seq<T>)
    ensures |Elements(s)| <= |s|
    ensures !Distinct(s) ==> |Elements(s)| < |s|
  {
    if s != [] {
      assert s == [s[0]] + s[1..];
      ElementsCons(s[0], s[1..]);
      RepeatSize(s[1..]);
      if s[0] !in s[1..] && Distinct(s[1..]) {
        forall i, j | 0 <= i < j < |s| ensures s[i] != s[j] { assert s[j] == s[1..][j - 1]; }
      }
    }
  }

  lemma SubsetSize<T>(a: set<T>, b: set<T>)
    requires a <= b
    ensures |a| <= |b|
  {
    assert b == a + (b - a);
  }

  lemma SortedListingUnique(keys: set<string>, r: seq<string>, t: seq<string>)
    requires SortedListing(keys, r) && SortedListing(keys, t)
    ensures r == t
  {
    StrStrictTotal();
    AscendingUnique(StrLess, r, t);
  }

  lemma {:induction false} ListingExists<T>(s: set<T>)
    ensures exists r :: Distinct(r) && Elements(r) == s
    decreases |s|
  {
    if s == {} {
      assert Distinct<T>([]) && Elements<T>([]) == s;
    } else {
      var x :| x in s;
      ListingExists(s - {x});
      var rest :| Distinct(rest) && Elements(rest) == s - {x};
      AppendElements(rest, x);
      assert x !in Elements(rest);
      assert Distinct(rest + [x]) && Elements(rest + [x]) == s;
    }
  }

  // list(keys): the keys in whatever order the dict or set iterates.
  method Listing<T(==)>(keys: set<T>) returns (r: seq<T>)
    ensures Distinct(r) && Elements(r) == keys
  {
    r := [];
    var left := keys;
    while left != {}
      invariant Distinct(r) && Elements(r) == keys - left && left <= keys
      decreases |left|
    {
      var k :| k in left;
      assert k !in Elements(r);
      AppendElements(r, k);
      r := r + [k];
      left := left - {k};
    }
  }

  // sorted(keys), which does not depend on that order.
  method SortedKeys(keys: set<string>) returns (r: seq<string>)
    ensures SortedListing(keys, r)
  {
    var met := Listing(keys);
    SortNamesCorrect(met);
    r := SortNames(met);
  }

  lemma AppendElements<T>(s: seq<T>, x: T)
    ensures Elements(s + [x]) == Elements(s) + {x}
  {
    forall y ensures y in Elements(s + [x]) <==> y in Elements(s) + {x} {
      assert y in s + [x] <==> y in s || y == x;
    }
  }
}
