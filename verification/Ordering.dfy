/** Orders, sorting and order-independent folds shared by the other modules.
    Sorting itself is the standard library's; the repository relies on three
    facts about it: a sorted, duplicate-free list is determined by its elements,
    a stable sort of distinct keys is determined by its elements, and a fold
    whose steps commute does not depend on the order of its input. */
module Ordering {

  ghost predicate TotalOrder<K(!new)>(leq: (K, K) -> bool) {
    && (forall a, b :: leq(a, b) || leq(b, a))
    && (forall a, b :: leq(a, b) && leq(b, a) ==> a == b)
    && (forall a, b, c :: leq(a, b) && leq(b, c) ==> leq(a, c))
  }

  predicate CharLeq(a: char, b: char) { a <= b }

  /** Lexicographic order on sequences, the order Rust derives for strings,
      vectors and path component lists. */
  predicate LexLeq<T(==)>(leq: (T, T) -> bool, a: seq<T>, b: seq<T>) {
    if a == [] then true
    else if b == [] then false
    else if a[0] == b[0] then LexLeq(leq, a[1..], b[1..])
    else leq(a[0], b[0])
  }

  predicate StringLeq(a: string, b: string) { LexLeq(CharLeq, a, b) }

  predicate StringsLeq(a: seq<string>, b: seq<string>) { LexLeq(StringLeq, a, b) }

  lemma {:induction false} LexReflexiveTotal<T(!new)>(leq: (T, T) -> bool, a: seq<T>, b: seq<T>)
    requires TotalOrder(leq)
    ensures LexLeq(leq, a, b) || LexLeq(leq, b, a)
    ensures LexLeq(leq, a, b) && LexLeq(leq, b, a) ==> a == b
  {
    if a != [] && b != [] && a[0] == b[0] {
      LexReflexiveTotal(leq, a[1..], b[1..]);
      assert a == [a[0]] + a[1..] && b == [b[0]] + b[1..];
    }
  }

  lemma {:induction false} LexTransitive<T(!new)>(leq: (T, T) -> bool, a: seq<T>, b: seq<T>, c: seq<T>)
    requires TotalOrder(leq)
    requires LexLeq(leq, a, b) && LexLeq(leq, b, c)
    ensures LexLeq(leq, a, c)
  {
    if a != [] && b != [] && c != [] && a[0] == b[0] && b[0] == c[0] {
      LexTransitive(leq, a[1..], b[1..], c[1..]);
    }
  }

  lemma StringOrder()
    ensures TotalOrder(StringLeq)
  {
    forall a: string, b: string
      ensures StringLeq(a, b) || StringLeq(b, a)
      ensures StringLeq(a, b) && StringLeq(b, a) ==> a == b
    {
      LexReflexiveTotal(CharLeq, a, b);
    }
    forall a: string, b: string, c: string | StringLeq(a, b) && StringLeq(b, c)
      ensures StringLeq(a, c)
    {
      LexTransitive(CharLeq, a, b, c);
    }
  }

  lemma StringsOrder()
    ensures TotalOrder(StringsLeq)
  {
    StringOrder();
    forall a: seq<string>, b: seq<string>
      ensures StringsLeq(a, b) || StringsLeq(b, a)
      ensures StringsLeq(a, b) && StringsLeq(b, a) ==> a == b
    {
      LexReflexiveTotal(StringLeq, a, b);
    }
    forall a: seq<string>, b: seq<string>, c: seq<string> | StringsLeq(a, b) && StringsLeq(b, c)
      ensures StringsLeq(a, c)
    {
      LexTransitive(StringLeq, a, b, c);
    }
  }

  /** `k` is where `a` and `b` first differ. */
  ghost predicate FirstDiffer<T>(a: seq<T>, b: seq<T>, k: nat) {
    k < |a| && k < |b| && a[..k] == b[..k] && a[k] != b[k]
  }

  /** Dictionary order: a prefix comes first, and otherwise the first difference
      decides. */
  lemma {:induction false} LexExactly<T>(leq: (T, T) -> bool, a: seq<T>, b: seq<T>)
    ensures LexLeq(leq, a, b) <==> a <= b || exists k: nat :: FirstDiffer(a, b, k) && leq(a[k], b[k])
  {
    if a != [] && b != [] {
      if a[0] == b[0] {
        var s, t := a[1..], b[1..];
        LexExactly(leq, s, t);
        assert a == [a[0]] + s && b == [b[0]] + t;
        if k: nat :| FirstDiffer(s, t, k) && leq(s[k], t[k]) {
          assert a[..k + 1] == [a[0]] + s[..k] && b[..k + 1] == [b[0]] + t[..k];
          assert FirstDiffer(a, b, k + 1);
        }
        if k: nat :| FirstDiffer(a, b, k) && leq(a[k], b[k]) {
          assert s[..k - 1] == a[..k][1..] && t[..k - 1] == b[..k][1..];
          assert FirstDiffer(s, t, k - 1);
        }
      } else {
        assert a[..0] == b[..0];
        assert FirstDiffer(a, b, 0);
        forall k: nat | 0 < k < |a| && k < |b| ensures a[..k] != b[..k] {
          assert a[..k][0] == a[0] && b[..k][0] == b[0];
        }
      }
    }
  }

  /** Texts are ordered by code points, as a dictionary orders words. */
  lemma StringLeqExactly(a: string, b: string)
    ensures StringLeq(a, b) <==> a <= b || exists k: nat :: FirstDiffer(a, b, k) && a[k] < b[k]
  {
    LexExactly(CharLeq, a, b);
  }

  /** The order of pairs: first component, then second. */
  predicate PairLeq<A(==), B>(leqA: (A, A) -> bool, leqB: (B, B) -> bool, x: (A, B), y: (A, B)) {
    if x.0 == y.0 then leqB(x.1, y.1) else leqA(x.0, y.0)
  }

  predicate StringPairLeq(x: (string, string), y: (string, string)) {
    PairLeq(StringLeq, StringLeq, x, y)
  }

  lemma StringPairOrder()
    ensures TotalOrder(StringPairLeq)
  {
    StringOrder();
  }

  // ---------------------------------------------------------------- mapping

  function MapSeq<T, U>(f: T -> U, s: seq<T>): (r: seq<U>)
    ensures |r| == |s| && forall i :: 0 <= i < |s| ==> r[i] == f(s[i])
  {
    if s == [] then [] else [f(s[0])] + MapSeq(f, s[1..])
  }

  function Without<T>(s: seq<T>, i: nat): (r: seq<T>)
    requires i < |s|
    ensures |r| == |s| - 1
  {
    s[..i] + s[i + 1..]
  }

  lemma WithoutMultiset<T>(s: seq<T>, i: nat)
    requires i < |s|
    ensures multiset(Without(s, i)) == multiset(s) - multiset{s[i]}
    ensures s[i] in multiset(s)
  {
    MultisetSplit(s, i);
  }

  lemma MapWithout<T, U>(f: T -> U, s: seq<T>, i: nat)
    requires i < |s|
    ensures MapSeq(f, Without(s, i)) == Without(MapSeq(f, s), i)
  {
    hide MapSeq;
    forall k | 0 <= k < |s| - 1 ensures MapSeq(f, Without(s, i))[k] == Without(MapSeq(f, s), i)[k] {
      assert Without(s, i)[k] == if k < i then s[k] else s[k + 1];
    }
  }

  lemma {:induction false} MapPermutation<T, U>(f: T -> U, s: seq<T>, t: seq<T>)
    requires multiset(s) == multiset(t)
    ensures multiset(MapSeq(f, s)) == multiset(MapSeq(f, t))
    decreases |s|
  {
    hide MapSeq, Without;
    PermutationElements(s, t);
    if s == [] {
      assert t == [];
    } else {
      assert s[0] in t;
      var i :| 0 <= i < |t| && t[i] == s[0];
      WithoutMultiset(s, 0);
      WithoutMultiset(t, i);
      MapPermutation(f, Without(s, 0), Without(t, i));
      MapWithout(f, s, 0);
      MapWithout(f, t, i);
      WithoutMultiset(MapSeq(f, s), 0);
      WithoutMultiset(MapSeq(f, t), i);
      SameAfterRemoval(multiset(MapSeq(f, s)), multiset(MapSeq(f, t)), f(s[0]));
    }
  }

  lemma SameAfterRemoval<U>(a: multiset<U>, b: multiset<U>, x: U)
    requires x in a && x in b && a - multiset{x} == b - multiset{x}
    ensures a == b
  {
    assert a == a - multiset{x} + multiset{x};
    assert b == b - multiset{x} + multiset{x};
  }

  // ---------------------------------------------------------------- sorting

  function InsertBy<T, K>(key: T -> K, leq: (K, K) -> bool, x: T, s: seq<T>): (r: seq<T>) {
    if s == [] then [x]
    else if leq(key(x), key(s[0])) then [x] + s
    else [s[0]] + InsertBy(key, leq, x, s[1..])
  }

  /** Stable sort by key. */
  function SortBy<T, K>(key: T -> K, leq: (K, K) -> bool, s: seq<T>): (r: seq<T>) {
    if s == [] then [] else InsertBy(key, leq, s[0], SortBy(key, leq, s[1..]))
  }

  ghost predicate SortedBy<T, K>(key: T -> K, leq: (K, K) -> bool, s: seq<T>) {
    forall i, j :: 0 <= i < j < |s| ==> leq(key(s[i]), key(s[j]))
  }

  ghost predicate DistinctKeys<T, K>(key: T -> K, s: seq<T>) {
    forall i, j :: 0 <= i < j < |s| ==> key(s[i]) != key(s[j])
  }

  lemma SortedTail<T, K>(key: T -> K, leq: (K, K) -> bool, s: seq<T>)
    requires s != [] && SortedBy(key, leq, s)
    ensures SortedBy(key, leq, s[1..]) && forall y :: y in s[1..] ==> leq(key(s[0]), key(y))
  {
  }

  lemma SortedNone<T, K>(key: T -> K, leq: (K, K) -> bool)
    ensures SortedBy(key, leq, [])
  {
  }

  lemma SortedCons<T, K>(key: T -> K, leq: (K, K) -> bool, x: T, s: seq<T>)
    requires SortedBy(key, leq, s) && forall y :: y in s ==> leq(key(x), key(y))
    ensures SortedBy(key, leq, [x] + s)
  {
  }

  lemma {:induction false} InsertByFacts<T, K(!new)>(key: T -> K, leq: (K, K) -> bool, x: T, s: seq<T>)
    requires TotalOrder(leq) && SortedBy(key, leq, s)
    ensures SortedBy(key, leq, InsertBy(key, leq, x, s))
    ensures multiset(InsertBy(key, leq, x, s)) == multiset{x} + multiset(s)
  {
    hide SortedBy;
    var r := InsertBy(key, leq, x, s);
    if s == [] {
      SortedNone(key, leq);
      SortedCons(key, leq, x, s);
      assert r == [x] + s;
    } else if leq(key(x), key(s[0])) {
      SortedTail(key, leq, s);
      assert s == [s[0]] + s[1..];
      SortedCons(key, leq, x, s);
      assert multiset(r) == multiset([x]) + multiset(s);
    } else {
      var t := InsertBy(key, leq, x, s[1..]);
      SortedTail(key, leq, s);
      InsertByFacts(key, leq, x, s[1..]);
      assert s == [s[0]] + s[1..];
      forall y | y in t ensures leq(key(s[0]), key(y)) {
        assert y in multiset(t);
      }
      SortedCons(key, leq, s[0], t);
      assert multiset(r) == multiset([s[0]]) + multiset(t);
    }
  }

  lemma {:induction false} SortByFacts<T, K(!new)>(key: T -> K, leq: (K, K) -> bool, s: seq<T>)
    requires TotalOrder(leq)
    ensures SortedBy(key, leq, SortBy(key, leq, s))
    ensures multiset(SortBy(key, leq, s)) == multiset(s)
  {
    if s != [] {
      SortByFacts(key, leq, s[1..]);
      InsertByFacts(key, leq, s[0], SortBy(key, leq, s[1..]));
      assert s == [s[0]] + s[1..];
    }
  }

  /** The elements with one key, in their order. */
  function WithKey<T, K(==)>(key: T -> K, k: K, s: seq<T>): seq<T> {
    if s == [] then [] else (if key(s[0]) == k then [s[0]] else []) + WithKey(key, k, s[1..])
  }

  lemma {:induction false} InsertByStable<T, K(!new)>(key: T -> K, leq: (K, K) -> bool, x: T, s: seq<T>, k: K)
    requires TotalOrder(leq)
    ensures WithKey(key, k, InsertBy(key, leq, x, s)) == WithKey(key, k, [x] + s)
  {
    var r := InsertBy(key, leq, x, s);
    assert ([x] + s)[1..] == s;
    if s != [] && !leq(key(x), key(s[0])) {
      assert leq(key(x), key(x));
      InsertByStable(key, leq, x, s[1..], k);
      assert r[1..] == InsertBy(key, leq, x, s[1..]);
      assert ([x] + s[1..])[1..] == s[1..];
    }
  }

  /** The sort is stable: elements with the same key keep their order. */
  lemma {:induction false} SortByStable<T, K(!new)>(key: T -> K, leq: (K, K) -> bool, s: seq<T>, k: K)
    requires TotalOrder(leq)
    ensures WithKey(key, k, SortBy(key, leq, s)) == WithKey(key, k, s)
  {
    if s != [] {
      var t := SortBy(key, leq, s[1..]);
      SortByStable(key, leq, s[1..], k);
      InsertByStable(key, leq, s[0], t, k);
      assert ([s[0]] + t)[1..] == t;
    }
  }

  lemma PermutationElements<T>(s: seq<T>, t: seq<T>)
    requires multiset(s) == multiset(t)
    ensures |s| == |t|
    ensures forall x :: x in s <==> x in t
  {
    assert |multiset(s)| == |s| && |multiset(t)| == |t|;
    forall x ensures x in s <==> x in t {
      assert x in s <==> x in multiset(s);
      assert x in t <==> x in multiset(t);
    }
  }

  /** A list sorted by distinct keys is determined by its elements. */
  lemma {:induction false} SortedUnique<T, K(!new)>(key: T -> K, leq: (K, K) -> bool, s: seq<T>, t: seq<T>)
    requires TotalOrder(leq)
    requires SortedBy(key, leq, s) && SortedBy(key, leq, t)
    requires DistinctKeys(key, s) && DistinctKeys(key, t)
    requires forall x :: x in s <==> x in t
    ensures s == t
  {
    assert t != [] ==> t[0] in t && t[0] in s;
    if s != [] {
      assert s[0] in s;
      assert t[0] in t && t[0] in s && s[0] in t;
      assert leq(key(s[0]), key(t[0])) && leq(key(t[0]), key(s[0]));
      assert s[0] == t[0];
      assert s == [s[0]] + s[1..] && t == [t[0]] + t[1..];
      forall x ensures x in s[1..] <==> x in t[1..] {
        if x in s[1..] { assert key(x) != key(s[0]); assert x in s; assert x in t; }
        if x in t[1..] { assert key(x) != key(t[0]); assert x in t; assert x in s; }
      }
      SortedUnique(key, leq, s[1..], t[1..]);
    }
  }

  lemma MultisetSplit<T>(s: seq<T>, i: nat)
    requires i < |s|
    ensures multiset(s) == multiset(s[..i]) + multiset{s[i]} + multiset(s[i + 1..])
    ensures multiset(s[..i] + s[i + 1..]) == multiset(s) - multiset{s[i]}
  {
    assert s == s[..i] + [s[i]] + s[i + 1..];
  }

  lemma {:induction false} DistinctCount<T, K>(key: T -> K, s: seq<T>, x: T)
    requires DistinctKeys(key, s)
    ensures multiset(s)[x] <= 1
  {
    if s != [] {
      DistinctCount(key, s[1..], x);
      assert s == [s[0]] + s[1..];
      assert x == s[0] ==> x !in s[1..];
    }
  }

  lemma DistinctKeysPermute<T, K>(key: T -> K, s: seq<T>, t: seq<T>)
    requires multiset(s) == multiset(t) && DistinctKeys(key, s)
    ensures DistinctKeys(key, t)
  {
    PermutationElements(s, t);
    forall i, j | 0 <= i < j < |t| ensures key(t[i]) != key(t[j]) {
      DistinctCount(key, s, t[i]);
      MultisetSplit(t, i);
      assert t[j] in t[i + 1..];
      assert t[i] != t[j];
      assert t[i] in s && t[j] in s;
      var a :| 0 <= a < |s| && s[a] == t[i];
      var b :| 0 <= b < |s| && s[b] == t[j];
      assert key(s[a]) != key(s[b]);
    }
  }

  /** A stable sort of a list with distinct keys ignores the input order. */
  lemma SortByCanonical<T, K(!new)>(key: T -> K, leq: (K, K) -> bool, s: seq<T>, t: seq<T>)
    requires TotalOrder(leq)
    requires multiset(s) == multiset(t) && DistinctKeys(key, s)
    ensures SortBy(key, leq, s) == SortBy(key, leq, t)
  {
    SortByFacts(key, leq, s);
    SortByFacts(key, leq, t);
    DistinctKeysPermute(key, s, SortBy(key, leq, s));
    DistinctKeysPermute(key, s, SortBy(key, leq, t));
    PermutationElements(SortBy(key, leq, s), SortBy(key, leq, t));
    SortedUnique(key, leq, SortBy(key, leq, s), SortBy(key, leq, t));
  }

  // ---------------------------------------------------- sort, then dedup

  function Dedup<T(==)>(s: seq<T>): (r: seq<T>) {
    if |s| < 2 then s
    else if s[0] == s[1] then Dedup(s[1..])
    else [s[0]] + Dedup(s[1..])
  }

  function Identity<T>(x: T): T { x }

  /** `v.sort(); v.dedup();` */
  function SortDedup<T(==)>(leq: (T, T) -> bool, s: seq<T>): (r: seq<T>) {
    Dedup(SortBy(Identity, leq, s))
  }

  ghost predicate StrictlySorted<T>(leq: (T, T) -> bool, s: seq<T>) {
    forall i, j :: 0 <= i < j < |s| ==> leq(s[i], s[j]) && s[i] != s[j]
  }

  lemma StrictNone<T>(leq: (T, T) -> bool)
    ensures StrictlySorted(leq, [])
  {
  }

  lemma StrictTail<T>(leq: (T, T) -> bool, s: seq<T>)
    requires s != [] && StrictlySorted(leq, s)
    ensures StrictlySorted(leq, s[1..]) && forall x :: x in s[1..] ==> leq(s[0], x) && s[0] != x
  {
    var t := s[1..];
    assert forall i :: 0 <= i < |t| ==> t[i] == s[i + 1];
  }

  lemma StrictCons<T>(leq: (T, T) -> bool, k: T, s: seq<T>)
    requires StrictlySorted(leq, s) && forall x :: x in s ==> leq(k, x) && k != x
    ensures StrictlySorted(leq, [k] + s)
  {
    var all := [k] + s;
    forall i, j | 0 <= i < j < |all| ensures leq(all[i], all[j]) && all[i] != all[j] {
      assert all[j] == s[j - 1];
      if i > 0 {
        assert all[i] == s[i - 1];
      }
    }
  }

  lemma {:induction false} DedupFacts<T(!new)>(leq: (T, T) -> bool, s: seq<T>)
    requires TotalOrder(leq) && SortedBy(Identity, leq, s)
    ensures StrictlySorted(leq, Dedup(s))
    ensures forall x :: x in s <==> x in Dedup(s)
    ensures s != [] ==> Dedup(s) != [] && Dedup(s)[0] == s[0]
  {
    if |s| >= 2 {
      var t := s[1..];
      DedupFacts(leq, t);
      assert s == [s[0]] + t;
      assert forall i :: 0 <= i < |t| ==> leq(Identity(s[0]), Identity(t[i]));
      if s[0] == s[1] {
      } else {
        var d := Dedup(t);
        forall j | 0 <= j < |d| ensures leq(s[0], d[j]) && s[0] != d[j] {
          assert d[j] in t;
          assert leq(s[0], d[0]) && leq(d[0], d[j]);
        }
        assert Dedup(s) == [s[0]] + d;
      }
    }
  }

  lemma SortDedupFacts<T(!new)>(leq: (T, T) -> bool, s: seq<T>)
    requires TotalOrder(leq)
    ensures StrictlySorted(leq, SortDedup(leq, s))
    ensures forall x :: x in s <==> x in SortDedup(leq, s)
  {
    SortByFacts(Identity, leq, s);
    PermutationElements(s, SortBy(Identity, leq, s));
    DedupFacts(leq, SortBy(Identity, leq, s));
  }

  /** A strictly sorted list is determined by its set of elements. */
  lemma StrictlySortedUnique<T(!new)>(leq: (T, T) -> bool, s: seq<T>, t: seq<T>)
    requires TotalOrder(leq)
    requires StrictlySorted(leq, s) && StrictlySorted(leq, t)
    requires forall x :: x in s <==> x in t
    ensures s == t
  {
    SortedUnique(Identity, leq, s, t);
  }

  lemma SortDedupCanonical<T(!new)>(leq: (T, T) -> bool, s: seq<T>, t: seq<T>)
    requires TotalOrder(leq)
    requires forall x :: x in s <==> x in t
    ensures SortDedup(leq, s) == SortDedup(leq, t)
  {
    SortDedupFacts(leq, s);
    SortDedupFacts(leq, t);
    StrictlySortedUnique(leq, SortDedup(leq, s), SortDedup(leq, t));
  }

  /** The elements of a finite set in order, as a `BTreeMap` or `BTreeSet`
      iterates its keys. */
  ghost function SetToSeq<T(!new)>(s: set<T>): (r: seq<T>)
    ensures forall x :: x in r <==> x in s
  {
    if s == {} then [] else var x :| x in s; [x] + SetToSeq(s - {x})
  }

  ghost function InOrder<T(!new)>(leq: (T, T) -> bool, s: set<T>): (r: seq<T>) {
    SortDedup(leq, SetToSeq(s))
  }

  lemma InOrderFacts<T(!new)>(leq: (T, T) -> bool, s: set<T>)
    requires TotalOrder(leq)
    ensures StrictlySorted(leq, InOrder(leq, s))
    ensures forall x :: x in InOrder(leq, s) <==> x in s
  {
    SortDedupFacts(leq, SetToSeq(s));
  }

  method KeysInOrder<V>(m: map<string, V>) returns (keys: seq<string>)
    ensures keys == InOrder(StringLeq, m.Keys)
  {
    keys := [];
    var rest := m.Keys;
    while rest != {}
      invariant rest <= m.Keys
      invariant forall k :: k in keys <==> k in m.Keys && k !in rest
      decreases |rest|
    {
      var k :| k in rest;
      rest := rest - {k};
      keys := keys + [k];
    }
    StringOrder();
    SortDedupCanonical(StringLeq, keys, SetToSeq(m.Keys));
    keys := SortDedup(StringLeq, keys);
  }

  // --------------------------------------------------------------- folds

  function FoldLeft<S, X>(f: (S, X) -> S, s: S, xs: seq<X>): S {
    if xs == [] then s else FoldLeft(f, f(s, xs[0]), xs[1..])
  }

  ghost predicate Commutes<S(!new), X(!new)>(f: (S, X) -> S) {
    forall s, x, y :: f(f(s, x), y) == f(f(s, y), x)
  }

  lemma {:induction false} FoldAppend<S, X>(f: (S, X) -> S, s: S, xs: seq<X>, ys: seq<X>)
    ensures FoldLeft(f, s, xs + ys) == FoldLeft(f, FoldLeft(f, s, xs), ys)
  {
    if xs == [] {
      assert xs + ys == ys;
    } else {
      assert (xs + ys)[1..] == xs[1..] + ys;
      FoldAppend(f, f(s, xs[0]), xs[1..], ys);
    }
  }

  lemma {:induction false} FoldMoveToFront<S(!new), X(!new)>(f: (S, X) -> S, s: S, xs: seq<X>, y: X, zs: seq<X>)
    requires Commutes(f)
    ensures FoldLeft(f, s, xs + [y] + zs) == FoldLeft(f, f(s, y), xs + zs)
  {
    if xs == [] {
      assert xs + [y] + zs == [y] + zs && xs + zs == zs;
    } else {
      assert (xs + [y] + zs)[1..] == xs[1..] + [y] + zs;
      assert (xs + zs)[1..] == xs[1..] + zs;
      FoldMoveToFront(f, f(s, xs[0]), xs[1..], y, zs);
    }
  }

  /** A fold whose steps commute gives the same result on every permutation. */
  lemma {:induction false} FoldPermutation<S(!new), X(!new)>(f: (S, X) -> S, s: S, xs: seq<X>, ys: seq<X>)
    requires Commutes(f)
    requires multiset(xs) == multiset(ys)
    ensures FoldLeft(f, s, xs) == FoldLeft(f, s, ys)
    decreases |xs|
  {
    PermutationElements(xs, ys);
    if xs == [] {
    } else {
      var x := xs[0];
      assert x in ys;
      var i :| 0 <= i < |ys| && ys[i] == x;
      var rest := ys[..i] + ys[i + 1..];
      assert ys == ys[..i] + [x] + ys[i + 1..];
      MultisetSplit(ys, i);
      MultisetSplit(xs, 0);
      assert xs[..0] + xs[1..] == xs[1..];
      FoldMoveToFront(f, s, ys[..i], x, ys[i + 1..]);
      FoldPermutation(f, f(s, x), xs[1..], rest);
    }
  }
}
