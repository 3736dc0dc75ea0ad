/**
 sort.Slice / sort.SliceStable over a (rank, name) key, as a stable insertion sort, with the facts
 that make the choice of algorithm immaterial: the result is ordered, is a permutation, and any other
 ordered permutation of elements with distinct keys is the same sequence.
 */
module Sorting {
  import opened Strings

  datatype SortKey = SortKey(rank: int, name: string)

  predicate KeyLess(a: SortKey, b: SortKey) {
    a.rank < b.rank || (a.rank == b.rank && StrLess(a.name, b.name))
  }

  lemma KeyLessOrder(a: SortKey, b: SortKey, c: SortKey)
    ensures !KeyLess(a, a)
    ensures a == b || KeyLess(a, b) || KeyLess(b, a)
    ensures KeyLess(a, b) && KeyLess(b, c) ==> KeyLess(a, c)
  {
    StrLessIrreflexive(a.name);
    StrLessTotal(a.name, b.name);
    if StrLess(a.name, b.name) && StrLess(b.name, c.name) {
      StrLessTransitive(a.name, b.name, c.name);
    }
  }

  /** Inserts x behind every element that is not greater. */
  function Insert<T>(key: T -> SortKey, x: T, s: seq<T>): seq<T> {
    if s == [] then [x]
    else if KeyLess(key(x), key(s[0])) then [x] + s
    else [s[0]] + Insert(key, x, s[1..])
  }

  function Sort<T>(key: T -> SortKey, s: seq<T>): seq<T> {
    if s == [] then [] else Insert(key, s[|s| - 1], Sort(key, s[..|s| - 1]))
  }

  ghost predicate Ordered<T>(key: T -> SortKey, s: seq<T>) {
    forall i, j :: 0 <= i < j < |s| ==> !KeyLess(key(s[j]), key(s[i]))
  }

  ghost predicate DistinctKeys<T>(key: T -> SortKey, s: seq<T>) {
    forall i, j :: 0 <= i < j < |s| ==> key(s[i]) != key(s[j])
  }

  lemma {:induction false} InsertPermutes<T>(key: T -> SortKey, x: T, s: seq<T>)
    ensures multiset(Insert(key, x, s)) == multiset(s) + multiset{x}
  {
    if s != [] && !KeyLess(key(x), key(s[0])) {
      InsertPermutes(key, x, s[1..]);
      assert s == [s[0]] + s[1..];
    }
  }

  lemma {:induction false} InsertOrders<T>(key: T -> SortKey, x: T, s: seq<T>)
    requires Ordered(key, s)
    ensures Ordered(key, Insert(key, x, s))
  {
    if s == [] {
    } else if KeyLess(key(x), key(s[0])) {
      forall j | 0 <= j < |s| ensures !KeyLess(key(s[j]), key(x)) {
        KeyLessOrder(key(s[j]), key(x), key(s[0]));
      }
    } else {
      var t := Insert(key, x, s[1..]);
      InsertOrders(key, x, s[1..]);
      InsertPermutes(key, x, s[1..]);
      forall j | 0 <= j < |t| ensures !KeyLess(key(t[j]), key(s[0])) {
        assert t[j] in multiset(t);
        assert t[j] == x || t[j] in s[1..];
      }
    }
  }

  lemma {:induction false} SortSorts<T>(key: T -> SortKey, s: seq<T>)
    ensures Ordered(key, Sort(key, s))
    ensures multiset(Sort(key, s)) == multiset(s)
  {
    if s == [] {
    } else {
      var front := s[..|s| - 1];
      SortSorts(key, front);
      InsertOrders(key, s[|s| - 1], Sort(key, front));
      InsertPermutes(key, s[|s| - 1], Sort(key, front));
      assert s == front + [s[|s| - 1]];
    }
  }

  lemma SortOne<T>(key: T -> SortKey, x: T)
    ensures Sort(key, [x]) == [x]
  {
    assert [x][..0] == [] && Sort(key, [x][..0]) == [];
  }

  lemma DistinctKeysPermute<T>(key: T -> SortKey, a: seq<T>, b: seq<T>)
    requires multiset(a) == multiset(b)
    requires DistinctKeys(key, a)
    ensures DistinctKeys(key, b)
  {
    forall i, j | 0 <= i < j < |b| ensures key(b[i]) != key(b[j]) {
      var x, y := b[i], b[j];
      assert b == b[..i] + [x] + b[i + 1..j] + [y] + b[j + 1..];
      assert x in multiset(a) && y in multiset(a);
      if x == y {
        assert multiset(b)[x] >= 2;
        DistinctKeysOnce(key, a, x);
      } else {
        var k :| 0 <= k < |a| && a[k] == x;
        var l :| 0 <= l < |a| && a[l] == y;
      }
    }
  }

  lemma {:induction false} DistinctKeysOnce<T>(key: T -> SortKey, a: seq<T>, x: T)
    requires DistinctKeys(key, a)
    ensures multiset(a)[x] <= 1
  {
    if a == [] {
    } else {
      assert a == [a[0]] + a[1..];
      DistinctKeysOnce(key, a[1..], x);
      assert forall k :: 0 <= k < |a[1..]| ==> a[1..][k] == a[k + 1];
      assert a[0] !in a[1..];
    }
  }

  lemma OrderedHeadsAgree<T>(key: T -> SortKey, a: seq<T>, b: seq<T>)
    requires a != [] && b != []
    requires a[0] in b && b[0] in a
    requires Ordered(key, a) && Ordered(key, b) && DistinctKeys(key, a)
    ensures a[0] == b[0]
  {
    var j :| 0 <= j < |b| && b[j] == a[0];
    var k :| 0 <= k < |a| && a[k] == b[0];
    KeyLessOrder(key(a[0]), key(b[0]), key(a[0]));
  }

  lemma TailsPermute<T>(x: T, s: seq<T>, t: seq<T>)
    requires multiset([x] + s) == multiset([x] + t)
    ensures multiset(s) == multiset(t)
  {
    assert multiset(s) == multiset([x] + s) - multiset{x};
    assert multiset(t) == multiset([x] + t) - multiset{x};
  }

  /** Two ordered permutations of elements with distinct keys are the same sequence. */
  lemma {:induction false} OrderedUnique<T>(key: T -> SortKey, a: seq<T>, b: seq<T>)
    requires multiset(a) == multiset(b)
    requires Ordered(key, a) && Ordered(key, b) && DistinctKeys(key, a)
    ensures a == b
  {
    DistinctKeysPermute(key, a, b);
    if a == [] {
      assert |multiset(b)| == 0;
    } else {
      assert |multiset(a)| == |multiset(b)|;
      assert a[0] in multiset(b) && b[0] in multiset(a);
      OrderedHeadsAgree(key, a, b);
      assert a == [a[0]] + a[1..] && b == [a[0]] + b[1..];
      TailsPermute(a[0], a[1..], b[1..]);
      OrderedUnique(key, a[1..], b[1..]);
    }
  }

  /** Sorting forgets the order its input came in. */
  lemma SortForgetsOrder<T>(key: T -> SortKey, a: seq<T>, b: seq<T>)
    requires multiset(a) == multiset(b)
    requires DistinctKeys(key, a)
    ensures Sort(key, a) == Sort(key, b)
  {
    SortSorts(key, a);
    SortSorts(key, b);
    DistinctKeysPermute(key, a, Sort(key, a));
    OrderedUnique(key, Sort(key, a), Sort(key, b));
  }

  // ---- Filters under permutation ----

  function Filter<T>(p: T -> bool, s: seq<T>): seq<T> {
    if s == [] then []
    else
      var n := |s| - 1;
      if p(s[n]) then Filter(p, s[..n]) + [s[n]] else Filter(p, s[..n])
  }

  lemma {:induction false} FilterConcat<T>(p: T -> bool, a: seq<T>, b: seq<T>)
    ensures Filter(p, a + b) == Filter(p, a) + Filter(p, b)
  {
    if b == [] {
      assert a + b == a;
    } else {
      var n := |b| - 1;
      assert (a + b)[..|a + b| - 1] == a + b[..n];
      FilterConcat(p, a, b[..n]);
    }
  }

  lemma WithoutAt<T>(s: seq<T>, k: nat)
    requires k < |s|
    ensures multiset(s[..k] + s[k + 1..]) == multiset(s) - multiset{s[k]}
  {
    assert s == s[..k] + ([s[k]] + s[k + 1..]);
  }

  lemma RestIsPermutation<T>(a: seq<T>, b: seq<T>, k: nat)
    requires multiset(a) == multiset(b) && a != [] && k < |b| && b[k] == a[|a| - 1]
    ensures multiset(a[..|a| - 1]) == multiset(b[..k] + b[k + 1..])
  {
    WithoutAt(b, k);
    WithoutAt(a, |a| - 1);
    assert a[..|a| - 1] + a[|a|..] == a[..|a| - 1];
  }

  lemma FilterLast<T>(p: T -> bool, s: seq<T>, x: T)
    ensures Filter(p, s + [x]) == if p(x) then Filter(p, s) + [x] else Filter(p, s)
  {
    assert (s + [x])[..|s|] == s;
  }

  lemma FilterOne<T>(p: T -> bool, x: T)
    ensures Filter(p, [x]) == if p(x) then [x] else []
  {
    FilterLast(p, [], x);
  }

  lemma {:induction false} FilterInsert<T>(p: T -> bool, a: seq<T>, x: T, b: seq<T>)
    ensures multiset(Filter(p, a + [x] + b)) == multiset(Filter(p, a + b)) + if p(x) then multiset{x} else multiset{}
  {
    if b == [] {
      assert a + [x] + b == a + [x] && a + b == a;
      FilterLast(p, a, x);
    } else {
      var front, y := b[..|b| - 1], b[|b| - 1];
      assert a + [x] + b == (a + [x] + front) + [y] && a + b == (a + front) + [y];
      FilterInsert(p, a, x, front);
      FilterLast(p, a + [x] + front, y);
      FilterLast(p, a + front, y);
    }
  }

  lemma {:induction false} FilterPermutes<T>(p: T -> bool, a: seq<T>, b: seq<T>)
    requires multiset(a) == multiset(b)
    ensures multiset(Filter(p, a)) == multiset(Filter(p, b))
  {
    if a == [] {
      assert |multiset(b)| == 0;
    } else {
      var n, x := |a| - 1, a[|a| - 1];
      assert x in multiset(b);
      var k :| 0 <= k < |b| && b[k] == x;
      RestIsPermutation(a, b, k);
      FilterPermutes(p, a[..n], b[..k] + b[k + 1..]);
      assert b == b[..k] + [x] + b[k + 1..];
      FilterInsert(p, b[..k], x, b[k + 1..]);
    }
  }

  lemma {:induction false} FilterMember<T>(p: T -> bool, s: seq<T>, x: T)
    ensures x in Filter(p, s) <==> x in s && p(x)
  {
    if s == [] {
    } else {
      var n := |s| - 1;
      FilterMember(p, s[..n], x);
      assert s == s[..n] + [s[n]];
    }
  }

  /** Where the kept elements stood. */
  ghost function KeptAt<T>(p: T -> bool, s: seq<T>): seq<int> {
    if s == [] then []
    else
      var n := |s| - 1;
      KeptAt(p, s[..n]) + if p(s[n]) then [n] else []
  }

  lemma {:induction false} KeptAtExactly<T>(p: T -> bool, s: seq<T>, k: int)
    ensures k in KeptAt(p, s) <==> 0 <= k < |s| && p(s[k])
  {
    if s == [] {
    } else {
      KeptAtExactly(p, s[..|s| - 1], k);
    }
  }

  lemma {:induction false} FilterIndices<T>(p: T -> bool, s: seq<T>)
    ensures |KeptAt(p, s)| == |Filter(p, s)|
    ensures forall i :: 0 <= i < |KeptAt(p, s)| ==> 0 <= KeptAt(p, s)[i] < |s| && s[KeptAt(p, s)[i]] == Filter(p, s)[i]
    ensures forall i, j :: 0 <= i < j < |KeptAt(p, s)| ==> KeptAt(p, s)[i] < KeptAt(p, s)[j]
  {
    if s == [] {
    } else {
      var n := |s| - 1;
      var front := KeptAt(p, s[..n]);
      FilterIndices(p, s[..n]);
      forall i | 0 <= i < |front| ensures 0 <= front[i] < n && s[front[i]] == Filter(p, s[..n])[i] {
        assert s[..n][front[i]] == s[front[i]];
      }
    }
  }

  lemma {:induction false} FilterDistinct<T>(key: T -> SortKey, p: T -> bool, s: seq<T>)
    requires DistinctKeys(key, s)
    ensures DistinctKeys(key, Filter(p, s))
  {
    if s == [] {
    } else {
      var n := |s| - 1;
      FilterDistinct(key, p, s[..n]);
      var t := Filter(p, s[..n]);
      forall i | 0 <= i < |t| ensures key(t[i]) != key(s[n]) {
        FilterMember(p, s[..n], t[i]);
        assert t[i] in s[..n];
      }
    }
  }

  /** Filtering and then sorting forgets the order the input came in. */
  lemma FilterSortForgetsOrder<T>(key: T -> SortKey, p: T -> bool, a: seq<T>, b: seq<T>)
    requires multiset(a) == multiset(b)
    requires DistinctKeys(key, a)
    ensures Sort(key, Filter(p, a)) == Sort(key, Filter(p, b))
  {
    FilterPermutes(p, a, b);
    FilterDistinct(key, p, a);
    SortForgetsOrder(key, Filter(p, a), Filter(p, b));
  }

  // ---- sort.Strings ----

  function StringKey(s: string): SortKey { SortKey(0, s) }

  function SortStrings(s: seq<string>): seq<string> { Sort(StringKey, s) }

  ghost predicate NoDuplicates<T>(s: seq<T>) {
    forall i, j :: 0 <= i < j < |s| ==> s[i] != s[j]
  }

  /** Strictly ascending, as sort.Strings leaves a duplicate-free slice. */
  ghost predicate Ascending(s: seq<string>) {
    forall i, j :: 0 <= i < j < |s| ==> StrLess(s[i], s[j])
  }

  lemma {:induction false} SameElementsPermute<T>(a: seq<T>, b: seq<T>)
    requires NoDuplicates(a) && NoDuplicates(b)
    requires forall x :: x in a <==> x in b
    ensures multiset(a) == multiset(b)
  {
    forall x: T ensures multiset(a)[x] == multiset(b)[x] {
      OccursOnce(a, x);
      OccursOnce(b, x);
    }
  }

  lemma {:induction false} OccursOnce<T>(a: seq<T>, x: T)
    requires NoDuplicates(a)
    ensures multiset(a)[x] == if x in a then 1 else 0
  {
    if a == [] {
    } else {
      assert a == [a[0]] + a[1..];
      OccursOnce(a[1..], x);
    }
  }

  lemma SortStringsAscends(s: seq<string>)
    requires NoDuplicates(s)
    ensures Ascending(SortStrings(s))
    ensures forall x :: x in SortStrings(s) <==> x in s
  {
    var t := SortStrings(s);
    SortSorts(StringKey, s);
    DistinctKeysPermute(StringKey, s, t);
    forall i, j | 0 <= i < j < |t| ensures StrLess(t[i], t[j]) {
      KeyLessOrder(StringKey(t[i]), StringKey(t[j]), StringKey(t[i]));
    }
    forall x ensures x in t <==> x in s {
      assert x in t <==> x in multiset(t);
      assert x in s <==> x in multiset(s);
    }
  }

  /** A sorted duplicate-free string slice is determined by the set it holds. */
  lemma SortStringsBySet(a: seq<string>, b: seq<string>)
    requires NoDuplicates(a) && NoDuplicates(b)
    requires forall x :: x in a <==> x in b
    ensures SortStrings(a) == SortStrings(b)
  {
    SameElementsPermute(a, b);
    SortForgetsOrder(StringKey, a, b);
  }
}
