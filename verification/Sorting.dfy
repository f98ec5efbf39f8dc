/** Sorting by a comparison, as the sources leave to a library: the same elements, in order. */
module Sorting {
  import opened Lists

  function InsertBy<T(==)>(less: (T, T) -> bool, x: T, s: seq<T>): (r: seq<T>)
    ensures multiset(r) == multiset{x} + multiset(s) && |r| == |s| + 1
  {
    if s == [] || less(x, s[0]) then [x] + s
    else
      assert s == [s[0]] + s[1..];
      [s[0]] + InsertBy(less, x, s[1..])
  }

  function SortBy<T(==)>(less: (T, T) -> bool, s: seq<T>): (r: seq<T>)
    ensures multiset(r) == multiset(s) && |r| == |s|
  {
    if s == [] then []
    else
      assert s == [s[0]] + s[1..];
      InsertBy(less, s[0], SortBy(less, s[1..]))
  }

  /** On these values the comparison is that of the keys. */
  ghost predicate ByKey<T(!new)>(less: (T, T) -> bool, key: T -> int, dom: T -> bool) {
    forall p, q | dom(p) && dom(q) :: less(p, q) <==> key(p) < key(q)
  }

  predicate AllOf<T>(dom: T -> bool, s: seq<T>) {
    forall i | 0 <= i < |s| :: dom(s[i])
  }

  lemma SameMembers<T>(s: seq<T>, r: seq<T>)
    requires multiset(r) == multiset(s)
    ensures forall i | 0 <= i < |r| :: r[i] in s
  {
    forall i | 0 <= i < |r| ensures r[i] in s {
      assert r[i] in multiset(r);
    }
  }

  lemma {:induction false} InsertSorted<T(!new)>(less: (T, T) -> bool, key: T -> int, dom: T -> bool, x: T, s: seq<T>)
    requires ByKey(less, key, dom) && dom(x) && AllOf(dom, s) && Sorted(key, s)
    ensures AllOf(dom, InsertBy(less, x, s)) && Sorted(key, InsertBy(less, x, s))
  {
    if s != [] && !less(x, s[0]) {
      InsertSorted(less, key, dom, x, s[1..]);
      var rest := InsertBy(less, x, s[1..]);
      SameMembers([x] + s[1..], rest);
      forall i | 0 <= i < |rest| ensures key(s[0]) <= key(rest[i]) {
        assert rest[i] == x || rest[i] in s[1..];
      }
    }
  }

  /** The result is in order of the keys. */
  lemma {:induction false} SortSorted<T(!new)>(less: (T, T) -> bool, key: T -> int, dom: T -> bool, s: seq<T>)
    requires ByKey(less, key, dom) && AllOf(dom, s)
    ensures AllOf(dom, SortBy(less, s)) && Sorted(key, SortBy(less, s))
  {
    if s != [] {
      SortSorted(less, key, dom, s[1..]);
      InsertSorted(less, key, dom, s[0], SortBy(less, s[1..]));
    }
  }

  ghost predicate Symmetric<T(!new)>(rel: (T, T) -> bool) {
    forall p, q :: rel(p, q) == rel(q, p)
  }

  predicate Pairs<T>(rel: (T, T) -> bool, s: seq<T>) {
    forall i, j | 0 <= i < j < |s| :: rel(s[i], s[j])
  }

  lemma {:induction false} InsertPairs<T(!new)>(less: (T, T) -> bool, rel: (T, T) -> bool, x: T, s: seq<T>)
    requires Symmetric(rel) && Pairs(rel, s) && forall i | 0 <= i < |s| :: rel(x, s[i])
    ensures Pairs(rel, InsertBy(less, x, s))
  {
    if s != [] && !less(x, s[0]) {
      InsertPairs(less, rel, x, s[1..]);
      var rest := InsertBy(less, x, s[1..]);
      SameMembers([x] + s[1..], rest);
      forall i | 0 <= i < |rest| ensures rel(s[0], rest[i]) {
        assert rest[i] == x || rest[i] in s[1..];
      }
    }
  }

  /** A symmetric relation between all pairs survives sorting. */
  lemma {:induction false} SortPairs<T(!new)>(less: (T, T) -> bool, rel: (T, T) -> bool, s: seq<T>)
    requires Symmetric(rel) && Pairs(rel, s)
    ensures Pairs(rel, SortBy(less, s))
  {
    if s != [] {
      SortPairs(less, rel, s[1..]);
      var r := SortBy(less, s[1..]);
      SameMembers(s[1..], r);
      InsertPairs(less, rel, s[0], r);
    }
  }
}
