/** Finite lists without repetition: removal, filtering and order, as the linked lists of the sources use them. */
module Lists {

  predicate NoDup<T(==)>(q: seq<T>) {
    forall i, j | 0 <= i < j < |q| :: q[i] != q[j]
  }

  /** Ranks never decrease along the list. */
  predicate Sorted<T>(rank: T -> int, q: seq<T>) {
    forall i, j | 0 <= i < j < |q| :: rank(q[i]) <= rank(q[j])
  }

  function Elems<T>(q: seq<T>): set<T> {
    set x | x in q
  }

  function RemoveAt<T>(q: seq<T>, k: nat): (r: seq<T>)
    requires k < |q|
    ensures |r| == |q| - 1
  {
    q[..k] + q[k + 1..]
  }

  function InsertAt<T>(q: seq<T>, k: nat, x: T): (r: seq<T>)
    requires k <= |q|
    ensures |r| == |q| + 1
  {
    q[..k] + [x] + q[k..]
  }

  function IndexOf<T(==)>(q: seq<T>, x: T): (k: nat)
    requires x in q
    ensures k < |q| && q[k] == x
  {
    if q[0] == x then 0 else 1 + IndexOf(q[1..], x)
  }

  /** The elements that are not in xs, in order. */
  function Minus<T(==,!new)>(q: seq<T>, xs: set<T>): (r: seq<T>)
    ensures forall x {:trigger x in r} :: x in r <==> x in q && x !in xs
  {
    if q == [] then []
    else if q[|q| - 1] in xs then Minus(q[..|q| - 1], xs)
    else Minus(q[..|q| - 1], xs) + [q[|q| - 1]]
  }

  function Backwards<T(!new)>(q: seq<T>): (r: seq<T>)
    ensures |r| == |q|
    ensures forall x {:trigger x in r} :: x in r <==> x in q
  {
    if q == [] then [] else [q[|q| - 1]] + Backwards(q[..|q| - 1])
  }

  lemma RemoveAtElems<T(!new)>(q: seq<T>, k: nat)
    requires NoDup(q) && k < |q|
    ensures NoDup(RemoveAt(q, k)) && Elems(RemoveAt(q, k)) == Elems(q) - {q[k]}
  {
    var r := RemoveAt(q, k);
    forall x ensures x in r <==> x in q && x != q[k] {
      if x in q && x != q[k] {
        var i := IndexOf(q, x);
        assert r[if i < k then i else i - 1] == x;
      }
      if x in r {
        var i := IndexOf(r, x);
        assert x == q[if i < k then i else i + 1];
      }
    }
  }

  lemma InsertAtElems<T(!new)>(q: seq<T>, k: nat, x: T)
    requires NoDup(q) && k <= |q| && x !in q
    ensures NoDup(InsertAt(q, k, x)) && Elems(InsertAt(q, k, x)) == Elems(q) + {x}
  {
    var r := InsertAt(q, k, x);
    forall y ensures y in r <==> y in q || y == x {
      if y in q {
        var i := IndexOf(q, y);
        assert r[if i < k then i else i + 1] == y;
      }
      assert r[k] == x;
    }
  }

  lemma {:induction false} MinusNothing<T(!new)>(q: seq<T>, xs: set<T>)
    requires forall x | x in q :: x !in xs
    ensures Minus(q, xs) == q
  {
    if q != [] {
      MinusNothing(q[..|q| - 1], xs);
    }
  }

  lemma {:induction false} MinusAppend<T(!new)>(p: seq<T>, q: seq<T>, xs: set<T>)
    ensures Minus(p + q, xs) == Minus(p, xs) + Minus(q, xs)
  {
    if q == [] {
      assert p + q == p;
    } else {
      var n := |q| - 1;
      assert (p + q)[..|p + q| - 1] == p + q[..n];
      MinusAppend(p, q[..n], xs);
    }
  }

  lemma {:induction false} MinusMinus<T(!new)>(q: seq<T>, xs: set<T>, ys: set<T>)
    ensures Minus(Minus(q, xs), ys) == Minus(q, xs + ys)
  {
    if q != [] {
      var n := |q| - 1;
      MinusMinus(q[..n], xs, ys);
      if q[n] !in xs {
        var m := Minus(q[..n], xs);
        assert (m + [q[n]])[..|m|] == m;
      }
    }
  }

  lemma MinusMiddle<T(!new)>(p: seq<T>, x: T, r: seq<T>)
    requires x !in p && x !in r
    ensures Minus(p + ([x] + r), {x}) == p + r
  {
    MinusAppend(p, [x] + r, {x});
    MinusAppend([x], r, {x});
    MinusNothing(p, {x});
    MinusNothing(r, {x});
    assert Minus([x], {x}) == [];
  }

  lemma SetAgain<T>(q: seq<T>, r: seq<T>, k: nat, x: T)
    requires k < |q| == |r| && r == q[k := r[k]]
    ensures r[k := x] == q[k := x]
  {}

  lemma SplitAt<T>(q: seq<T>, k: nat)
    requires k < |q|
    ensures q == q[..k] + ([q[k]] + q[k + 1..])
  {}

  lemma MinusOne<T(!new)>(q: seq<T>, k: nat)
    requires NoDup(q) && k < |q|
    ensures Minus(q, {q[k]}) == RemoveAt(q, k)
  {
    SplitAt(q, k);
    assert q[k] !in q[..k] && q[k] !in q[k + 1..];
    MinusMiddle(q[..k], q[k], q[k + 1..]);
  }

  lemma NoDupAppend<T>(q: seq<T>, x: T)
    requires NoDup(q) && x !in q
    ensures NoDup(q + [x]) && NoDup([x] + q)
  {}

  lemma NoDupConcat<T>(p: seq<T>, q: seq<T>)
    requires NoDup(p) && NoDup(q) && forall x | x in p :: x !in q
    ensures NoDup(p + q)
  {
    var r := p + q;
    forall i, j | 0 <= i < j < |r| ensures r[i] != r[j] {
      if i < |p| <= j {
        assert p[i] in p && q[j - |p|] in q;
      }
    }
  }

  lemma {:induction false} BackwardsNoDup<T(!new)>(q: seq<T>)
    requires NoDup(q)
    ensures NoDup(Backwards(q))
  {
    if q != [] {
      var n := |q| - 1;
      BackwardsNoDup(q[..n]);
      NoDupAppend(Backwards(q[..n]), q[n]);
    }
  }
}
