/**
  The list of spaces shown to the user (external/gptfdisk/gptcurses.cc): a doubly linked list with one node for each
  partition and one for each gap, sorted by relinking its nodes.
 */
module SpaceList {
  import opened Lists
  import opened FreeSpace

  class Space {
    const first: nat
    const last: nat
    /** The number of the partition, or -1 for a gap. */
    const part: int
    var next: Space?
    var prev: Space?

    constructor (first: nat, last: nat, part: int)
      ensures this.first == first && this.last == last && this.part == part && next == null && prev == null
    {
      this.first, this.last, this.part := first, last, part;
      next, prev := null, null;
    }
  }

  function PrevIn(nodes: seq<Space>, i: nat): Space?
    requires i < |nodes|
  {
    if i == 0 then null else nodes[i - 1]
  }

  function NextIn(nodes: seq<Space>, i: nat): Space?
    requires i < |nodes|
  {
    if i + 1 == |nodes| then null else nodes[i + 1]
  }

  function Head(nodes: seq<Space>): Space? {
    if nodes == [] then null else nodes[0]
  }

  function Tail(nodes: seq<Space>): Space? {
    if nodes == [] then null else nodes[|nodes| - 1]
  }

  /** The nodes are linked to each other in this order, both ways. */
  ghost predicate Linked(nodes: seq<Space>)
    reads nodes
  {
    NoDup(nodes) && forall i | 0 <= i < |nodes| :: LinkedAt(nodes, i)
  }

  ghost predicate LinkedAt(nodes: seq<Space>, i: nat)
    requires i < |nodes|
    reads nodes[i]
  {
    nodes[i].prev == PrevIn(nodes, i) && nodes[i].next == NextIn(nodes, i)
  }

  predicate Ordered(nodes: seq<Space>) {
    forall i, j | 0 <= i < j < |nodes| :: nodes[i].first <= nodes[j].first
  }

  lemma RemoveLinks(nodes: seq<Space>, i: nat, k: nat)
    requires NoDup(nodes) && i < |nodes| && k < |nodes| - 1
    ensures var r := RemoveAt(nodes, i);
            var from := if k < i then k else k + 1;
            && r[k] == nodes[from] && r[k] != nodes[i]
            && PrevIn(r, k) == (if k == i then PrevIn(nodes, i) else PrevIn(nodes, from))
            && NextIn(r, k) == (if k + 1 == i then NextIn(nodes, i) else NextIn(nodes, from))
  {}

  lemma RemoveNoDup(nodes: seq<Space>, i: nat)
    requires NoDup(nodes) && i < |nodes|
    ensures NoDup(RemoveAt(nodes, i))
  {}

  class Spaces {
    var first: Space?
    var last: Space?
    var count: int
    ghost var nodes: seq<Space>

    ghost function Repr(): set<Space>
      reads this
    {
      Elems(nodes)
    }

    /** The list without its count. */
    ghost predicate Shape()
      reads this, nodes
    {
      Linked(nodes) && first == Head(nodes) && last == Tail(nodes)
    }

    ghost predicate Valid()
      reads this, nodes
    {
      Shape() && count == |nodes|
    }

    constructor ()
      ensures Valid() && nodes == []
    {
      first, last, count, nodes := null, null, 0, [];
    }

    method EmptySpaces()
      requires Valid()
      modifies this
      ensures Valid() && nodes == []
    {
      ghost var j := 0;
      while first != null
        invariant 0 <= j <= |nodes| && Linked(nodes) && first == (if j < |nodes| then nodes[j] else null)
        decreases |nodes| - j
      {
        assert LinkedAt(nodes, j);
        first := first.next;
        j := j + 1;
      }
      count, last, nodes := 0, null, [];
    }

    /** UnlinkSpace, for a node of a chain that need not be the list itself. */
    method UnlinkSpace(s: Space, ghost chain: seq<Space>, ghost i: nat)
      requires Linked(chain) && i < |chain| && s == chain[i]
      modifies this`first, this`last, this`count, Elems(chain)
      ensures Linked(RemoveAt(chain, i)) && s.next == null && s.prev == null && count == old(count) - 1
      ensures first == if old(first) == s then NextIn(chain, i) else old(first)
      ensures last == if old(last) == s then PrevIn(chain, i) else old(last)
    {
      assert LinkedAt(chain, i);
      ghost var p, n := s.prev, s.next;
      if s.prev != null {
        s.prev.next := s.next;
      }
      if s.next != null {
        s.next.prev := s.prev;
      }
      if s == first {
        first := s.next;
      }
      if s == last {
        last := s.prev;
      }
      s.next, s.prev := null, null;
      count := count - 1;
      ghost var r := RemoveAt(chain, i);
      forall k | 0 <= k < |r| ensures LinkedAt(r, k) {
        RemoveLinks(chain, i, k);
        assert old(LinkedAt(chain, if k < i then k else k + 1));
      }
      RemoveNoDup(chain, i);
    }

    method LinkToEnd(s: Space)
      requires Shape() && s !in nodes
      modifies this, s, Repr()
      ensures Shape() && nodes == old(nodes) + [s] && Repr() == old(Repr()) + {s} && count == old(count) + 1
    {
      if last == null {
        first, last := s, s;
        s.next, s.prev := null, null;
      } else {
        s.prev, s.next := last, null;
        last.next := s;
        last := s;
      }
      count := count + 1;
      nodes := nodes + [s];
      forall k | 0 <= k < |nodes| ensures LinkedAt(nodes, k) {
        assert k < |old(nodes)| ==> old(LinkedAt(nodes, k));
      }
    }

    /** The inner loop of SortSpaces: the first of the earliest nodes of a chain. */
    method FindEarliest(start: Space, ghost chain: seq<Space>) returns (earliest: Space, ghost i: nat)
      requires Linked(chain) && chain != [] && start == chain[0]
      ensures earliest in chain && forall k | 0 <= k < |chain| :: earliest.first <= chain[k].first
      ensures i < |chain| && earliest == chain[i]
    {
      earliest, i := start, 0;
      var current: Space? := start;
      ghost var j := 0;
      while current != null
        invariant 0 <= j <= |chain| && current == (if j < |chain| then chain[j] else null)
        invariant i < |chain| && earliest == chain[i] && forall k | 0 <= k < j :: earliest.first <= chain[k].first
        decreases |chain| - j
      {
        assert LinkedAt(chain, j);
        if current.first < earliest.first {
          earliest, i := current, j;
        }
        current := current.next;
        j := j + 1;
      }
    }

    /** Sorting is under way: the sorted part is the list, and the rest is linked from oldFirst to oldLast. */
    ghost predicate Sorting(all: seq<Space>, rest: seq<Space>, oldFirst: Space?, oldLast: Space?)
      reads this, nodes, rest
    {
      && Shape() && Linked(rest) && oldFirst == Head(rest) && oldLast == Tail(rest)
      && count == |nodes| + |rest| && Split(all, nodes, rest)
    }

    /** SortSpaces: the earliest node of what is left is moved to the end of the new list until nothing is left. */
    method SortSpaces()
      requires Valid()
      modifies this, Repr()
      ensures Valid() && multiset(nodes) == multiset(old(nodes)) && Ordered(nodes)
      ensures Repr() == old(Repr())
    {
      var oldFirst, oldLast := first, last;
      ghost var all, rest := nodes, nodes;
      first, last, nodes := null, null, [];
      while oldFirst != null
        invariant Sorting(all, rest, oldFirst, oldLast)
        decreases |rest|
      {
        oldFirst, oldLast, rest := SelectNext(all, rest, oldFirst, oldLast);
      }
      SameElems(all, nodes);
    }

    /** The body of the loop of SortSpaces. */
    method SelectNext(ghost all: seq<Space>, ghost rest: seq<Space>, oldFirst: Space, oldLast: Space?)
      returns (newFirst: Space?, newLast: Space?, ghost left: seq<Space>)
      requires Sorting(all, rest, oldFirst, oldLast)
      modifies this, Elems(all)
      ensures Sorting(all, left, newFirst, newLast) && |left| == |rest| - 1
    {
      newFirst, newLast := oldFirst, oldLast;
      var earliest, i := FindEarliest(oldFirst, rest);
      assert LinkedAt(rest, i);
      if newFirst == earliest {
        newFirst := earliest.next;
      }
      if newLast == earliest {
        newLast := earliest.prev;
      }
      EndsWithout(rest, i);
      left := RemoveAt(rest, i);
      MoveToEnd(earliest, rest, i, all);
    }

    /** Take a node out of the rest and put it at the end of the list. */
    method MoveToEnd(s: Space, ghost rest: seq<Space>, ghost i: nat, ghost all: seq<Space>)
      requires Shape() && Linked(rest) && i < |rest| && s == rest[i] && Split(all, nodes, rest)
      requires forall k | 0 <= k < |rest| :: s.first <= rest[k].first
      modifies this, Elems(all)
      ensures Shape() && Linked(RemoveAt(rest, i)) && Split(all, nodes, RemoveAt(rest, i))
      ensures nodes == old(nodes) + [s] && count == old(count)
    {
      SplitParts(all, nodes, rest);
      UnlinkSpace(s, rest, i);
      SplitMoves(all, nodes, rest, i);
      LinkToEnd(s);
    }
  }

  /** The list has been taken apart into a sorted part and a rest that comes after it. */
  ghost predicate Split(all: seq<Space>, done: seq<Space>, rest: seq<Space>) {
    && multiset(done) + multiset(rest) == multiset(all) && NoDup(done) && NoDup(rest) && Ordered(done)
    && (forall x, y | x in done && y in rest :: x != y && x.first <= y.first)
  }

  lemma SplitParts(all: seq<Space>, done: seq<Space>, rest: seq<Space>)
    requires Split(all, done, rest)
    ensures Elems(done) <= Elems(all) && Elems(rest) <= Elems(all)
  {
    forall x | x in done || x in rest ensures x in all {
      assert x in multiset(done) + multiset(rest);
    }
  }

  /** The ends of a chain without node i. */
  lemma EndsWithout(rest: seq<Space>, i: nat)
    requires NoDup(rest) && i < |rest|
    ensures Head(RemoveAt(rest, i)) == if rest[i] == rest[0] then NextIn(rest, i) else rest[0]
    ensures Tail(RemoveAt(rest, i)) == if rest[i] == rest[|rest| - 1] then PrevIn(rest, i) else rest[|rest| - 1]
  {}

  lemma RemoveMultiset(q: seq<Space>, i: nat)
    requires i < |q|
    ensures multiset(q) == multiset(RemoveAt(q, i)) + multiset{q[i]}
  {
    assert q == q[..i] + [q[i]] + q[i + 1..];
  }

  lemma RemoveMembers(q: seq<Space>, i: nat)
    requires NoDup(q) && i < |q|
    ensures forall y | y in RemoveAt(q, i) :: y in q && y != q[i]
  {
    var r := RemoveAt(q, i);
    forall k | 0 <= k < |r| ensures r[k] in q && r[k] != q[i] {
      assert r[k] == q[if k < i then k else k + 1];
    }
  }

  lemma SameElems(all: seq<Space>, nodes: seq<Space>)
    requires multiset(nodes) == multiset(all)
    ensures Elems(nodes) == Elems(all)
  {
    assert forall x :: x in nodes <==> x in multiset(nodes);
    assert forall x :: x in all <==> x in multiset(all);
  }

  lemma SplitMoves(all: seq<Space>, done: seq<Space>, rest: seq<Space>, i: nat)
    requires Split(all, done, rest) && i < |rest| && forall k | 0 <= k < |rest| :: rest[i].first <= rest[k].first
    ensures Split(all, done + [rest[i]], RemoveAt(rest, i)) && rest[i] !in done
  {
    RemoveNoDup(rest, i);
    RemoveMultiset(rest, i);
    RemoveMembers(rest, i);
    assert rest[i] in rest;
    AppendOrdered(done, rest[i]);
    assert forall y | y in rest :: rest[i].first <= y.first;
  }

  lemma AppendOrdered(done: seq<Space>, s: Space)
    requires NoDup(done) && Ordered(done) && s !in done && forall x | x in done :: x.first <= s.first
    ensures NoDup(done + [s]) && Ordered(done + [s])
  {}
}
