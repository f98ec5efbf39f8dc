/**
  What the list of spaces must be (external/gptfdisk/gptcurses.cc): the partitions and the gaps between them, in order,
  covering the usable area; and how adding one gap after the other leads there.
 */
module SpaceTiling {
  import opened Lists
  import opened FreeSpace
  import opened SpaceList

  /** The node describes partition s.part of the table. */
  predicate NodeOf(ps: Table, s: Space) {
    0 <= s.part < |ps| && ps[s.part].used && s.first == ps[s.part].first && s.last == ps[s.part].last
  }

  /** One node for each used partition. */
  ghost predicate Listed(ps: Table, nodes: seq<Space>) {
    && (forall x | x in nodes :: NodeOf(ps, x))
    && (forall x, y | x in nodes && y in nodes && x.part == y.part :: x == y)
    && (forall i | 0 <= i < |ps| && ps[i].used :: exists k | 0 <= k < |nodes| :: nodes[k].part == i)
  }

  lemma ListedAnyOrder(ps: Table, nodes: seq<Space>, sorted: seq<Space>)
    requires Listed(ps, nodes) && multiset(sorted) == multiset(nodes)
    ensures Listed(ps, sorted)
  {
    assert forall x :: x in sorted <==> x in multiset(sorted);
    assert forall x :: x in nodes <==> x in multiset(nodes);
    forall i | 0 <= i < |ps| && ps[i].used ensures exists k | 0 <= k < |sorted| :: sorted[k].part == i {
      var k :| 0 <= k < |nodes| && nodes[k].part == i;
      assert nodes[k] in sorted;
    }
  }

  /** Intervals in the area, one after the other. */
  predicate Apart(a: Area, nodes: seq<Space>) {
    && (forall i | 0 <= i < |nodes| :: a.first <= nodes[i].first <= nodes[i].last <= a.last)
    && (forall i, j | 0 <= i < j < |nodes| :: nodes[i].last < nodes[j].first)
  }

  lemma ListedApart(ps: Table, a: Area, nodes: seq<Space>)
    requires Sound(ps, a) && Listed(ps, nodes) && NoDup(nodes) && Ordered(nodes)
    ensures Apart(a, nodes)
  {
    forall i | 0 <= i < |nodes| ensures a.first <= nodes[i].first <= nodes[i].last <= a.last {
      assert nodes[i] in nodes && NodeOf(ps, nodes[i]) && Proper(ps[nodes[i].part], a);
    }
    forall i, j | 0 <= i < j < |nodes| ensures nodes[i].last < nodes[j].first {
      assert nodes[i] in nodes && nodes[j] in nodes && NodeOf(ps, nodes[i]) && NodeOf(ps, nodes[j]);
      assert nodes[i].part != nodes[j].part;
      if nodes[i].last >= nodes[j].first {
        SharedSector(ps, a, nodes[i].part, nodes[j].part, nodes[j].first);
      }
    }
  }

  predicate Rising(nodes: seq<Space>) {
    forall i, j | 0 <= i < j < |nodes| :: nodes[i].first < nodes[j].first
  }

  lemma SameHead(x: seq<Space>, y: seq<Space>)
    requires Ordered(x) && Rising(y) && multiset(x) == multiset(y) && y != []
    ensures x != [] && x[0] == y[0]
  {
    assert y[0] in multiset(x);
    var k :| 0 <= k < |x| && x[k] == y[0];
    assert x[0] in multiset(y);
    var j :| 0 <= j < |y| && y[j] == x[0];
  }

  lemma TailMultiset(x: seq<Space>)
    requires x != []
    ensures multiset(x[1..]) == multiset(x) - multiset{x[0]}
  {
    assert x == [x[0]] + x[1..];
  }

  /** There is only one sorted order of nodes with different starts. */
  lemma {:induction false} OneOrder(x: seq<Space>, y: seq<Space>)
    requires Ordered(x) && Rising(y) && multiset(x) == multiset(y)
    ensures x == y
  {
    if y == [] {
      assert |multiset(x)| == 0;
    } else {
      SameHead(x, y);
      TailMultiset(x);
      TailMultiset(y);
      OneOrder(x[1..], y[1..]);
      assert x == [x[0]] + x[1..] && y == [y[0]] + y[1..];
    }
  }

  lemma InsertMultiset(nodes: seq<Space>, c: nat, s: Space)
    requires c <= |nodes|
    ensures multiset(InsertAt(nodes, c, s)) == multiset(nodes) + multiset{s}
  {
    assert nodes == nodes[..c] + nodes[c..];
  }

  // ----- covering the area -----

  function PartNodes(nodes: seq<Space>): (r: seq<Space>) {
    if nodes == [] then []
    else PartNodes(nodes[..|nodes| - 1]) + if nodes[|nodes| - 1].part == -1 then [] else [nodes[|nodes| - 1]]
  }

  /** The nodes follow each other without a hole from sector f on, and no two gaps are neighbours. */
  predicate Tile(f: nat, nodes: seq<Space>) {
    forall i | 0 <= i < |nodes| :: TileAt(f, nodes, i)
  }

  predicate TileAt(f: nat, nodes: seq<Space>, i: nat)
    requires i < |nodes|
  {
    && nodes[i].first <= nodes[i].last
    && if i == 0 then nodes[i].first == f
       else nodes[i - 1].last + 1 == nodes[i].first && (nodes[i - 1].part != -1 || nodes[i].part != -1)
  }

  function EndOf(f: nat, nodes: seq<Space>): nat {
    if nodes == [] then f else nodes[|nodes| - 1].last + 1
  }

  /** The area is covered by the partitions and gaps. */
  predicate Covered(a: Area, parts: seq<Space>, nodes: seq<Space>) {
    Tile(a.first, nodes) && EndOf(a.first, nodes) == a.last + 1 && PartNodes(nodes) == parts
  }

  /** The first k partitions are covered up to the end of the last of them by the nodes done; the others follow. */
  predicate Filling(a: Area, parts: seq<Space>, done: seq<Space>, k: nat) {
    && k <= |parts| && Tile(a.first, done) && PartNodes(done) == parts[..k]
    && if k == 0 then done == [] else done != [] && done[|done| - 1] == parts[k - 1]
  }

  lemma PartNodesAppend(nodes: seq<Space>, s: Space)
    ensures PartNodes(nodes + [s]) == PartNodes(nodes) + if s.part == -1 then [] else [s]
  {
    assert (nodes + [s])[..|nodes|] == nodes;
  }

  lemma TileAppend(f: nat, nodes: seq<Space>, s: Space)
    requires Tile(f, nodes) && s.first == EndOf(f, nodes) && s.first <= s.last
    requires nodes != [] ==> nodes[|nodes| - 1].part != -1 || s.part != -1
    ensures Tile(f, nodes + [s])
  {
    forall i | 0 <= i < |nodes| + 1 ensures TileAt(f, nodes + [s], i) {
      assert i < |nodes| ==> TileAt(f, nodes, i);
    }
  }

  /** The node before a partition: what is done, and a gap if there is room for one. */
  predicate Before(a: Area, parts: seq<Space>, k: nat, upto: seq<Space>) {
    && k < |parts| && parts[k].part != -1
    && Tile(a.first, upto) && PartNodes(upto) == parts[..k] && EndOf(a.first, upto) == parts[k].first
  }

  lemma NextFilled(a: Area, parts: seq<Space>, k: nat, upto: seq<Space>)
    requires Before(a, parts, k, upto) && parts[k].first <= parts[k].last
    ensures Filling(a, parts, upto + [parts[k]], k + 1)
  {
    TileAppend(a.first, upto, parts[k]);
    PartNodesAppend(upto, parts[k]);
    assert parts[..k + 1] == parts[..k] + [parts[k]];
  }

  lemma GapBefore(a: Area, parts: seq<Space>, done: seq<Space>, k: nat, gap: Space)
    requires Filling(a, parts, done, k) && k < |parts| && parts[k].part != -1 && (k > 0 ==> parts[k - 1].part != -1)
    requires gap.part == -1 && gap.first == EndOf(a.first, done) && gap.last + 1 == parts[k].first && gap.first <= gap.last
    ensures Before(a, parts, k, done + [gap])
  {
    TileAppend(a.first, done, gap);
    PartNodesAppend(done, gap);
  }

  lemma LastGap(a: Area, parts: seq<Space>, done: seq<Space>, gap: Space)
    requires Filling(a, parts, done, |parts|) && parts != [] && parts[|parts| - 1].part != -1
    requires gap.part == -1 && gap.first == EndOf(a.first, done) && gap.first <= gap.last == a.last
    ensures Covered(a, parts, done + [gap])
  {
    TileAppend(a.first, done, gap);
    PartNodesAppend(done, gap);
    assert parts[..|parts|] == parts;
  }

  lemma AllFilled(a: Area, parts: seq<Space>, done: seq<Space>)
    requires Filling(a, parts, done, |parts|) && parts != [] && parts[|parts| - 1].last == a.last
    ensures Covered(a, parts, done)
  {
    assert parts[..|parts|] == parts;
  }

  // ----- what the covering means -----

  lemma {:induction false} PartNodesMembers(nodes: seq<Space>)
    ensures forall x :: x in PartNodes(nodes) <==> x in nodes && x.part != -1
  {
    if nodes != [] {
      PartNodesMembers(nodes[..|nodes| - 1]);
    }
  }

  lemma {:induction false} TileOrder(f: nat, nodes: seq<Space>, i: nat, j: nat)
    requires Tile(f, nodes) && i < j < |nodes|
    ensures nodes[i].last < nodes[j].first
    decreases j - i
  {
    assert TileAt(f, nodes, j);
    if i + 1 < j {
      TileOrder(f, nodes, i, j - 1);
      assert TileAt(f, nodes, j - 1);
    }
  }

  /** Every gap in the list is a maximal run of free sectors. */
  lemma GapsAreFreeRuns(ps: Table, a: Area, parts: seq<Space>, nodes: seq<Space>, i: nat)
    requires Sound(ps, a) && Listed(ps, parts) && Covered(a, parts, nodes) && i < |nodes| && nodes[i].part == -1
    ensures IsRun(ps, a, nodes[i].first, nodes[i].last)
  {
    PartNodesMembers(nodes);
    TileInside(a, parts, nodes, i);
    forall y | nodes[i].first <= y <= nodes[i].last ensures FreeSector(ps, a, y) {
      forall p | 0 <= p < |ps| && ps[p].used ensures !FreeSpace.Covers(ps[p], y) {
        var k :| 0 <= k < |parts| && parts[k].part == p;
        assert parts[k] in parts && parts[k] in nodes && NodeOf(ps, parts[k]);
        var j :| 0 <= j < |nodes| && nodes[j] == parts[k];
        if i < j {
          TileOrder(a.first, nodes, i, j);
        } else {
          TileOrder(a.first, nodes, j, i);
        }
      }
    }
    NeighbourTaken(ps, a, parts, nodes, i);
  }

  lemma TileInside(a: Area, parts: seq<Space>, nodes: seq<Space>, i: nat)
    requires Covered(a, parts, nodes) && i < |nodes|
    ensures a.first <= nodes[i].first <= nodes[i].last <= a.last
  {
    assert TileAt(a.first, nodes, i) && TileAt(a.first, nodes, 0) && TileAt(a.first, nodes, |nodes| - 1);
    if i > 0 {
      TileOrder(a.first, nodes, 0, i);
    }
    if i < |nodes| - 1 {
      TileOrder(a.first, nodes, i, |nodes| - 1);
    }
  }

  lemma NeighbourTaken(ps: Table, a: Area, parts: seq<Space>, nodes: seq<Space>, i: nat)
    requires Sound(ps, a) && Listed(ps, parts) && Covered(a, parts, nodes) && i < |nodes| && nodes[i].part == -1
    ensures !FreeSector(ps, a, nodes[i].last + 1) && (nodes[i].first == 0 || !FreeSector(ps, a, nodes[i].first - 1))
  {
    PartNodesMembers(nodes);
    assert TileAt(a.first, nodes, i);
    if i + 1 < |nodes| {
      assert TileAt(a.first, nodes, i + 1) && nodes[i + 1] in nodes && nodes[i + 1] in parts && NodeOf(ps, nodes[i + 1]);
      assert FreeSpace.Covers(ps[nodes[i + 1].part], nodes[i].last + 1);
    }
    if i > 0 {
      assert TileAt(a.first, nodes, i - 1) && nodes[i - 1] in nodes && nodes[i - 1] in parts && NodeOf(ps, nodes[i - 1]);
      assert FreeSpace.Covers(ps[nodes[i - 1].part], nodes[i].first - 1);
    }
  }

  /** Every sector that is covered is in a node. */
  lemma {:induction false} NodeAt(f: nat, nodes: seq<Space>, x: nat) returns (i: nat)
    requires Tile(f, nodes) && f <= x < EndOf(f, nodes)
    ensures i < |nodes| && nodes[i].first <= x <= nodes[i].last
  {
    var n := |nodes| - 1;
    assert TileAt(f, nodes, n);
    if nodes[n].first <= x {
      i := n;
    } else {
      assert forall k | 0 <= k < n :: TileAt(f, nodes, k) ==> TileAt(f, nodes[..n], k);
      i := NodeAt(f, nodes[..n], x);
    }
  }

  /** A free sector is in one maximal run only. */
  lemma RunIsOne(ps: Table, a: Area, f: nat, l: nat, f': nat, l': nat, x: nat)
    requires IsRun(ps, a, f, l) && IsRun(ps, a, f', l') && f <= x <= l && f' <= x <= l'
    ensures f == f' && l == l'
  {}

  /** And every maximal run of free sectors is a gap in the list. */
  lemma FreeRunsAreGaps(ps: Table, a: Area, parts: seq<Space>, nodes: seq<Space>, f: nat, l: nat) returns (i: nat)
    requires Sound(ps, a) && Listed(ps, parts) && Covered(a, parts, nodes) && IsRun(ps, a, f, l)
    ensures i < |nodes| && nodes[i].part == -1 && nodes[i].first == f && nodes[i].last == l
  {
    assert FreeSector(ps, a, f);
    i := NodeAt(a.first, nodes, f);
    PartNodesMembers(nodes);
    if nodes[i].part != -1 {
      assert nodes[i] in nodes && nodes[i] in parts && NodeOf(ps, nodes[i]);
      assert FreeSpace.Covers(ps[nodes[i].part], f);
    }
    GapsAreFreeRuns(ps, a, parts, nodes, i);
    RunIsOne(ps, a, f, l, nodes[i].first, nodes[i].last, f);
  }

  // ----- the operations -----

  /** MakeSpacesFromParts. */
  method MakeSpacesFromParts(list: Spaces, ps: Table)
    requires list.Valid()
    modifies list
    ensures list.Valid() && fresh(list.Repr()) && Listed(ps, list.nodes)
  {
    list.EmptySpaces();
    for i := 0 to |ps|
      invariant list.Valid() && fresh(list.Repr()) && ListedTo(ps, list.nodes, i)
    {
      if ps[i].used {
        var s := new Space(ps[i].first, ps[i].last, i);
        ListedNext(ps, list.nodes, i, s);
        list.LinkToEnd(s);
      }
    }
  }

  /** One node for each used partition before number n. */
  ghost predicate ListedTo(ps: Table, nodes: seq<Space>, n: nat) {
    && (forall x | x in nodes :: NodeOf(ps, x) && x.part < n)
    && (forall x, y | x in nodes && y in nodes && x.part == y.part :: x == y)
    && (forall i | 0 <= i < |ps| && i < n && ps[i].used :: exists k | 0 <= k < |nodes| :: nodes[k].part == i)
  }

  lemma ListedNext(ps: Table, nodes: seq<Space>, n: nat, s: Space)
    requires n < |ps| && ListedTo(ps, nodes, n) && s.part == n && NodeOf(ps, s)
    ensures ListedTo(ps, nodes + [s], n + 1)
  {
    var more, m := nodes + [s], n + 1;
    forall i | 0 <= i < |ps| && i < m && ps[i].used ensures exists k | 0 <= k < |more| :: more[k].part == i {
      if i == n {
        assert more[|nodes|].part == i;
      } else {
        var k :| 0 <= k < |nodes| && nodes[k].part == i;
        assert more[k].part == i;
      }
    }
  }

  /** AddEmptySpace: link a gap to the end and sort. */
  method AddEmptySpace(list: Spaces, f: nat, l: nat) returns (s: Space)
    requires list.Valid()
    modifies list, list.Repr()
    ensures list.Valid() && fresh(s) && list.Repr() == old(list.Repr()) + {s} && s.first == f && s.last == l && s.part == -1
    ensures Ordered(list.nodes) && multiset(list.nodes) == multiset(old(list.nodes)) + multiset{s}
  {
    s := new Space(f, l, -1);
    list.LinkToEnd(s);
    list.SortSpaces();
  }

  /** In a sorted list the gap ends up between the nodes before and behind it. */
  method AddGapAt(list: Spaces, f: nat, l: nat, ghost c: nat) returns (s: Space)
    requires list.Valid() && Rising(list.nodes) && c <= |list.nodes|
    requires (forall i | 0 <= i < c :: list.nodes[i].first < f) && forall i | c <= i < |list.nodes| :: f < list.nodes[i].first
    modifies list, list.Repr()
    ensures list.Valid() && fresh(s) && list.Repr() == old(list.Repr()) + {s} && s.first == f && s.last == l && s.part == -1
    ensures list.nodes == InsertAt(old(list.nodes), c, s) && Rising(list.nodes)
  {
    ghost var nodes := list.nodes;
    s := AddEmptySpace(list, f, l);
    InsertMultiset(nodes, c, s);
    InsertRising(nodes, c, s);
    OneOrder(list.nodes, InsertAt(nodes, c, s));
  }

  lemma InsertRising(nodes: seq<Space>, c: nat, s: Space)
    requires Rising(nodes) && c <= |nodes|
    requires (forall i | 0 <= i < c :: nodes[i].first < s.first) && forall i | c <= i < |nodes| :: s.first < nodes[i].first
    ensures Rising(InsertAt(nodes, c, s))
  {
    var r := InsertAt(nodes, c, s);
    assert forall i | 0 <= i < |r| :: r[i] == if i == c then s else nodes[if i < c then i else i - 1];
  }

  /** The partition nodes, before any gap is added. */
  ghost predicate Parts(a: Area, parts: seq<Space>) {
    Apart(a, parts) && forall i | 0 <= i < |parts| :: parts[i].part != -1
  }

  /** While gaps are added: what is done, then the partitions from number k on, the first of which is current. */
  ghost predicate Adding(a: Area, parts: seq<Space>, nodes: seq<Space>, done: seq<Space>, k: nat) {
    Rising(nodes) && Filling(a, parts, done, k) && k < |parts| && nodes == done + parts[k..]
  }

  lemma AddingPlace(a: Area, parts: seq<Space>, nodes: seq<Space>, done: seq<Space>, k: nat)
    requires Parts(a, parts) && Adding(a, parts, nodes, done, k)
    ensures nodes[|done|] == parts[k] && EndOf(a.first, done) <= parts[k].first && a.first <= EndOf(a.first, done)
    ensures (k > 0 <==> |done| > 0) && (k > 0 ==> nodes[|done| - 1] == parts[k - 1] && parts[k - 1].last + 1 == EndOf(a.first, done))
    ensures |done| + 1 == |nodes| <==> k + 1 == |parts|
    ensures forall i | 0 <= i < |done| :: nodes[i].first < EndOf(a.first, done)
    ensures forall i | |done| <= i < |nodes| :: parts[k].first <= nodes[i].first && nodes[i].last <= a.last
  {
    assert forall i | |done| <= i < |nodes| :: nodes[i] == parts[k + i - |done|];
    if k > 0 {
      forall i | 0 <= i < |done| ensures nodes[i].first < EndOf(a.first, done) {
        assert nodes[i] == done[i] && TileAt(a.first, done, i) && TileAt(a.first, done, |done| - 1);
        if i + 1 < |done| {
          TileOrder(a.first, done, i, |done| - 1);
        }
      }
    }
  }

  /** The list: some nodes, the partitions from number k on, and perhaps a last gap. */
  ghost predicate Laid(a: Area, parts: seq<Space>, nodes: seq<Space>, d: seq<Space>, k: nat, tail: seq<Space>) {
    Rising(nodes) && k < |parts| && nodes == d + parts[k..] + tail
  }

  /** Either nothing after the last partition, or a gap to the end of the area. */
  predicate TailOk(a: Area, parts: seq<Space>, k: nat, tail: seq<Space>)
    requires k < |parts|
  {
    if k + 1 < |parts| || parts[k].last == a.last then tail == []
    else |tail| == 1 && tail[0].part == -1 && tail[0].first == parts[k].last + 1 && tail[0].last == a.last
  }

  lemma LaidPlace(a: Area, parts: seq<Space>, nodes: seq<Space>, d: seq<Space>, k: nat, tail: seq<Space>)
    requires Parts(a, parts) && Laid(a, parts, nodes, d, k, tail)
    ensures |d| < |nodes| && nodes[|d|] == parts[k] && (d != [] ==> nodes[|d| - 1] == d[|d| - 1])
    ensures (forall i | 0 <= i <= |d| :: nodes[i].first <= parts[k].first)
    ensures forall i | |d| <= i < |nodes| :: parts[k].first <= nodes[i].first
  {}

  /** A gap before the first partition. */
  method FrontGap(list: Spaces, a: Area, current: Space, ghost parts: seq<Space>, ghost done: seq<Space>, ghost k: nat)
    returns (ghost d: seq<Space>)
    requires Parts(a, parts) && list.Valid() && Adding(a, parts, list.nodes, done, k) && current == parts[k]
    modifies list, list.Repr()
    ensures list.Valid() && forall x | x in list.Repr() :: x in old(list.Repr()) || fresh(x)
    ensures Laid(a, parts, list.nodes, d, k, []) && if k == 0 then Before(a, parts, k, d) else d == done
  {
    AddingStart(a, parts, list.nodes, done, k);
    d := done;
    if current == list.first && current.first > a.first {
      d := AddFront(list, a, current, parts);
    }
  }

  method AddFront(list: Spaces, a: Area, current: Space, ghost parts: seq<Space>) returns (ghost d: seq<Space>)
    requires list.Valid() && Parts(a, parts) && parts != [] && list.nodes == parts && Rising(parts) && current == parts[0] && current.first > a.first
    modifies list, list.Repr()
    ensures list.Valid() && forall x | x in list.Repr() :: x in old(list.Repr()) || fresh(x)
    ensures Laid(a, parts, list.nodes, d, 0, []) && Before(a, parts, 0, d)
  {
    var gap := AddGapAt(list, a.first, current.first - 1, 0);
    d := [gap];
    assert list.nodes == [gap] + parts[0..] + [];
    FrontFilled(a, parts, d);
  }

  lemma AddingStart(a: Area, parts: seq<Space>, nodes: seq<Space>, done: seq<Space>, k: nat)
    requires Parts(a, parts) && Adding(a, parts, nodes, done, k) && NoDup(nodes)
    ensures Laid(a, parts, nodes, done, k, []) && (nodes[0] == parts[k] <==> k == 0)
    ensures k == 0 ==> nodes == parts && a.first <= parts[0].first && (parts[0].first == a.first ==> Before(a, parts, 0, done))
  {
    AddingPlace(a, parts, nodes, done, k);
    assert nodes == done + parts[k..] + [];
    if k == 0 && parts[0].first == a.first {
      FrontFilled(a, parts, done);
    }
  }

  lemma FrontFilled(a: Area, parts: seq<Space>, d: seq<Space>)
    requires Parts(a, parts) && parts != []
    requires if parts[0].first == a.first then d == []
             else |d| == 1 && d[0].part == -1 && d[0].first == a.first && d[0].last + 1 == parts[0].first
    ensures Before(a, parts, 0, d)
  {
    assert PartNodes(d) == [];
    assert d != [] ==> TileAt(a.first, d, 0);
  }

  /** A gap after the last partition. */
  method TailGap(list: Spaces, a: Area, current: Space, ghost parts: seq<Space>, ghost d: seq<Space>, ghost k: nat)
    returns (ghost tail: seq<Space>)
    requires Parts(a, parts) && list.Valid() && Laid(a, parts, list.nodes, d, k, []) && current == parts[k]
    modifies list, list.Repr()
    ensures list.Valid() && forall x | x in list.Repr() :: x in old(list.Repr()) || fresh(x)
    ensures Laid(a, parts, list.nodes, d, k, tail) && TailOk(a, parts, k, tail)
  {
    LaidPlace(a, parts, list.nodes, d, k, []);
    tail := [];
    ghost var nodes := list.nodes;
    assert list.last == current <==> k + 1 == |parts|;
    if current == list.last && current.last < a.last {
      var gap := AddGapAt(list, current.last + 1, a.last, |nodes|);
      tail := [gap];
      assert list.nodes == nodes + [gap];
    }
  }

  /** A gap between a partition and the node before it. */
  method MiddleGap(list: Spaces, a: Area, current: Space, ghost parts: seq<Space>, ghost d: seq<Space>, ghost k: nat, ghost tail: seq<Space>)
    returns (ghost upto: seq<Space>)
    requires Parts(a, parts) && list.Valid() && Laid(a, parts, list.nodes, d, k, tail) && current == parts[k]
    requires if k == 0 then Before(a, parts, k, d) else Filling(a, parts, d, k)
    modifies list, list.Repr()
    ensures list.Valid() && forall x | x in list.Repr() :: x in old(list.Repr()) || fresh(x)
    ensures Laid(a, parts, list.nodes, upto, k, tail) && Before(a, parts, k, upto)
  {
    LaidPlace(a, parts, list.nodes, d, k, tail);
    assert LinkedAt(list.nodes, |d|);
    upto := d;
    if current.prev != null && current.prev.last < current.first - 1 {
      assert k > 0 && current.prev == parts[k - 1];
      upto := AddMiddle(list, a, current, current.prev.last + 1, parts, d, k, tail);
    }
  }

  method AddMiddle(list: Spaces, a: Area, current: Space, f: nat, ghost parts: seq<Space>, ghost d: seq<Space>, ghost k: nat, ghost tail: seq<Space>)
    returns (ghost upto: seq<Space>)
    requires Parts(a, parts) && list.Valid() && Laid(a, parts, list.nodes, d, k, tail) && current == parts[k]
    requires k > 0 && Filling(a, parts, d, k) && f == EndOf(a.first, d) < current.first
    modifies list, list.Repr()
    ensures list.Valid() && forall x | x in list.Repr() :: x in old(list.Repr()) || fresh(x)
    ensures Laid(a, parts, list.nodes, upto, k, tail) && Before(a, parts, k, upto)
  {
    LaidPlace(a, parts, list.nodes, d, k, tail);
    ghost var nodes := list.nodes;
    var gap := AddGapAt(list, f, current.first - 1, |d|);
    GapBefore(a, parts, d, k, gap);
    upto := d + [gap];
    Inserted(nodes, d, parts[k..], tail, gap);
  }

  lemma Inserted(nodes: seq<Space>, d: seq<Space>, rest: seq<Space>, tail: seq<Space>, gap: Space)
    requires nodes == d + rest + tail
    ensures nodes[..|d|] + [gap] + nodes[|d|..] == (d + [gap]) + rest + tail
  {
    assert nodes[..|d|] == d && nodes[|d|..] == rest + tail;
  }

  /** Partition k has been dealt with: the next one is to come, or the area is covered. */
  ghost predicate Dealt(a: Area, parts: seq<Space>, nodes: seq<Space>, next: seq<Space>, k: nat) {
    && k < |parts| && 0 < |next| <= |nodes| && nodes[|next| - 1] == parts[k]
    && if k + 1 < |parts| then Adding(a, parts, nodes, next, k + 1)
       else Covered(a, parts, nodes) && (|next| == |nodes| || |next| + 1 == |nodes|)
  }

  lemma StepDone(a: Area, parts: seq<Space>, nodes: seq<Space>, upto: seq<Space>, k: nat, tail: seq<Space>)
    requires Parts(a, parts) && Laid(a, parts, nodes, upto, k, tail) && Before(a, parts, k, upto) && TailOk(a, parts, k, tail)
    ensures Dealt(a, parts, nodes, upto + [parts[k]], k)
  {
    var next := upto + [parts[k]];
    NextFilled(a, parts, k, upto);
    assert parts[k..] == [parts[k]] + parts[k + 1..];
    assert nodes == next + parts[k + 1..] + tail;
    if k + 1 == |parts| {
      if tail == [] {
        AllFilled(a, parts, next);
        assert nodes == next;
      } else {
        LastGap(a, parts, next, tail[0]);
        assert nodes == next + [tail[0]];
      }
    } else {
      assert nodes == next + parts[k + 1..];
    }
  }

  /** The body of the loop of AddEmptySpaces, for a partition. */
  method AddAround(list: Spaces, a: Area, current: Space, ghost parts: seq<Space>, ghost done: seq<Space>, ghost k: nat)
    returns (ghost next: seq<Space>)
    requires Parts(a, parts) && list.Valid() && Adding(a, parts, list.nodes, done, k) && current == parts[k]
    modifies list, list.Repr()
    ensures list.Valid() && forall x | x in list.Repr() :: x in old(list.Repr()) || fresh(x)
    ensures Dealt(a, parts, list.nodes, next, k)
  {
    ghost var d := FrontGap(list, a, current, parts, done, k);
    ghost var tail := TailGap(list, a, current, parts, d, k);
    ghost var upto := MiddleGap(list, a, current, parts, d, k, tail);
    StepDone(a, parts, list.nodes, upto, k, tail);
    next := upto + [parts[k]];
  }

  /** What the loop of AddEmptySpaces has come to. */
  ghost predicate AtNode(a: Area, parts: seq<Space>, nodes: seq<Space>, done: seq<Space>, k: nat, current: Space?) {
    && k <= |parts|
    && if k < |parts| then Adding(a, parts, nodes, done, k) && current == parts[k]
       else Covered(a, parts, nodes) && |nodes| > 0 && (current == null || (|nodes| > 1 && current == nodes[|nodes| - 1]))
  }

  lemma DealtMovesOn(a: Area, parts: seq<Space>, nodes: seq<Space>, next: seq<Space>, k: nat)
    requires Parts(a, parts) && Dealt(a, parts, nodes, next, k)
    ensures AtNode(a, parts, nodes, next, k + 1, NextIn(nodes, |next| - 1))
  {
    if k + 1 < |parts| {
      AddingPlace(a, parts, nodes, next, k + 1);
    }
  }

  /** AddEmptySpaces. */
  method AddEmptySpaces(list: Spaces, a: Area, ghost ps: Table) returns (ghost parts: seq<Space>)
    requires list.Valid() && Sound(ps, a) && a.first <= a.last && Listed(ps, list.nodes)
    modifies list, list.Repr()
    ensures list.Valid() && Listed(ps, parts) && Covered(a, parts, list.nodes)
  {
    ghost var before := list.nodes;
    list.SortSpaces();
    parts := list.nodes;
    SortedParts(ps, a, before, parts);
    if list.first == null {
      var gap := AddEmptySpace(list, a.first, a.last);
      OneOrder(list.nodes, [gap]);
      OnlyGap(a, gap);
    } else {
      FillGaps(list, a, parts);
    }
  }

  lemma SortedParts(ps: Table, a: Area, before: seq<Space>, parts: seq<Space>)
    requires Sound(ps, a) && Listed(ps, before) && multiset(parts) == multiset(before) && NoDup(parts) && Ordered(parts)
    ensures Listed(ps, parts) && Parts(a, parts) && Rising(parts)
  {
    ListedAnyOrder(ps, before, parts);
    ListedApart(ps, a, parts);
    forall i | 0 <= i < |parts| ensures parts[i].part != -1 {
      assert parts[i] in parts && NodeOf(ps, parts[i]);
    }
  }

  lemma OnlyGap(a: Area, gap: Space)
    requires gap.part == -1 && gap.first == a.first <= gap.last == a.last
    ensures Covered(a, [], [gap])
  {
    PartNodesAppend([], gap);
    assert [] + [gap] == [gap] && TileAt(a.first, [gap], 0);
  }

  /** The loop of AddEmptySpaces has come to a node of the list, which has grown by new nodes only. */
  twostate predicate Ongoing(list: Spaces, a: Area, parts: seq<Space>, new done: seq<Space>, k: nat, new current: Space?)
    reads list, list.nodes
  {
    && list.Valid() && (forall x | x in list.Repr() :: x in old(list.Repr()) || fresh(x))
    && AtNode(a, parts, list.nodes, done, k, current)
  }

  /** The loop of AddEmptySpaces. */
  method FillGaps(list: Spaces, a: Area, ghost parts: seq<Space>)
    requires list.Valid() && Parts(a, parts) && Rising(parts) && parts != [] && list.nodes == parts
    modifies list, list.Repr()
    ensures list.Valid() && Covered(a, parts, list.nodes)
  {
    var current := list.first;
    ghost var k, done := 0, [];
    FillStart(a, parts);
    while current != null
      invariant Ongoing(list, a, parts, done, k, current)
      decreases |parts| - k, if current == null then 0 else 1
    {
      current, k, done := FillAt(list, a, current, parts, done, k);
    }
  }

  lemma FillStart(a: Area, parts: seq<Space>)
    requires Parts(a, parts) && Rising(parts) && parts != []
    ensures AtNode(a, parts, parts, [], 0, parts[0])
  {
    assert parts == [] + parts[0..];
  }

  /** Whether one of the three tests of the loop asks for a gap at a node. */
  method NeedsGap(list: Spaces, a: Area, current: Space, ghost i: nat) returns (needs: bool)
    requires list.Valid() && i < |list.nodes| && current == list.nodes[i]
    ensures needs <==> GapWanted(a, list.nodes, i)
  {
    assert LinkedAt(list.nodes, i);
    needs := (current == list.first && current.first > a.first) || (current == list.last && current.last < a.last)
             || (current.prev != null && current.prev.last < current.first - 1);
  }

  predicate GapWanted(a: Area, nodes: seq<Space>, i: nat)
    requires i < |nodes|
  {
    || (i == 0 && nodes[i].first > a.first) || (i == |nodes| - 1 && nodes[i].last < a.last)
    || (i > 0 && nodes[i - 1].last < nodes[i].first - 1)
  }

  lemma NothingNeeded(a: Area, parts: seq<Space>, nodes: seq<Space>, done: seq<Space>, k: nat)
    requires Parts(a, parts) && Adding(a, parts, nodes, done, k) && NoDup(nodes) && !GapWanted(a, nodes, |done|)
    ensures Dealt(a, parts, nodes, done + [parts[k]], k)
  {
    AddingPlace(a, parts, nodes, done, k);
    AddingStart(a, parts, nodes, done, k);
    assert Before(a, parts, k, done);
    StepDone(a, parts, nodes, done, k, []);
  }

  /** Add the gaps that the tests at a node ask for. */
  method FillAround(list: Spaces, a: Area, current: Space, ghost parts: seq<Space>, ghost done: seq<Space>, ghost k: nat)
    returns (ghost done': seq<Space>, ghost i: nat)
    requires Parts(a, parts) && list.Valid() && AtNode(a, parts, list.nodes, done, k, current)
    modifies list, list.Repr()
    ensures list.Valid() && forall x | x in list.Repr() :: x in old(list.Repr()) || fresh(x)
    ensures i < |list.nodes| && list.nodes[i] == current
    ensures if k < |parts| then Dealt(a, parts, list.nodes, done', k) && i == |done'| - 1
            else list.nodes == old(list.nodes) && done' == done && i == |list.nodes| - 1
  {
    i := if k < |parts| then |done| else |list.nodes| - 1;
    PlaceOf(a, parts, list.nodes, done, k, current);
    done' := done;
    var needs := NeedsGap(list, a, current, i);
    if needs {
      done' := AddAround(list, a, current, parts, done, k);
      i := |done'| - 1;
    } else if k < |parts| {
      NothingNeeded(a, parts, list.nodes, done, k);
      done' := done + [parts[k]];
    }
  }

  /** One pass through the loop of AddEmptySpaces. */
  method FillAt(list: Spaces, a: Area, current: Space, ghost parts: seq<Space>, ghost done: seq<Space>, ghost k: nat)
    returns (next: Space?, ghost k': nat, ghost done': seq<Space>)
    requires Parts(a, parts) && list.Valid() && AtNode(a, parts, list.nodes, done, k, current)
    modifies list, list.Repr()
    ensures list.Valid() && forall x | x in list.Repr() :: x in old(list.Repr()) || fresh(x)
    ensures AtNode(a, parts, list.nodes, done', k', next) && (k' == k + 1 || (k' == k && next == null))
  {
    ghost var i;
    done', i := FillAround(list, a, current, parts, done, k);
    k' := AfterFill(a, parts, list.nodes, done', k, current, i);
    next := NextOf(list, current, i);
  }

  method NextOf(list: Spaces, current: Space, ghost i: nat) returns (next: Space?)
    requires list.Valid() && i < |list.nodes| && current == list.nodes[i]
    ensures next == NextIn(list.nodes, i)
  {
    assert LinkedAt(list.nodes, i);
    next := current.next;
  }

  lemma AfterFill(a: Area, parts: seq<Space>, nodes: seq<Space>, done: seq<Space>, k: nat, current: Space, i: nat) returns (k': nat)
    requires i < |nodes|
    requires Parts(a, parts) && if k < |parts| then Dealt(a, parts, nodes, done, k) && i == |done| - 1
             else AtNode(a, parts, nodes, done, k, current) && i == |nodes| - 1
    ensures AtNode(a, parts, nodes, done, k', NextIn(nodes, i)) && (k' == k + 1 || (k' == k && NextIn(nodes, i) == null))
  {
    k' := k;
    if k < |parts| {
      DealtMovesOn(a, parts, nodes, done, k);
      k' := k + 1;
    }
  }

  /** Where the current node is in the list; behind the last partition no test asks for a gap. */
  lemma PlaceOf(a: Area, parts: seq<Space>, nodes: seq<Space>, done: seq<Space>, k: nat, current: Space)
    requires Parts(a, parts) && AtNode(a, parts, nodes, done, k, current)
    ensures var i := if k < |parts| then |done| else |nodes| - 1;
            0 <= i < |nodes| && current == nodes[i] && (k == |parts| ==> !GapWanted(a, nodes, i))
  {
    if k < |parts| {
      AddingPlace(a, parts, nodes, done, k);
    } else {
      assert TileAt(a.first, nodes, |nodes| - 1);
    }
  }

  /** IdentifySpaces: the list covers the usable area with one node for each partition and one for each free run. */
  method IdentifySpaces(list: Spaces, ps: Table, a: Area) returns (ghost parts: seq<Space>)
    requires list.Valid() && Sound(ps, a) && a.first <= a.last
    modifies list
    ensures list.Valid() && list.count == |list.nodes| && Listed(ps, parts) && Covered(a, parts, list.nodes)
    ensures forall i | 0 <= i < |list.nodes| && list.nodes[i].part == -1 :: IsRun(ps, a, list.nodes[i].first, list.nodes[i].last)
    ensures forall f: nat, l: nat | IsRun(ps, a, f, l) :: IsGap(list.nodes, f, l)
  {
    MakeSpacesFromParts(list, ps);
    parts := AddEmptySpaces(list, a, ps);
    forall i | 0 <= i < |list.nodes| && list.nodes[i].part == -1 ensures IsRun(ps, a, list.nodes[i].first, list.nodes[i].last) {
      GapsAreFreeRuns(ps, a, parts, list.nodes, i);
    }
    forall f: nat, l: nat | IsRun(ps, a, f, l) ensures IsGap(list.nodes, f, l) {
      var i := FreeRunsAreGaps(ps, a, parts, list.nodes, f, l);
    }
  }

  /** A gap from f to l is in the list. */
  predicate IsGap(nodes: seq<Space>, f: nat, l: nat) {
    exists i | 0 <= i < |nodes| :: nodes[i].part == -1 && nodes[i].first == f && nodes[i].last == l
  }
}
