/**
  Moving the entries of an MBR table so that it can be written (external/gptfdisk/basicmbr.cc): logical
  partitions out of the first four entries, primary ones into them, and the others sorted.
 */
module MbrRearrange {
  import opened Lists
  import opened Sorting
  import opened MbrTable

  /** The same entries, still compatible with each other. */
  ghost predicate Keeps(ps: Table, qs: Table) {
    |qs| == |ps| && multiset(qs) == multiset(ps) && Pairwise(qs)
  }

  function Swapped(ps: Table, i: nat, j: nat): (r: Table)
    requires i < |ps| && j < |ps|
    ensures |r| == |ps|
  {
    ps[i := ps[j]][j := ps[i]]
  }

  lemma SwappedKeeps(ps: Table, i: nat, j: nat)
    requires i < |ps| && j < |ps| && Pairwise(ps)
    ensures Keeps(ps, Swapped(ps, i, j))
  {
    var qs := Swapped(ps, i, j);
    assert forall k | 0 <= k < |ps| :: qs[k] == ps[if k == i then j else if k == j then i else k];
  }

  lemma KeepsMembers(ps: Table, qs: Table)
    requires multiset(qs) == multiset(ps)
    ensures forall p :: p in qs <==> p in ps
  {
    assert forall p :: p in qs <==> p in multiset(qs);
    assert forall p :: p in ps <==> p in multiset(ps);
  }

  // ----- counting -----

  lemma {:induction false} CountUpdate(f: Part -> bool, ps: Table, i: nat, x: Part)
    requires i < |ps|
    ensures Count(f, ps[i := x]) + (if f(ps[i]) then 1 else 0) == Count(f, ps) + (if f(x) then 1 else 0)
  {
    var n := |ps| - 1;
    if i == n {
      assert ps[i := x][..n] == ps[..n];
    } else {
      assert ps[i := x][..n] == ps[..n][i := x];
      CountUpdate(f, ps[..n], i, x);
    }
  }

  lemma {:induction false} CountNone(f: Part -> bool, ps: Table)
    ensures Count(f, ps) == 0 <==> forall i | 0 <= i < |ps| :: !f(ps[i])
  {
    if ps != [] {
      CountNone(f, ps[..|ps| - 1]);
    }
  }

  lemma {:induction false} CountConcat(f: Part -> bool, a: Table, b: Table)
    ensures Count(f, a + b) == Count(f, a) + Count(f, b)
  {
    if b == [] {
      assert a + b == a;
    } else {
      var n := |b| - 1;
      assert (a + b)[..|a + b| - 1] == a + b[..n];
      CountConcat(f, a, b[..n]);
    }
  }

  lemma CountHead(f: Part -> bool, ps: Table, i: nat, j: nat)
    requires i < j <= |ps|
    ensures Count(f, ps[i..j]) == Count(f, ps[i + 1..j]) + if f(ps[i]) then 1 else 0
  {
    assert ps[i..j] == [ps[i]] + ps[i + 1..j];
    CountConcat(f, [ps[i]], ps[i + 1..j]);
    assert Count(f, [ps[i]]) == Count(f, []) + if f(ps[i]) then 1 else 0;
  }

  lemma {:induction false} CountAtMost(f: Part -> bool, ps: Table)
    ensures Count(f, ps) <= |ps|
    ensures Count(f, ps) == |ps| <==> forall i | 0 <= i < |ps| :: f(ps[i])
  {
    if ps != [] {
      CountAtMost(f, ps[..|ps| - 1]);
    }
  }

  // ----- the searches -----

  /** The first index from lo on whose entry satisfies f, or hi. */
  function FirstWhere(f: Part -> bool, ps: Table, lo: nat, hi: nat): (k: nat)
    requires lo <= hi <= |ps|
    ensures lo <= k <= hi && (k < hi ==> f(ps[k])) && forall i | lo <= i < k :: !f(ps[i])
    decreases hi - lo
  {
    if lo == hi || f(ps[lo]) then lo else FirstWhere(f, ps, lo + 1, hi)
  }

  function FreeSlot(): Part -> bool {
    (p: Part) => p.incl == Omitted && p.length == 0
  }

  function Misplaced(): Part -> bool {
    (p: Part) => p.incl != Primary && p.length > 0
  }

  function NotPrimary(): Part -> bool {
    (p: Part) => p.incl != Primary
  }

  function APrimary(): Part -> bool {
    (p: Part) => p.incl == Primary
  }

  function ALogical(): Part -> bool {
    (p: Part) => p.incl == Logical
  }

  // ----- RemoveLogicalsFromFirstFour -----

  function RemoveOne(ps: Table, i: nat): (r: Table)
    requires i < 4 && |ps| == MAX_PARTS
    ensures |r| == MAX_PARTS
  {
    var j := FirstWhere(FreeSlot(), ps, 4, |ps|);
    if Misplaced()(ps[i]) && j < |ps| then Swapped(ps, i, j) else ps
  }

  function Removed(ps: Table, n: nat): (r: Table)
    requires n <= 4 && |ps| == MAX_PARTS
    ensures |r| == MAX_PARTS
  {
    if n == 0 then ps else RemoveOne(Removed(ps, n - 1), n - 1)
  }

  lemma RemoveOneOk(ps: Table, i: nat)
    requires i < 4 && |ps| == MAX_PARTS && Pairwise(ps)
    ensures Keeps(ps, RemoveOne(ps, i)) && forall k | 0 <= k < 4 && k != i :: RemoveOne(ps, i)[k] == ps[k]
    ensures Count(FreeSlot(), ps[4..]) > 0 ==> !Misplaced()(RemoveOne(ps, i)[i])
    ensures Count(FreeSlot(), RemoveOne(ps, i)[4..]) + (if Misplaced()(ps[i]) then 1 else 0) >= Count(FreeSlot(), ps[4..])
    ensures !Misplaced()(ps[i]) ==> RemoveOne(ps, i) == ps
  {
    var j := FirstWhere(FreeSlot(), ps, 4, |ps|);
    if Misplaced()(ps[i]) {
      if j < |ps| {
        SwappedKeeps(ps, i, j);
        SwapTakesSlot(ps, i, j);
      } else {
        NoSlot(ps);
      }
    }
  }

  lemma SwapTakesSlot(ps: Table, i: nat, j: nat)
    requires i < 4 <= j < |ps| && FreeSlot()(ps[j]) && Misplaced()(ps[i])
    ensures Count(FreeSlot(), Swapped(ps, i, j)[4..]) + 1 == Count(FreeSlot(), ps[4..])
  {
    assert Swapped(ps, i, j)[4..] == ps[4..][j - 4 := ps[i]];
    CountUpdate(FreeSlot(), ps[4..], j - 4, ps[i]);
  }

  lemma NoSlot(ps: Table)
    requires |ps| >= 4 && FirstWhere(FreeSlot(), ps, 4, |ps|) == |ps|
    ensures Count(FreeSlot(), ps[4..]) == 0
  {
    assert forall k | 0 <= k < |ps[4..]| :: ps[4..][k] == ps[k + 4];
    CountNone(FreeSlot(), ps[4..]);
  }

  /** With enough free entries behind the first four, only primary partitions are left in use there. */
  lemma {:induction false} RemovedOk(ps: Table, n: nat)
    requires n <= 4 && |ps| == MAX_PARTS && Pairwise(ps)
    requires Count(Misplaced(), ps[..4]) <= Count(FreeSlot(), ps[4..])
    ensures var r := Removed(ps, n);
            && Keeps(ps, r) && (forall k | 0 <= k < n :: !Misplaced()(r[k])) && (forall k | n <= k < 4 :: r[k] == ps[k])
            && Count(Misplaced(), ps[n..4]) <= Count(FreeSlot(), r[4..])
  {
    if n == 0 {
      assert ps[..4] == ps[0..4];
    } else {
      RemovedOk(ps, n - 1);
      var q := Removed(ps, n - 1);
      RemoveOneOk(q, n - 1);
      CountHead(Misplaced(), ps, n - 1, 4);
    }
  }

  // ----- MovePrimariesToFirstFour -----

  function MoveOne(ps: Table, i: nat): (r: Table)
    requires 4 <= i < |ps| == MAX_PARTS
    ensures |r| == MAX_PARTS
  {
    var j := FirstWhere(NotPrimary(), ps, 0, 4);
    if IsPrimary(ps[i]) && j < 4 then Swapped(ps, i, j) else ps
  }

  function Moved(ps: Table, n: nat): (r: Table)
    requires 4 <= n <= |ps| == MAX_PARTS
    ensures |r| == MAX_PARTS
  {
    if n == 4 then ps else MoveOne(Moved(ps, n - 1), n - 1)
  }

  lemma MoveOneOk(ps: Table, i: nat)
    requires 4 <= i < |ps| == MAX_PARTS && Pairwise(ps) && Count(APrimary(), ps) <= 4
    ensures var r := MoveOne(ps, i);
            && Keeps(ps, r) && !IsPrimary(r[i]) && Count(APrimary(), r) == Count(APrimary(), ps)
            && (forall k | 4 <= k < |ps| && k != i :: r[k] == ps[k])
            && (forall k | 0 <= k < 4 :: r[k] == ps[k] || IsPrimary(r[k]))
  {
    var j := FirstWhere(NotPrimary(), ps, 0, 4);
    if IsPrimary(ps[i]) {
      if j == 4 {
        TooManyPrimaries(ps, i);
      }
      SwappedKeeps(ps, i, j);
      CountUpdate(APrimary(), ps, i, ps[j]);
      CountUpdate(APrimary(), ps[i := ps[j]], j, ps[i]);
    }
  }

  lemma TooManyPrimaries(ps: Table, i: nat)
    requires 4 <= i < |ps| && IsPrimary(ps[i]) && forall k | 0 <= k < 4 :: IsPrimary(ps[k])
    ensures Count(APrimary(), ps) > 4
  {
    assert ps == ps[..4] + ps[4..];
    CountConcat(APrimary(), ps[..4], ps[4..]);
    CountAtMost(APrimary(), ps[..4]);
    CountNone(APrimary(), ps[4..]);
    assert ps[4..][i - 4] == ps[i];
  }

  lemma {:induction false} MovedOk(ps: Table, n: nat)
    requires 4 <= n <= |ps| == MAX_PARTS && Pairwise(ps) && Count(APrimary(), ps) <= 4
    requires forall k | 0 <= k < 4 :: !Misplaced()(ps[k])
    ensures var r := Moved(ps, n);
            && Keeps(ps, r) && Count(APrimary(), r) == Count(APrimary(), ps)
            && (forall k | 0 <= k < 4 :: !Misplaced()(r[k]))
            && (forall k | 4 <= k < n :: !IsPrimary(r[k])) && (forall k | n <= k < |ps| :: r[k] == ps[k])
  {
    if n > 4 {
      MovedOk(ps, n - 1);
      MoveOneOk(Moved(ps, n - 1), n - 1);
    }
  }

  // ----- SortMBR -----

  /** The order of entries, as the source defines it. */
  predicate Less(p: Part, q: Part) {
    if p.length > 0 && q.length > 0 then p.start < q.start else q.start < p.start
  }

  function Key(p: Part): nat {
    if p.length > 0 then p.start else MAX32 + 1
  }

  lemma LessIsKey(p: Part, q: Part)
    requires Clean(p) && Clean(q)
    ensures Less(p, q) <==> Key(p) < Key(q)
  {}

  function LessThan(): (Part, Part) -> bool {
    (p: Part, q: Part) => Less(p, q)
  }

  function ByStart(): Part -> int {
    (p: Part) => Key(p)
  }

  function CleanOnes(): Part -> bool {
    (p: Part) => Clean(p)
  }

  function Compatibly(): (Part, Part) -> bool {
    (p: Part, q: Part) => Compatible(p, q)
  }

  function SortedTable(s: Table): (r: Table)
    ensures multiset(r) == multiset(s) && |r| == |s|
  {
    SortBy(LessThan(), s)
  }

  predicate KeySorted(s: Table) {
    forall i, j | 0 <= i < j < |s| :: Key(s[i]) <= Key(s[j])
  }

  predicate AllClean(s: Table) {
    forall i | 0 <= i < |s| :: Clean(s[i])
  }

  /** Sorting keeps the entries, in order of their start sectors, unused ones last. */
  lemma SortOk(s: Table)
    requires AllClean(s) && Pairwise(s)
    ensures AllClean(SortedTable(s)) && KeySorted(SortedTable(s)) && Pairwise(SortedTable(s))
  {
    forall p, q | CleanOnes()(p) && CleanOnes()(q) ensures LessThan()(p, q) <==> ByStart()(p) < ByStart()(q) {
      LessIsKey(p, q);
    }
    SortSorted(LessThan(), ByStart(), CleanOnes(), s);
    SortPairs(LessThan(), Compatibly(), s);
    SortedMeans(SortedTable(s));
  }

  lemma SortedMeans(r: Table)
    requires AllOf(CleanOnes(), r) && Sorted(ByStart(), r) && Pairs(Compatibly(), r)
    ensures AllClean(r) && KeySorted(r) && Pairwise(r)
  {
    forall i | 0 <= i < |r| ensures Clean(r[i]) {
      assert CleanOnes()(r[i]);
    }
    forall i, j | 0 <= i < j < |r| ensures Key(r[i]) <= Key(r[j]) && Compatible(r[i], r[j]) {
      assert ByStart()(r[i]) <= ByStart()(r[j]) && Compatibly()(r[i], r[j]);
    }
  }

  // ----- the entries in use -----

  /** The entries in use from index i on: what FindNextInUse steps through. */
  function InUseFrom(ps: Table, i: nat): Table
    requires i <= |ps|
    decreases |ps| - i
  {
    if i == |ps| then [] else (if Included(ps[i]) then [ps[i]] else []) + InUseFrom(ps, i + 1)
  }

  lemma {:induction false} InUseMembers(ps: Table, i: nat)
    requires i <= |ps|
    ensures forall p :: p in InUseFrom(ps, i) <==> p in ps[i..] && Included(p)
    decreases |ps| - i
  {
    if i < |ps| {
      InUseMembers(ps, i + 1);
      assert ps[i..] == [ps[i]] + ps[i + 1..];
    }
  }

  predicate Ascending(s: Table) {
    forall i, j | 0 <= i < j < |s| :: s[i].start < s[j].start
  }

  lemma StartsBefore(ps: Table, i: nat, p: Part)
    requires i < |ps| && AllClean(ps) && KeySorted(ps[i..]) && Pairwise(ps) && Included(ps[i]) && p in ps[i + 1..] && Included(p)
    ensures ps[i].start < p.start
  {
    var j :| 0 <= j < |ps[i + 1..]| && ps[i + 1..][j] == p;
    assert ps[i + 1 + j] == p && ps[i..][0] == ps[i] && ps[i..][j + 1] == p;
    StartsDiffer(ps[i], ps[i + 1 + j]);
  }

  /** In a sorted table the entries in use ascend strictly. */
  lemma {:induction false} InUseAscends(ps: Table, i: nat)
    requires i <= |ps| && AllClean(ps) && KeySorted(ps[i..]) && Pairwise(ps)
    ensures Ascending(InUseFrom(ps, i))
    decreases |ps| - i
  {
    if i < |ps| {
      assert ps[i..] == [ps[i]] + ps[i + 1..];
      InUseAscends(ps, i + 1);
      InUseMembers(ps, i + 1);
      if Included(ps[i]) {
        var rest := InUseFrom(ps, i + 1);
        forall k | 0 <= k < |rest| ensures ps[i].start < rest[k].start {
          assert rest[k] in rest;
          StartsBefore(ps, i, rest[k]);
        }
      }
    }
  }

  // ----- CreateExtended, before the extended partition is put in -----

  /** Primary partitions in the first four entries, the rest sorted if there are logical ones. */
  function Placed(ps: Table): (r: Table)
    requires |ps| == MAX_PARTS
    ensures |r| == MAX_PARTS
  {
    var q := Moved(Removed(ps, 4), MAX_PARTS);
    if exists i | 0 <= i < |q| :: IsLogical(q[i]) then q[..4] + SortedTable(q[4..]) else q
  }

  lemma {:induction false} CountSame(f: Part -> bool, g: Part -> bool, ps: Table)
    requires forall i | 0 <= i < |ps| :: f(ps[i]) == g(ps[i])
    ensures Count(f, ps) == Count(g, ps)
  {
    if ps != [] {
      CountSame(f, g, ps[..|ps| - 1]);
    }
  }

  /** A legal table of clean entries with room to move them. */
  predicate Ready(ps: Table, diskSize: nat) {
    CleanTable(ps) && Legal(ps, diskSize) && Count(Misplaced(), ps[..4]) <= Count(FreeSlot(), ps[4..])
  }

  /** The primary partitions are at most four, at most three beside logical ones. */
  lemma PrimariesFit(ps: Table, diskSize: nat)
    requires CleanTable(ps) && Legal(ps, diskSize)
    ensures Count(APrimary(), ps) <= 4
    ensures (exists i | 0 <= i < |ps| :: IsLogical(ps[i])) ==> Count(APrimary(), ps) <= 3
  {
    assert forall i | 0 <= i < |ps| :: Clean(ps[i]);
    CountSame(APrimary(), UsedPrimary(), ps);
  }

  /** What has been achieved before the extended partition is put in. */
  ghost predicate WellPlaced(ps: Table, r: Table) {
    && |r| == |ps| == MAX_PARTS && multiset(r) == multiset(ps) && AllClean(r) && Pairwise(r)
    && (forall k | 0 <= k < 4 :: IsPrimary(r[k]) || r[k] == BLANK)
    && (forall k | 4 <= k < |r| :: !IsPrimary(r[k]))
    && Ascending(InUseFrom(r, 4))
    && ((exists i | 0 <= i < |ps| :: IsLogical(ps[i])) ==> exists k | 0 <= k < 4 :: r[k] == BLANK)
  }

  lemma CleanMoves(ps: Table, qs: Table)
    requires AllClean(ps) && multiset(qs) == multiset(ps)
    ensures AllClean(qs)
  {
    SameMembers(ps, qs);
  }

  lemma WithoutMiddle(a: Table, x: Part, b: Table)
    ensures multiset(a + b) == multiset(a + ([x] + b)) - multiset{x}
  {}

  lemma CountWithout(f: Part -> bool, qs: Table, j: nat)
    requires j < |qs|
    ensures Count(f, qs) == Count(f, qs[..j] + qs[j + 1..]) + if f(qs[j]) then 1 else 0
  {
    SplitAt(qs, j);
    CountConcat(f, qs[..j], [qs[j]] + qs[j + 1..]);
    CountConcat(f, [qs[j]], qs[j + 1..]);
    CountConcat(f, qs[..j], qs[j + 1..]);
    assert Count(f, [qs[j]]) == Count(f, []) + if f(qs[j]) then 1 else 0;
  }

  lemma {:induction false} CountPerm(f: Part -> bool, ps: Table, qs: Table)
    requires multiset(ps) == multiset(qs)
    ensures Count(f, ps) == Count(f, qs)
  {
    if ps == [] {
      assert |multiset(qs)| == 0;
    } else {
      var n := |ps| - 1;
      assert ps[n] in multiset(qs);
      var j :| 0 <= j < |qs| && qs[j] == ps[n];
      SplitAt(qs, j);
      var rest := qs[..j] + qs[j + 1..];
      assert ps == ps[..n] + [ps[n]];
      assert multiset(ps[..n]) == multiset(ps) - multiset{ps[n]};
      WithoutMiddle(qs[..j], qs[j], qs[j + 1..]);
      CountPerm(f, ps[..n], rest);
      CountWithout(f, qs, j);
    }
  }

  lemma JoinPairwise(b: Table, s: Table)
    requires |b| >= 4 && Pairwise(b) && Pairwise(s) && multiset(s) == multiset(b[4..])
    ensures Pairwise(b[..4] + s) && multiset(b[..4] + s) == multiset(b)
  {
    assert b == b[..4] + b[4..];
    SameMembers(b[4..], s);
    var r := b[..4] + s;
    forall i, j | 0 <= i < j < |r| ensures Compatible(r[i], r[j]) {
      if i < 4 <= j {
        assert s[j - 4] in b[4..];
        var k :| 0 <= k < |b[4..]| && b[4..][k] == s[j - 4];
        assert b[4 + k] == r[j] && b[i] == r[i];
      } else if 4 <= i {
        assert Compatible(s[i - 4], s[j - 4]);
      }
    }
  }

  lemma RoomForExtended(r: Table)
    requires |r| == MAX_PARTS && Count(APrimary(), r) <= 3 && forall k | 0 <= k < 4 :: IsPrimary(r[k]) || r[k] == BLANK
    ensures exists k | 0 <= k < 4 :: r[k] == BLANK
  {
    assert r == r[..4] + r[4..];
    CountConcat(APrimary(), r[..4], r[4..]);
    CountAtMost(APrimary(), r[..4]);
    var k :| 0 <= k < 4 && !APrimary()(r[..4][k]);
    assert r[k] == BLANK;
  }

  lemma FirstFourBlank(r: Table)
    requires |r| == MAX_PARTS && AllClean(r) && forall k | 0 <= k < 4 :: !Misplaced()(r[k])
    ensures forall k | 0 <= k < 4 :: IsPrimary(r[k]) || r[k] == BLANK
  {
    forall k | 0 <= k < 4 ensures IsPrimary(r[k]) || r[k] == BLANK {
      assert Clean(r[k]) && !Misplaced()(r[k]);
    }
  }

  /** After the two moves: the entries kept, primary partitions in the first four and only there. */
  lemma MovesOk(ps: Table, diskSize: nat)
    requires Ready(ps, diskSize)
    ensures var q := Moved(Removed(ps, 4), MAX_PARTS);
            && Keeps(ps, q) && AllClean(q) && Count(APrimary(), q) == Count(APrimary(), ps)
            && (forall k | 0 <= k < 4 :: IsPrimary(q[k]) || q[k] == BLANK)
            && (forall k | 4 <= k < |q| :: !IsPrimary(q[k]))
  {
    PrimariesFit(ps, diskSize);
    RemovedOk(ps, 4);
    var a := Removed(ps, 4);
    CountPerm(APrimary(), ps, a);
    MovedOk(a, MAX_PARTS);
    var q := Moved(a, MAX_PARTS);
    CleanMoves(ps, q);
    FirstFourBlank(q);
  }

  lemma LogicalsKept(ps: Table, q: Table)
    requires multiset(q) == multiset(ps)
    ensures (exists i | 0 <= i < |ps| :: IsLogical(ps[i])) <==> (exists i | 0 <= i < |q| :: IsLogical(q[i]))
  {
    SameMembers(ps, q);
    SameMembers(q, ps);
  }

  lemma PlacedSorted(ps: Table, q: Table)
    requires Keeps(ps, q) && |q| == MAX_PARTS && AllClean(q) && Count(APrimary(), q) <= 3
    requires (forall k | 0 <= k < 4 :: IsPrimary(q[k]) || q[k] == BLANK) && forall k | 4 <= k < |q| :: !IsPrimary(q[k])
    ensures WellPlaced(ps, q[..4] + SortedTable(q[4..]))
  {
    var r := q[..4] + SortedTable(q[4..]);
    SortedPart(q);
    RoomForExtended(q);
    var k :| 0 <= k < 4 && q[k] == BLANK;
    assert r[k] == BLANK;
  }

  /** The whole rearrangement. */
  lemma PlacedOk(ps: Table, diskSize: nat)
    requires Ready(ps, diskSize)
    ensures WellPlaced(ps, Placed(ps))
  {
    MovesOk(ps, diskSize);
    PrimariesFit(ps, diskSize);
    var q := Moved(Removed(ps, 4), MAX_PARTS);
    LogicalsKept(ps, q);
    if exists i | 0 <= i < |q| :: IsLogical(q[i]) {
      PlacedSorted(ps, q);
    } else {
      InUseNone(q, 4);
    }
  }

  lemma {:induction false} InUseNone(q: Table, i: nat)
    requires i <= |q| && forall k | i <= k < |q| :: !Included(q[k])
    ensures InUseFrom(q, i) == []
    decreases |q| - i
  {
    if i < |q| {
      InUseNone(q, i + 1);
    }
  }

  lemma SortedPart(q: Table)
    requires |q| == MAX_PARTS && AllClean(q) && Pairwise(q) && forall k | 4 <= k < |q| :: !IsPrimary(q[k])
    ensures var r := q[..4] + SortedTable(q[4..]);
            && Keeps(q, r) && AllClean(r) && Ascending(InUseFrom(r, 4)) && (forall k | 4 <= k < |r| :: !IsPrimary(r[k]))
            && (forall k | 0 <= k < 4 :: r[k] == q[k])
  {
    var s := SortedTable(q[4..]);
    var r := q[..4] + s;
    SortOk(q[4..]);
    JoinPairwise(q, s);
    assert r[4..] == s;
    assert AllClean(r);
    InUseAscends(r, 4);
    SameMembers(q[4..], s);
    forall k | 4 <= k < |r| ensures !IsPrimary(r[k]) {
      assert s[k - 4] in q[4..];
    }
  }
}
