/**
  Partitions and the free sectors between them (external/gptfdisk/gpt.cc, gptpart.cc), without loops: what is
  occupied, what the searches for free space find, and when the search for the end of a gap goes wrong.
 */
module FreeSpace {

  /** An entry of the partition table; unused entries are zero. */
  datatype Part = Part(used: bool, first: nat, last: nat)

  const UNUSED := Part(false, 0, 0)

  type Table = seq<Part>

  /** The sectors that partitions may take. */
  datatype Area = Area(first: nat, last: nat)

  predicate Covers(p: Part, x: nat) {
    p.first <= x <= p.last
  }

  predicate Occupied(ps: Table, x: nat) {
    exists i | 0 <= i < |ps| :: ps[i].used && Covers(ps[i], x)
  }

  predicate InArea(a: Area, x: nat) {
    a.first <= x <= a.last
  }

  predicate FreeSector(ps: Table, a: Area, x: nat) {
    InArea(a, x) && !Occupied(ps, x)
  }

  /** DoTheyOverlap, as the source computes it. */
  predicate Overlap(p: Part, q: Part) {
    p.first != 0 && q.first != 0 && (p.first <= q.last) != (p.last < q.first)
  }

  predicate Compatible(p: Part, q: Part) {
    p.used && q.used ==> !Overlap(p, q)
  }

  predicate Disjoint(ps: Table) {
    forall i, j | 0 <= i < j < |ps| :: Compatible(ps[i], ps[j])
  }

  predicate Proper(p: Part, a: Area) {
    if p.used then a.first <= p.first <= p.last <= a.last else p == UNUSED
  }

  /** Used partitions are in order, inside the usable area and disjoint. */
  predicate Sound(ps: Table, a: Area) {
    a.first > 0 && Disjoint(ps) && forall i | 0 <= i < |ps| :: Proper(ps[i], a)
  }

  lemma SharedSector(ps: Table, a: Area, i: nat, j: nat, x: nat)
    requires Sound(ps, a) && i < |ps| && j < |ps| && ps[i].used && ps[j].used && Covers(ps[i], x) && Covers(ps[j], x)
    ensures i == j
  {
    assert Proper(ps[i], a) && Proper(ps[j], a);
  }

  // ----- the end of a gap -----

  /** FindLastInFree: the nearest start after s among the first n entries, less one, unless it is already passed. */
  function Near(ps: Table, a: Area, s: nat, n: nat): (r: nat)
    requires n <= |ps|
    ensures r <= a.last && (s <= a.last ==> s <= r)
  {
    if n == 0 then a.last
    else
      var r := Near(ps, a, s, n - 1);
      if r > ps[n - 1].first > s then ps[n - 1].first - 1 else r
  }

  /** Entry x is the next partition after s. */
  predicate IsNext(ps: Table, s: nat, x: nat) {
    x < |ps| && ps[x].first > s && forall i | 0 <= i < |ps| :: ps[i].first > s ==> ps[x].first <= ps[i].first
  }

  predicate NoneNext(ps: Table, s: nat) {
    forall i | 0 <= i < |ps| :: ps[i].first <= s
  }

  /**
    The strict comparison in FindLastInFree passes over entry x if the value so far is its own start: when that is
    the last usable sector, or when an earlier entry that counts starts one sector after it.
   */
  predicate PassedOver(ps: Table, a: Area, x: nat)
    requires x < |ps|
    decreases x
  {
    ps[x].first == a.last || exists j | 0 <= j < x :: ps[j].first == ps[x].first + 1 && !PassedOver(ps, a, j)
  }

  /** Starts of used entries are in the area and all different. */
  predicate Starts(ps: Table, a: Area) {
    && (forall i | 0 <= i < |ps| :: ps[i].first <= a.last)
    && (forall i, j | 0 <= i < j < |ps| :: ps[i].first != 0 ==> ps[i].first != ps[j].first)
  }

  lemma SoundStarts(ps: Table, a: Area)
    requires Sound(ps, a)
    ensures Starts(ps, a)
  {
    assert forall i | 0 <= i < |ps| :: Proper(ps[i], a);
    forall i, j | 0 <= i < j < |ps| && ps[i].first != 0 ensures ps[i].first != ps[j].first {
      assert Compatible(ps[i], ps[j]);
    }
  }

  /** The value before entry x is looked at, if no earlier entry starts between s and it. */
  lemma {:induction false} NearBefore(ps: Table, a: Area, s: nat, x: nat, n: nat)
    requires Starts(ps, a) && n <= x < |ps| && ps[x].first > s
    requires forall i | 0 <= i < x :: ps[i].first > s ==> ps[i].first > ps[x].first
    ensures Near(ps, a, s, n) >= ps[x].first
    ensures Near(ps, a, s, n) == ps[x].first <==>
              ps[x].first == a.last || exists j | 0 <= j < n :: ps[j].first == ps[x].first + 1 && Near(ps, a, s, j) > ps[j].first
    decreases n
  {
    if n > 0 {
      NearBefore(ps, a, s, x, n - 1);
    }
  }

  lemma {:induction false} NearIsStart(ps: Table, a: Area, s: nat, x: nat)
    requires Starts(ps, a) && x < |ps| && ps[x].first > s
    requires forall i | 0 <= i < x :: ps[i].first > s ==> ps[i].first > ps[x].first
    ensures Near(ps, a, s, x) >= ps[x].first
    ensures Near(ps, a, s, x) == ps[x].first <==> PassedOver(ps, a, x)
    decreases x
  {
    NearBefore(ps, a, s, x, x);
    forall j | 0 <= j < x && ps[j].first == ps[x].first + 1 ensures Near(ps, a, s, j) > ps[j].first <==> !PassedOver(ps, a, j) {
      forall i | 0 <= i < j && ps[i].first > s ensures ps[i].first > ps[j].first {}
      NearIsStart(ps, a, s, j);
    }
  }

  /** After the next partition has been looked at, the value stays. */
  lemma {:induction false} NearAfter(ps: Table, a: Area, s: nat, x: nat, n: nat)
    requires Starts(ps, a) && IsNext(ps, s, x) && x < n <= |ps|
    ensures Near(ps, a, s, n) == Near(ps, a, s, x + 1)
    decreases n
  {
    if n > x + 1 {
      NearAfter(ps, a, s, x, n - 1);
      NearIsNext(ps, a, s, x);
      assert ps[n - 1].first > s ==> ps[n - 1].first > ps[x].first;
    }
  }

  lemma NearIsNext(ps: Table, a: Area, s: nat, x: nat)
    requires Starts(ps, a) && IsNext(ps, s, x)
    ensures Near(ps, a, s, x + 1) == if PassedOver(ps, a, x) then ps[x].first else ps[x].first - 1
  {
    assert forall i | 0 <= i < x :: ps[i].first > s ==> ps[x].first <= ps[i].first && ps[i].first != ps[x].first;
    NearIsStart(ps, a, s, x);
  }

  /** FindLastInFree gives the sector before the next partition if and only if that entry is not passed over. */
  lemma LastInFreeExact(ps: Table, a: Area, s: nat, x: nat)
    requires Starts(ps, a) && IsNext(ps, s, x)
    ensures Near(ps, a, s, |ps|) == if PassedOver(ps, a, x) then ps[x].first else ps[x].first - 1
  {
    NearIsNext(ps, a, s, x);
    NearAfter(ps, a, s, x, |ps|);
  }

  lemma {:induction false} LastInFreeNone(ps: Table, a: Area, s: nat, n: nat)
    requires n <= |ps| && NoneNext(ps, s)
    ensures Near(ps, a, s, n) == a.last
  {
    if n > 0 {
      LastInFreeNone(ps, a, s, n - 1);
    }
  }

  /** An entry that is passed over is one sector long. */
  lemma PassedOverIsShort(ps: Table, a: Area, x: nat)
    requires Sound(ps, a) && x < |ps| && ps[x].used && PassedOver(ps, a, x)
    ensures ps[x].last == ps[x].first
  {
    assert Proper(ps[x], a);
    if ps[x].first != a.last {
      var j :| 0 <= j < x && ps[j].first == ps[x].first + 1;
      assert Proper(ps[j], a) && Compatible(ps[j], ps[x]);
    }
  }

  // ----- gaps -----

  predicate NoneFree(ps: Table, a: Area, lo: nat, hi: nat) {
    forall y | lo <= y < hi :: !FreeSector(ps, a, y)
  }

  /** r is the first free sector from x on, or 0 if there is none. */
  predicate IsFirstFree(ps: Table, a: Area, x: nat, r: nat) {
    if r == 0 then NoneFree(ps, a, x, a.last + 1) else x <= r && FreeSector(ps, a, r) && NoneFree(ps, a, x, r)
  }

  /** Everything from f to l is free. */
  predicate AllFree(ps: Table, a: Area, f: nat, l: nat) {
    forall y | f <= y <= l :: FreeSector(ps, a, y)
  }

  lemma {:induction false} FindNext(ps: Table, s: nat, n: nat) returns (x: nat)
    requires n <= |ps|
    ensures x <= n && (x == n ==> NoneNext(ps[..n], s)) && (x < n ==> IsNext(ps[..n], s, x))
  {
    x := n;
    if n > 0 {
      x := FindNext(ps, s, n - 1);
      if x < n - 1 {
        if s < ps[n - 1].first < ps[x].first {
          x := n - 1;
        }
      } else if s < ps[n - 1].first {
        x := n - 1;
      } else {
        x := n;
      }
    }
  }

  /** From a free sector s to the next partition x, or to the end of the area, everything is free. */
  lemma GapIsFree(ps: Table, a: Area, s: nat, l: nat)
    requires Sound(ps, a) && FreeSector(ps, a, s) && s <= l <= a.last
    requires forall i | 0 <= i < |ps| :: ps[i].first > s ==> l < ps[i].first
    ensures AllFree(ps, a, s, l)
  {
    forall y | s <= y <= l ensures FreeSector(ps, a, y) {
      forall i | 0 <= i < |ps| && ps[i].used ensures !Covers(ps[i], y) {
        assert Proper(ps[i], a) && !Covers(ps[i], s);
      }
    }
  }

  /** Where FindLastInFree ends a gap that starts at s: at its end, or one sector too far. */
  ghost predicate GapEndsAt(ps: Table, a: Area, s: nat, l: nat) {
    if FreeSector(ps, a, l) then AllFree(ps, a, s, l) && !FreeSector(ps, a, l + 1)
    else s < l <= a.last && AllFree(ps, a, s, l - 1) && exists x | 0 <= x < |ps| :: Spilled(ps, a, x) && l == ps[x].first
  }

  /** A used entry that is passed over although the sector before it is free. */
  predicate Spilled(ps: Table, a: Area, x: nat)
    requires x < |ps|
  {
    ps[x].used && PassedOver(ps, a, x) && ps[x].first > 0 && FreeSector(ps, a, ps[x].first - 1)
  }

  lemma GapEnd(ps: Table, a: Area, s: nat)
    requires Sound(ps, a) && FreeSector(ps, a, s)
    ensures GapEndsAt(ps, a, s, Near(ps, a, s, |ps|))
  {
    SoundStarts(ps, a);
    var x := FindNext(ps, s, |ps|);
    assert ps[..|ps|] == ps;
    if x == |ps| {
      LastInFreeNone(ps, a, s, |ps|);
      GapIsFree(ps, a, s, a.last);
    } else {
      LastInFreeExact(ps, a, s, x);
      GapIsFree(ps, a, s, ps[x].first - 1);
      assert Proper(ps[x], a) && Covers(ps[x], ps[x].first) && Occupied(ps, ps[x].first);
    }
  }

  // ----- segments -----

  datatype Segment = Segment(first: nat, last: nat)

  /** What FindFreeBlocks steps through from sector x on: gaps as the two searches give them. */
  predicate Steps(ps: Table, a: Area, x: nat, segs: seq<Segment>)
    decreases |segs|
  {
    if segs == [] then NoneFree(ps, a, x, a.last + 1)
    else
      && segs[0].first > 0 && IsFirstFree(ps, a, x, segs[0].first)
      && segs[0].last == Near(ps, a, segs[0].first, |ps|)
      && Steps(ps, a, segs[0].last + 1, segs[1..])
  }

  predicate IsRun(ps: Table, a: Area, f: nat, l: nat) {
    f <= l && AllFree(ps, a, f, l) && !FreeSector(ps, a, l + 1) && (f == 0 || !FreeSector(ps, a, f - 1))
  }

  predicate Tame(ps: Table, a: Area) {
    forall x | 0 <= x < |ps| :: !Spilled(ps, a, x)
  }

  /** Without spilled entries, the segments are maximal free runs. */
  lemma {:induction false} StepsAreRuns(ps: Table, a: Area, x: nat, segs: seq<Segment>, i: nat)
    requires Sound(ps, a) && Tame(ps, a) && Steps(ps, a, x, segs) && i < |segs|
    requires x > 0 && FreeSector(ps, a, x - 1) ==> !FreeSector(ps, a, x)
    ensures IsRun(ps, a, segs[i].first, segs[i].last)
    decreases |segs|
  {
    GapEnd(ps, a, segs[0].first);
    if i > 0 {
      StepsAreRuns(ps, a, segs[0].last + 1, segs[1..], i - 1);
    }
  }

  /** And every maximal free run is a segment. */
  lemma {:induction false} RunsAreSteps(ps: Table, a: Area, x: nat, segs: seq<Segment>, f: nat, l: nat)
    requires Sound(ps, a) && Tame(ps, a) && Steps(ps, a, x, segs) && x <= f && IsRun(ps, a, f, l)
    ensures Segment(f, l) in segs
    decreases |segs|
  {
    assert FreeSector(ps, a, f) && segs != [];
    GapEnd(ps, a, segs[0].first);
    if segs[0].first != f {
      assert segs[0].first < f && !FreeSector(ps, a, f - 1);
      RunsAreSteps(ps, a, segs[0].last + 1, segs[1..], f, l);
    } else {
      assert !(l < segs[0].last) && !(segs[0].last < l);
    }
  }

  /** Segments come in order, so each run is found once. */
  lemma {:induction false} StepsAscend(ps: Table, a: Area, x: nat, segs: seq<Segment>, i: nat)
    requires Steps(ps, a, x, segs) && i < |segs|
    ensures x <= segs[i].first <= segs[i].last && forall j | i < j < |segs| :: segs[i].last < segs[j].first
    decreases |segs|
  {
    if i > 0 {
      StepsAscend(ps, a, segs[0].last + 1, segs[1..], i - 1);
    } else {
      forall j | 0 < j < |segs| ensures segs[0].last < segs[j].first {
        StepsAscend(ps, a, segs[0].last + 1, segs[1..], j - 1);
      }
    }
  }

  // ----- counting sectors -----

  function Size(s: Segment): int {
    s.last - s.first + 1
  }

  function Total(segs: seq<Segment>): int {
    if segs == [] then 0 else Size(segs[0]) + Total(segs[1..])
  }

  /** The number of sectors in lo..hi - 1 for which f holds. */
  function CountIn(f: nat -> bool, lo: nat, hi: nat): nat
    decreases hi - lo
  {
    if lo >= hi then 0 else (if f(lo) then 1 else 0) + CountIn(f, lo + 1, hi)
  }

  function InUse(ps: Table): nat -> bool {
    (x: nat) => Occupied(ps, x)
  }

  function Length(p: Part): nat {
    if p.used && p.first <= p.last then p.last - p.first + 1 else 0
  }

  function UsedTotal(ps: Table): nat {
    if ps == [] then 0 else UsedTotal(ps[..|ps| - 1]) + Length(ps[|ps| - 1])
  }

  /** How many sectors of lo..hi - 1 one entry covers. */
  function CoverIn(p: Part, lo: nat, hi: nat): nat {
    if !p.used || p.last < lo || hi <= p.first || p.last < p.first || hi <= lo then 0
    else (if p.last < hi then p.last + 1 else hi) - (if p.first < lo then lo else p.first)
  }

  ghost predicate Apart(ps: Table, p: Part) {
    forall x | Occupied(ps, x) :: !(p.used && Covers(p, x))
  }

  lemma {:induction false} OccupiedAppend(ps: Table, p: Part, lo: nat, hi: nat)
    requires Apart(ps, p)
    ensures CountIn(InUse(ps + [p]), lo, hi) == CountIn(InUse(ps), lo, hi) + CoverIn(p, lo, hi)
    decreases hi - lo
  {
    if lo < hi {
      OccupiedAppend(ps, p, lo + 1, hi);
      var qs := ps + [p];
      assert Occupied(qs, lo) <==> Occupied(ps, lo) || (p.used && Covers(p, lo)) by {
        if Occupied(ps, lo) {
          var i :| 0 <= i < |ps| && ps[i].used && Covers(ps[i], lo);
          assert qs[i] == ps[i];
        }
        assert qs[|ps|] == p;
      }
    }
  }

  lemma ApartLast(ps: Table, a: Area, n: nat)
    requires Sound(ps, a) && n < |ps|
    ensures Apart(ps[..n], ps[n])
  {
    forall x | Occupied(ps[..n], x) ensures !(ps[n].used && Covers(ps[n], x)) {
      var i :| 0 <= i < n && ps[i].used && Covers(ps[i], x);
      if ps[n].used && Covers(ps[n], x) {
        SharedSector(ps, a, i, n, x);
      }
    }
  }

  /** Disjoint partitions occupy as many sectors as their lengths add up to. */
  lemma {:induction false} OccupiedIsUsed(ps: Table, a: Area)
    requires Sound(ps, a)
    ensures CountIn(InUse(ps), a.first, a.last + 1) == UsedTotal(ps)
  {
    if ps == [] {
      CountNone(InUse(ps), a.first, a.last + 1);
    } else {
      var n := |ps| - 1;
      assert Sound(ps[..n], a);
      OccupiedIsUsed(ps[..n], a);
      ApartLast(ps, a, n);
      assert ps == ps[..n] + [ps[n]];
      OccupiedAppend(ps[..n], ps[n], a.first, a.last + 1);
      assert Proper(ps[n], a);
    }
  }

  lemma {:induction false} CountSplit(f: nat -> bool, lo: nat, mid: nat, hi: nat)
    requires lo <= mid <= hi
    ensures CountIn(f, lo, hi) == CountIn(f, lo, mid) + CountIn(f, mid, hi)
    decreases mid - lo
  {
    if lo < mid {
      CountSplit(f, lo + 1, mid, hi);
    }
  }

  lemma {:induction false} CountAll(f: nat -> bool, lo: nat, hi: nat)
    requires lo <= hi && forall y | lo <= y < hi :: f(y)
    ensures CountIn(f, lo, hi) == hi - lo
    decreases hi - lo
  {
    if lo < hi {
      CountAll(f, lo + 1, hi);
    }
  }

  lemma {:induction false} CountNone(f: nat -> bool, lo: nat, hi: nat)
    requires forall y | lo <= y < hi :: !f(y)
    ensures CountIn(f, lo, hi) == 0
    decreases hi - lo
  {
    if lo < hi {
      CountNone(f, lo + 1, hi);
    }
  }

  /** How many segments end one sector too far. */
  function Excess(ps: Table, a: Area, segs: seq<Segment>): nat {
    if segs == [] then 0 else (if FreeSector(ps, a, segs[0].last) then 0 else 1) + Excess(ps, a, segs[1..])
  }

  lemma GapSplit(ps: Table, a: Area, x: nat, f: nat)
    requires Sound(ps, a) && a.first <= x && f > 0 && IsFirstFree(ps, a, x, f)
    ensures var l := Near(ps, a, f, |ps|);
            CountIn(InUse(ps), x, a.last + 1)
            == f - x + (if FreeSector(ps, a, l) then 0 else 1) + CountIn(InUse(ps), l + 1, a.last + 1)
  {
    var l := Near(ps, a, f, |ps|);
    AllInUse(ps, a, x, f);
    GapCount(ps, a, f);
    CountSplit(InUse(ps), x, f, a.last + 1);
    CountSplit(InUse(ps), f, l + 1, a.last + 1);
  }

  /** The sizes of the segments, with the sectors in use, make up x..a.last, with one more for each that ends too far. */
  lemma {:induction false} StepsTotal(ps: Table, a: Area, x: nat, segs: seq<Segment>)
    requires Sound(ps, a) && a.first <= x <= a.last + 1 && Steps(ps, a, x, segs)
    ensures Total(segs) + CountIn(InUse(ps), x, a.last + 1) == a.last + 1 - x + Excess(ps, a, segs)
    decreases |segs|
  {
    if segs == [] {
      AllInUse(ps, a, x, a.last + 1);
    } else {
      GapSplit(ps, a, x, segs[0].first);
      StepsTotal(ps, a, segs[0].last + 1, segs[1..]);
    }
  }

  lemma AllInUse(ps: Table, a: Area, lo: nat, hi: nat)
    requires a.first <= lo <= hi <= a.last + 1 && NoneFree(ps, a, lo, hi)
    ensures CountIn(InUse(ps), lo, hi) == hi - lo
  {
    forall y | lo <= y < hi ensures InUse(ps)(y) {
      assert !FreeSector(ps, a, y);
    }
    CountAll(InUse(ps), lo, hi);
  }

  lemma GapCount(ps: Table, a: Area, f: nat)
    requires Sound(ps, a) && FreeSector(ps, a, f)
    ensures var l := Near(ps, a, f, |ps|); CountIn(InUse(ps), f, l + 1) == if FreeSector(ps, a, l) then 0 else 1
  {
    var l := Near(ps, a, f, |ps|);
    GapEnd(ps, a, f);
    if FreeSector(ps, a, l) {
      FreeNotOccupied(ps, a, f, l + 1);
    } else {
      CountSplit(InUse(ps), f, l, l + 1);
      FreeNotOccupied(ps, a, f, l);
      AllInUse(ps, a, l, l + 1);
    }
  }

  lemma FreeNotOccupied(ps: Table, a: Area, lo: nat, hi: nat)
    requires lo <= hi && forall y | lo <= y < hi :: FreeSector(ps, a, y)
    ensures CountIn(InUse(ps), lo, hi) == 0
  {
    forall y | lo <= y < hi ensures !InUse(ps)(y) {
      assert FreeSector(ps, a, y);
    }
    CountNone(InUse(ps), lo, hi);
  }

  /** Every spilled entry starts at x or before. */
  predicate SpillsBefore(ps: Table, a: Area, x: nat) {
    forall i | 0 <= i < |ps| && Spilled(ps, a, i) :: ps[i].first <= x
  }

  /** A segment ends too far exactly where a spilled entry follows the gap. */
  lemma {:induction false} ExcessExact(ps: Table, a: Area, x: nat, segs: seq<Segment>)
    requires Sound(ps, a) && a.first <= x && Steps(ps, a, x, segs)
    ensures Excess(ps, a, segs) == 0 <==> SpillsBefore(ps, a, x)
    decreases |segs|
  {
    if segs == [] {
      forall i | 0 <= i < |ps| && Spilled(ps, a, i) ensures ps[i].first <= x {
        assert FreeSector(ps, a, ps[i].first - 1);
      }
    } else {
      GapEnd(ps, a, segs[0].first);
      ExcessExact(ps, a, segs[0].last + 1, segs[1..]);
      if FreeSector(ps, a, segs[0].last) {
        SpillsSame(ps, a, x, segs[0].first);
      }
    }
  }

  lemma SpillsSame(ps: Table, a: Area, x: nat, f: nat)
    requires Sound(ps, a) && a.first <= x && f > 0 && IsFirstFree(ps, a, x, f)
    requires var l := Near(ps, a, f, |ps|); FreeSector(ps, a, l) && AllFree(ps, a, f, l)
    ensures SpillsBefore(ps, a, Near(ps, a, f, |ps|) + 1) <==> SpillsBefore(ps, a, x)
  {
    var l := Near(ps, a, f, |ps|);
    forall i | 0 <= i < |ps| && Spilled(ps, a, i) && ps[i].first <= l + 1 ensures ps[i].first <= x {
      SpilledEndsGap(ps, a, x, f, i);
    }
  }

  /** A gap that ends right is not followed by a spilled entry. */
  lemma SpilledEndsGap(ps: Table, a: Area, x: nat, f: nat, i: nat)
    requires Sound(ps, a) && a.first <= x && f > 0 && IsFirstFree(ps, a, x, f) && i < |ps| && Spilled(ps, a, i)
    requires var l := Near(ps, a, f, |ps|); FreeSector(ps, a, l) && AllFree(ps, a, f, l) && ps[i].first <= l + 1
    ensures ps[i].first <= x
  {
    var l := Near(ps, a, f, |ps|);
    SoundStarts(ps, a);
    forall j | 0 <= j < |ps| && ps[j].first > f ensures l < ps[j].first {
      assert Proper(ps[j], a) && Covers(ps[j], ps[j].first) && Occupied(ps, ps[j].first);
      assert ps[j].first <= l ==> FreeSector(ps, a, ps[j].first);
    }
    if ps[i].first > x {
      assert IsNext(ps, f, i);
      LastInFreeExact(ps, a, f, i);
    }
  }

  /** The free sectors found and the sectors of the partitions make up the area if and only if no entry is spilled. */
  lemma FreeBlocksConserved(ps: Table, a: Area, segs: seq<Segment>)
    requires Sound(ps, a) && a.first <= a.last + 1 && Steps(ps, a, a.first, segs)
    ensures Total(segs) + UsedTotal(ps) == a.last + 1 - a.first + Excess(ps, a, segs)
    ensures Total(segs) + UsedTotal(ps) == a.last + 1 - a.first <==> Tame(ps, a)
  {
    StepsTotal(ps, a, a.first, segs);
    OccupiedIsUsed(ps, a);
    ExcessExact(ps, a, a.first, segs);
    forall i | 0 <= i < |ps| && Spilled(ps, a, i) ensures ps[i].first > a.first {}
  }

  /** Partitions of two sectors or more are never spilled. */
  lemma LongPartitionsAreTame(ps: Table, a: Area)
    requires Sound(ps, a) && forall i | 0 <= i < |ps| :: ps[i].used ==> ps[i].first < ps[i].last
    ensures Tame(ps, a)
  {
    forall i | 0 <= i < |ps| ensures !Spilled(ps, a, i) {
      if Spilled(ps, a, i) {
        PassedOverIsShort(ps, a, i);
      }
    }
  }
}
