/**
  How ReadLogicalParts (external/gptfdisk/basicmbr.cc) walks from EBR to EBR, and exactly when it ends. It keeps
  the place of one record for each partition number, so it notices when it comes back to a record that describes
  a partition or that points to itself, but not when it goes round records that only point on.
 */
module MbrReader {
  import opened MbrTable
  import opened MbrRearrange
  import opened MbrChain

  /** EbrLocations: for each partition number the last record read for it; 0 if there is none. */
  type Locations = s: seq<nat> | |s| == MAX_PARTS witness seq(MAX_PARTS, i => 0)

  datatype Walk = Walk(partNum: int, offset: nat, locs: Locations, another: bool, ok: int)

  function Begin(ext: nat, start: nat): Walk {
    Walk(start, ext, seq(MAX_PARTS, i => 0), true, 1)
  }

  predicate Running(w: Walk) {
    w.another && 0 <= w.partNum < MAX_PARTS && w.ok > 0
  }

  /** The locations recorded are all different. */
  predicate Distinct(locs: seq<nat>) {
    forall i, j | 0 <= i < j < |locs| :: locs[i] != 0 ==> locs[i] != locs[j]
  }

  function CountEq(locs: seq<nat>, x: nat): nat {
    if locs == [] then 0 else CountEq(locs[..|locs| - 1], x) + if locs[|locs| - 1] == x then 1 else 0
  }

  lemma {:induction false} CountEqDistinct(locs: seq<nat>, x: nat)
    requires x != 0 && Distinct(locs)
    ensures CountEq(locs, x) == if x in locs then 1 else 0
  {
    if locs != [] {
      var n := |locs| - 1;
      CountEqDistinct(locs[..n], x);
      if locs[n] == x {
        assert x !in locs[..n];
      }
    }
  }

  predicate Signed(disk: Disk, s: nat) {
    s in disk && disk[s].signature == SIGNATURE
  }

  /** One round of the loop, without the partitions it stores. */
  function Step(disk: Disk, ext: nat, w: Walk): Walk {
    if !Running(w) then w
    else if w.offset in w.locs then w.(ok := -1, partNum := w.partNum - CountEq(w.locs, w.offset))
    else if !Signed(disk, w.offset) then w.(ok := -1)
    else
      var e, locs := disk[w.offset].entries, w.locs[w.partNum := w.offset];
      if PureLink(disk[w.offset]) then w.(offset := ext + e[0].first, locs := locs)
      else if e[1].first != 0 && w.partNum < MAX_PARTS - 1
      then w.(offset := ext + e[1].first, partNum := w.partNum + 1, locs := locs)
      else w.(another := false)
  }

  function Steps(disk: Disk, ext: nat, w: Walk, n: nat): Walk
    decreases n
  {
    if n == 0 then w else Steps(disk, ext, Step(disk, ext, w), n - 1)
  }

  ghost predicate StopsAt(disk: Disk, ext: nat, start: nat, n: nat) {
    !Running(Steps(disk, ext, Begin(ext, start), n))
  }

  /** ReadLogicalParts comes to an end. */
  ghost predicate Ends(disk: Disk, ext: nat, start: nat) {
    exists n: nat :: StopsAt(disk, ext, start, n)
  }

  lemma {:induction false} StaysStopped(disk: Disk, ext: nat, w: Walk, n: nat)
    requires !Running(w)
    ensures Steps(disk, ext, w, n) == w
    decreases n
  {
    if n > 0 {
      StaysStopped(disk, ext, w, n - 1);
    }
  }

  lemma {:induction false} StepsAdd(disk: Disk, ext: nat, w: Walk, m: nat, n: nat)
    ensures Steps(disk, ext, w, m + n) == Steps(disk, ext, Steps(disk, ext, w, m), n)
    decreases m
  {
    if m > 0 {
      StepsAdd(disk, ext, Step(disk, ext, w), m - 1, n);
    }
  }

  // ----- cycles of records that only point on -----

  predicate Links(disk: Disk, s: nat) {
    Signed(disk, s) && PureLink(disk[s])
  }

  function Target(disk: Disk, ext: nat, s: nat): nat {
    if s in disk then ext + disk[s].entries[0].first else s
  }

  function Hops(disk: Disk, ext: nat, s: nat, n: nat): nat {
    if n == 0 then s else Target(disk, ext, Hops(disk, ext, s, n - 1))
  }

  /** From x, n records that only point on lead to y. */
  predicate Leads(disk: Disk, ext: nat, x: nat, y: nat, n: nat) {
    Hops(disk, ext, x, n) == y && forall i | 0 <= i < n :: Links(disk, Hops(disk, ext, x, i))
  }

  ghost predicate LeadsTo(disk: Disk, ext: nat, x: nat, y: nat) {
    exists n: nat :: n > 0 && Leads(disk, ext, x, y, n)
  }

  /** The record at s is one of two or more records that only point on, in a circle. */
  ghost predicate OnCycle(disk: Disk, ext: nat, s: nat) {
    Target(disk, ext, s) != s && LeadsTo(disk, ext, s, s)
  }

  /** The reader comes to such a circle. */
  ghost predicate EntersCycle(disk: Disk, ext: nat, start: nat) {
    exists n: nat :: CycleAfter(disk, ext, Begin(ext, start), n)
  }

  ghost predicate CycleAfter(disk: Disk, ext: nat, w: Walk, n: nat) {
    var v := Steps(disk, ext, w, n);
    Running(v) && OnCycle(disk, ext, v.offset)
  }

  lemma {:induction false} HopsShift(disk: Disk, ext: nat, s: nat, n: nat)
    ensures Hops(disk, ext, Target(disk, ext, s), n) == Hops(disk, ext, s, n + 1)
  {
    if n > 0 {
      HopsShift(disk, ext, s, n - 1);
    }
  }

  lemma {:induction false} HopsFixed(disk: Disk, ext: nat, s: nat, n: nat)
    requires Target(disk, ext, s) == s
    ensures Hops(disk, ext, s, n) == s
  {
    if n > 0 {
      HopsFixed(disk, ext, s, n - 1);
    }
  }

  /** The next record on a circle is on the circle. */
  lemma CycleGoesOn(disk: Disk, ext: nat, s: nat)
    requires OnCycle(disk, ext, s)
    ensures Links(disk, s) && OnCycle(disk, ext, Target(disk, ext, s))
  {
    var n: nat :| n > 0 && Leads(disk, ext, s, s, n);
    var t := Target(disk, ext, s);
    assert Hops(disk, ext, s, 0) == s;
    forall i | 0 <= i < n ensures Links(disk, Hops(disk, ext, t, i)) {
      HopsShift(disk, ext, s, i);
      assert i + 1 < n ==> Links(disk, Hops(disk, ext, s, i + 1));
    }
    HopsShift(disk, ext, s, n);
    assert Leads(disk, ext, t, t, n);
    if Target(disk, ext, t) == t {
      HopsShift(disk, ext, s, n - 1);
      HopsFixed(disk, ext, t, n - 1);
    }
  }

  // ----- what the reader remembers -----

  /**
    Lower partition numbers have the place of a record that describes a partition; the present one, if it has a
    place, that of the record which pointed on to where the reader now is.
   */
  ghost predicate Remembers(disk: Disk, ext: nat, w: Walk) {
    && 0 <= w.partNum < MAX_PARTS && w.offset > 0 && Distinct(w.locs)
    && (forall i | 0 <= i < w.partNum :: w.locs[i] != 0 ==> !Links(disk, w.locs[i]))
    && (forall i | w.partNum < i < MAX_PARTS :: w.locs[i] == 0)
    && var last := w.locs[w.partNum]; last != 0 ==> Links(disk, last) && Target(disk, ext, last) == w.offset
  }

  lemma BeginRemembers(disk: Disk, ext: nat, start: nat)
    requires ext > 0 && start < MAX_PARTS
    ensures Remembers(disk, ext, Begin(ext, start))
  {}

  lemma StepRemembers(disk: Disk, ext: nat, w: Walk)
    requires ext > 0 && Running(w) && Remembers(disk, ext, w) && Running(Step(disk, ext, w))
    ensures Remembers(disk, ext, Step(disk, ext, w))
  {
    var locs := w.locs[w.partNum := w.offset];
    assert w.offset !in w.locs;
    assert Distinct(locs);
  }

  lemma {:induction false} StepsRemember(disk: Disk, ext: nat, w: Walk, n: nat)
    requires ext > 0 && Running(w) && Remembers(disk, ext, w) && Running(Steps(disk, ext, w, n))
    ensures Remembers(disk, ext, Steps(disk, ext, w, n))
    decreases n
  {
    if n > 0 {
      var v := Step(disk, ext, w);
      if !Running(v) {
        StaysStopped(disk, ext, v, n - 1);
      }
      StepRemembers(disk, ext, w);
      StepsRemember(disk, ext, v, n - 1);
    }
  }

  /** A reader on a circle does not leave it, and does not notice it. */
  lemma {:induction false} CycleNeverEnds(disk: Disk, ext: nat, w: Walk, n: nat)
    requires ext > 0 && Running(w) && Remembers(disk, ext, w) && OnCycle(disk, ext, w.offset)
    ensures Running(Steps(disk, ext, w, n))
    decreases n
  {
    if n > 0 {
      CycleGoesOn(disk, ext, w.offset);
      assert w.offset !in w.locs;
      StepRemembers(disk, ext, w);
      CycleNeverEnds(disk, ext, Step(disk, ext, w), n - 1);
    }
  }

  // ----- without a circle it ends -----

  /** The records in trail were read for the present partition number, in turn, and lead to where the reader is. */
  ghost predicate Trail(disk: Disk, ext: nat, w: Walk, trail: set<nat>)
    requires 0 <= w.partNum < MAX_PARTS
  {
    && trail <= disk.Keys && 0 !in trail && (forall x | x in trail :: LeadsTo(disk, ext, x, w.offset))
    && (forall x | x in trail && Target(disk, ext, x) == x :: x == w.locs[w.partNum])
  }

  lemma TrailGrows(disk: Disk, ext: nat, w: Walk, trail: set<nat>)
    requires Running(w) && Remembers(disk, ext, w) && Trail(disk, ext, w, trail) && w.offset !in w.locs && Links(disk, w.offset)
    ensures Trail(disk, ext, Step(disk, ext, w), trail + {w.offset})
  {
    var t := Target(disk, ext, w.offset);
    assert Step(disk, ext, w).offset == t;
    forall x | x in trail + {w.offset} ensures LeadsTo(disk, ext, x, t) {
      if x in trail {
        var n: nat :| n > 0 && Leads(disk, ext, x, w.offset, n);
        assert Leads(disk, ext, x, t, n + 1);
      } else {
        assert Hops(disk, ext, x, 0) == x;
        assert Leads(disk, ext, x, t, 1);
      }
    }
    assert forall x | x in trail && Target(disk, ext, x) == x :: x == w.offset;
  }

  /** A reader that never comes to a circle ends. */
  lemma {:induction false} EndsFrom(disk: Disk, ext: nat, w: Walk, trail: set<nat>) returns (n: nat)
    requires ext > 0 && (Running(w) ==> Remembers(disk, ext, w) && Trail(disk, ext, w, trail))
    requires forall m: nat :: !CycleAfter(disk, ext, w, m)
    ensures !Running(Steps(disk, ext, w, n))
    decreases if Running(w) then MAX_PARTS - w.partNum else 0, |disk.Keys - trail|
  {
    n := 0;
    if Running(w) {
      var v := Step(disk, ext, w);
      assert !CycleAfter(disk, ext, w, 0);
      if Running(v) {
        StepRemembers(disk, ext, w);
        forall m: nat ensures !CycleAfter(disk, ext, v, m) {
          assert !CycleAfter(disk, ext, w, m + 1);
        }
        if Links(disk, w.offset) {
          NotBack(disk, ext, w, trail);
          TrailGrows(disk, ext, w, trail);
          n := EndsFrom(disk, ext, v, trail + {w.offset});
        } else {
          n := EndsFrom(disk, ext, v, {});
        }
      }
      assert !Running(Steps(disk, ext, v, n));
      n := n + 1;
      assert Steps(disk, ext, w, n) == Steps(disk, ext, v, n - 1);
    }
  }

  /** Off a circle the reader does not come back to a record of its trail unless that points to itself. */
  lemma NotBack(disk: Disk, ext: nat, w: Walk, trail: set<nat>)
    requires Running(w) && Trail(disk, ext, w, trail) && Links(disk, w.offset) && w.offset !in w.locs && !OnCycle(disk, ext, w.offset)
    ensures w.offset !in trail && |disk.Keys - (trail + {w.offset})| < |disk.Keys - trail|
  {
    assert w.offset !in trail;
    assert disk.Keys - (trail + {w.offset}) == (disk.Keys - trail) - {w.offset};
  }

  /** The reader ends if and only if it never comes to a circle of two or more records that only point on. */
  lemma EndsUnlessCycle(disk: Disk, ext: nat, start: nat)
    requires ext > 0
    ensures Ends(disk, ext, start) <==> !EntersCycle(disk, ext, start)
  {
    var w := Begin(ext, start);
    if start < MAX_PARTS {
      BeginRemembers(disk, ext, start);
    }
    if EntersCycle(disk, ext, start) {
      var m: nat :| CycleAfter(disk, ext, w, m);
      forall n: nat ensures Running(Steps(disk, ext, w, n)) {
        NeverStops(disk, ext, start, m, n);
      }
    } else {
      var n := EndsFrom(disk, ext, w, {});
      assert StopsAt(disk, ext, start, n);
    }
  }

  lemma NeverStops(disk: Disk, ext: nat, start: nat, m: nat, n: nat)
    requires ext > 0 && CycleAfter(disk, ext, Begin(ext, start), m)
    ensures Running(Steps(disk, ext, Begin(ext, start), n))
  {
    var w := Begin(ext, start);
    if n < m {
      RunsBefore(disk, ext, w, n, m);
    } else {
      RunsBefore(disk, ext, w, 0, m);
      BeginRemembers(disk, ext, start);
      StepsRemember(disk, ext, w, m);
      StepsAdd(disk, ext, w, m, n - m);
      CycleNeverEnds(disk, ext, Steps(disk, ext, w, m), n - m);
    }
  }

  lemma RunsBefore(disk: Disk, ext: nat, w: Walk, n: nat, m: nat)
    requires n <= m && Running(Steps(disk, ext, w, m))
    ensures Running(Steps(disk, ext, w, n))
  {
    StepsAdd(disk, ext, w, n, m - n);
    if !Running(Steps(disk, ext, w, n)) {
      StaysStopped(disk, ext, Steps(disk, ext, w, n), m - n);
    }
  }

  // ----- two small disks -----

  function LinkTo(first: nat): Record {
    Record([], 0, 0, [Entry(0, 0x05, first, 1), NO_ENTRY, NO_ENTRY, NO_ENTRY], SIGNATURE)
  }

  /** Two records that point to each other keep the reader going for ever. */
  lemma TwoLinksNeverEnd(ext: nat, start: nat)
    requires ext > 0 && start < MAX_PARTS
    ensures !Ends(map[ext := LinkTo(1), ext + 1 := LinkTo(0)], ext, start)
  {
    var disk := map[ext := LinkTo(1), ext + 1 := LinkTo(0)];
    assert Hops(disk, ext, ext, 0) == ext && Hops(disk, ext, ext, 1) == ext + 1 && Hops(disk, ext, ext, 2) == ext;
    assert Leads(disk, ext, ext, ext, 2);
    assert CycleAfter(disk, ext, Begin(ext, start), 0);
    EndsUnlessCycle(disk, ext, start);
  }

  /** A record that points to itself is noticed, whatever else is on the disk. */
  lemma SelfLinkEnds(disk: Disk, ext: nat, start: nat)
    requires ext > 0 && Links(disk, ext) && Target(disk, ext, ext) == ext
    ensures Ends(disk, ext, start)
  {
    var w := Begin(ext, start);
    var v := Step(disk, ext, w);
    if start < MAX_PARTS {
      assert v.locs[start] == ext && v.offset == ext;
      assert !Running(Step(disk, ext, v));
    }
    assert Steps(disk, ext, w, 2) == Step(disk, ext, v);
    assert StopsAt(disk, ext, start, 2);
  }

  // ----- the result -----

  /** The table after one round: a record that describes a partition is stored. */
  function Stores(disk: Disk, w: Walk, ps: Table): (r: Table)
    requires |ps| == MAX_PARTS
    ensures |r| == MAX_PARTS
  {
    if Running(w) && w.offset !in w.locs && Signed(disk, w.offset) && !PureLink(disk[w.offset])
    then ps[w.partNum := LogicalAt(disk[w.offset], w.offset)] else ps
  }

  function LogicalAt(r: Record, offset: nat): Part {
    Loaded(r.entries[0]).(start := Wrap32(r.entries[0].first + offset), incl := Logical)
  }

  function TableAfter(disk: Disk, ext: nat, w: Walk, ps: Table, n: nat): (r: Table)
    requires |ps| == MAX_PARTS
    ensures |r| == MAX_PARTS
    decreases n
  {
    if n == 0 then ps else TableAfter(disk, ext, Step(disk, ext, w), Stores(disk, w, ps), n - 1)
  }

  ghost function Rounds(disk: Disk, ext: nat, start: nat): (n: nat)
    requires Ends(disk, ext, start)
    ensures StopsAt(disk, ext, start, n)
  {
    var n: nat :| StopsAt(disk, ext, start, n);
    n
  }

  /** What ReadLogicalParts returns: the number of the last partition, negated after an error. */
  ghost function Outcome(disk: Disk, ext: nat, start: nat): int
    requires Ends(disk, ext, start)
  {
    var w := Steps(disk, ext, Begin(ext, start), Rounds(disk, ext, start));
    w.partNum * w.ok
  }

  /** The table that ReadLogicalParts leaves. */
  ghost function TableRead(disk: Disk, ext: nat, start: nat, ps: Table): (r: Table)
    requires Ends(disk, ext, start) && |ps| == MAX_PARTS
    ensures |r| == MAX_PARTS
  {
    TableAfter(disk, ext, Begin(ext, start), ps, Rounds(disk, ext, start))
  }

  lemma {:induction false} NothingMore(disk: Disk, ext: nat, w: Walk, ps: Table, n: nat)
    requires !Running(w) && |ps| == MAX_PARTS
    ensures TableAfter(disk, ext, w, ps, n) == ps
    decreases n
  {
    if n > 0 {
      NothingMore(disk, ext, w, ps, n - 1);
    }
  }

  lemma {:induction false} TableAdd(disk: Disk, ext: nat, w: Walk, ps: Table, m: nat, n: nat)
    requires |ps| == MAX_PARTS
    ensures TableAfter(disk, ext, w, ps, m + n) == TableAfter(disk, ext, Steps(disk, ext, w, m), TableAfter(disk, ext, w, ps, m), n)
    decreases m
  {
    if m > 0 {
      TableAdd(disk, ext, Step(disk, ext, w), Stores(disk, w, ps), m - 1, n);
    }
  }

  lemma StoppedSame(disk: Disk, ext: nat, w: Walk, ps: Table, m: nat, n: nat)
    requires !Running(Steps(disk, ext, w, m)) && !Running(Steps(disk, ext, w, n)) && |ps| == MAX_PARTS
    ensures Steps(disk, ext, w, m) == Steps(disk, ext, w, n)
    ensures TableAfter(disk, ext, w, ps, m) == TableAfter(disk, ext, w, ps, n)
  {
    if m <= n {
      StepsAdd(disk, ext, w, m, n - m);
      StaysStopped(disk, ext, Steps(disk, ext, w, m), n - m);
      TableAdd(disk, ext, w, ps, m, n - m);
      NothingMore(disk, ext, Steps(disk, ext, w, m), TableAfter(disk, ext, w, ps, m), n - m);
    } else {
      StoppedSame(disk, ext, w, ps, n, m);
    }
  }

  /** The result is that of any round in which the reader has stopped. */
  lemma OutcomeIs(disk: Disk, ext: nat, start: nat, ps: Table, n: nat)
    requires StopsAt(disk, ext, start, n) && |ps| == MAX_PARTS
    ensures Ends(disk, ext, start)
    ensures var w := Steps(disk, ext, Begin(ext, start), n); Outcome(disk, ext, start) == w.partNum * w.ok
    ensures TableRead(disk, ext, start, ps) == TableAfter(disk, ext, Begin(ext, start), ps, n)
  {
    assert Ends(disk, ext, start);
    StoppedSame(disk, ext, Begin(ext, start), ps, Rounds(disk, ext, start), n);
  }

  /** After n rounds the reader is at w and the table is ps; while it runs, what it remembers is in order. */
  ghost predicate Follows(disk: Disk, ext: nat, start: nat, before: Table, n: nat, w: Walk, ps: Table)
    requires |before| == MAX_PARTS
  {
    var v := Steps(disk, ext, Begin(ext, start), n);
    && v.partNum == w.partNum && v.another == w.another && v.ok == w.ok && w.partNum >= 3 && (w.ok == 1 || w.ok == -1)
    && (Running(w) ==> v == w && Remembers(disk, ext, w) && w.partNum >= 4)
    && ps == TableAfter(disk, ext, Begin(ext, start), before, n) && ps[..4] == before[..4]
  }

  lemma FollowsOn(disk: Disk, ext: nat, start: nat, before: Table, n: nat, w: Walk, ps: Table)
    requires ext > 0 && |before| == MAX_PARTS && |ps| == MAX_PARTS && Running(w) && Follows(disk, ext, start, before, n, w, ps)
    ensures Follows(disk, ext, start, before, n + 1, Step(disk, ext, w), Stores(disk, w, ps))
  {
    StepsAdd(disk, ext, Begin(ext, start), n, 1);
    TableAdd(disk, ext, Begin(ext, start), before, n, 1);
    assert Steps(disk, ext, w, 1) == Step(disk, ext, w) && TableAfter(disk, ext, w, ps, 1) == Stores(disk, w, ps);
    CountEqDistinct(w.locs, w.offset);
    if Running(Step(disk, ext, w)) {
      StepRemembers(disk, ext, w);
    }
  }

  ghost function FollowsAt(disk: Disk, ext: nat, start: nat, before: Table, n: nat): (Walk, Table) -> bool
    requires |before| == MAX_PARTS
  {
    (w: Walk, ps: Table) => Follows(disk, ext, start, before, n, w, ps)
  }

  lemma FollowsBegins(disk: Disk, ext: nat, start: nat, before: Table)
    requires ext > 0 && start >= 4 && |before| == MAX_PARTS
    ensures FollowsAt(disk, ext, start, before, 0)(Begin(ext, start), before)
  {}

  /** Two readers that differ at most in what a stopped reader no longer looks at. */
  predicate SameReader(v: Walk, w: Walk) {
    v.partNum == w.partNum && v.another == w.another && v.ok == w.ok && (Running(v) ==> v == w)
  }

  lemma FollowsRound(disk: Disk, ext: nat, start: nat, before: Table, n: nat, w: Walk, ps: Table, v: Walk)
    requires ext > 0 && |before| == MAX_PARTS && |ps| == MAX_PARTS && Running(w) && FollowsAt(disk, ext, start, before, n)(w, ps)
    requires SameReader(v, Step(disk, ext, w))
    ensures FollowsAt(disk, ext, start, before, n + 1)(v, Stores(disk, w, ps))
  {
    FollowsOn(disk, ext, start, before, n, w, ps);
  }

  /** A reader that runs has not come to its end. */
  lemma NotYet(disk: Disk, ext: nat, start: nat, n: nat, end: nat)
    requires StopsAt(disk, ext, start, end) && !StopsAt(disk, ext, start, n)
    ensures n < end
  {
    if end <= n {
      RunsBefore(disk, ext, Begin(ext, start), end, n);
    }
  }

  /** The number of the first logical partition behind the next extended entry. */
  function NextStart(num: int): nat {
    if num < 0 then -num + 1 else num + 1
  }

  /** The loop of ReadMBRData over the main entries from entry i on ends; num is the number returned last. */
  ghost predicate MainEnds(disk: Disk, entries: Entries, i: nat, num: int)
    decreases 4 - i
  {
    if i >= 4 then true
    else if ExtendedKind(entries[i].kind) then
      entries[i].first > 0 && Ends(disk, entries[i].first, NextStart(num))
      && MainEnds(disk, entries, i + 1, Outcome(disk, entries[i].first, NextStart(num)))
    else MainEnds(disk, entries, i + 1, num)
  }

  /** The table when the main entries from entry i on have been followed, and blanked if they are extended ones. */
  ghost function MainRead(disk: Disk, entries: Entries, i: nat, num: int, ps: Table): (r: Table)
    requires MainEnds(disk, entries, i, num) && |ps| == MAX_PARTS
    ensures |r| == MAX_PARTS
    decreases 4 - i
  {
    if i >= 4 then ps
    else if ExtendedKind(entries[i].kind) then
      var start := NextStart(num);
      MainRead(disk, entries, i + 1, Outcome(disk, entries[i].first, start), TableRead(disk, entries[i].first, start, ps)[i := BLANK])
    else MainRead(disk, entries, i + 1, num, ps)
  }

  /** The loop of ReadMBRData has come to entry i with num and ps, and will end with the table r. */
  ghost predicate LeadsToTable(disk: Disk, entries: Entries, i: nat, num: int, ps: Table, r: Table) {
    |ps| == MAX_PARTS && MainEnds(disk, entries, i, num) && MainRead(disk, entries, i, num, ps) == r
  }

  ghost function ReadingFrom(disk: Disk, entries: Entries, i: nat, r: Table): (int, Table) -> bool {
    (num: int, ps: Table) => LeadsToTable(disk, entries, i, num, ps, r)
  }

  lemma ReadingNext(disk: Disk, entries: Entries, i: nat, r: Table, num: int, ps: Table)
    requires i < 4 && ReadingFrom(disk, entries, i, r)(num, ps) && |ps| == MAX_PARTS
    ensures if ExtendedKind(entries[i].kind) then
              var first, start := entries[i].first, NextStart(num);
              && first > 0 && Ends(disk, first, start) && !EntersCycle(disk, first, start)
              && ReadingFrom(disk, entries, i + 1, r)(Outcome(disk, first, start), TableRead(disk, first, start, ps)[i := BLANK])
            else ReadingFrom(disk, entries, i + 1, r)(num, ps)
  {
    if ExtendedKind(entries[i].kind) {
      EndsUnlessCycle(disk, entries[i].first, NextStart(num));
    }
  }

  // ----- a chain as it is written -----

  function EbrZone(ls: Table): set<nat>
    requires Startable(ls)
  {
    set k | 0 <= k < |ls| :: ls[k].start - 1
  }

  lemma {:induction false} StaysOnChain(disk: Disk, ext: nat, ls: Table, w: Walk, n: nat)
    requires ChainFrom(disk, ext, ls) && w.offset in EbrZone(ls)
    ensures Steps(disk, ext, w, n).offset in EbrZone(ls)
    decreases n
  {
    if n > 0 {
      var k :| 0 <= k < |ls| && w.offset == ls[k].start - 1;
      ReadEbr(disk, ext, ls, k);
      assert k + 1 < |ls| ==> ls[k + 1].start - 1 in EbrZone(ls);
      StaysOnChain(disk, ext, ls, Step(disk, ext, w), n - 1);
    }
  }

  /** A chain as it is written can be read. */
  lemma ChainEnds(disk: Disk, ext: nat, ls: Table, start: nat)
    requires ChainFrom(disk, ext, ls)
    ensures Ends(disk, ext, start)
  {
    assert ls[0].start - 1 in EbrZone(ls);
    forall n: nat ensures !CycleAfter(disk, ext, Begin(ext, start), n) {
      var s := Steps(disk, ext, Begin(ext, start), n).offset;
      StaysOnChain(disk, ext, ls, Begin(ext, start), n);
      var k :| 0 <= k < |ls| && s == ls[k].start - 1;
      ReadEbr(disk, ext, ls, k);
      if OnCycle(disk, ext, s) {
        CycleGoesOn(disk, ext, s);
      }
    }
    EndsUnlessCycle(disk, ext, start);
  }

  lemma {:induction false} ReadsAlong(disk: Disk, ext: nat, ls: Table, before: Table, w: Walk, ps: Table, n: nat)
    requires ChainFrom(disk, ext, ls) && |ps| == MAX_PARTS && w.ok == 1 && Reading(ls, before, ps, w.partNum, w.offset, w.locs, w.another)
    ensures var v := Steps(disk, ext, w, n);
            v.ok == 1 && Reading(ls, before, TableAfter(disk, ext, w, ps, n), v.partNum, v.offset, v.locs, v.another)
    decreases n
  {
    if n > 0 {
      if w.another {
        ReadingOn(disk, ext, ls, before, ps, w.partNum, w.offset, w.locs);
      }
      ReadsAlong(disk, ext, ls, before, Step(disk, ext, w), Stores(disk, w, ps), n - 1);
    }
  }

  /** A chain as it is written is read back whole. */
  lemma ChainReadsBack(disk: Disk, ext: nat, ls: Table, before: Table)
    requires ChainFrom(disk, ext, ls) && |before| == MAX_PARTS
    ensures Ends(disk, ext, 4) && Outcome(disk, ext, 4) == 3 + |ls| && TableRead(disk, ext, 4, before) == ReadIn(before, ls, |ls|)
  {
    ChainEnds(disk, ext, ls, 4);
    assert ReadIn(before, ls, 0) == before;
    ReadsAlong(disk, ext, ls, before, Begin(ext, 4), before, Rounds(disk, ext, 4));
  }

  lemma OneChainEnds(disk: Disk, ls: Table, k: nat)
    requires OneChain(disk, ls, k)
    ensures MainEnds(disk, disk[0].entries, 0, 3)
  {
    var e := disk[0].entries;
    if k < 4 {
      ChainEnds(disk, e[k].first, ls, 4);
      NoMoreEnds(disk, e, k + 1, Outcome(disk, e[k].first, 4));
      OneBefore(disk, e, k, 0);
    } else {
      NoMoreEnds(disk, e, 0, 3);
    }
  }

  lemma {:induction false} NoMoreEnds(disk: Disk, e: Entries, i: nat, num: int)
    requires forall j | i <= j < 4 :: !ExtendedKind(e[j].kind)
    ensures MainEnds(disk, e, i, num)
    decreases 4 - i
  {
    if i < 4 {
      NoMoreEnds(disk, e, i + 1, num);
    }
  }

  lemma {:induction false} OneBefore(disk: Disk, e: Entries, k: nat, i: nat)
    requires i <= k < 4 && (forall j | i <= j < k :: !ExtendedKind(e[j].kind)) && ExtendedKind(e[k].kind)
    requires e[k].first > 0 && Ends(disk, e[k].first, 4) && MainEnds(disk, e, k + 1, Outcome(disk, e[k].first, 4))
    ensures MainEnds(disk, e, i, 3)
    decreases k - i
  {
    if i < k {
      OneBefore(disk, e, k, i + 1);
    }
  }

  lemma {:induction false} ChainReadFrom(disk: Disk, ls: Table, k: nat, i: nat, num: int)
    requires OneChain(disk, ls, k) && 4 + |ls| <= MAX_PARTS && i <= 4 && (i <= k ==> num == 3)
    requires MainEnds(disk, disk[0].entries, i, num)
    ensures MainRead(disk, disk[0].entries, i, num, ReadSoFar(disk[0].entries, ls, k, i)) == ReadSoFar(disk[0].entries, ls, k, 4)
    decreases 4 - i
  {
    var e := disk[0].entries;
    if i < 4 {
      ReadSoFarStep(e, ls, k, i);
      if i == k {
        ChainReadsBack(disk, e[i].first, ls, ReadSoFar(e, ls, k, i));
        ChainReadFrom(disk, ls, k, i + 1, Outcome(disk, e[i].first, 4));
      } else {
        ChainReadFrom(disk, ls, k, i + 1, num);
      }
    }
  }

  /** From a disk with one chain as it is written, the primary entries and the chain are read. */
  lemma OneChainReadsBack(disk: Disk, ls: Table, k: nat)
    requires OneChain(disk, ls, k) && 4 + |ls| <= MAX_PARTS
    ensures var e := disk[0].entries;
            MainEnds(disk, e, 0, 3) && MainRead(disk, e, 0, 3, Firsts(e, 0) + Blanks(MAX_PARTS - 4)) == ReadBack(e, ls)
  {
    OneChainEnds(disk, ls, k);
    ChainReadFrom(disk, ls, k, 0, 3);
  }
}
