/** Finding free space and making partitions in it (external/gptfdisk/gpt.cc). */
module GptAllocator {
  import opened Lists
  import opened Sorting
  import opened FreeSpace

  // ----- searching -----

  function MaxLast(ps: Table): (m: nat)
    ensures forall i | 0 <= i < |ps| :: ps[i].last <= m
  {
    if ps == [] then 0
    else
      var m := MaxLast(ps[..|ps| - 1]);
      if ps[|ps| - 1].last > m then ps[|ps| - 1].last else m
  }

  predicate AllOccupied(ps: Table, lo: nat, hi: nat) {
    forall y | lo <= y < hi :: Occupied(ps, y)
  }

  /** One pass over the table: move past every partition that holds the sector. */
  method MovePast(ps: Table, start: nat) returns (first: nat, moved: bool)
    ensures start <= first && AllOccupied(ps, start, first)
    ensures moved ==> start < first && start <= MaxLast(ps)
    ensures !moved ==> first == start && !Occupied(ps, first)
  {
    first, moved := start, false;
    for i := 0 to |ps|
      invariant start <= first && AllOccupied(ps, start, first)
      invariant moved ==> start < first && start <= MaxLast(ps)
      invariant !moved ==> first == start && forall k | 0 <= k < i :: !(ps[k].used && Covers(ps[k], first))
    {
      if ps[i].used && first >= ps[i].first && first <= ps[i].last {
        assert forall y | first <= y <= ps[i].last :: ps[i].used && Covers(ps[i], y);
        first := ps[i].last + 1;
        moved := true;
      }
    }
  }

  method FindFirstAvailable(ps: Table, a: Area, start: nat) returns (r: nat)
    requires a.first > 0
    ensures IsFirstFree(ps, a, if start < a.first then a.first else start, r)
  {
    var from := if start < a.first then a.first else start;
    r := from;
    var moved := true;
    ghost var m := MaxLast(ps);
    while moved
      invariant from <= r && AllOccupied(ps, from, r) && (!moved ==> !Occupied(ps, r))
      decreases if r <= m then m + 1 - r else 0, if moved then 1 else 0
    {
      r, moved := MovePast(ps, r);
    }
    if r > a.last {
      r := 0;
    }
  }

  method FindLastInFree(ps: Table, a: Area, start: nat) returns (nearest: nat)
    ensures nearest == Near(ps, a, start, |ps|)
  {
    nearest := a.last;
    for i := 0 to |ps|
      invariant nearest == Near(ps, a, start, i)
    {
      if nearest > ps[i].first && ps[i].first > start {
        nearest := ps[i].first - 1;
      }
    }
  }

  /** What IsFree tests: it does not ask whether an entry is used. */
  predicate TestsFree(ps: Table, a: Area, x: nat) {
    InArea(a, x) && forall i | 0 <= i < |ps| :: !Covers(ps[i], x)
  }

  lemma TestIsRight(ps: Table, a: Area, x: nat)
    requires Sound(ps, a)
    ensures TestsFree(ps, a, x) <==> FreeSector(ps, a, x)
  {
    forall i | 0 <= i < |ps| && Covers(ps[i], x) && InArea(a, x) ensures ps[i].used {
      assert Proper(ps[i], a);
    }
  }

  method IsFree(ps: Table, a: Area, sector: nat) returns (free: bool)
    ensures free == TestsFree(ps, a, sector)
  {
    free := true;
    for i := 0 to |ps|
      invariant free <==> forall k | 0 <= k < i :: !Covers(ps[k], sector)
    {
      if sector >= ps[i].first && sector <= ps[i].last {
        free := false;
      }
    }
    if sector < a.first || sector > a.last {
      free := false;
    }
  }

  // ----- all the gaps -----

  predicate IsLargest(segs: seq<Segment>, largest: int) {
    && (forall i | 0 <= i < |segs| :: Size(segs[i]) <= largest)
    && if segs == [] then largest == 0 else exists i | 0 <= i < |segs| :: Size(segs[i]) == largest
  }

  /** The gaps found so far, from the front, when the search goes on at x. */
  ghost predicate SoFar(ps: Table, a: Area, from: nat, segs: seq<Segment>, x: nat)
    decreases |segs|
  {
    if segs == [] then x == from
    else
      && segs[0].first > 0 && IsFirstFree(ps, a, from, segs[0].first)
      && segs[0].last == Near(ps, a, segs[0].first, |ps|)
      && SoFar(ps, a, segs[0].last + 1, segs[1..], x)
  }

  lemma {:induction false} SoFarNext(ps: Table, a: Area, from: nat, segs: seq<Segment>, x: nat, f: nat)
    requires SoFar(ps, a, from, segs, x) && f > 0 && IsFirstFree(ps, a, x, f)
    ensures SoFar(ps, a, from, segs + [Segment(f, Near(ps, a, f, |ps|))], Near(ps, a, f, |ps|) + 1)
    decreases |segs|
  {
    var s := Segment(f, Near(ps, a, f, |ps|));
    if segs != [] {
      SoFarNext(ps, a, segs[0].last + 1, segs[1..], x, f);
      assert (segs + [s])[1..] == segs[1..] + [s];
    }
  }

  lemma {:induction false} SoFarEnds(ps: Table, a: Area, from: nat, segs: seq<Segment>, x: nat)
    requires SoFar(ps, a, from, segs, x) && IsFirstFree(ps, a, x, 0)
    ensures Steps(ps, a, from, segs)
    decreases |segs|
  {
    if segs != [] {
      SoFarEnds(ps, a, segs[0].last + 1, segs[1..], x);
    }
  }

  lemma {:induction false} TotalAppend(segs: seq<Segment>, s: Segment)
    ensures Total(segs + [s]) == Total(segs) + Size(s)
  {
    if segs == [] {
      assert segs + [s] == [s];
    } else {
      TotalAppend(segs[1..], s);
      assert (segs + [s])[1..] == segs[1..] + [s];
    }
  }

  /** The search for gaps, having found segs, goes on at x, or is over. */
  ghost predicate Searching(ps: Table, a: Area, start: nat, segs: seq<Segment>, x: nat, more: bool) {
    x == (if start < a.first then a.first else start) && SoFar(ps, a, a.first, segs, x) && (!more ==> IsFirstFree(ps, a, x, 0))
  }

  /** FindFreeBlocks: total, number and largest of the gaps as it steps through them. */
  method FindFreeBlocks(ps: Table, a: Area, diskSize: nat) returns (total: int, num: nat, largest: int, ghost segs: seq<Segment>)
    requires a.first > 0
    ensures diskSize > 0 ==> Steps(ps, a, a.first, segs) && total == Total(segs) && num == |segs| && IsLargest(segs, largest)
    ensures diskSize == 0 ==> total == 0 && num == 0 && largest == 0
  {
    total, num, largest, segs := 0, 0, 0, [];
    if diskSize > 0 {
      var start: nat, more := 0, true;
      ghost var x: nat := a.first;
      while more
        invariant Searching(ps, a, start, segs, x, more)
        invariant total == Total(segs) && num == |segs| && IsLargest(segs, largest)
        decreases if more then 1 else 0, if x <= a.last then a.last + 1 - x else 0
      {
        var first := FindFirstAvailable(ps, a, start);
        if first != 0 {
          var last := FindLastInFree(ps, a, first);
          if last - first + 1 > largest {
            largest := last - first + 1;
          }
          total := total + (last - first + 1);
          num := num + 1;
          start := last + 1;
          SoFarNext(ps, a, a.first, segs, x, first);
          TotalAppend(segs, Segment(first, last));
          LargestNext(segs, Segment(first, last));
          segs := segs + [Segment(first, last)];
          x := start;
        } else {
          more := false;
        }
      }
      SoFarEnds(ps, a, a.first, segs, x);
    }
  }

  lemma LargestNext(segs: seq<Segment>, s: Segment)
    requires Size(s) > 0
    ensures forall largest | IsLargest(segs, largest) :: IsLargest(segs + [s], if Size(s) > largest then Size(s) else largest)
  {
    forall largest | IsLargest(segs, largest) ensures IsLargest(segs + [s], if Size(s) > largest then Size(s) else largest) {
      assert (segs + [s])[|segs|] == s;
      if segs != [] {
        var i :| 0 <= i < |segs| && Size(segs[i]) == largest;
        assert (segs + [s])[i] == segs[i];
      }
    }
  }

  /** r starts a gap no smaller than any other, or is 0 if there is none. */
  predicate StartsLargest(segs: seq<Segment>, r: nat, size: int) {
    && IsLargest(segs, size)
    && if segs == [] then r == 0 else exists i | 0 <= i < |segs| :: segs[i].first == r && Size(segs[i]) == size
  }

  lemma StartsNext(segs: seq<Segment>, r: nat, size: int, s: Segment)
    requires StartsLargest(segs, r, size) && Size(s) > 0
    ensures if Size(s) > size then StartsLargest(segs + [s], s.first, Size(s)) else StartsLargest(segs + [s], r, size)
  {
    LargestNext(segs, s);
    assert (segs + [s])[|segs|] == s;
    if segs != [] {
      var i :| 0 <= i < |segs| && segs[i].first == r && Size(segs[i]) == size;
      assert (segs + [s])[i] == segs[i];
    }
  }

  method FindFirstInLargest(ps: Table, a: Area) returns (selected: nat, ghost segs: seq<Segment>, ghost size: int)
    requires a.first > 0
    ensures Steps(ps, a, a.first, segs) && StartsLargest(segs, selected, size)
  {
    var start: nat, more, selectedSize := 0, true, 0;
    selected, segs := 0, [];
    ghost var x: nat := a.first;
    while more
      invariant Searching(ps, a, start, segs, x, more) && StartsLargest(segs, selected, selectedSize)
      decreases if more then 1 else 0, if x <= a.last then a.last + 1 - x else 0
    {
      var first := FindFirstAvailable(ps, a, start);
      if first != 0 {
        var last := FindLastInFree(ps, a, first);
        StartsNext(segs, selected, selectedSize, Segment(first, last));
        if last - first + 1 > selectedSize {
          selectedSize, selected := last - first + 1, first;
        }
        start := last + 1;
        SoFarNext(ps, a, a.first, segs, x, first);
        segs := segs + [Segment(first, last)];
        x := start;
      } else {
        more := false;
      }
    }
    SoFarEnds(ps, a, a.first, segs, x);
    size := selectedSize;
  }

  /** On a sound table without spilled entries, the gaps found are the maximal free runs, each once. */
  lemma GapsAreRuns(ps: Table, a: Area, segs: seq<Segment>)
    requires Sound(ps, a) && Tame(ps, a) && Steps(ps, a, a.first, segs)
    ensures forall i | 0 <= i < |segs| :: IsRun(ps, a, segs[i].first, segs[i].last)
    ensures forall f, l | IsRun(ps, a, f, l) :: Segment(f, l) in segs
    ensures forall i, j | 0 <= i < j < |segs| :: segs[i].last < segs[j].first
  {
    forall i | 0 <= i < |segs| ensures IsRun(ps, a, segs[i].first, segs[i].last) {
      StepsAreRuns(ps, a, a.first, segs, i);
    }
    forall f, l | IsRun(ps, a, f, l) ensures Segment(f, l) in segs {
      assert FreeSector(ps, a, f);
      RunsAreSteps(ps, a, a.first, segs, f, l);
    }
    forall i, j | 0 <= i < j < |segs| ensures segs[i].last < segs[j].first {
      StepsAscend(ps, a, a.first, segs, i);
    }
  }

  // ----- alignment -----

  /** The two places a sector may be moved to. */
  function Earlier(sector: nat, alignment: nat): nat
    requires alignment > 0
  {
    sector / alignment * alignment
  }

  function Times(k: nat, n: nat): nat {
    k * n
  }

  ghost predicate IsMultiple(r: nat, n: nat) {
    exists k: nat :: Times(k, n) == r
  }

  predicate ClearBelow(ps: Table, a: Area, sector: nat, alignment: nat)
    requires alignment > 0
  {
    var e := Earlier(sector, alignment);
    e >= a.first && forall y | e <= y < sector :: TestsFree(ps, a, y)
  }

  predicate ClearAbove(ps: Table, a: Area, sector: nat, alignment: nat)
    requires alignment > 0
  {
    var l := Earlier(sector, alignment) + alignment;
    l <= a.last && forall y | sector < y <= l :: TestsFree(ps, a, y)
  }

  /** Where Align puts a sector: back over free sectors only, else forward over free sectors only, else nowhere. */
  function Aligned(ps: Table, a: Area, sector: nat, alignment: nat): (r: nat)
    requires alignment > 0
    ensures r != sector ==> IsMultiple(r, alignment)
    ensures r < sector ==> forall y | r <= y < sector :: TestsFree(ps, a, y)
    ensures r > sector ==> forall y | sector < y <= r :: TestsFree(ps, a, y)
  {
    var e := Earlier(sector, alignment);
    assert Times(sector / alignment, alignment) == e && Times(sector / alignment + 1, alignment) == e + alignment;
    if sector % alignment == 0 then sector
    else if ClearBelow(ps, a, sector, alignment) then e
    else if ClearAbove(ps, a, sector, alignment) then e + alignment
    else sector
  }

  lemma Multiple(x: int, n: nat)
    ensures (x >= 1 ==> x * n >= n) && (x <= -1 ==> x * n + n <= 0)
  {
    if x >= 1 {
      assert x * n == (x - 1) * n + n;
    } else if x <= -1 {
      assert x * n == (x + 1) * n - n;
    }
  }

  lemma QuotientIs(sector: nat, alignment: nat, k: nat, d: nat)
    requires sector == Times(k, alignment) + d && d < alignment
    ensures sector / alignment == k && sector % alignment == d
  {
    var q, m := sector / alignment, sector % alignment;
    assert q * alignment + m == k * alignment + d;
    Multiple(q - k, alignment);
    assert (q - k) * alignment == d - m;
  }

  /** A sector between two multiples goes to the lower one if it can, else to the upper one if it can; a multiple stays. */
  lemma AlignedExactly(ps: Table, a: Area, sector: nat, alignment: nat, k: nat, d: nat)
    requires sector == Times(k, alignment) + d && d < alignment
    ensures var below, above := Times(k, alignment), Times(k, alignment) + alignment;
            Aligned(ps, a, sector, alignment)
            == if d > 0 && a.first <= below && (forall y | below <= y < sector :: TestsFree(ps, a, y)) then below
               else if d > 0 && above <= a.last && (forall y | sector < y <= above :: TestsFree(ps, a, y)) then above
               else sector
  {
    QuotientIs(sector, alignment, k, d);
  }

  /** Align. */
  method Align(ps: Table, a: Area, sector: nat, alignment: nat) returns (r: nat, moved: bool)
    requires alignment > 0
    ensures r == Aligned(ps, a, sector, alignment) && (moved <==> r != sector)
  {
    r, moved := sector, false;
    if sector % alignment != 0 {
      var earlier := sector / alignment * alignment;
      var later := earlier + alignment;
      NotMultiple(sector, alignment);
      var ok := false;
      if earlier >= a.first {
        ok := CheckUp(ps, a, earlier, sector);
        if ok {
          r, moved := earlier, true;
        }
      }
      if !ok && later <= a.last {
        ok := CheckDown(ps, a, later, sector);
        if ok {
          r, moved := later, true;
        }
      }
    }
  }

  lemma NotMultiple(sector: nat, alignment: nat)
    requires alignment > 0 && sector % alignment != 0
    ensures Earlier(sector, alignment) < sector < Earlier(sector, alignment) + alignment
  {
    assert sector == sector / alignment * alignment + sector % alignment;
  }

  method CheckUp(ps: Table, a: Area, from: nat, end: nat) returns (ok: bool)
    requires from < end
    ensures ok <==> forall y | from <= y < end :: TestsFree(ps, a, y)
  {
    ok := IsFree(ps, a, from);
    var test: nat := from + 1;
    while ok && test < end
      invariant from < test <= end && (ok <==> forall y | from <= y < test :: TestsFree(ps, a, y))
      decreases end - test
    {
      ok := IsFree(ps, a, test);
      test := test + 1;
    }
  }

  method CheckDown(ps: Table, a: Area, from: nat, end: nat) returns (ok: bool)
    requires end < from
    ensures ok <==> forall y | end < y <= from :: TestsFree(ps, a, y)
  {
    ok := IsFree(ps, a, from);
    var test: nat := from - 1;
    while ok && test > end
      invariant end <= test < from && (ok <==> forall y | test < y <= from :: TestsFree(ps, a, y))
      decreases test - end
    {
      ok := IsFree(ps, a, test);
      test := test - 1;
    }
  }

  // ----- the operations on a table -----

  datatype Env = Env(area: Area, alignment: nat)

  datatype Op = Create(part: nat, start: nat, end: nat) | Delete(part: nat) | Exchange(i: nat, j: nat) | Sort

  /** CreatePartition succeeds. */
  predicate CanCreate(ps: Table, env: Env, part: nat, start: nat, end: nat)
    requires env.alignment > 0
  {
    && part < |ps| && !ps[part].used
    && var s := Aligned(ps, env.area, start, env.alignment);
       TestsFree(ps, env.area, s) && s <= end && Near(ps, env.area, s, |ps|) >= end
  }

  function Created(ps: Table, env: Env, part: nat, start: nat, end: nat): Table
    requires env.alignment > 0 && part < |ps|
  {
    ps[part := Part(true, Aligned(ps, env.area, start, env.alignment), end)]
  }

  /** DeletePartition accepts numbers between the first and the last used entry. */
  predicate CanDelete(ps: Table, part: nat) {
    part < |ps| && (exists i | 0 <= i <= part :: ps[i].used) && exists i | part <= i < |ps| :: ps[i].used
  }

  /** The order of entries, as the source defines it. */
  predicate Less(p: Part, q: Part) {
    if p.first > 0 && q.first > 0 then p.first < q.first else q.first < p.first
  }

  function LessThan(): (Part, Part) -> bool {
    (p: Part, q: Part) => Less(p, q)
  }

  function Apply(ps: Table, env: Env, op: Op): (r: Table)
    requires env.alignment > 0
    ensures |r| == |ps|
  {
    match op
    case Create(part, start, end) => if CanCreate(ps, env, part, start, end) then Created(ps, env, part, start, end) else ps
    case Delete(part) => if CanDelete(ps, part) then ps[part := UNUSED] else ps
    case Exchange(i, j) => if i < |ps| && j < |ps| then ps[i := ps[j]][j := ps[i]] else ps
    case Sort => SortBy(LessThan(), ps)
  }

  /** The requested end is free: what CreatePartition does not make sure of. */
  predicate Careful(ps: Table, env: Env, op: Op)
    requires env.alignment > 0
  {
    op.Create? && CanCreate(ps, env, op.part, op.start, op.end) ==> FreeSector(ps, env.area, op.end)
  }

  lemma UpToEndFree(ps: Table, a: Area, s: nat, end: nat)
    requires Sound(ps, a) && FreeSector(ps, a, s) && s <= end <= Near(ps, a, s, |ps|)
    ensures FreeSector(ps, a, end) <==> AllFree(ps, a, s, end)
  {
    GapEnd(ps, a, s);
    assert AllFree(ps, a, s, end) ==> FreeSector(ps, a, end);
  }

  lemma FreeIsCompatible(ps: Table, a: Area, s: nat, end: nat, i: nat)
    requires Sound(ps, a) && s <= end && AllFree(ps, a, s, end) && i < |ps|
    ensures Compatible(Part(true, s, end), ps[i]) && Compatible(ps[i], Part(true, s, end))
  {
    assert Proper(ps[i], a);
    assert FreeSector(ps, a, s) && FreeSector(ps, a, end);
    if ps[i].used && s <= ps[i].first <= end {
      assert FreeSector(ps, a, ps[i].first) && Covers(ps[i], ps[i].first);
    }
  }

  /** A partition made by CreatePartition keeps the table sound if and only if the requested end was free. */
  lemma CreateExact(ps: Table, env: Env, part: nat, start: nat, end: nat)
    requires env.alignment > 0 && Sound(ps, env.area) && CanCreate(ps, env, part, start, end)
    ensures Sound(Created(ps, env, part, start, end), env.area) <==> FreeSector(ps, env.area, end)
  {
    var a, s := env.area, Aligned(ps, env.area, start, env.alignment);
    TestIsRight(ps, a, s);
    UpToEndFree(ps, a, s, end);
    var qs := Created(ps, env, part, start, end);
    if FreeSector(ps, a, end) {
      forall i, j | 0 <= i < j < |qs| ensures Compatible(qs[i], qs[j]) {
        assert Compatible(ps[i], ps[j]);
        FreeIsCompatible(ps, a, s, end, i);
        FreeIsCompatible(ps, a, s, end, j);
      }
      assert forall i | 0 <= i < |ps| :: Proper(ps[i], a);
    } else {
      var i :| 0 <= i < |ps| && ps[i].used && Covers(ps[i], end);
      if Sound(qs, a) {
        SharedSector(qs, a, i, part, end);
      }
    }
  }

  /** Where every partition has two sectors or more, the end CreatePartition accepts is free. */
  lemma LongTablesAreCareful(ps: Table, env: Env, op: Op)
    requires env.alignment > 0 && Sound(ps, env.area)
    requires forall i | 0 <= i < |ps| :: ps[i].used ==> ps[i].first < ps[i].last
    ensures Careful(ps, env, op)
  {
    if op.Create? && CanCreate(ps, env, op.part, op.start, op.end) {
      var a, s := env.area, Aligned(ps, env.area, op.start, env.alignment);
      TestIsRight(ps, a, s);
      LongPartitionsAreTame(ps, a);
      GapEnd(ps, a, s);
    }
  }

  lemma SoundAfterDelete(ps: Table, a: Area, part: nat)
    requires Sound(ps, a) && part < |ps|
    ensures Sound(ps[part := UNUSED], a)
  {
    var qs := ps[part := UNUSED];
    forall i, j | 0 <= i < j < |qs| ensures Compatible(qs[i], qs[j]) {
      assert Compatible(ps[i], ps[j]);
    }
    assert forall i | 0 <= i < |ps| :: Proper(ps[i], a);
  }

  lemma CompatibleBothWays(ps: Table, a: Area, i: nat, j: nat)
    requires Sound(ps, a) && i < |ps| && j < |ps| && i != j
    ensures Compatible(ps[i], ps[j])
  {
    assert Proper(ps[i], a) && Proper(ps[j], a);
    assert if i < j then Compatible(ps[i], ps[j]) else Compatible(ps[j], ps[i]);
  }

  lemma SoundAfterExchange(ps: Table, a: Area, i: nat, j: nat)
    requires Sound(ps, a) && i < |ps| && j < |ps|
    ensures Sound(ps[i := ps[j]][j := ps[i]], a)
  {
    var qs := ps[i := ps[j]][j := ps[i]];
    assert forall k | 0 <= k < |qs| :: qs[k] == ps[From(i, j, k)];
    forall x, y | 0 <= x < y < |qs| ensures Compatible(qs[x], qs[y]) {
      CompatibleBothWays(ps, a, From(i, j, x), From(i, j, y));
    }
    assert forall k | 0 <= k < |ps| :: Proper(ps[k], a);
  }

  function From(i: nat, j: nat, k: nat): nat {
    if k == i then j else if k == j then i else k
  }

  function BothWays(): (Part, Part) -> bool {
    (p: Part, q: Part) => Compatible(p, q) && Compatible(q, p)
  }

  function ProperIn(a: Area): Part -> bool {
    (p: Part) => Proper(p, a)
  }

  /** Used partitions by their first sector, unused entries last. */
  function Position(a: Area): Part -> int {
    (p: Part) => if p.first > 0 then p.first else a.last + 1
  }

  lemma SoundAfterSort(ps: Table, a: Area)
    requires Sound(ps, a)
    ensures Sound(SortBy(LessThan(), ps), a) && Sorted(Position(a), SortBy(LessThan(), ps))
  {
    var qs := SortBy(LessThan(), ps);
    forall i, j | 0 <= i < j < |ps| ensures BothWays()(ps[i], ps[j]) {
      CompatibleBothWays(ps, a, i, j);
      CompatibleBothWays(ps, a, j, i);
    }
    SortPairs(LessThan(), BothWays(), ps);
    assert AllOf(ProperIn(a), ps);
    SortSorted(LessThan(), Position(a), ProperIn(a), ps);
    forall i, j | 0 <= i < j < |qs| ensures Compatible(qs[i], qs[j]) {
      assert BothWays()(qs[i], qs[j]);
    }
    forall i | 0 <= i < |qs| ensures Proper(qs[i], a) {
      assert ProperIn(a)(qs[i]);
    }
  }

  /** Every operation keeps a sound table sound, if a created partition ends at a free sector. */
  lemma ApplyKeepsSound(ps: Table, env: Env, op: Op)
    requires env.alignment > 0 && Sound(ps, env.area)
    ensures Sound(Apply(ps, env, op), env.area) <==> Careful(ps, env, op)
  {
    match op {
      case Create(part, start, end) =>
        if CanCreate(ps, env, part, start, end) {
          CreateExact(ps, env, part, start, end);
        }
      case Delete(part) =>
        if CanDelete(ps, part) {
          SoundAfterDelete(ps, env.area, part);
        }
      case Exchange(i, j) =>
        if i < |ps| && j < |ps| {
          SoundAfterExchange(ps, env.area, i, j);
        }
      case Sort => SoundAfterSort(ps, env.area);
    }
  }

  /** A run of operations. */
  function Run(ps: Table, env: Env, ops: seq<Op>): Table
    requires env.alignment > 0
    decreases |ops|
  {
    if ops == [] then ps else Run(Apply(ps, env, ops[0]), env, ops[1..])
  }

  predicate AllCareful(ps: Table, env: Env, ops: seq<Op>)
    requires env.alignment > 0
    decreases |ops|
  {
    ops == [] || (Careful(ps, env, ops[0]) && AllCareful(Apply(ps, env, ops[0]), env, ops[1..]))
  }

  lemma {:induction false} RunKeepsSound(ps: Table, env: Env, ops: seq<Op>)
    requires env.alignment > 0 && Sound(ps, env.area) && AllCareful(ps, env, ops)
    ensures Sound(Run(ps, env, ops), env.area)
    decreases |ops|
  {
    if ops != [] {
      ApplyKeepsSound(ps, env, ops[0]);
      RunKeepsSound(Apply(ps, env, ops[0]), env, ops[1..]);
    }
  }

  predicate Long(ps: Table) {
    forall i | 0 <= i < |ps| :: ps[i].used ==> ps[i].first < ps[i].last
  }

  /** The partitions that the run makes have two sectors or more. */
  predicate MakesLong(ps: Table, env: Env, ops: seq<Op>)
    requires env.alignment > 0
    decreases |ops|
  {
    ops == [] || (Long(Apply(ps, env, ops[0])) && MakesLong(Apply(ps, env, ops[0]), env, ops[1..]))
  }

  /** From a table of partitions of two sectors or more, runs that make only such partitions need no care. */
  lemma {:induction false} LongRunsAreCareful(ps: Table, env: Env, ops: seq<Op>)
    requires env.alignment > 0 && Sound(ps, env.area) && Long(ps) && MakesLong(ps, env, ops)
    ensures AllCareful(ps, env, ops)
    decreases |ops|
  {
    if ops != [] {
      LongTablesAreCareful(ps, env, ops[0]);
      ApplyKeepsSound(ps, env, ops[0]);
      LongRunsAreCareful(Apply(ps, env, ops[0]), env, ops[1..]);
    }
  }

  /** With a one-sector partition at the end of the area, the sectors before it can be given out together with it. */
  lemma CreateMayOverlap(first: nat, last: nat)
    requires 0 < first < last
    ensures var ps, env := [Part(true, last, last), UNUSED], Env(Area(first, last), 1);
            && Sound(ps, env.area) && CanCreate(ps, env, 1, first, last)
            && Overlap(Created(ps, env, 1, first, last)[0], Created(ps, env, 1, first, last)[1])
  {
    var ps, env := [Part(true, last, last), UNUSED], Env(Area(first, last), 1);
    assert Aligned(ps, env.area, first, 1) == first;
    assert forall i | 0 <= i < |ps| :: Proper(ps[i], env.area) && !Covers(ps[i], first);
    assert Near(ps, env.area, first, 0) == last && Near(ps, env.area, first, 1) == last && Near(ps, env.area, first, 2) == last;
  }

  // ----- the program's own checks -----

  method FindOverlaps(ps: Table) returns (problems: nat)
    ensures problems == 0 <==> forall i, j | 0 <= j < i < |ps| :: Compatible(ps[i], ps[j])
  {
    problems := 0;
    for i := 0 to |ps|
      invariant problems == 0 <==> forall x, y | 0 <= y < x < i :: Compatible(ps[x], ps[y])
    {
      for j := 0 to i
        invariant problems == 0 <==>
                    (forall x, y | 0 <= y < x < i :: Compatible(ps[x], ps[y])) && forall y | 0 <= y < j :: Compatible(ps[i], ps[y])
      {
        if ps[i].used && ps[j].used && Overlap(ps[i], ps[j]) {
          problems := problems + 1;
        }
      }
    }
  }

  predicate Insane(p: Part, diskSize: nat) {
    p.used && (p.first > p.last || p.last >= diskSize)
  }

  method FindInsanePartitions(ps: Table, diskSize: nat) returns (problems: nat)
    ensures problems == 0 <==> forall i | 0 <= i < |ps| :: !Insane(ps[i], diskSize)
  {
    problems := 0;
    for i := 0 to |ps|
      invariant problems == 0 <==> forall k | 0 <= k < i :: !Insane(ps[k], diskSize)
    {
      if ps[i].used {
        if ps[i].first > ps[i].last {
          problems := problems + 1;
        }
        if ps[i].last >= diskSize {
          problems := problems + 1;
        }
      }
    }
  }

  predicate Overruns(p: Part, a: Area) {
    p.used && (p.first < a.first || p.last > a.last)
  }

  const MAX64: nat := 0xFFFF_FFFF_FFFF_FFFF

  /** CheckGPTSize: one problem if a partition starts before the usable area, one if one ends after it. */
  method CheckGPTSize(ps: Table, a: Area, diskSize: nat) returns (problems: nat)
    requires a.first <= MAX64
    ensures diskSize > 0 ==> (problems == 0 <==> forall i | 0 <= i < |ps| :: !Overruns(ps[i], a))
  {
    var firstUsed, lastUsed := MAX64, 0;
    for i := 0 to |ps|
      invariant a.first > firstUsed <==> exists k | 0 <= k < i :: ps[k].used && ps[k].first < a.first
      invariant a.last < lastUsed <==> exists k | 0 <= k < i :: ps[k].used && ps[k].last > a.last
      invariant firstUsed <= MAX64 && forall k | 0 <= k < i && ps[k].used :: firstUsed <= ps[k].first && ps[k].last <= lastUsed
    {
      if ps[i].used {
        if ps[i].first < firstUsed {
          firstUsed := ps[i].first;
        }
        if ps[i].last > lastUsed {
          lastUsed := ps[i].last;
        }
      }
    }
    problems := 0;
    if diskSize != 0 {
      if a.first > firstUsed {
        problems := problems + 1;
      }
      if a.last < lastUsed {
        problems := problems + 1;
      }
    }
  }

  /** On a sound table all three checks find nothing. */
  method VerifySound(ps: Table, a: Area, diskSize: nat) returns (overlaps: nat, insane: nat, overruns: nat)
    requires Sound(ps, a) && a.last < diskSize && a.first <= MAX64
    ensures overlaps == 0 && insane == 0 && overruns == 0
  {
    forall i, j | 0 <= j < i < |ps| ensures Compatible(ps[i], ps[j]) {
      CompatibleBothWays(ps, a, i, j);
    }
    assert forall i | 0 <= i < |ps| :: Proper(ps[i], a);
    overlaps := FindOverlaps(ps);
    insane := FindInsanePartitions(ps, diskSize);
    overruns := CheckGPTSize(ps, a, diskSize);
  }

  // ----- the table in memory -----

  /** How many entries are used. */
  function Used(ps: Table): nat {
    if ps == [] then 0 else Used(ps[..|ps| - 1]) + if ps[|ps| - 1].used then 1 else 0
  }

  class PartitionTable {
    const partitions: array<Part>
    const env: Env

    ghost predicate Valid()
      reads this
    {
      env.alignment > 0
    }

    /** A table without partitions is sound. */
    constructor (numParts: nat, env: Env)
      requires env.alignment > 0
      ensures Valid() && this.env == env && fresh(partitions) && partitions.Length == numParts
      ensures env.area.first > 0 ==> Sound(partitions[..], env.area)
    {
      this.env := env;
      partitions := new Part[numParts](_ => UNUSED);
    }

    method CreatePartition(part: nat, start: nat, end: nat) returns (ok: bool)
      requires Valid()
      modifies partitions
      ensures ok <==> CanCreate(old(partitions[..]), env, part, start, end)
      ensures partitions[..] == Apply(old(partitions[..]), env, Create(part, start, end))
    {
      ok := false;
      var ps := partitions[..];
      if part < partitions.Length && !ps[part].used {
        var s, _ := Align(ps, env.area, start, env.alignment);
        var free := IsFree(ps, env.area, s);
        if free && s <= end {
          var last := FindLastInFree(ps, env.area, s);
          if last >= end {
            partitions[part] := Part(true, s, end);
            ok := true;
          }
        }
      }
    }

    /** GetPartRange. */
    method GetPartRange() returns (found: nat, low: nat, high: nat)
      ensures found == Used(partitions[..])
      ensures found == 0 <==> forall i | 0 <= i < partitions.Length :: !partitions[i].used
      ensures found == 0 ==> low == high == 0
      ensures found > 0 ==> low <= high < partitions.Length && partitions[low].used && partitions[high].used
                            && forall i | 0 <= i < partitions.Length && partitions[i].used :: low <= i <= high
    {
      found, low, high := 0, partitions.Length + 1, 0;
      for i := 0 to partitions.Length
        invariant found == Used(partitions[..i]) && (found == 0 ==> high == 0)
        invariant found == 0 <==> low == partitions.Length + 1
        invariant found == 0 ==> forall k | 0 <= k < i :: !partitions[k].used
        invariant found > 0 ==> low <= high < i && partitions[low].used && partitions[high].used
                                && forall k | 0 <= k < i && partitions[k].used :: low <= k <= high
      {
        assert partitions[..i + 1][..i] == partitions[..i];
        if partitions[i].used {
          high := i;
          if low == partitions.Length + 1 {
            low := i;
          }
          found := found + 1;
        }
      }
      assert partitions[..partitions.Length] == partitions[..];
      if low == partitions.Length + 1 {
        low := 0;
      }
    }

    method DeletePartition(part: nat) returns (ok: bool)
      requires Valid()
      modifies partitions
      ensures ok <==> CanDelete(old(partitions[..]), part)
      ensures partitions[..] == Apply(old(partitions[..]), env, Delete(part))
    {
      var found, low, high := GetPartRange();
      ghost var ps := partitions[..];
      ok := found > 0 && low <= part <= high;
      if ok {
        assert ps[low].used && ps[high].used;
        partitions[part] := UNUSED;
      }
    }

    method SwapPartitions(i: nat, j: nat) returns (ok: bool)
      requires Valid()
      modifies partitions
      ensures ok <==> i < partitions.Length && j < partitions.Length
      ensures partitions[..] == Apply(old(partitions[..]), env, Exchange(i, j))
    {
      ok := i < partitions.Length && j < partitions.Length;
      if ok && i != j {
        var temp := partitions[i];
        partitions[i] := partitions[j];
        partitions[j] := temp;
      }
    }

    /** SortGPT, with the library sort as a function. */
    method SortGPT()
      requires Valid()
      modifies partitions
      ensures partitions[..] == Apply(old(partitions[..]), env, Sort)
    {
      var s := SortBy(LessThan(), partitions[..]);
      for i := 0 to partitions.Length
        invariant forall k | 0 <= k < i :: partitions[k] == s[k]
      {
        partitions[i] := s[i];
      }
    }
  }
}
