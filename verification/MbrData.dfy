/** The MBR table in memory and its way to and from the disk (external/gptfdisk/basicmbr.cc). */
module MbrData {
  import opened Lists
  import opened MbrTable
  import opened MbrRearrange
  import opened MbrChain
  import opened MbrReader

  // ----- is the table legal? -----

  method FindOverlaps(ps: Table) returns (problems: nat)
    ensures problems == 0 <==> Pairwise(ps)
  {
    problems := 0;
    for i := 0 to |ps|
      invariant problems == 0 <==> forall x, y | 0 <= x < i && x < y < |ps| :: Compatible(ps[x], ps[y])
    {
      for j := i + 1 to |ps|
        invariant problems == 0 <==>
                    (forall x, y | 0 <= x < i && x < y < |ps| :: Compatible(ps[x], ps[y]))
                    && forall y | i < y < j :: Compatible(ps[i], ps[y])
      {
        if Included(ps[i]) && Included(ps[j]) && Overlap(ps[i], ps[j]) {
          problems := problems + 1;
        }
      }
    }
  }

  method CountPrimaries(ps: Table) returns (n: nat)
    ensures n == NumPrimaries(ps)
  {
    n := 0;
    var logicals := 0;
    for i := 0 to |ps|
      invariant n == Count(UsedPrimary(), ps[..i]) && 0 <= logicals <= 1
      invariant logicals == 1 <==> exists k | 0 <= k < i :: ps[k].length > 0 && IsLogical(ps[k])
    {
      assert ps[..i + 1][..i] == ps[..i];
      if ps[i].length > 0 {
        if ps[i].incl == Primary {
          n := n + 1;
        }
        if ps[i].incl == Logical {
          logicals := 1;
        }
      }
    }
    assert ps[..|ps|] == ps;
    n := n + logicals;
  }

  method FirstLogicalLBA(ps: Table) returns (first: nat)
    ensures first == FirstLogical(ps)
  {
    first := MAX32;
    for i := 0 to |ps|
      invariant first == FirstLogical(ps[..i])
    {
      assert ps[..i + 1][..i] == ps[..i];
      if ps[i].incl == Logical && ps[i].start < first {
        first := ps[i].start;
      }
    }
    assert ps[..|ps|] == ps;
  }

  method LastLogicalLBA(ps: Table) returns (last: nat)
    ensures last == LastLogical(ps)
  {
    last := 0;
    for i := 0 to |ps|
      invariant last == LastLogical(ps[..i])
    {
      assert ps[..i + 1][..i] == ps[..i];
      if ps[i].incl == Logical && Last(ps[i]) > last {
        last := Last(ps[i]);
      }
    }
    assert ps[..|ps|] == ps;
  }

  method AreLogicalsContiguous(ps: Table) returns (ok: bool)
    ensures ok == Contiguous(ps)
  {
    var first := FirstLogicalLBA(ps);
    var last := LastLogicalLBA(ps);
    ok := true;
    if last > 0 {
      var i := 0;
      while i < |ps| && ok
        invariant i <= |ps| && (ok <==> forall k | 0 <= k < i :: !Between(ps, k))
      {
        if ps[i].incl == Primary && ps[i].start >= EbrBefore(first) && ps[i].start <= last {
          ok := false;
        }
        assert ok <==> !Between(ps, i);
        i := i + 1;
      }
    }
  }

  method DoTheyFit(ps: Table, diskSize: nat) returns (ok: bool)
    ensures ok <==> forall i | 0 <= i < |ps| :: Fits(ps[i], diskSize)
  {
    ok := true;
    for i := 0 to |ps|
      invariant ok <==> forall k | 0 <= k < i :: Fits(ps[k], diskSize)
    {
      if ps[i].start > diskSize || Last(ps[i]) > diskSize {
        ok := false;
      }
    }
  }

  method SectorUsedAs(ps: Table, diskSize: nat, sector: nat) returns (use: Use)
    ensures use == UsedAs(ps, diskSize, sector, |ps|)
  {
    use := Free;
    var i := 0;
    while i < |ps| && (use == Free || use == Ebr)
      invariant i <= |ps| && use == UsedAs(ps, diskSize, sector, i)
    {
      if ps[i].start <= sector && Last(ps[i]) >= sector {
        use := if Included(ps[i]) then UsedBy(ps[i].incl) else Free;
      }
      if ps[i].start == sector + 1 && ps[i].incl == Logical {
        use := Ebr;
      }
      if sector == 0 {
        use := Ebr;
      }
      if sector >= diskSize {
        use := Invalid;
      }
      i := i + 1;
    }
    UseSettled(ps, diskSize, sector, i, |ps|);
  }

  lemma {:induction false} UseSettled(ps: Table, diskSize: nat, sector: nat, i: nat, n: nat)
    requires i <= n <= |ps|
    requires i < n ==> UsedAs(ps, diskSize, sector, i) != Free && UsedAs(ps, diskSize, sector, i) != Ebr
    ensures UsedAs(ps, diskSize, sector, n) == UsedAs(ps, diskSize, sector, i)
    decreases n
  {
    if i < n {
      UseSettled(ps, diskSize, sector, i, n - 1);
    }
  }

  method SpaceBeforeAllLogicals(ps: Table, diskSize: nat) returns (ok: bool)
    ensures ok <==> forall i | 0 <= i < |ps| :: SpaceBefore(ps, diskSize, i)
  {
    ok := true;
    var i := 0;
    while i < |ps| && ok
      invariant i <= |ps| && (ok <==> forall k | 0 <= k < i :: SpaceBefore(ps, diskSize, k))
    {
      if ps[i].start > 0 && ps[i].incl == Logical {
        var use := SectorUsedAs(ps, diskSize, ps[i].start - 1);
        ok := use == Ebr;
      }
      assert ok <==> SpaceBefore(ps, diskSize, i);
      i := i + 1;
    }
  }

  method IsLegal(ps: Table, diskSize: nat) returns (ok: bool)
    ensures ok == Legal(ps, diskSize)
  {
    var problems := FindOverlaps(ps);
    ok := problems == 0;
    if ok {
      var n := CountPrimaries(ps);
      ok := n <= 4;
    }
    if ok {
      ok := AreLogicalsContiguous(ps);
    }
    if ok {
      ok := DoTheyFit(ps, diskSize);
    }
    if ok {
      ok := SpaceBeforeAllLogicals(ps, diskSize);
    }
  }

  // ----- writing the chain -----

  method NumLogicals(ps: Table) returns (n: nat)
    ensures n == Count(ALogical(), ps) && (n > 0 <==> AnyLogical(ps))
  {
    n := 0;
    for i := 0 to |ps|
      invariant n == Count(ALogical(), ps[..i])
    {
      assert ps[..i + 1][..i] == ps[..i];
      if ps[i].incl == Logical {
        n := n + 1;
      }
    }
    assert ps[..|ps|] == ps;
    CountNone(ALogical(), ps);
  }

  method FindNextInUse(ps: Table, start: nat) returns (r: int)
    requires start <= |ps|
    ensures FoundNext(ps, start, r) && (r != -1 ==> Included(ps[r]))
  {
    r := start;
    while r < |ps| && ps[r].incl == Omitted
      invariant start <= r <= |ps| && InUseFrom(ps, start) == InUseFrom(ps, r)
    {
      r := r + 1;
    }
    if r >= |ps| {
      r := -1;
    }
  }

  /** The record that EBR k overwrites: its partition, and a link to the next one if there is one. */
  method FillEbr(rec: Record, p: Part, next: Table, ext: nat) returns (r: Record)
    ensures r == EbrRecord(rec, p, next, ext)
  {
    var link := rec.entries[1];
    if next != [] && next[0].start > 0 {
      link := Entry(link.status, 0x0f, Wrap32(next[0].start - ext - 1), Wrap32(next[0].length + 1));
    } else {
      link := Entry(link.status, 0, 0, 0);
    }
    r := rec.(entries := [Stored(p).(first := 1), link, rec.entries[2], rec.entries[3]]);
  }

  /** One round of the loop of WriteMBRData over the logical partitions. */
  method WriteRound(ps: Table, disk: Disk, rec: Record, ext: nat, partNum: nat, ebr: nat, ghost before: Disk, ghost k: nat)
    returns (after: Disk, r: Record, next: int, nextEbr: nat, more: bool)
    requires partNum < MAX_PARTS && WritingFrom(before, ps, ext, k)(disk, rec, partNum, ebr, true)
    ensures WritingFrom(before, ps, ext, k + 1)(after, r, next, nextEbr, more) && k < |InUseFrom(ps, 4)|
  {
    next := FindNextInUse(ps, partNum + 1);
    WritingOn(before, disk, ps, ext, k, partNum, ebr, rec, next);
    r := FillEbr(rec, ps[partNum], if next > 0 then [ps[next]] else [], ext);
    after := disk[ebr := r];
    nextEbr := r.entries[1].first + ext;
    more := next > 0;
  }

  /** The loop of WriteMBRData over the logical partitions. */
  method WriteChain(ps: Table, disk: Disk, main: Record, ext: nat) returns (after: Disk)
    requires |ps| == MAX_PARTS && main.signature == SIGNATURE && Chainable(InUseFrom(ps, 4), ext)
    ensures var ls := InUseFrom(ps, 4); ChainOn(after, ls, |ls|) && OnlyEbrs(disk, after, ls, |ls|)
  {
    after := disk;
    var rec := main.(diskSignature := 0, entries := [main.entries[0], main.entries[1],
                     NO_ENTRY.(status := main.entries[2].status), NO_ENTRY.(status := main.entries[3].status)]);
    var ebr: nat, more := ext, true;
    ghost var k: nat := 0;
    var partNum := FindNextInUse(ps, 4);
    WritingBegins(disk, ps, ext, partNum, rec);
    while more && 0 <= partNum < MAX_PARTS
      invariant WritingFrom(disk, ps, ext, k)(after, rec, partNum, ebr, more)
      decreases |InUseFrom(ps, 4)| - k
    {
      after, rec, partNum, ebr, more := WriteRound(ps, after, rec, ext, partNum, ebr, disk, k);
      k := k + 1;
    }
    WritingEnds(disk, after, ps, ext, k, rec, partNum, ebr, more);
  }

  /** The loop of ReadLogicalParts that looks for the offset among the locations read. */
  method CountSeen(locs: seq<nat>, offset: nat) returns (hits: nat)
    ensures hits == CountEq(locs, offset)
  {
    hits := 0;
    for i := 0 to |locs|
      invariant hits == CountEq(locs[..i], offset)
    {
      assert locs[..i + 1][..i] == locs[..i];
      if locs[i] == offset {
        hits := hits + 1;
      }
    }
    assert locs[..|locs|] == locs;
  }

  /** The main record, and the chain behind an entry of kind 0x0f. */
  method WriteAll(q: Table, disk: Disk, main: Record, ghost ps: Table, ghost diskSize: nat) returns (after: Disk)
    requires |ps| == MAX_PARTS && Ready(ps, diskSize) && CanExtend(Placed(ps)) && q == WithExtended(Placed(ps))
    requires main.entries == [Stored(q[0]), Stored(q[1]), Stored(q[2]), Stored(q[3])] && main.signature == SIGNATURE
    ensures Written(disk, after, Placed(ps), main)
  {
    var ext, more := 0, false;
    for i := 0 to 4
      invariant more ==> exists k | 0 <= k < i :: q[k].kind == 0x0f && ext == q[k].start
      invariant !more ==> forall k | 0 <= k < i :: q[k].kind != 0x0f
    {
      if q[i].kind == 0x0f {
        ext, more := q[i].start, true;
      }
    }
    after := disk[0 := main];
    PlacedOk(ps, diskSize);
    ExtendedInPlace(ps, Placed(ps));
    if more {
      after := WriteChain(q, after, main, ext);
    }
  }

  method LacksProtective(ps: Table) returns (ok: bool)
    ensures ok == NoProtective(ps)
  {
    ok := true;
    for i := 0 to |ps|
      invariant ok <==> forall k | 0 <= k < i :: ps[k].kind != 0xEE
    {
      if ps[i].kind == 0xEE {
        ok := false;
      }
    }
  }

  // ----- the table in memory -----

  class BasicMBRData {
    const partitions: array<Part>
    var code: seq<int>
    var diskSignature: nat
    var nulls: nat
    var signature: nat
    var diskSize: nat

    ghost predicate Valid()
      reads this
    {
      partitions.Length == MAX_PARTS
    }

    /** EmptyMBR: a table without partitions is legal, and can be written. */
    constructor (diskSize: nat)
      ensures Valid() && fresh(partitions) && signature == SIGNATURE && this.diskSize == diskSize
      ensures partitions[..] == Blanks(MAX_PARTS) && Ready(partitions[..], diskSize)
    {
      partitions := new Part[MAX_PARTS](_ => BLANK);
      code, diskSignature, nulls, signature := seq(440, i => 0), 0, 0, SIGNATURE;
      this.diskSize := diskSize;
      new;
      assert partitions[..] == Blanks(MAX_PARTS);
      BlanksAreReady(diskSize);
    }

    method Swap(i: nat, j: nat)
      requires i < partitions.Length && j < partitions.Length
      modifies partitions
      ensures partitions[..] == Swapped(old(partitions[..]), i, j)
    {
      var temp := partitions[j];
      partitions[j] := partitions[i];
      partitions[i] := temp;
      assert forall k | 0 <= k < partitions.Length :: partitions[k] == Swapped(old(partitions[..]), i, j)[k];
    }

    method FirstOf(f: Part -> bool, lo: nat, hi: nat) returns (j: nat)
      requires lo <= hi <= partitions.Length
      ensures j == FirstWhere(f, partitions[..], lo, hi)
    {
      j := lo;
      while j < hi && !f(partitions[j])
        invariant lo <= j <= hi && FirstWhere(f, partitions[..], lo, hi) == FirstWhere(f, partitions[..], j, hi)
      {
        j := j + 1;
      }
    }

    method RemoveLogicalsFromFirstFour()
      requires Valid()
      modifies partitions
      ensures partitions[..] == Removed(old(partitions[..]), 4)
    {
      for i := 0 to 4
        invariant partitions[..] == Removed(old(partitions[..]), i)
      {
        RemoveLogical(i);
      }
    }

    method RemoveLogical(i: nat)
      requires Valid() && i < 4
      modifies partitions
      ensures partitions[..] == RemoveOne(old(partitions[..]), i)
    {
      if partitions[i].incl != Primary && partitions[i].length > 0 {
        var j := FirstOf(FreeSlot(), 4, partitions.Length);
        if j < partitions.Length {
          Swap(i, j);
        }
      }
    }

    method MovePrimariesToFirstFour()
      requires Valid()
      modifies partitions
      ensures partitions[..] == Moved(old(partitions[..]), MAX_PARTS)
    {
      for i := 4 to partitions.Length
        invariant partitions[..] == Moved(old(partitions[..]), i)
      {
        if partitions[i].incl == Primary {
          var j := FirstOf(NotPrimary(), 0, 4);
          if j < 4 {
            Swap(i, j);
          }
        }
      }
    }

    /** SortMBR(4), with the library sort as a function. */
    method SortLogicals()
      requires Valid()
      modifies partitions
      ensures partitions[..] == old(partitions[..4]) + SortedTable(old(partitions[4..]))
    {
      var s := SortedTable(partitions[4..]);
      for i := 4 to partitions.Length
        invariant partitions[..] == old(partitions[..4]) + s[..i - 4] + old(partitions[i..])
      {
        partitions[i] := s[i - 4];
      }
    }

    /** The entries moved and sorted, before the extended partition is put in. */
    method Arrange() returns (logicals: bool)
      requires Valid()
      modifies partitions
      ensures partitions[..] == Placed(old(partitions[..])) && logicals == AnyLogical(partitions[..])
    {
      RemoveLogicalsFromFirstFour();
      MovePrimariesToFirstFour();
      var n := NumLogicals(partitions[..]);
      logicals := n > 0;
      ghost var q := partitions[..];
      if logicals {
        SortLogicals();
        SortKeepsLogicals(q);
      }
    }

    method CreateExtended() returns (ok: bool)
      requires Valid()
      modifies partitions
      ensures !Legal(old(partitions[..]), diskSize) ==> !ok && partitions[..] == old(partitions[..])
      ensures Legal(old(partitions[..]), diskSize) ==>
                var r := Placed(old(partitions[..])); ok == CanExtend(r) && partitions[..] == WithExtended(r)
    {
      ok := IsLegal(partitions[..], diskSize);
      if ok {
        var logicals := Arrange();
        ghost var r := partitions[..];
        if logicals {
          var ext := Extended(partitions[..]);
          var k := FirstOf(EmptySlot(), 0, 4);
          if k < 4 {
            partitions[k] := ext;
            assert partitions[..] == WithExtended(r);
            ok := LacksProtective(partitions[..]);
          } else {
            ok := false;
          }
        }
      }
    }

    /** One round of the loop of ReadLogicalParts. */
    method ReadRound(disk: Disk, ext: nat, w: Walk) returns (v: Walk)
      requires Valid() && Running(w) && 4 <= w.partNum && w.ok == 1 && w.offset > 0 && Distinct(w.locs)
      modifies partitions
      ensures SameReader(v, Step(disk, ext, w)) && partitions[..] == Stores(disk, w, old(partitions[..]))
    {
      var partNum, offset, ok, another := w.partNum, w.offset, w.ok, true;
      CountEqDistinct(w.locs, offset);
      var hits := CountSeen(w.locs, offset);
      if hits > 0 {
        ok, partNum := -1, partNum - hits;
      }
      var locs := w.locs[partNum := offset];
      if offset !in disk || disk[offset].signature != SIGNATURE {
        ok := -1;
      }
      if ok > 0 {
        var e := disk[offset].entries;
        if ExtendedKind(e[0].kind) {
          offset := ext + e[0].first;
        } else {
          partitions[partNum] := Loaded(e[0]).(start := Wrap32(e[0].first + offset), incl := Logical);
          if e[1].first != 0 && partNum < MAX_PARTS - 1 {
            offset := ext + e[1].first;
            partNum := partNum + 1;
          } else {
            another := false;
          }
        }
      }
      v := Walk(partNum, offset, locs, another, ok);
    }

    /**
      ReadLogicalParts. It ends if and only if it never comes to a circle of two or more records that only point on.
     */
    method ReadLogicalParts(disk: Disk, ext: nat, start: nat) returns (r: int)
      requires Valid() && 4 <= start && ext > 0 && !EntersCycle(disk, ext, start)
      modifies partitions
      ensures Ends(disk, ext, start) && r == Outcome(disk, ext, start)
      ensures partitions[..] == TableRead(disk, ext, start, old(partitions[..]))
      ensures (r >= 3 || r <= -3) && partitions[..4] == old(partitions[..4])
    {
      var w := Begin(ext, start);
      EndsUnlessCycle(disk, ext, start);
      ghost var before, end: int, n: nat := partitions[..], Rounds(disk, ext, start), 0;
      FollowsBegins(disk, ext, start, before);
      while w.another && 0 <= w.partNum < MAX_PARTS && w.ok > 0
        invariant FollowsAt(disk, ext, start, before, n)(w, partitions[..])
        decreases end - n
      {
        ghost var ps, was := partitions[..], w;
        NotYet(disk, ext, start, n, end);
        w := ReadRound(disk, ext, w);
        FollowsRound(disk, ext, start, before, n, was, ps, w);
        n := n + 1;
      }
      OutcomeIs(disk, ext, start, before, n);
      r := w.partNum * w.ok;
    }

    /** Blank the extended entries. */
    method DeleteExtendedParts()
      modifies partitions
      ensures forall i | 0 <= i < partitions.Length ::
                var p := old(partitions[i]);
                partitions[i] == if (p.kind == 0x05 || p.kind == 0x0f || p.kind == 0x85) && p.length > 0 then BLANK else p
    {
      for i := 0 to partitions.Length
        invariant forall k | 0 <= k < partitions.Length ::
                    partitions[k] == if k < i && ExtendedKind(old(partitions[k]).kind) && old(partitions[k]).length > 0
                                     then BLANK else old(partitions[k])
      {
        if ExtendedKind(partitions[i].kind) && partitions[i].length > 0 {
          partitions[i] := BLANK;
        }
      }
    }

    /**
      WriteMBRData: nothing is written for a table that is not legal; otherwise the main record and the chain of
      EBRs, and nothing else.
     */
    method WriteMBRData(disk: Disk) returns (ok: bool, after: Disk)
      requires Valid() && signature == SIGNATURE && (Legal(partitions[..], diskSize) ==> Ready(partitions[..], diskSize))
      modifies partitions
      ensures ok <==> Legal(old(partitions[..]), diskSize) && CanExtend(Placed(old(partitions[..])))
      ensures !ok ==> after == disk
      ensures ok ==> Written(disk, after, Placed(old(partitions[..])), MainRecord(WithExtended(Placed(old(partitions[..]))), code, diskSignature, nulls))
      ensures forall i | 0 <= i < partitions.Length && partitions[i].length > 0 :: partitions[i].kind !in {0x05, 0x0f, 0x85}
      ensures ok ==> forall p | Included(p) && p.length > 0 :: p in partitions[..] <==> p in old(partitions[..])
      ensures ok ==> 0 in after && (after[0] == MainRecord(WithExtended(Placed(old(partitions[..]))), code, diskSignature, nulls)
                                    <==> ClearOfMain(old(partitions[..])))
    {
      after := disk;
      ghost var ps := partitions[..];
      ok := CreateExtended();
      if ok {
        var q := partitions[..];
        var main := MainRecord(q, code, diskSignature, nulls);
        after := WriteAll(q, disk, main, ps, diskSize);
        PlacedOk(ps, diskSize);
        MainKeptExactly(ps, Placed(ps), disk, after, main);
      }
      DeleteExtendedParts();
      if ok {
        forall p | Included(p) && p.length > 0 ensures p in partitions[..] <==> p in ps {
          NoneLost(ps, Placed(ps), partitions[..], p);
        }
      }
    }

    /** ReadMBRData. A sector that cannot be read leaves an empty table, and counts as read. */
    method ReadMBRData(disk: Disk) returns (ok: bool)
      requires Valid()
      requires 0 in disk && disk[0].signature == SIGNATURE ==> MainEnds(disk, disk[0].entries, 0, 3)
      modifies this, partitions
      ensures ok <==> 0 in disk ==> disk[0].signature == SIGNATURE
      ensures 0 in disk ==> code == disk[0].code && diskSignature == disk[0].diskSignature && nulls == disk[0].nulls
      ensures partitions[..] == if 0 !in disk then Blanks(MAX_PARTS)
                                else var start := Firsts(disk[0].entries, 0) + Blanks(MAX_PARTS - 4);
                                     if ok then MainRead(disk, disk[0].entries, 0, 3, start) else start
    {
      ok, signature := true, SIGNATURE;
      Blank();
      if 0 in disk {
        var main := disk[0];
        code, diskSignature, nulls, signature := main.code, main.diskSignature, main.nulls, main.signature;
        LoadPrimaries(main.entries);
        ok := signature == SIGNATURE;
        if ok {
          LoadLogicals(disk);
        }
      }
    }

    method Blank()
      requires Valid()
      modifies partitions
      ensures partitions[..] == Blanks(MAX_PARTS)
    {
      for i := 0 to partitions.Length
        invariant forall j | 0 <= j < i :: partitions[j] == BLANK
      {
        partitions[i] := BLANK;
      }
    }

    method LoadPrimaries(entries: Entries)
      requires Valid() && partitions[..] == Blanks(MAX_PARTS)
      modifies partitions
      ensures partitions[..] == Firsts(entries, 0) + Blanks(MAX_PARTS - 4)
    {
      for i := 0 to 4
        invariant forall j | 0 <= j < MAX_PARTS :: partitions[j] == if j < i then Loaded(entries[j]) else BLANK
      {
        partitions[i] := Loaded(entries[i]);
      }
    }

    /** Follow the chain behind each extended entry, and blank the entry. */
    method LoadLogicals(disk: Disk)
      requires Valid() && 0 in disk && partitions[..] == Firsts(disk[0].entries, 0) + Blanks(MAX_PARTS - 4)
      requires MainEnds(disk, disk[0].entries, 0, 3)
      modifies partitions
      ensures partitions[..] == MainRead(disk, disk[0].entries, 0, 3, old(partitions[..]))
    {
      var logicalNum := 3;
      var entries := disk[0].entries;
      ghost var r := MainRead(disk, entries, 0, 3, partitions[..]);
      for i := 0 to 4
        invariant logicalNum >= 3 || logicalNum <= -3
        invariant forall j | i <= j < 4 :: partitions[j] == Loaded(entries[j])
        invariant ReadingFrom(disk, entries, i, r)(logicalNum, partitions[..])
      {
        logicalNum := FollowEntry(disk, entries, i, logicalNum, r);
      }
    }

    /** One main entry. */
    method FollowEntry(disk: Disk, entries: Entries, i: nat, logicalNum: int, ghost r: Table) returns (num: int)
      requires Valid() && i < 4 && (logicalNum >= 3 || logicalNum <= -3) && forall j | i <= j < 4 :: partitions[j] == Loaded(entries[j])
      requires ReadingFrom(disk, entries, i, r)(logicalNum, partitions[..])
      modifies partitions
      ensures (num >= 3 || num <= -3) && forall j | i < j < 4 :: partitions[j] == Loaded(entries[j])
      ensures ReadingFrom(disk, entries, i + 1, r)(num, partitions[..])
    {
      num := logicalNum;
      ReadingNext(disk, entries, i, r, logicalNum, partitions[..]);
      if ExtendedKind(partitions[i].kind) {
        ghost var before := partitions[..];
        num := ReadLogicalParts(disk, partitions[i].start, NextStart(logicalNum));
        assert forall j | 0 <= j < 4 :: partitions[..4][j] == before[..4][j];
        partitions[i] := BLANK;
      }
    }
  }

  /** Write a table and, if its main record is still there, read the disk: the same partitions come back. */
  method SaveAndReload(m: BasicMBRData, disk: Disk) returns (ok: bool, kept: bool, after: Disk)
    requires m.Valid() && m.signature == SIGNATURE && (Legal(m.partitions[..], m.diskSize) ==> Ready(m.partitions[..], m.diskSize))
    modifies m, m.partitions
    ensures ok <==> Legal(old(m.partitions[..]), old(m.diskSize)) && CanExtend(Placed(old(m.partitions[..])))
    ensures !ok ==> after == disk
    ensures ok ==> (kept <==> ClearOfMain(old(m.partitions[..])))
    ensures ok && kept ==> SamePartitions(old(m.partitions[..]), m.partitions[..])
    ensures ok ==> m.code == old(m.code) && m.diskSignature == old(m.diskSignature) && m.nulls == old(m.nulls)
  {
    ghost var ps := m.partitions[..];
    kept := forall i | 0 <= i < m.partitions.Length && IsLogical(m.partitions[i]) :: m.partitions[i].start != 1;
    ok, after := m.WriteMBRData(disk);
    if ok && kept {
      ghost var r := Placed(ps);
      ghost var ls, main := InUseFrom(r, 4), MainRecord(WithExtended(r), m.code, m.diskSignature, m.nulls);
      PlacedOk(ps, m.diskSize);
      WrittenChain(ps, r, disk, after, main);
      WrittenReadsBack(ps, r, main);
      OneChainReadsBack(after, ls, ChainSlot(r));
      var reread := m.ReadMBRData(after);
      PackedSame(ps, r, m.partitions[..]);
    }
  }

  lemma SortKeepsLogicals(q: Table)
    requires |q| == MAX_PARTS && AnyLogical(q)
    ensures AnyLogical(q[..4] + SortedTable(q[4..]))
  {
    var i :| 0 <= i < |q| && IsLogical(q[i]);
    var r := q[..4] + SortedTable(q[4..]);
    assert q == q[..4] + q[4..];
    assert multiset(r) == multiset(q);
    LogicalsKept(q, r);
  }
}