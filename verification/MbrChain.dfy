/**
  The records that hold an MBR table on disk (external/gptfdisk/basicmbr.cc): the main record in sector 0
  and, in the sector before each logical partition, an extended boot record (EBR) that describes the
  partition and points to the next one.
 */
module MbrChain {
  import opened Lists
  import opened MbrTable
  import opened MbrRearrange

  datatype Entry = Entry(status: nat, kind: nat, first: nat, length: nat)

  const NO_ENTRY := Entry(0, 0, 0, 0)

  type Entries = s: seq<Entry> | |s| == 4 witness [NO_ENTRY, NO_ENTRY, NO_ENTRY, NO_ENTRY]

  datatype Record = Record(code: seq<int>, diskSignature: nat, nulls: nat, entries: Entries, signature: nat)

  type Disk = map<nat, Record>

  /** StoreInStruct, without the redundant cylinder-head-sector fields. */
  function Stored(p: Part): Entry {
    Entry(p.status, p.kind, p.start, p.length)
  }

  /** Assignment from a record: an entry with a length is a primary partition. */
  function Loaded(e: Entry): Part {
    Part(e.status, e.kind, e.first, e.length, if e.length > 0 then Primary else Omitted)
  }

  lemma StoredPrimary(p: Part)
    requires Clean(p) && (IsPrimary(p) || p == BLANK)
    ensures Loaded(Stored(p)) == p
  {}

  // ----- the chain -----

  predicate Startable(ls: Table) {
    forall k | 0 <= k < |ls| :: ls[k].start >= 1
  }

  predicate Unused(e: Entry) {
    e.kind == 0 && e.length == 0
  }

  /** A record that can be filled in as an EBR: only its first two entries will be used. */
  predicate Blanked(r: Record) {
    r.signature == SIGNATURE && Unused(r.entries[2]) && Unused(r.entries[3])
  }

  /** What EBR k says: its partition starts one sector on, where the next EBR is, and nothing else. */
  predicate EbrAt(r: Record, ls: Table, k: nat)
    requires k < |ls| && Startable(ls)
  {
    && Blanked(r) && r.entries[0] == Stored(ls[k]).(first := 1)
    && if k + 1 < |ls| then r.entries[1].kind == 0x0f && r.entries[1].first == ls[k + 1].start - ls[0].start
                            && r.entries[1].length == Wrap32(ls[k + 1].length + 1)
       else Unused(r.entries[1]) && r.entries[1].first == 0
  }

  predicate EbrOn(disk: Disk, ls: Table, j: nat)
    requires j < |ls| && Startable(ls)
  {
    ls[j].start - 1 in disk && EbrAt(disk[ls[j].start - 1], ls, j)
  }

  /** The first k EBRs of the chain are on the disk. */
  predicate ChainOn(disk: Disk, ls: Table, k: nat)
    requires k <= |ls| && Startable(ls)
  {
    forall j | 0 <= j < k :: EbrOn(disk, ls, j)
  }

  predicate SameSector(before: Disk, after: Disk, s: nat) {
    if s in before then s in after && after[s] == before[s] else s !in after
  }

  predicate IsEbrSector(ls: Table, k: nat, s: nat)
    requires k <= |ls|
  {
    exists j | 0 <= j < k :: s == ls[j].start - 1
  }

  /** Only EBR sectors of the first k partitions have changed. */
  ghost predicate OnlyEbrs(before: Disk, after: Disk, ls: Table, k: nat)
    requires k <= |ls|
  {
    forall s: nat | !IsEbrSector(ls, k, s) :: SameSector(before, after, s)
  }

  lemma WriteEbr(before: Disk, disk: Disk, ls: Table, k: nat, r: Record)
    requires k < |ls| && Startable(ls) && Ascending(ls)
    requires ChainOn(disk, ls, k) && OnlyEbrs(before, disk, ls, k) && EbrAt(r, ls, k)
    ensures var after := disk[ls[k].start - 1 := r];
            ChainOn(after, ls, k + 1) && OnlyEbrs(before, after, ls, k + 1)
  {
    var after, m := disk[ls[k].start - 1 := r], k + 1;
    forall j | 0 <= j < m ensures EbrOn(after, ls, j) {
      if j < k {
        assert EbrOn(disk, ls, j) && ls[j].start < ls[k].start;
      }
    }
    forall s: nat | !IsEbrSector(ls, m, s) ensures SameSector(before, after, s) {
      assert s != ls[k].start - 1;
      assert !IsEbrSector(ls, k, s);
      assert SameSector(before, disk, s);
    }
  }

  // ----- the extended partition -----

  predicate AnyLogical(ps: Table) {
    exists i | 0 <= i < |ps| :: IsLogical(ps[i])
  }

  function EmptySlot(): Part -> bool {
    (p: Part) => p.incl == Omitted || p.length == 0
  }

  /** The entry that holds the logical partitions and their EBRs; its length is cut to 32 bits. */
  function Extended(ps: Table): Part {
    Part(0, 0x0f, EbrBefore(FirstLogical(ps)) % (MAX32 + 1),
         (LastLogical(ps) - FirstLogical(ps) + 2) % (MAX32 + 1), Primary)
  }

  /** CreateExtended puts it in the first free one of the first four entries. */
  function WithExtended(r: Table): (q: Table)
    requires |r| == MAX_PARTS
    ensures |q| == MAX_PARTS && forall i | 4 <= i < |r| :: q[i] == r[i]
  {
    var k := FirstWhere(EmptySlot(), r, 0, 4);
    if AnyLogical(r) && k < 4 then r[k := Extended(r)] else r
  }

  predicate CanExtend(r: Table)
    requires |r| == MAX_PARTS
  {
    AnyLogical(r) ==> FirstWhere(EmptySlot(), r, 0, 4) < 4 && NoProtective(WithExtended(r))
  }

  /** No entry marks the disk as a GPT disk. */
  predicate NoProtective(ps: Table) {
    forall i | 0 <= i < |ps| :: ps[i].kind != 0xEE
  }

  lemma {:induction false} InUseSame(r: Table, q: Table, i: nat)
    requires i <= |r| == |q| && forall k | i <= k < |r| :: q[k] == r[k]
    ensures InUseFrom(q, i) == InUseFrom(r, i)
    decreases |r| - i
  {
    if i < |r| {
      InUseSame(r, q, i + 1);
    }
  }

  /** The logical partitions to be chained: in order, all of them, and none that the first EBR is not before. */
  lemma ChainedLogicals(ps: Table, r: Table)
    requires WellPlaced(ps, r)
    ensures var ls := InUseFrom(r, 4);
            && Startable(ls) && Ascending(ls) && (forall p | p in ls :: Clean(p) && IsLogical(p))
            && (forall p :: p in ls <==> p in ps && IsLogical(p))
            && (AnyLogical(ps) <==> ls != []) && (AnyLogical(ps) <==> AnyLogical(r))
  {
    var ls := InUseFrom(r, 4);
    KeepsMembers(ps, r);
    LogicalsKept(ps, r);
    InUseMembers(r, 4);
    assert forall j | 0 <= j < |r[4..]| :: r[4..][j] == r[4 + j];
    forall p ensures p in ls <==> p in ps && IsLogical(p) {
      if p in ps && IsLogical(p) {
        var k :| 0 <= k < |r| && r[k] == p;
        assert r[4..][k - 4] == p;
      }
    }
    forall p | p in ls ensures Clean(p) && p.start >= 1 {
      assert p in r;
    }
    if ls != [] {
      assert ls[0] in ls && ls[0] in ps;
    }
  }

  /** CreateExtended succeeds on a placed table exactly if there is nothing to extend or no sign of a GPT disk. */
  lemma ExtendsExactly(ps: Table, r: Table)
    requires WellPlaced(ps, r)
    ensures CanExtend(r) <==> AnyLogical(ps) ==> NoProtective(ps)
  {
    KeepsMembers(ps, r);
    LogicalsKept(ps, r);
    if AnyLogical(ps) {
      var b :| 0 <= b < 4 && r[b] == BLANK;
      var k := FirstWhere(EmptySlot(), r, 0, 4);
      assert EmptySlot()(r[b]) && Clean(r[k]);
      var q := WithExtended(r);
      assert q == r[k := Extended(r)] && r[k].kind == 0;
      assert NoProtective(q) <==> NoProtective(r) by {
        assert forall i | 0 <= i < |r| && i != k :: q[i] == r[i];
        assert q[k].kind == 0x0f;
      }
      assert forall i | 0 <= i < |r| :: r[i] in r && r[i] in ps;
      assert forall i | 0 <= i < |ps| :: ps[i] in ps && ps[i] in r;
    }
  }

  lemma AcceptedUnlessProtective(ps: Table, diskSize: nat)
    requires Ready(ps, diskSize)
    ensures CanExtend(Placed(ps)) <==> AnyLogical(ps) ==> NoProtective(ps)
  {
    PlacedOk(ps, diskSize);
    ExtendsExactly(ps, Placed(ps));
  }

  /** The extended partition starts at the first EBR. */
  lemma ExtendedStart(r: Table, ls: Table)
    requires Ascending(ls) && ls != [] && forall p :: p in ls <==> p in r && IsLogical(p)
    requires forall p | p in ls :: p.start <= MAX32
    ensures FirstLogical(r) == ls[0].start
  {
    var first := FirstLogical(r);
    assert ls[0] in ls;
    var i :| 0 <= i < |r| && r[i] == ls[0];
    if first < MAX32 {
      var j :| 0 <= j < |r| && IsLogical(r[j]) && r[j].start == first;
      assert r[j] in ls;
      var k :| 0 <= k < |ls| && ls[k] == r[j];
    }
  }

  // ----- writing one EBR -----

  function Wrap32(n: int): nat {
    n % (MAX32 + 1)
  }

  function EbrRecord(rec: Record, p: Part, next: Table, ext: nat): Record {
    var link := if next != [] && next[0].start > 0
                then Entry(rec.entries[1].status, 0x0f, Wrap32(next[0].start - ext - 1), Wrap32(next[0].length + 1))
                else Entry(rec.entries[1].status, 0, 0, 0);
    rec.(entries := [Stored(p).(first := 1), link, rec.entries[2], rec.entries[3]])
  }

  /** Partitions that can be chained behind an extended partition that starts at ext. */
  predicate Chainable(ls: Table, ext: nat) {
    ls != [] && Startable(ls) && Ascending(ls) && ext == ls[0].start - 1 && forall p | p in ls :: p.start <= MAX32
  }

  /** Entry partNum of the table is logical partition k. */
  predicate AtLogical(ps: Table, ls: Table, k: nat, partNum: nat) {
    k < |ls| && partNum < |ps| && [ps[partNum]] + InUseFrom(ps, partNum + 1) == ls[k..]
  }

  lemma AtNext(ps: Table, ls: Table, k: nat, partNum: nat)
    requires AtLogical(ps, ls, k, partNum)
    ensures ps[partNum] == ls[k] && InUseFrom(ps, partNum + 1) == ls[k + 1..]
  {
    var rest := InUseFrom(ps, partNum + 1);
    assert ([ps[partNum]] + rest)[0] == ls[k..][0] && ([ps[partNum]] + rest)[1..] == rest;
  }

  /** What follows partition k, as at most one partition. */
  function NextLogical(ls: Table, k: nat): Table
    requires k < |ls|
  {
    if k + 1 < |ls| then [ls[k + 1]] else []
  }

  lemma EbrRecordOk(rec: Record, ls: Table, k: nat, ext: nat)
    requires Blanked(rec) && Chainable(ls, ext) && k < |ls|
    ensures var r := EbrRecord(rec, ls[k], NextLogical(ls, k), ext);
            && EbrAt(r, ls, k)
            && (k + 1 < |ls| ==> r.entries[1].first + ext == ls[k + 1].start - 1)
  {
    if k + 1 < |ls| {
      assert ls[0].start < ls[k + 1].start && ls[k + 1] in ls;
      assert Wrap32(ls[k + 1].start - ext - 1) == ls[k + 1].start - ext - 1;
    }
  }

  /** The first k EBRs have been written; entry partNum is to be written at ebr, unless all are done. */
  ghost predicate Writing(disk: Disk, after: Disk, ps: Table, ext: nat, k: nat, partNum: int, ebr: nat, more: bool) {
    && |ps| == MAX_PARTS
    && var ls := InUseFrom(ps, 4);
       && Chainable(ls, ext) && k <= |ls| && ChainOn(after, ls, k) && OnlyEbrs(disk, after, ls, k)
       && if more then 0 <= partNum < MAX_PARTS && AtLogical(ps, ls, k, partNum) && ebr == ls[k].start - 1 else k == |ls|
  }

  ghost function WritingFrom(disk: Disk, ps: Table, ext: nat, k: nat): (Disk, Record, int, nat, bool) -> bool {
    (after: Disk, rec: Record, partNum: int, ebr: nat, more: bool) =>
      Writing(disk, after, ps, ext, k, partNum, ebr, more) && Blanked(rec)
  }

  /** What FindNextInUse gives. */
  predicate FoundNext(ps: Table, start: nat, next: int)
    requires start <= |ps|
  {
    if next == -1 then InUseFrom(ps, start) == []
    else start <= next < |ps| && InUseFrom(ps, start) == [ps[next]] + InUseFrom(ps, next + 1)
  }

  lemma WritingBegins(disk: Disk, ps: Table, ext: nat, next: int, rec: Record)
    requires |ps| == MAX_PARTS && Chainable(InUseFrom(ps, 4), ext) && FoundNext(ps, 4, next) && Blanked(rec)
    ensures WritingFrom(disk, ps, ext, 0)(disk, rec, next, ext, true)
  {
    assert forall s: nat :: SameSector(disk, disk, s);
  }

  lemma WritingEnds(disk: Disk, after: Disk, ps: Table, ext: nat, k: nat, rec: Record, partNum: int, ebr: nat, more: bool)
    requires |ps| == MAX_PARTS && WritingFrom(disk, ps, ext, k)(after, rec, partNum, ebr, more)
    requires !more || partNum < 0 || partNum >= MAX_PARTS
    ensures var ls := InUseFrom(ps, 4); Startable(ls) && ChainOn(after, ls, |ls|) && OnlyEbrs(disk, after, ls, |ls|)
  {}

  lemma LinkIsNext(ps: Table, ls: Table, k: nat, partNum: nat, next: int)
    requires AtLogical(ps, ls, k, partNum) && FoundNext(ps, partNum + 1, next)
    ensures ps[partNum] == ls[k] && (if next > 0 then [ps[next]] else []) == NextLogical(ls, k)
    ensures if next > 0 then next < |ps| && AtLogical(ps, ls, k + 1, next) else k + 1 == |ls|
  {
    AtNext(ps, ls, k, partNum);
  }

  lemma WritingOn(disk: Disk, after: Disk, ps: Table, ext: nat, k: nat, partNum: nat, ebr: nat, rec: Record, next: int)
    requires WritingFrom(disk, ps, ext, k)(after, rec, partNum, ebr, true) && FoundNext(ps, partNum + 1, next)
    ensures var r := EbrRecord(rec, ps[partNum], if next > 0 then [ps[next]] else [], ext);
            WritingFrom(disk, ps, ext, k + 1)(after[ebr := r], r, next, r.entries[1].first + ext, next > 0)
  {
    var ls := InUseFrom(ps, 4);
    LinkIsNext(ps, ls, k, partNum, next);
    EbrRecordOk(rec, ls, k, ext);
    WriteEbr(disk, after, ls, k, EbrRecord(rec, ls[k], NextLogical(ls, k), ext));
  }

  // ----- reading -----

  predicate PureLink(r: Record) {
    ExtendedKind(r.entries[0].kind)
  }

  /** The logical partitions ls are chained on the disk from ext on. */
  predicate ChainFrom(disk: Disk, ext: nat, ls: Table) {
    && Chainable(ls, ext) && ext > 0 && ChainOn(disk, ls, |ls|) && 4 + |ls| <= MAX_PARTS
    && forall p | p in ls :: Clean(p) && IsLogical(p)
  }

  /** One step along a chain: what the reader gets from EBR k. */
  lemma ReadEbr(disk: Disk, ext: nat, ls: Table, k: nat)
    requires ChainFrom(disk, ext, ls) && k < |ls|
    ensures var s := ls[k].start - 1;
            && s in disk && disk[s].signature == SIGNATURE && !PureLink(disk[s])
            && Loaded(disk[s].entries[0]).(start := Wrap32(disk[s].entries[0].first + s), incl := Logical) == ls[k]
            && (disk[s].entries[1].first != 0 <==> k + 1 < |ls|)
            && (k + 1 < |ls| ==> ext + disk[s].entries[1].first == ls[k + 1].start - 1)
  {
    assert EbrOn(disk, ls, k) && ls[k] in ls;
    assert k + 1 < |ls| ==> ls[0].start < ls[k + 1].start;
  }

  predicate Recorded(locs: seq<nat>, ls: Table, k: nat)
    requires k <= |ls|
  {
    forall i | 0 <= i < |locs| :: locs[i] != 0 ==> IsEbrSector(ls, k, locs[i])
  }

  /** A table with the first k logical partitions read in behind its first four entries. */
  function ReadIn(ps: Table, ls: Table, k: nat): (r: Table)
    requires |ps| == MAX_PARTS && k <= |ls| && 4 + k <= MAX_PARTS
    ensures |r| == MAX_PARTS
  {
    ps[..4] + ls[..k] + ps[4 + k..]
  }

  /** A reader of the chain ls that goes on has read the first partitions of it, and not seen the next EBR. */
  ghost predicate Reading(ls: Table, before: Table, ps: Table, partNum: int, offset: nat, locs: seq<nat>, more: bool) {
    && |before| == MAX_PARTS && 4 + |ls| <= MAX_PARTS
    && if more then
         0 <= partNum - 4 < |ls| && offset == ls[partNum - 4].start - 1 && Recorded(locs, ls, partNum - 4)
         && ps == ReadIn(before, ls, partNum - 4)
       else partNum == 3 + |ls| && ps == ReadIn(before, ls, |ls|)
  }

  lemma NotSeenYet(ls: Table, k: nat, locs: seq<nat>, offset: nat, at: nat)
    requires k < |ls| && Ascending(ls) && Startable(ls) && offset == ls[k].start - 1 > 0 && Recorded(locs, ls, k) && at < |locs|
    ensures offset !in locs && Recorded(locs[at := offset], ls, k + 1)
  {
    forall i | 0 <= i < |locs| ensures locs[i] != offset {
      if locs[i] != 0 {
        var j :| 0 <= j < k && locs[i] == ls[j].start - 1;
        assert ls[j].start < ls[k].start;
      }
    }
    var locs' := locs[at := offset];
    forall x | 0 <= x < |locs'| ensures locs'[x] != 0 ==> IsEbrSector(ls, k + 1, locs'[x]) {
      if x != at && locs[x] != 0 {
        var j :| 0 <= j < k && locs[x] == ls[j].start - 1;
      }
    }
  }

  /** Reading EBR k takes the reader of the chain one partition further. */
  lemma ReadingOn(disk: Disk, ext: nat, ls: Table, before: Table, ps: Table, partNum: nat, offset: nat, locs: seq<nat>)
    requires ChainFrom(disk, ext, ls) && Reading(ls, before, ps, partNum, offset, locs, true) && partNum < |locs|
    ensures offset in disk && disk[offset].signature == SIGNATURE && !PureLink(disk[offset]) && offset !in locs
    ensures var e := disk[offset].entries;
            var ps' := ps[partNum := Loaded(e[0]).(start := Wrap32(e[0].first + offset), incl := Logical)];
            if e[1].first != 0 then
              partNum < MAX_PARTS - 1
              && Reading(ls, before, ps', partNum + 1, ext + e[1].first, locs[partNum := offset], true)
            else Reading(ls, before, ps', partNum, offset, locs, false)
  {
    var k := partNum - 4;
    ReadEbr(disk, ext, ls, k);
    NotSeenYet(ls, k, locs, offset, partNum);
    assert ps[partNum := ls[k]] == ReadIn(before, ls, k + 1);
    assert ls[..|ls|] == ls;
  }

  // ----- the whole disk -----

  /** The main record as it is written for a table. */
  function MainRecord(q: Table, code: seq<int>, diskSignature: nat, nulls: nat): Record
    requires |q| == MAX_PARTS
  {
    Record(code, diskSignature, nulls, [Stored(q[0]), Stored(q[1]), Stored(q[2]), Stored(q[3])], SIGNATURE)
  }

  /** What writing the arranged table r, with logical partitions ls, makes of the disk. */
  ghost predicate Written(before: Disk, after: Disk, r: Table, main: Record) {
    && |r| == MAX_PARTS
    && var ls := InUseFrom(r, 4);
       && Startable(ls) && ChainOn(after, ls, |ls|) && OnlyEbrs(before[0 := main], after, ls, |ls|)
       && main.entries == [Stored(WithExtended(r)[0]), Stored(WithExtended(r)[1]), Stored(WithExtended(r)[2]), Stored(WithExtended(r)[3])]
       && main.signature == SIGNATURE
  }

  /** The table that reading gives: the primary entries without the extended one, then the logical partitions. */
  function ReadBack(entries: Entries, ls: Table): (r: Table)
    requires 4 + |ls| <= MAX_PARTS
    ensures |r| == MAX_PARTS
  {
    Firsts(entries, 4) + ls + Blanks(MAX_PARTS - 4 - |ls|)
  }

  /** After CreateExtended an entry of kind 0x0f is there if there are logical partitions, and starts at the first EBR. */
  ghost predicate ExtendedThere(q: Table, ls: Table) {
    && |q| == MAX_PARTS && InUseFrom(q, 4) == ls && Startable(ls)
    && (ls == [] ==> forall k | 0 <= k < 4 :: q[k].kind != 0x0f)
    && (ls != [] ==> exists k | 0 <= k < 4 :: q[k].kind == 0x0f)
    && (forall k | 0 <= k < 4 && q[k].kind == 0x0f :: Chainable(ls, q[k].start))
  }

  lemma ExtendedInPlace(ps: Table, r: Table)
    requires WellPlaced(ps, r) && CanExtend(r)
    ensures ExtendedThere(WithExtended(r), InUseFrom(r, 4))
  {
    var q, ls := WithExtended(r), InUseFrom(r, 4);
    ChainedLogicals(ps, r);
    InUseSame(r, q, 4);
    assert forall k | 0 <= k < 4 :: Clean(r[k]);
    if ls != [] {
      FirstOfChain(ps, r, ls);
      var k := FirstWhere(EmptySlot(), r, 0, 4);
      assert q[k] == Extended(r);
    }
  }

  lemma FirstOfChain(ps: Table, r: Table, ls: Table)
    requires multiset(r) == multiset(ps) && ls != [] && Startable(ls) && Ascending(ls)
    requires (forall p | p in ls :: Clean(p)) && forall p :: p in ls <==> p in ps && IsLogical(p)
    ensures Chainable(ls, Extended(r).start)
  {
    KeepsMembers(ps, r);
    ExtendedStart(r, ls);
    assert ls[0] in ls;
  }

  /** Entry k of the main record is the only extended one and leads to the chain ls; k is 4 if there is none. */
  predicate OneChain(disk: Disk, ls: Table, k: nat) {
    && 0 in disk && k <= 4 && (k == 4 <==> ls == [])
    && (forall j | 0 <= j < 4 :: ExtendedKind(disk[0].entries[j].kind) <==> j == k)
    && (k < 4 ==> ChainFrom(disk, disk[0].entries[k].first, ls))
  }

  function Blanks(n: nat): Table {
    seq(n, i => BLANK)
  }

  /** The first four entries when i of them have been looked at. */
  function Firsts(entries: Entries, i: nat): (r: Table)
    ensures |r| == 4
  {
    seq(4, j requires 0 <= j < 4 => if j < i && ExtendedKind(entries[j].kind) then BLANK else Loaded(entries[j]))
  }

  /** The table when i main entries have been looked at, the chain being behind entry k. */
  function ReadSoFar(entries: Entries, ls: Table, k: nat, i: nat): (r: Table)
    requires 4 + |ls| <= MAX_PARTS
    ensures |r| == MAX_PARTS
  {
    Firsts(entries, i) + if k < i then ls + Blanks(MAX_PARTS - 4 - |ls|) else Blanks(MAX_PARTS - 4)
  }

  lemma ReadSoFarStep(entries: Entries, ls: Table, k: nat, i: nat)
    requires 4 + |ls| <= MAX_PARTS && i < 4 && (ExtendedKind(entries[i].kind) <==> i == k)
    ensures i != k ==> ReadSoFar(entries, ls, k, i + 1) == ReadSoFar(entries, ls, k, i)
    ensures i == k ==> ReadSoFar(entries, ls, k, i + 1) == ReadIn(ReadSoFar(entries, ls, k, i), ls, |ls|)[i := BLANK]
  {
    var before := ReadSoFar(entries, ls, k, i);
    if i == k {
      assert before[4 + |ls|..] == Blanks(MAX_PARTS - 4 - |ls|);
      assert before[..4] == Firsts(entries, i);
      assert Firsts(entries, i + 1) == Firsts(entries, i)[i := BLANK];
    } else {
      assert Firsts(entries, i + 1) == Firsts(entries, i);
    }
  }

  /** The entry that the extended partition takes; 4 if there is none. */
  function ChainSlot(r: Table): nat
    requires |r| == MAX_PARTS
  {
    if AnyLogical(r) then FirstWhere(EmptySlot(), r, 0, 4) else 4
  }

  lemma ChainSlotOnly(ps: Table, r: Table)
    requires WellPlaced(ps, r) && CanExtend(r)
    ensures forall j | 0 <= j < 4 ::
              if j == ChainSlot(r) then r[j] == BLANK && WithExtended(r)[j] == Extended(r)
              else WithExtended(r)[j] == r[j] && !ExtendedKind(r[j].kind)
  {
    forall j | 0 <= j < 4
      ensures if j == ChainSlot(r) then r[j] == BLANK && WithExtended(r)[j] == Extended(r)
              else WithExtended(r)[j] == r[j] && !ExtendedKind(r[j].kind)
    {
      assert Clean(r[j]);
    }
  }

  lemma SlotKind(ps: Table, r: Table, entries: Entries, j: nat)
    requires WellPlaced(ps, r) && CanExtend(r) && j < 4
    requires entries == [Stored(WithExtended(r)[0]), Stored(WithExtended(r)[1]), Stored(WithExtended(r)[2]), Stored(WithExtended(r)[3])]
    ensures ExtendedKind(entries[j].kind) <==> j == ChainSlot(r)
  {
    ChainSlotOnly(ps, r);
    assert entries[j] == Stored(WithExtended(r)[j]);
  }

  /** From a written disk: which entry leads to the chain. */
  lemma WrittenChain(ps: Table, r: Table, before: Disk, after: Disk, main: Record)
    requires WellPlaced(ps, r) && CanExtend(r) && ClearOfMain(ps)
    requires Written(before, after, r, main)
    ensures var ls := InUseFrom(r, 4);
            4 + |ls| <= MAX_PARTS && OneChain(after, ls, ChainSlot(r)) && after[0] == main
  {
    forall j | 0 <= j < 4 ensures ExtendedKind(main.entries[j].kind) <==> j == ChainSlot(r) {
      SlotKind(ps, r, main.entries, j);
    }
    MainKeptExactly(ps, r, before, after, main);
    ChainKept(ps, r, after, main);
  }

  // ----- what the extended entries cover -----

  /** There are logical partitions, and their range with the first EBR has a length of 32 bits. */
  predicate RangeFits(r: Table) {
    LastLogical(r) - FirstLogical(r) + 2 <= MAX32
  }

  /** The starts and ends of the range of the logical partitions. */
  lemma LogicalRange(ps: Table, r: Table)
    requires WellPlaced(ps, r) && AnyLogical(ps)
    ensures 1 <= FirstLogical(r) <= LastLogical(r)
    ensures forall p | p in ps && IsLogical(p) :: FirstLogical(r) <= p.start <= Last(p) <= LastLogical(r)
  {
    KeepsMembers(ps, r);
    var i :| 0 <= i < |ps| && IsLogical(ps[i]);
    assert ps[i] in r;
    forall p | p in ps && IsLogical(p) ensures FirstLogical(r) <= p.start <= Last(p) <= LastLogical(r) && p.start >= 1 {
      var k :| 0 <= k < |r| && r[k] == p;
      assert Clean(r[k]);
    }
    if FirstLogical(r) < MAX32 {
      var k :| 0 <= k < |r| && IsLogical(r[k]) && r[k].start == FirstLogical(r);
      assert Clean(r[k]);
    }
  }

  /**
    The entry that CreateExtended puts in covers exactly the sectors from the first EBR to the end of the last logical
    partition, if that range has a length of 32 bits; if not, it does not reach the end.
   */
  lemma ExtendedCoversExactly(ps: Table, r: Table)
    requires WellPlaced(ps, r) && CanExtend(r) && AnyLogical(ps)
    ensures ChainSlot(r) < 4 && WithExtended(r)[ChainSlot(r)].kind == 0x0f
    ensures RangeFits(r) ==> forall s: nat ::
              Covers(WithExtended(r)[ChainSlot(r)], s) <==> FirstLogical(r) - 1 <= s <= LastLogical(r)
    ensures Covers(WithExtended(r)[ChainSlot(r)], LastLogical(r)) <==> RangeFits(r)
  {
    LogicalRange(ps, r);
    LogicalsKept(ps, r);
    SpanOfExtended(r);
  }

  lemma SpanOfExtended(r: Table)
    requires 1 <= FirstLogical(r) <= LastLogical(r)
    ensures RangeFits(r) ==> forall s: nat :: Covers(Extended(r), s) <==> FirstLogical(r) - 1 <= s <= LastLogical(r)
    ensures Covers(Extended(r), LastLogical(r)) <==> RangeFits(r)
  {
    var first, last := FirstLogical(r), LastLogical(r);
    CutDown(last - first + 2);
    assert Extended(r).start == first - 1;
  }

  lemma CutDown(n: nat)
    ensures n % (MAX32 + 1) <= n && (n % (MAX32 + 1) == n <==> n <= MAX32)
  {}

  /** Every logical partition, and the EBR before it, lies inside the entry written. */
  lemma LogicalsInside(ps: Table, r: Table, p: Part, s: nat)
    requires WellPlaced(ps, r) && CanExtend(r) && RangeFits(r) && p in ps && IsLogical(p) && p.start - 1 <= s <= Last(p)
    ensures ChainSlot(r) < 4 && Covers(WithExtended(r)[ChainSlot(r)], s)
  {
    var i :| 0 <= i < |ps| && ps[i] == p;
    ExtendedCoversExactly(ps, r);
    LogicalRange(ps, r);
  }

  /** And no primary partition does. */
  lemma PrimariesOutside(ps: Table, diskSize: nat, p: Part, s: nat)
    requires Ready(ps, diskSize) && CanExtend(Placed(ps)) && RangeFits(Placed(ps)) && AnyLogical(ps)
    requires p in ps && IsPrimary(p) && Covers(p, s)
    ensures ChainSlot(Placed(ps)) < 4 && !Covers(WithExtended(Placed(ps))[ChainSlot(Placed(ps))], s)
  {
    var r := Placed(ps);
    PlacedOk(ps, diskSize);
    ExtendedCoversExactly(ps, r);
    SameRange(ps, r);
    var i :| 0 <= i < |ps| && ps[i] == p;
    assert Clean(ps[i]);
    var k := FirstAttained(ps);
    if FirstLogical(ps) - 1 <= s <= LastLogical(ps) {
      ExtendedOverlapsNoPrimary(ps, diskSize, i, k, s);
    }
  }

  lemma FirstAttained(ps: Table) returns (k: nat)
    requires CleanTable(ps) && AnyLogical(ps)
    ensures k < |ps| && IsLogical(ps[k]) && ps[k].start == FirstLogical(ps)
  {
    k :| 0 <= k < |ps| && IsLogical(ps[k]);
    if FirstLogical(ps) < MAX32 {
      k :| 0 <= k < |ps| && IsLogical(ps[k]) && ps[k].start == FirstLogical(ps);
    } else {
      assert Clean(ps[k]);
    }
  }

  lemma SameRange(ps: Table, r: Table)
    requires multiset(r) == multiset(ps)
    ensures FirstLogical(r) == FirstLogical(ps) && LastLogical(r) == LastLogical(ps)
  {
    KeepsMembers(ps, r);
    RangeWithin(ps, r);
    RangeWithin(r, ps);
  }

  lemma RangeWithin(ps: Table, r: Table)
    requires forall p | p in ps :: p in r
    ensures FirstLogical(r) <= FirstLogical(ps) && LastLogical(ps) <= LastLogical(r)
  {
    if FirstLogical(ps) < MAX32 {
      var i :| 0 <= i < |ps| && IsLogical(ps[i]) && ps[i].start == FirstLogical(ps);
      assert ps[i] in ps;
      var k :| 0 <= k < |r| && r[k] == ps[i];
    }
    if LastLogical(ps) > 0 {
      var i :| 0 <= i < |ps| && IsLogical(ps[i]) && Last(ps[i]) == LastLogical(ps);
      assert ps[i] in ps;
      var k :| 0 <= k < |r| && r[k] == ps[i];
    }
  }

  /** The link in EBR k spans exactly the next EBR and its partition, unless that has the greatest length there is. */
  lemma LinkSpans(rec: Record, ls: Table, k: nat, s: nat)
    requires Startable(ls) && Ascending(ls) && k + 1 < |ls| && EbrAt(rec, ls, k) && 0 < ls[k + 1].length < MAX32
    ensures var first := ls[0].start - 1 + rec.entries[1].first;
            first <= s < first + rec.entries[1].length <==> ls[k + 1].start - 1 <= s <= Last(ls[k + 1])
  {}

  /** What is read back from a written disk. */
  lemma WrittenReadsBack(ps: Table, r: Table, main: Record)
    requires WellPlaced(ps, r) && CanExtend(r)
    requires main.entries == [Stored(WithExtended(r)[0]), Stored(WithExtended(r)[1]), Stored(WithExtended(r)[2]), Stored(WithExtended(r)[3])]
    ensures var ls := InUseFrom(r, 4);
            4 + |ls| <= MAX_PARTS && ReadBack(main.entries, ls) == r[..4] + ls + Blanks(MAX_PARTS - 4 - |ls|)
  {
    ChainSlotOnly(ps, r);
    PrimariesReadBack(r, ChainSlot(r));
    InUseLength(r, 4);
  }

  lemma ChainKept(ps: Table, r: Table, after: Disk, main: Record)
    requires WellPlaced(ps, r) && CanExtend(r)
    requires Startable(InUseFrom(r, 4)) && ChainOn(after, InUseFrom(r, 4), |InUseFrom(r, 4)|) && ClearOfMain(ps)
    ensures var ls, k := InUseFrom(r, 4), ChainSlot(r);
            && 4 + |ls| <= MAX_PARTS && k <= 4 && (k == 4 <==> ls == [])
            && (k < 4 ==> ChainFrom(after, WithExtended(r)[k].start, ls))
  {
    ExtendedInPlace(ps, r);
    ChainedLogicals(ps, r);
    ClearChain(ps, r);
    InUseLength(r, 4);
  }

  lemma {:induction false} InUseLength(ps: Table, i: nat)
    requires i <= |ps|
    ensures |InUseFrom(ps, i)| <= |ps| - i
    decreases |ps| - i
  {
    if i < |ps| {
      InUseLength(ps, i + 1);
    }
  }

  /** No logical partition starts at sector 1, so that no EBR falls on the main record. */
  predicate ClearOfMain(ps: Table) {
    forall i | 0 <= i < |ps| && IsLogical(ps[i]) :: ps[i].start != 1
  }

  lemma ClearChain(ps: Table, r: Table)
    requires WellPlaced(ps, r)
    ensures var ls := InUseFrom(r, 4); Startable(ls) && (ClearOfMain(ps) <==> ls != [] ==> ls[0].start != 1)
  {
    var ls := InUseFrom(r, 4);
    ChainedLogicals(ps, r);
    if ls != [] {
      assert ls[0] in ls;
    }
    if !ClearOfMain(ps) {
      var i :| 0 <= i < |ps| && IsLogical(ps[i]) && ps[i].start == 1;
      assert ps[i] in ls;
      var k :| 0 <= k < |ls| && ls[k] == ps[i];
    }
  }

  /** The record that marks a logical partition at sector 1 differs from every main record that leads to it. */
  lemma EbrIsNotMain(ls: Table, rec: Record, main: Record, k: nat)
    requires ls != [] && Startable(ls) && Ascending(ls) && !ExtendedKind(ls[0].kind) && EbrAt(rec, ls, 0)
    requires k < 4 && main.entries[k].kind == 0x0f && main.entries[k].first == 0
    ensures rec != main
  {}

  lemma MainStays(before: Disk, after: Disk, ls: Table, main: Record)
    requires OnlyEbrs(before[0 := main], after, ls, |ls|) && Startable(ls) && Ascending(ls) && (ls != [] ==> ls[0].start != 1)
    ensures 0 in after && after[0] == main
  {
    assert !IsEbrSector(ls, |ls|, 0);
    assert SameSector(before[0 := main], after, 0);
  }

  lemma MainOverwritten(q: Table, after: Disk, ls: Table, main: Record)
    requires ExtendedThere(q, ls) && ChainOn(after, ls, |ls|) && ls != [] && ls[0].start == 1 && !ExtendedKind(ls[0].kind)
    requires main.entries == [Stored(q[0]), Stored(q[1]), Stored(q[2]), Stored(q[3])]
    ensures 0 in after && after[0] != main && EbrAt(after[0], ls, 0)
  {
    assert EbrOn(after, ls, 0);
    var k :| 0 <= k < 4 && q[k].kind == 0x0f;
    assert main.entries[k] == Stored(q[k]);
    EbrIsNotMain(ls, after[0], main, k);
  }

  /**
    The main record stays on the disk if and only if no logical partition starts at sector 1. If one does, its EBR
    takes the place of the main record.
   */
  lemma MainKeptExactly(ps: Table, r: Table, before: Disk, after: Disk, main: Record)
    requires WellPlaced(ps, r) && CanExtend(r) && Written(before, after, r, main)
    ensures 0 in after && (after[0] == main <==> ClearOfMain(ps))
    ensures !ClearOfMain(ps) ==> InUseFrom(r, 4) != [] && EbrAt(after[0], InUseFrom(r, 4), 0)
  {
    var ls := InUseFrom(r, 4);
    ClearChain(ps, r);
    if ClearOfMain(ps) {
      MainStays(before, after, ls, main);
    } else {
      ExtendedInPlace(ps, r);
      KindOfFirst(ps, r);
      MainOverwritten(WithExtended(r), after, ls, main);
    }
  }

  lemma KindOfFirst(ps: Table, r: Table)
    requires WellPlaced(ps, r) && InUseFrom(r, 4) != []
    ensures !ExtendedKind(InUseFrom(r, 4)[0].kind)
  {
    ChainedLogicals(ps, r);
    assert InUseFrom(r, 4)[0] in InUseFrom(r, 4);
  }

  /** An EBR in sector 0 holds one partition, at sector 1. */
  lemma EbrAsMain(ls: Table, rec: Record, p: Part)
    requires ls != [] && Startable(ls) && ls[0].start == 1 && EbrAt(rec, ls, 0) && p.length > 0 && p.start != 1
    ensures p !in Firsts(rec.entries, 4)
  {
    forall j | 0 <= j < 4 ensures Firsts(rec.entries, 4)[j] != p {
      assert j == 0 || j == 1 || j == 2 || j == 3;
    }
  }

  lemma PrimaryElsewhere(ps: Table, r: Table, p: Part)
    requires WellPlaced(ps, r) && InUseFrom(r, 4) != [] && p in ps && IsPrimary(p)
    ensures p.length > 0 && p.start != InUseFrom(r, 4)[0].start
  {
    var first := InUseFrom(r, 4)[0];
    ChainedLogicals(ps, r);
    KeepsMembers(ps, r);
    assert first in InUseFrom(r, 4) && first in r && p in r;
    var i :| 0 <= i < |r| && r[i] == p;
    var j :| 0 <= j < |r| && r[j] == first;
    assert i < j && Compatible(r[i], r[j]);
  }

  /** When the main record is lost, so is every primary partition: none is among the entries then read from sector 0. */
  lemma PrimariesLost(ps: Table, r: Table, before: Disk, after: Disk, main: Record, p: Part)
    requires WellPlaced(ps, r) && CanExtend(r) && Written(before, after, r, main)
    requires !ClearOfMain(ps) && p in ps && IsPrimary(p)
    ensures 0 in after && p !in Firsts(after[0].entries, 4)
  {
    MainKeptExactly(ps, r, before, after, main);
    ClearChain(ps, r);
    PrimaryElsewhere(ps, r, p);
    EbrAsMain(InUseFrom(r, 4), after[0], p);
  }

  /** The first four entries come back as they were before the extended one was put in. */
  lemma PrimariesReadBack(r: Table, k: nat)
    requires |r| == MAX_PARTS && AllClean(r) && (forall j | 0 <= j < 4 :: IsPrimary(r[j]) || r[j] == BLANK)
    requires forall j | 0 <= j < 4 :: if j == k then r[j] == BLANK && ExtendedKind(WithExtended(r)[j].kind) else WithExtended(r)[j] == r[j]
    ensures var q := WithExtended(r);
            Firsts([Stored(q[0]), Stored(q[1]), Stored(q[2]), Stored(q[3])], 4) == r[..4]
  {
    var q := WithExtended(r);
    var entries: Entries := [Stored(q[0]), Stored(q[1]), Stored(q[2]), Stored(q[3])];
    forall j | 0 <= j < 4 ensures Firsts(entries, 4)[j] == r[j] {
      assert Clean(r[j]) && entries[j] == Stored(q[j]);
      StoredPrimary(r[j]);
    }
  }

  // ----- what the round trip keeps -----

  /** The same primary and logical partitions, each once, the logical ones in order right behind the first four entries. */
  ghost predicate SamePartitions(ps: Table, qs: Table) {
    && |qs| == MAX_PARTS && Pairwise(qs)
    && (forall p :: p in qs[..4] && Included(p) <==> p in ps && IsPrimary(p))
    && var ls := InUseFrom(qs, 4);
       && Ascending(ls) && (forall p :: p in ls <==> p in ps && IsLogical(p))
       && 4 + |ls| <= MAX_PARTS && qs[4..] == ls + Blanks(MAX_PARTS - 4 - |ls|)
  }

  lemma {:induction false} InUseOfList(ps: Table, i: nat, n: nat)
    requires i <= n <= |ps| && (forall k | i <= k < n :: Included(ps[k])) && forall k | n <= k < |ps| :: !Included(ps[k])
    ensures InUseFrom(ps, i) == ps[i..n]
    decreases n - i
  {
    if i < n {
      InUseOfList(ps, i + 1, n);
      assert ps[i..n] == [ps[i]] + ps[i + 1..n];
    } else {
      InUseNone(ps, i);
    }
  }

  lemma {:induction false} InUsePairwise(ps: Table, i: nat)
    requires i <= |ps| && Pairwise(ps)
    ensures Pairwise(InUseFrom(ps, i))
    decreases |ps| - i
  {
    if i < |ps| {
      InUsePairwise(ps, i + 1);
      InUseMembers(ps, i + 1);
      var rest := InUseFrom(ps, i + 1);
      forall k | 0 <= k < |rest| ensures Compatible(ps[i], rest[k]) {
        assert rest[k] in rest;
        var j :| 0 <= j < |ps[i + 1..]| && ps[i + 1..][j] == rest[k];
        assert ps[i + 1 + j] == rest[k];
      }
    }
  }

  lemma PackedPairwise(r: Table, qs: Table)
    requires |r| == MAX_PARTS && Pairwise(r) && 4 + |InUseFrom(r, 4)| <= MAX_PARTS
    requires qs == r[..4] + InUseFrom(r, 4) + Blanks(MAX_PARTS - 4 - |InUseFrom(r, 4)|)
    ensures Pairwise(qs)
  {
    var ls := InUseFrom(r, 4);
    InUsePairwise(r, 4);
    InUseMembers(r, 4);
    forall i, j | 0 <= i < j < |qs| ensures Compatible(qs[i], qs[j]) {
      if j < 4 + |ls| {
        if 4 <= i {
          assert Compatible(ls[i - 4], ls[j - 4]);
        } else if 4 <= j {
          assert ls[j - 4] in ls;
          var k :| 0 <= k < |r[4..]| && r[4..][k] == ls[j - 4];
          assert r[4 + k] == qs[j] && r[i] == qs[i];
        }
      }
    }
  }

  /** Packing the logical partitions behind the first four entries loses and adds nothing. */
  lemma PackedSame(ps: Table, r: Table, qs: Table)
    requires WellPlaced(ps, r)
    requires 4 + |InUseFrom(r, 4)| <= MAX_PARTS
    requires qs == r[..4] + InUseFrom(r, 4) + Blanks(MAX_PARTS - 4 - |InUseFrom(r, 4)|)
    ensures SamePartitions(ps, qs)
  {
    ChainedLogicals(ps, r);
    PackedPairwise(r, qs);
    PackedShape(r, qs);
    PrimariesKept(ps, r);
  }

  lemma PackedShape(r: Table, qs: Table)
    requires |r| == MAX_PARTS && 4 + |InUseFrom(r, 4)| <= MAX_PARTS
    requires qs == r[..4] + InUseFrom(r, 4) + Blanks(MAX_PARTS - 4 - |InUseFrom(r, 4)|)
    ensures var ls := InUseFrom(r, 4);
            |qs| == MAX_PARTS && InUseFrom(qs, 4) == ls && qs[..4] == r[..4] && qs[4..] == ls + Blanks(MAX_PARTS - 4 - |ls|)
  {
    var ls := InUseFrom(r, 4);
    InUseMembers(r, 4);
    assert forall k | 0 <= k < |ls| :: ls[k] in ls && Included(ls[k]);
    InUseOfList(qs, 4, 4 + |ls|);
    assert qs[4..4 + |ls|] == ls;
  }

  lemma PrimariesKept(ps: Table, r: Table)
    requires WellPlaced(ps, r)
    ensures forall p :: p in r[..4] && Included(p) <==> p in ps && IsPrimary(p)
  {
    KeepsMembers(ps, r);
    forall p ensures p in r[..4] && Included(p) <==> p in ps && IsPrimary(p) {
      if p in ps && IsPrimary(p) {
        var k :| 0 <= k < |r| && r[k] == p;
        assert r[..4][k] == p;
      }
    }
  }

  /** No write but the one of the main record falls into a partition: the others are in the sector before a logical one. */
  lemma EbrsInFreeSectors(ps: Table, diskSize: nat, before: Disk, after: Disk, main: Record, s: nat)
    requires Ready(ps, diskSize) && Written(before, after, Placed(ps), main) && s > 0 && !SameSector(before, after, s)
    ensures (exists p | p in ps :: IsLogical(p) && s == p.start - 1)
            && forall q | q in ps && Included(q) :: !Covers(q, s)
  {
    var r := Placed(ps);
    var ls := InUseFrom(r, 4);
    PlacedOk(ps, diskSize);
    ChainedLogicals(ps, r);
    var j := ChangedIsEbr(before, after, ls, main, s);
    assert ls[j] in ls;
    BeforeLogicalIsFree(ps, diskSize, ls[j]);
  }

  lemma ChangedIsEbr(before: Disk, after: Disk, ls: Table, main: Record, s: nat) returns (j: nat)
    requires OnlyEbrs(before[0 := main], after, ls, |ls|) && s > 0 && !SameSector(before, after, s)
    ensures j < |ls| && s == ls[j].start - 1
  {
    assert !SameSector(before[0 := main], after, s);
    assert IsEbrSector(ls, |ls|, s);
    j :| 0 <= j < |ls| && s == ls[j].start - 1;
  }

  lemma BeforeLogicalIsFree(ps: Table, diskSize: nat, p: Part)
    requires Legal(ps, diskSize) && p in ps && IsLogical(p) && p.start >= 2
    ensures forall q | q in ps && Included(q) :: !Covers(q, p.start - 1)
  {
    var i :| 0 <= i < |ps| && ps[i] == p;
    forall q | q in ps && Included(q) ensures !Covers(q, p.start - 1) {
      var x :| 0 <= x < |ps| && ps[x] == q;
      EbrSectorFree(ps, diskSize, i, x);
    }
  }

  lemma BlanksAreReady(diskSize: nat)
    ensures Ready(Blanks(MAX_PARTS), diskSize)
  {
    var ps := Blanks(MAX_PARTS);
    CountNone(UsedPrimary(), ps);
    CountNone(Misplaced(), ps[..4]);
  }

  /** An entry after the extended ones have been blanked. */
  function Unextended(p: Part): Part {
    if ExtendedKind(p.kind) && p.length > 0 then BLANK else p
  }

  /** Putting in the extended entry and taking it out again loses and gains no partition. */
  lemma NoneLost(ps: Table, r: Table, q: Table, p: Part)
    requires CleanTable(ps) && |r| == |q| == MAX_PARTS && multiset(r) == multiset(ps)
    requires forall i | 0 <= i < |q| :: q[i] == Unextended(WithExtended(r)[i])
    requires Included(p) && p.length > 0
    ensures p in q <==> p in ps
  {
    KeepsMembers(ps, r);
    if p in ps {
      var i :| 0 <= i < |r| && r[i] == p;
      assert WithExtended(r)[i] == p && Clean(p) && q[i] == p;
    }
    if p in q {
      var i :| 0 <= i < |q| && q[i] == p;
      assert r[i] == p;
    }
  }

  // ----- a table whose main record is lost -----

  /** A primary partition p, and a logical one q at sector 1. */
  ghost predicate StartsAtOne(ps: Table, p: Part, q: Part) {
    && ps == Blanks(MAX_PARTS)[0 := p][4 := q] && Clean(p) && Clean(q) && p.kind != 0xEE && q.kind != 0xEE
    && IsPrimary(p) && IsLogical(q) && q.length > 0 && q.start == 1 && Last(q) < p.start
  }

  lemma CountsAtOne(ps: Table, p: Part, q: Part)
    requires StartsAtOne(ps, p, q)
    ensures NumPrimaries(ps) == 2 && Count(Misplaced(), ps[..4]) == 0
  {
    var b := Blanks(MAX_PARTS);
    CountNone(UsedPrimary(), b);
    CountUpdate(UsedPrimary(), b, 0, p);
    CountUpdate(UsedPrimary(), b[0 := p], 4, q);
    assert HasLogical(ps) by {
      assert IsLogical(ps[4]) && ps[4].length > 0;
    }
    CountNone(Misplaced(), ps[..4]);
  }

  lemma LegalAtOne(ps: Table, p: Part, q: Part, diskSize: nat)
    requires StartsAtOne(ps, p, q) && Last(p) <= diskSize && NumPrimaries(ps) == 2
    ensures Legal(ps, diskSize)
  {
    StartOneAccepted(ps, diskSize, |ps|);
    assert forall i | 0 <= i < |ps| :: SpaceBefore(ps, diskSize, i);
    assert LastLogical(ps) == Last(ps[4]);
    assert forall i | 0 <= i < |ps| :: !Between(ps, i);
  }

  /** Such a table is legal and accepted for writing, although an EBR falls on the main record. */
  lemma AtOneIsAccepted(ps: Table, p: Part, q: Part, diskSize: nat)
    requires StartsAtOne(ps, p, q) && Last(p) <= diskSize
    ensures Ready(ps, diskSize) && CanExtend(Placed(ps)) && !ClearOfMain(ps)
  {
    CountsAtOne(ps, p, q);
    LegalAtOne(ps, p, q, diskSize);
    assert NoProtective(ps);
    AcceptedUnlessProtective(ps, diskSize);
    assert IsLogical(ps[4]) && ps[4].start == 1;
  }

  /** One such table. */
  lemma TableAtOne() returns (ps: Table, p: Part, q: Part)
    ensures p == Part(0x80, 0x83, 100, 50, Primary) && q == Part(0, 0x83, 1, 20, Logical) && StartsAtOne(ps, p, q)
    ensures Ready(ps, 1000) && CanExtend(Placed(ps)) && !ClearOfMain(ps)
  {
    p, q := Part(0x80, 0x83, 100, 50, Primary), Part(0, 0x83, 1, 20, Logical);
    ps := Blanks(MAX_PARTS)[0 := p][4 := q];
    AtOneIsAccepted(ps, p, q, 1000);
  }

  // ----- a table whose extended entry is too short -----

  /** One logical partition at sector 2 and nothing else. */
  ghost predicate Alone(ps: Table, q: Part) {
    ps == Blanks(MAX_PARTS)[4 := q] && Clean(q) && q.kind != 0xEE && IsLogical(q) && q.length > 0 && q.start == 2
  }

  lemma {:induction false} EbrOfAlone(ps: Table, q: Part, diskSize: nat, n: nat)
    requires Alone(ps, q) && n <= |ps| && diskSize > 1
    ensures UsedAs(ps, diskSize, 1, n) == if n <= 4 then Free else Ebr
  {
    if n > 0 {
      EbrOfAlone(ps, q, diskSize, n - 1);
      assert n != 5 ==> ps[n - 1] == BLANK;
    }
  }

  lemma AloneIsAccepted(ps: Table, q: Part, diskSize: nat)
    requires Alone(ps, q) && Last(q) <= diskSize
    ensures Ready(ps, diskSize) && CanExtend(Placed(ps))
  {
    var b := Blanks(MAX_PARTS);
    CountNone(UsedPrimary(), b);
    CountUpdate(UsedPrimary(), b, 4, q);
    CountNone(Misplaced(), ps[..4]);
    EbrOfAlone(ps, q, diskSize, |ps|);
    assert forall i | 0 <= i < |ps| && i != 4 :: ps[i] == BLANK;
    assert NoProtective(ps);
    AcceptedUnlessProtective(ps, diskSize);
  }

  lemma RangeOfAlone(ps: Table, q: Part)
    requires Alone(ps, q)
    ensures FirstLogical(ps) == 2 && LastLogical(ps) == Last(q)
  {
    assert ps[4] == q;
    assert forall i | 0 <= i < |ps| && i != 4 :: !IsLogical(ps[i]);
  }

  /** If it is so long, the extended entry does not reach its end. */
  lemma AloneTooLong(ps: Table, q: Part, diskSize: nat)
    requires Alone(ps, q) && q.length == MAX32 && Ready(ps, diskSize) && CanExtend(Placed(ps))
    ensures ChainSlot(Placed(ps)) < 4 && !Covers(WithExtended(Placed(ps))[ChainSlot(Placed(ps))], Last(q))
  {
    PlacedOk(ps, diskSize);
    SameRange(ps, Placed(ps));
    RangeOfAlone(ps, q);
    assert ps[4] == q;
    ExtendedCoversExactly(ps, Placed(ps));
  }

  /** A legal table that is accepted for writing, and its extended entry does not reach the end of its logical partition. */
  lemma TableTooLong() returns (ps: Table, q: Part)
    ensures q == Part(0, 0x83, 2, MAX32, Logical) && q in ps && Ready(ps, MAX32 + 1) && CanExtend(Placed(ps))
    ensures ChainSlot(Placed(ps)) < 4 && !Covers(WithExtended(Placed(ps))[ChainSlot(Placed(ps))], Last(q))
  {
    q := Part(0, 0x83, 2, MAX32, Logical);
    ps := Blanks(MAX_PARTS)[4 := q];
    assert ps[4] == q;
    AloneIsAccepted(ps, q, MAX32 + 1);
    AloneTooLong(ps, q, MAX32 + 1);
  }
}
