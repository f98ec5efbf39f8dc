/**
  MBR partition tables with logical partitions (external/gptfdisk/basicmbr.cc, mbrpart.cc) as values:
  table entries, what makes a table legal, sorting, and the chain of extended boot records on disk.
 */
module MbrTable {
  import opened Lists

  const MAX_PARTS := 128
  const MAX32 := 0xFFFF_FFFF
  const SIGNATURE := 0xAA55

  datatype Inclusion = Omitted | Primary | Logical

  datatype Part = Part(status: nat, kind: nat, start: nat, length: nat, incl: Inclusion)

  const BLANK := Part(0, 0, 0, 0, Omitted)

  type Table = seq<Part>

  predicate Included(p: Part) {
    p.incl != Omitted
  }

  predicate IsLogical(p: Part) {
    p.incl == Logical
  }

  predicate IsPrimary(p: Part) {
    p.incl == Primary
  }

  predicate ExtendedKind(kind: nat) {
    kind == 0x05 || kind == 0x0f || kind == 0x85
  }

  function Last(p: Part): nat {
    if p.length > 0 then p.start + p.length - 1 else 0
  }

  predicate Covers(p: Part, sector: nat) {
    p.start <= sector <= Last(p)
  }

  /** DoTheyOverlap, as the source computes it. */
  predicate Overlap(p: Part, q: Part) {
    p.length > 0 && q.length > 0 && (p.start <= Last(q)) != (Last(p) < q.start)
  }

  lemma OverlapIsCommonSector(p: Part, q: Part)
    ensures Overlap(p, q) <==> p.length > 0 && q.length > 0 && exists s: nat :: Covers(p, s) && Covers(q, s)
  {
    if p.length > 0 && q.length > 0 {
      var s := if p.start < q.start then q.start else p.start;
      assert Overlap(p, q) ==> Covers(p, s) && Covers(q, s);
    }
  }

  // ----- legal tables -----

  predicate Compatible(p: Part, q: Part) {
    Included(p) && Included(q) ==> !Overlap(p, q)
  }

  predicate Pairwise(ps: Table) {
    forall i, j | 0 <= i < j < |ps| :: Compatible(ps[i], ps[j])
  }

  function Count(f: Part -> bool, ps: Table): nat {
    if ps == [] then 0 else Count(f, ps[..|ps| - 1]) + if f(ps[|ps| - 1]) then 1 else 0
  }

  function UsedPrimary(): Part -> bool {
    (p: Part) => p.length > 0 && p.incl == Primary
  }

  predicate HasLogical(ps: Table) {
    exists i | 0 <= i < |ps| :: ps[i].length > 0 && IsLogical(ps[i])
  }

  /** NumPrimaries: the extended partition that logical ones need is one of them. */
  function NumPrimaries(ps: Table): nat {
    Count(UsedPrimary(), ps) + if HasLogical(ps) then 1 else 0
  }

  datatype Use = Free | UsedBy(incl: Inclusion) | Ebr | Invalid

  /** SectorUsedAs: the use found by looking at the entries in turn. */
  function UsedAs(ps: Table, diskSize: nat, sector: nat, n: nat): Use
    requires n <= |ps|
  {
    if n == 0 then Free
    else
      var u := UsedAs(ps, diskSize, sector, n - 1);
      if u == Free || u == Ebr then UseAfter(ps[n - 1], diskSize, sector, u) else u
  }

  function UseAfter(p: Part, diskSize: nat, sector: nat, u: Use): Use {
    if sector >= diskSize then Invalid
    else if sector == 0 || (p.start == sector + 1 && IsLogical(p)) then Ebr
    else if Covers(p, sector) then (if Included(p) then UsedBy(p.incl) else Free)
    else u
  }

  /** A sector reported as an EBR is on the disk and in no included partition. */
  lemma {:induction false} EbrIsFree(ps: Table, diskSize: nat, sector: nat, n: nat)
    requires n <= |ps| && UsedAs(ps, diskSize, sector, n) == Ebr && sector > 0
    ensures sector < diskSize && forall i | 0 <= i < n :: Included(ps[i]) ==> !Covers(ps[i], sector)
  {
    var u := UsedAs(ps, diskSize, sector, n - 1);
    if u == Free && n > 1 {
      FreeIsFree(ps, diskSize, sector, n - 1);
    } else if u == Ebr {
      EbrIsFree(ps, diskSize, sector, n - 1);
    }
  }

  lemma {:induction false} FreeIsFree(ps: Table, diskSize: nat, sector: nat, n: nat)
    requires 0 < n <= |ps| && UsedAs(ps, diskSize, sector, n) == Free
    ensures sector < diskSize && forall i | 0 <= i < n :: Included(ps[i]) ==> !Covers(ps[i], sector)
  {
    var u := UsedAs(ps, diskSize, sector, n - 1);
    if n > 1 {
      if u == Ebr && sector > 0 {
        EbrIsFree(ps, diskSize, sector, n - 1);
      } else if u == Free {
        FreeIsFree(ps, diskSize, sector, n - 1);
      }
    }
  }

  predicate SpaceBefore(ps: Table, diskSize: nat, i: nat)
    requires i < |ps|
  {
    ps[i].start > 0 && IsLogical(ps[i]) ==> UsedAs(ps, diskSize, ps[i].start - 1, |ps|) == Ebr
  }

  predicate Fits(p: Part, diskSize: nat) {
    p.start <= diskSize && Last(p) <= diskSize
  }

  /** FirstLogicalLBA. */
  function FirstLogical(ps: Table): (first: nat)
    ensures first <= MAX32
    ensures forall i | 0 <= i < |ps| :: IsLogical(ps[i]) ==> first <= ps[i].start
    ensures first < MAX32 ==> exists i | 0 <= i < |ps| :: IsLogical(ps[i]) && ps[i].start == first
  {
    if ps == [] then MAX32
    else
      var n := |ps| - 1;
      var first := FirstLogical(ps[..n]);
      if IsLogical(ps[n]) && ps[n].start < first then ps[n].start else first
  }

  /** LastLogicalLBA. */
  function LastLogical(ps: Table): (last: nat)
    ensures forall i | 0 <= i < |ps| :: IsLogical(ps[i]) ==> Last(ps[i]) <= last
    ensures last > 0 ==> exists i | 0 <= i < |ps| :: IsLogical(ps[i]) && Last(ps[i]) == last
  {
    if ps == [] then 0
    else
      var n := |ps| - 1;
      var last := LastLogical(ps[..n]);
      if IsLogical(ps[n]) && Last(ps[n]) > last then Last(ps[n]) else last
  }

  /** FirstLogicalLBA() - 1 in 64-bit arithmetic. */
  function EbrBefore(first: nat): nat {
    if first == 0 then 0xFFFF_FFFF_FFFF_FFFF else first - 1
  }

  predicate Between(ps: Table, i: nat)
    requires i < |ps|
  {
    IsPrimary(ps[i]) && EbrBefore(FirstLogical(ps)) <= ps[i].start <= LastLogical(ps)
  }

  predicate Contiguous(ps: Table) {
    LastLogical(ps) > 0 ==> forall i | 0 <= i < |ps| :: !Between(ps, i)
  }

  /** IsLegal. */
  predicate Legal(ps: Table, diskSize: nat) {
    && Pairwise(ps) && NumPrimaries(ps) <= 4 && Contiguous(ps)
    && (forall i | 0 <= i < |ps| :: Fits(ps[i], diskSize))
    && (forall i | 0 <= i < |ps| :: SpaceBefore(ps, diskSize, i))
  }

  /** Entries the operations make: 32-bit fields, no extended kinds, unused entries empty, none at the MBR sector. */
  predicate Clean(p: Part) {
    && p.start <= MAX32 && p.length <= MAX32 && !ExtendedKind(p.kind)
    && (p.length == 0 ==> p == BLANK) && (p.length > 0 ==> p.start > 0)
  }

  predicate CleanTable(ps: Table) {
    |ps| == MAX_PARTS && forall i | 0 <= i < |ps| :: Clean(ps[i])
  }

  /** In a legal table the sector before a logical partition is in no partition. */
  lemma EbrSectorFree(ps: Table, diskSize: nat, i: nat, j: nat)
    requires Legal(ps, diskSize) && i < |ps| && j < |ps| && IsLogical(ps[i]) && ps[i].start >= 2 && Included(ps[j])
    ensures !Covers(ps[j], ps[i].start - 1) && ps[i].start - 1 < diskSize
  {
    assert SpaceBefore(ps, diskSize, i);
    EbrIsFree(ps, diskSize, ps[i].start - 1, |ps|);
  }

  /** Two logical partitions of a legal table start, and so have their EBRs, at different sectors. */
  lemma StartsDiffer(p: Part, q: Part)
    requires Compatible(p, q) && Included(p) && Included(q) && p.length > 0 && q.length > 0
    ensures p.start != q.start
  {}

  /** No primary partition has a sector between the first EBR and the end of the last logical partition. */
  lemma ExtendedOverlapsNoPrimary(ps: Table, diskSize: nat, i: nat, k: nat, sector: nat)
    requires Legal(ps, diskSize) && CleanTable(ps) && i < |ps| && IsPrimary(ps[i]) && ps[i].length > 0
    requires k < |ps| && IsLogical(ps[k]) && ps[k].start == FirstLogical(ps)
    requires FirstLogical(ps) - 1 <= sector <= LastLogical(ps)
    ensures !Covers(ps[i], sector)
  {
    assert Clean(ps[k]) && Clean(ps[i]) && ps[k].length > 0 by {
      assert ps[k] != BLANK;
    }
    if ps[k].start >= 2 {
      EbrSectorFree(ps, diskSize, k, i);
    }
    assert !Between(ps, i);
  }

  /** The check for space before a logical partition accepts a start at sector 1, where the EBR falls on the main record. */
  lemma {:induction false} StartOneAccepted(ps: Table, diskSize: nat, n: nat)
    requires 0 < n <= |ps| && diskSize > 0
    ensures UsedAs(ps, diskSize, 0, n) == Ebr
    ensures forall i | 0 <= i < |ps| && ps[i].start == 1 && n == |ps| :: SpaceBefore(ps, diskSize, i)
  {
    if n > 1 {
      StartOneAccepted(ps, diskSize, n - 1);
    }
  }
}
