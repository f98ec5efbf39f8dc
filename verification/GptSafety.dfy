/**
  What the order of the four writes and the loader's choice of copies guarantee together:
  interrupted saves, torn writes, runs of interrupted saves, and single faults.

  Everything is first stated on the four regions of the disk, then carried to disk images
  and to the real header format.
 */
module GptSafety {
  import opened Crc32
  import opened GptHeader
  import opened GptStore

  // ----- the four regions -----

  datatype Regions = Regions(mainHeader: Bytes, mainTable: Bytes, secondTable: Bytes, secondHeader: Bytes)

  /** Where the regions start, in bytes, and how long a table is. */
  datatype Layout = Layout(mainHeader: nat, mainTable: nat, secondTable: nat, secondHeader: nat, table: nat) {
    predicate Inside(size: nat) {
      && mainHeader + HEADER_BYTES <= mainTable && mainTable + table <= secondTable
      && secondTable + table <= secondHeader && secondHeader + HEADER_BYTES <= size
    }
  }

  function LayoutOf(g: Geometry): (l: Layout)
    requires g.Valid()
    ensures l.Inside(g.DiskBytes())
  {
    Places(g);
    Layout(g.blockSize, g.MainTableAt(), g.SecondTableAt(), g.SecondHeaderAt(), g.TableBytes())
  }

  function Cut(l: Layout, disk: Bytes): Regions
    requires l.Inside(|disk|)
  {
    Regions(disk[l.mainHeader..l.mainHeader + HEADER_BYTES], disk[l.mainTable..l.mainTable + l.table],
            disk[l.secondTable..l.secondTable + l.table], disk[l.secondHeader..l.secondHeader + HEADER_BYTES])
  }

  function RegionsOf(g: Geometry, disk: Bytes): Regions
    requires g.Valid() && |disk| == g.DiskBytes()
  {
    Cut(LayoutOf(g), disk)
  }

  /** A header that describes the standard places (section 5.3.1 of the UEFI Specification). */
  predicate Standard(g: Geometry, h: Header, isMain: bool)
    requires g.Valid()
  {
    && h.signature == GPT_SIGNATURE && h.revision == GPT_REVISION
    && h.numParts == g.numParts && h.sizeOfPartitionEntries == GPT_SIZE
    && h.lastUsableLBA + 1 == g.SecondTableLBA()
    && h.currentLBA == (if isMain then 1 else g.diskSize - 1)
    && h.backupLBA == (if isMain then g.diskSize - 1 else 1)
    && h.partitionEntriesLBA == (if isMain then 2 else g.SecondTableLBA())
  }

  /** Whatever header passes its checksum is a standard one, and at least one header does. */
  predicate Placed(g: Geometry, f: Format, q: Regions)
    requires g.Valid()
  {
    var m, s := f.decode(q.mainHeader), f.decode(q.secondHeader);
    && (f.good(m) ==> Standard(g, m, true))
    && (f.good(s) ==> Standard(g, s, false))
    && (f.good(m) || f.good(s))
  }

  /** Main copy, unless it fails its checksum and the backup matches both. */
  function Choice(f: Format, main: Bytes, mainCrc: nat, second: Bytes, secondCrc: nat): Bytes {
    if f.crc(main) != mainCrc && f.crc(second) == secondCrc == mainCrc then second else main
  }

  /** The checksum of the table according to each header, or to the other if it is unusable. */
  function MainCrc(f: Format, q: Regions): nat {
    var m, s := f.decode(q.mainHeader), f.decode(q.secondHeader);
    if f.good(m) then m.partitionEntriesCRC else s.partitionEntriesCRC
  }

  function SecondCrc(f: Format, q: Regions): nat {
    var m, s := f.decode(q.mainHeader), f.decode(q.secondHeader);
    if f.good(s) then s.partitionEntriesCRC else m.partitionEntriesCRC
  }

  function TableOf(f: Format, q: Regions): Bytes {
    Choice(f, q.mainTable, MainCrc(f, q), q.secondTable, SecondCrc(f, q))
  }

  lemma SectorOne(g: Geometry)
    ensures 1 * g.blockSize == g.blockSize
  {}

  lemma RawHeaders(g: Geometry, f: Format, disk: Bytes)
    requires IsDisk(g, disk) && Placed(g, f, RegionsOf(g, disk))
    ensures RawMain(g, f, disk) == f.decode(RegionsOf(g, disk).mainHeader)
    ensures RawSecond(g, f, disk) == f.decode(RegionsOf(g, disk).secondHeader)
  {
    Places(g);
    SectorOne(g);
    assert SecondSector(g, f, disk) == g.diskSize - 1;
  }

  /** The headers that a load of a placed disk uses lead to the standard places. */
  lemma UsedHeaders(g: Geometry, f: Format, disk: Bytes)
    requires IsDisk(g, disk) && Placed(g, f, RegionsOf(g, disk))
    ensures TableSizeFixed(g, f, disk) && (MainValid(g, f, disk) || SecondValid(g, f, disk))
    ensures var m, q := MainUsed(g, f, disk), RegionsOf(g, disk);
            m.partitionEntriesLBA == 2 && m.partitionEntriesCRC == MainCrc(f, q)
    ensures var s, q := SecondUsed(g, f, disk), RegionsOf(g, disk);
            s.partitionEntriesLBA == g.SecondTableLBA() && s.partitionEntriesCRC == SecondCrc(f, q)
  {
    RawHeaders(g, f, disk);
    SecondTableBelow(g);
  }

  lemma SecondTableBelow(g: Geometry)
    requires g.Valid()
    ensures g.SecondTableLBA() < TWO64
  {
    MulOrder(1, g.blockSize, g.diskSize);
  }

  /** A table at a standard place is read whole, whatever the temporary space held. */
  lemma StandardRead(g: Geometry, disk: Bytes, h: Header, at: nat, spare: Bytes)
    requires IsDisk(g, disk) && |spare| == g.TableBytes() && at == h.partitionEntriesLBA * g.blockSize && at + |spare| <= |disk|
    ensures TableAt(g, h) == at && WholeRead(g, disk, h, |spare|) && ReadInto(disk, at, spare) == disk[at..at + g.TableBytes()]
  {}

  /** On a placed disk the load depends on the four regions only. */
  lemma LoadedByRegions(g: Geometry, f: Format, disk: Bytes, mem: Memory)
    requires IsDisk(g, disk) && mem.Sized(g.TableBytes()) && Placed(g, f, RegionsOf(g, disk))
    ensures TableSizeFixed(g, f, disk)
    ensures Loaded(g, f, disk, mem) == TableOf(f, RegionsOf(g, disk))
  {
    Places(g);
    UsedHeaders(g, f, disk);
    var m, s := MainUsed(g, f, disk), SecondUsed(g, f, disk);
    StandardRead(g, disk, m, g.MainTableAt(), mem.spare.main);
    StandardRead(g, disk, s, g.SecondTableAt(), mem.spare.check);
    StandardRead(g, disk, s, g.SecondTableAt(), mem.spare.backup);
  }

  // ----- interrupted saves -----

  /** The first j bytes of a write over old contents. */
  function Torn(new_: Bytes, was: Bytes, j: nat): Bytes
    requires j <= |new_| == |was|
  {
    new_[..j] + was[j..]
  }

  predicate SameShape(q: Regions, r: Regions) {
    && |q.mainHeader| == |r.mainHeader| == |q.secondHeader| == |r.secondHeader| == HEADER_BYTES
    && |q.mainTable| == |r.mainTable| == |q.secondTable| == |r.secondTable|
  }

  /** How many bytes the k-th write of a save has. */
  function WriteSize(q: Regions, k: nat): nat {
    if k == 0 then |q.secondTable| else if k == 1 then |q.secondHeader|
    else if k == 2 then |q.mainTable| else if k == 3 then |q.mainHeader| else 0
  }

  /** The regions after k whole writes of a save and j bytes of the next one. */
  function Interrupted(was: Regions, to: Regions, k: nat, j: nat): Regions
    requires SameShape(was, to) && j <= WriteSize(to, k)
  {
    if k == 0 then was.(secondTable := Torn(to.secondTable, was.secondTable, j))
    else if k == 1 then was.(secondTable := to.secondTable, secondHeader := Torn(to.secondHeader, was.secondHeader, j))
    else if k == 2 then to.(mainTable := Torn(to.mainTable, was.mainTable, j), mainHeader := was.mainHeader)
    else if k == 3 then to.(mainHeader := Torn(to.mainHeader, was.mainHeader, j))
    else to
  }

  /** Both headers valid and standard, both tables equal to t and matching both checksums. */
  predicate Consistent(g: Geometry, f: Format, q: Regions, t: Bytes)
    requires g.Valid()
  {
    && Sound(g, f, q) && q.mainTable == q.secondTable == t
    && f.decode(q.mainHeader).partitionEntriesCRC == f.crc(t)
    && f.decode(q.secondHeader).partitionEntriesCRC == f.crc(t)
  }

  /** Both headers valid and standard; nothing said about the tables. */
  predicate Sound(g: Geometry, f: Format, q: Regions)
    requires g.Valid()
  {
    var m, s := f.decode(q.mainHeader), f.decode(q.secondHeader);
    && |q.mainHeader| == |q.secondHeader| == HEADER_BYTES && |q.mainTable| == |q.secondTable| == g.TableBytes()
    && f.good(m) && Standard(g, m, true) && f.good(s) && Standard(g, s, false)
  }

  /** A half-written header still names the standard places. */
  predicate TornFine(f: Format, to: Regions, was: Regions)
    requires SameShape(was, to)
  {
    forall j | 0 <= j <= HEADER_BYTES ::
      && SameLayoutFields(f.decode(Torn(to.mainHeader, was.mainHeader, j)), f.decode(was.mainHeader))
      && SameLayoutFields(f.decode(Torn(to.secondHeader, was.secondHeader, j)), f.decode(was.secondHeader))
  }

  lemma InterruptedPlaced(g: Geometry, f: Format, was: Regions, to: Regions, k: nat, j: nat)
    requires g.Valid() && SameShape(was, to) && j <= WriteSize(to, k)
    requires Sound(g, f, was) && Sound(g, f, to) && TornFine(f, to, was)
    ensures Placed(g, f, Interrupted(was, to, k, j))
  {}

  /**
    Crash consistency. A save over a consistent disk that stops after k whole writes and j
    bytes of the next leaves a disk that loads the old table while the main table is
    untouched, and the new table from the moment the main table is complete, whatever the
    checksum function.
   */
  lemma InterruptedSaveLoads(g: Geometry, f: Format, was: Regions, t0: Bytes, to: Regions, t1: Bytes, k: nat, j: nat)
    requires g.Valid() && Consistent(g, f, was, t0) && Consistent(g, f, to, t1)
    requires SameShape(was, to) && TornFine(f, to, was) && j <= WriteSize(to, k)
    ensures var q := Interrupted(was, to, k, j);
            && Placed(g, f, q)
            && (k < 2 || (k == 2 && j == 0) ==> TableOf(f, q) == t0)
            && (k > 2 || (k == 2 && j == |t1|) ==> TableOf(f, q) == t1)
  {
    InterruptedPlaced(g, f, was, to, k, j);
    var q := Interrupted(was, to, k, j);
    if k == 2 {
      assert j == 0 ==> Torn(t1, t0, j) == t0;
      assert j == |t1| ==> Torn(t1, t0, j) == t1;
    }
  }

  /**
    The one place where a torn write shows. If the main table is half written, the load gives
    the old or the new table if and only if the mixture is one of them, or it fails the old
    checksum while the old and new tables have the same one: the backup copy, though intact,
    is not used because its checksum differs from the one in the main header.
   */
  lemma TornMainTable(g: Geometry, f: Format, was: Regions, t0: Bytes, to: Regions, t1: Bytes, j: nat)
    requires g.Valid() && Consistent(g, f, was, t0) && Consistent(g, f, to, t1)
    requires SameShape(was, to) && j <= |t1|
    ensures var q := Interrupted(was, to, 2, j);
            var mixed := Torn(t1, t0, j);
            && (TableOf(f, q) == t0 || TableOf(f, q) == t1
                <==> mixed == t0 || mixed == t1 || (f.crc(mixed) != f.crc(t0) && f.crc(t1) == f.crc(t0)))
            && (f.crc(t1) != f.crc(t0) ==> TableOf(f, q) == mixed)
  {}

  /**
    Starting from any disk with two sound headers, a save interrupted between writes gives the
    table that would have been loaded before or the new one, at every stop, if and only if
    that earlier load did not rely on the backup copy (or the new table happens to be what
    the main region holds, or to match the old checksum).
   */
  lemma SaveFromAnySoundDisk(g: Geometry, f: Format, was: Regions, to: Regions, t1: Bytes)
    requires g.Valid() && Sound(g, f, was) && Consistent(g, f, to, t1) && SameShape(was, to)
    ensures (forall k | 0 <= k <= 4 :: TableOf(f, Interrupted(was, to, k, 0)) == TableOf(f, was)
                                     || TableOf(f, Interrupted(was, to, k, 0)) == t1)
            <==> (|| f.crc(was.mainTable) == MainCrc(f, was)
                  || !(f.crc(was.secondTable) == SecondCrc(f, was) == MainCrc(f, was))
                  || was.mainTable == t1 || f.crc(t1) == MainCrc(f, was))
  {
    StopsBetweenWrites(was, to);
    var bad := Interrupted(was, to, 1, 0);
    forall k | 0 <= k <= 4 && k != 1
      ensures || TableOf(f, Interrupted(was, to, k, 0)) == TableOf(f, was)
              || TableOf(f, Interrupted(was, to, k, 0)) == t1
              || TableOf(f, Interrupted(was, to, k, 0)) == was.mainTable
    {
      if k == 0 {
        assert Interrupted(was, to, k, 0) == was;
      }
    }
  }

  lemma StopsBetweenWrites(was: Regions, to: Regions)
    requires SameShape(was, to)
    ensures Interrupted(was, to, 0, 0) == was
    ensures Interrupted(was, to, 1, 0) == was.(secondTable := to.secondTable)
    ensures Interrupted(was, to, 2, 0) == to.(mainTable := was.mainTable, mainHeader := was.mainHeader)
    ensures Interrupted(was, to, 3, 0) == to.(mainHeader := was.mainHeader)
    ensures Interrupted(was, to, 4, 0) == to
  {
    assert Torn(to.secondTable, was.secondTable, 0) == was.secondTable;
    assert Torn(to.secondHeader, was.secondHeader, 0) == was.secondHeader;
    assert Torn(to.mainTable, was.mainTable, 0) == was.mainTable;
    assert Torn(to.mainHeader, was.mainHeader, 0) == was.mainHeader;
  }

  /**
    How a table that nobody asked for comes back. Save t1 and stop after three writes (t1
    loads); save the old table again and stop after two (it loads, from the backup copy);
    save t2 and stop after one: now t1 loads, neither the table last loaded nor the new one.
   */
  lemma StaleTableReturns(g: Geometry, f: Format, q0: Regions, t0: Bytes, q1: Regions, t1: Bytes, q2: Regions, t2: Bytes)
    requires g.Valid() && Consistent(g, f, q0, t0) && Consistent(g, f, q1, t1) && Consistent(g, f, q2, t2)
    requires SameShape(q0, q1) && SameShape(q0, q2)
    requires f.crc(t0) != f.crc(t1) && f.crc(t0) != f.crc(t2) && t1 != t2
    ensures var a := Interrupted(q0, q1, 3, 0);
            && TableOf(f, a) == t1 && SameShape(a, q0)
            && var b := Interrupted(a, q0, 2, 0);
            && TableOf(f, b) == t0 && SameShape(b, q2)
            && TableOf(f, Interrupted(b, q2, 1, 0)) == t1 && t1 != TableOf(f, b) && t1 != t2
  {
    StopsBetweenWrites(q0, q1);
    var a := Interrupted(q0, q1, 3, 0);
    StopsBetweenWrites(a, q0);
    var b := Interrupted(a, q0, 2, 0);
    StopsBetweenWrites(b, q2);
  }

  // ----- runs of interrupted saves -----

  /** One save: the regions it would write, their table, and after how many writes it stops. */
  datatype Save = Save(to: Regions, table: Bytes, stop: nat)

  function After(q: Regions, run: seq<Save>): (r: Regions)
    requires SameShape(q, q) && forall i | 0 <= i < |run| :: SameShape(q, run[i].to)
    ensures SameShape(q, r)
  {
    if run == [] then q
    else
      var last := run[|run| - 1];
      assert SameShape(q, last.to);
      Interrupted(After(q, run[..|run| - 1]), last.to, last.stop, 0)
  }

  /** The loader would take the backup copy. */
  predicate ReliesOnBackup(f: Format, q: Regions) {
    f.crc(q.mainTable) != MainCrc(f, q) && f.crc(q.secondTable) == SecondCrc(f, q) == MainCrc(f, q)
  }

  lemma {:induction false} RunKeepsSound(g: Geometry, f: Format, q: Regions, run: seq<Save>)
    requires g.Valid() && Sound(g, f, q)
    requires forall i | 0 <= i < |run| :: SameShape(q, run[i].to) && Consistent(g, f, run[i].to, run[i].table)
    ensures Sound(g, f, After(q, run))
  {
    if run != [] {
      var n := |run| - 1;
      RunKeepsSound(g, f, q, run[..n]);
      StopsBetweenWrites(After(q, run[..n]), run[n].to);
    }
  }

  /**
    Over a whole run of saves, each stopped between any two writes, every load gives the
    table loaded just before or the one being saved, provided no save starts while the loader
    relies on the backup copy; so it always gives the first table or one that was saved.
   */
  lemma {:induction false} RunLoadsOldOrNew(g: Geometry, f: Format, q: Regions, run: seq<Save>)
    requires g.Valid() && Sound(g, f, q)
    requires forall i | 0 <= i < |run| :: SameShape(q, run[i].to) && Consistent(g, f, run[i].to, run[i].table)
    requires forall i | 0 <= i < |run| :: !ReliesOnBackup(f, After(q, run[..i]))
    ensures run != [] ==> TableOf(f, After(q, run)) in {TableOf(f, After(q, run[..|run| - 1])), run[|run| - 1].table}
    ensures TableOf(f, After(q, run)) == TableOf(f, q) || exists i | 0 <= i < |run| :: TableOf(f, After(q, run)) == run[i].table
  {
    if run != [] {
      var n := |run| - 1;
      var was := After(q, run[..n]);
      forall i | 0 <= i < n ensures !ReliesOnBackup(f, After(q, run[..n][..i])) {
        assert run[..n][..i] == run[..i];
      }
      RunLoadsOldOrNew(g, f, q, run[..n]);
      RunKeepsSound(g, f, q, run[..n]);
      SaveFromAnySoundDisk(g, f, was, run[n].to, run[n].table);
      if run[n].stop > 4 {
        StopsBetweenWrites(was, run[n].to);
        assert Interrupted(was, run[n].to, run[n].stop, 0) == Interrupted(was, run[n].to, 4, 0);
      }
    }
  }

  // ----- single faults -----

  /** At most one region differs. */
  predicate OneRegionDiffers(q: Regions, r: Regions) {
    || r == q.(mainHeader := r.mainHeader) || r == q.(mainTable := r.mainTable)
    || r == q.(secondTable := r.secondTable) || r == q.(secondHeader := r.secondHeader)
  }

  /** Each region that changed fails its checksum. */
  predicate Detected(f: Format, q: Regions, r: Regions) {
    && (r.mainHeader != q.mainHeader ==> !f.good(f.decode(r.mainHeader)))
    && (r.secondHeader != q.secondHeader ==> !f.good(f.decode(r.secondHeader)))
    && (r.mainTable != q.mainTable ==> f.crc(r.mainTable) != f.crc(q.mainTable))
    && (r.secondTable != q.secondTable ==> f.crc(r.secondTable) != f.crc(q.secondTable))
  }

  /** Any damage to one region that its checksum detects is repaired from the others. */
  lemma SingleFaultRecovery(g: Geometry, f: Format, q: Regions, t: Bytes, r: Regions)
    requires g.Valid() && Consistent(g, f, q, t) && OneRegionDiffers(q, r) && Detected(f, q, r)
    ensures Placed(g, f, r) && TableOf(f, r) == t
  {}

  /** Two headers that are copies of each other but for the fields that say where they are. */
  predicate Twins(m: Header, s: Header) {
    && m.firstUsableLBA == s.firstUsableLBA && m.lastUsableLBA == s.lastUsableLBA && m.diskGUID == s.diskGUID
    && m.headerSize == s.headerSize && m.reserved == s.reserved && m.reserved2 == s.reserved2
  }

  /**
    The headers come back: on a disk that differs from a consistent one with twin headers by detected damage to one
    region, the load ends with the two original headers, up to the checksum of one that was rebuilt.
   */
  lemma HeadersRecovered(g: Geometry, f: Format, q: Regions, t: Bytes, disk: Bytes)
    requires IsDisk(g, disk) && Consistent(g, f, q, t) && Twins(f.decode(q.mainHeader), f.decode(q.secondHeader))
    requires OneRegionDiffers(q, RegionsOf(g, disk)) && Detected(f, q, RegionsOf(g, disk))
    ensures var m, was := MainUsed(g, f, disk), f.decode(q.mainHeader); m.(headerCRC := was.headerCRC) == was
    ensures var s, was := SecondUsed(g, f, disk), f.decode(q.secondHeader); s.(headerCRC := was.headerCRC) == was
  {
    SingleFaultRecovery(g, f, q, t, RegionsOf(g, disk));
    RawHeaders(g, f, disk);
    SecondTableBelow(g);
  }

  // ----- from regions to disk images -----

  /** Byte offset of the region that the k-th write of a save goes to. */
  function Offset(l: Layout, k: nat): nat {
    if k == 0 then l.secondTable else if k == 1 then l.secondHeader
    else if k == 2 then l.mainTable else l.mainHeader
  }

  function Part(q: Regions, k: nat): Bytes {
    if k == 0 then q.secondTable else if k == 1 then q.secondHeader
    else if k == 2 then q.mainTable else q.mainHeader
  }

  function WithPart(q: Regions, k: nat, data: Bytes): Regions {
    if k == 0 then q.(secondTable := data) else if k == 1 then q.(secondHeader := data)
    else if k == 2 then q.(mainTable := data) else q.(mainHeader := data)
  }

  lemma ReadOther(disk: Bytes, at: nat, data: Bytes, lo: nat, hi: nat)
    requires at + |data| <= |disk| && lo <= hi <= |disk| && (hi <= at || at + |data| <= lo)
    ensures Write(disk, at, data)[lo..hi] == disk[lo..hi]
  {}

  lemma ReadWritten(disk: Bytes, at: nat, data: Bytes, n: nat)
    requires |data| <= n && at + n <= |disk|
    ensures Write(disk, at, data)[at..at + n] == data + disk[at..at + n][|data|..]
  {
    var a, b := Write(disk, at, data)[at..at + n], data + disk[at..at + n][|data|..];
    forall i | 0 <= i < n ensures a[i] == b[i] {
      assert a[i] == Write(disk, at, data)[at + i];
      if i >= |data| {
        assert b[i] == disk[at..at + n][i] == disk[at + i];
      }
    }
  }

  function PartSize(l: Layout, k: nat): nat {
    if k == 0 || k == 2 then l.table else HEADER_BYTES
  }

  lemma PartIsSlice(l: Layout, disk: Bytes, k: nat)
    requires l.Inside(|disk|)
    ensures Offset(l, k) + PartSize(l, k) <= |disk|
    ensures Part(Cut(l, disk), k) == disk[Offset(l, k)..Offset(l, k) + PartSize(l, k)]
  {}

  lemma PartsApart(l: Layout, i: nat, k: nat)
    requires i < 4 && k < 4 && i != k && exists size :: l.Inside(size)
    ensures Offset(l, i) + PartSize(l, i) <= Offset(l, k) || Offset(l, k) + PartSize(l, k) <= Offset(l, i)
  {}

  lemma KeepPart(l: Layout, disk: Bytes, k: nat, data: Bytes, i: nat)
    requires l.Inside(|disk|) && k < 4 && i < 4 && i != k && |data| <= PartSize(l, k)
    requires Offset(l, k) + |data| <= |disk|
    ensures Part(Cut(l, Write(disk, Offset(l, k), data)), i) == Part(Cut(l, disk), i)
  {
    var d := Write(disk, Offset(l, k), data);
    PartIsSlice(l, disk, i);
    PartIsSlice(l, d, i);
    PartsApart(l, i, k);
    ReadOther(disk, Offset(l, k), data, Offset(l, i), Offset(l, i) + PartSize(l, i));
  }

  lemma HitPart(l: Layout, disk: Bytes, k: nat, data: Bytes)
    requires l.Inside(|disk|) && k < 4 && |data| <= PartSize(l, k)
    ensures Offset(l, k) + |data| <= |disk|
    ensures Part(Cut(l, Write(disk, Offset(l, k), data)), k) == data + Part(Cut(l, disk), k)[|data|..]
  {
    PartIsSlice(l, disk, k);
    var d := Write(disk, Offset(l, k), data);
    PartIsSlice(l, d, k);
    ReadWritten(disk, Offset(l, k), data, PartSize(l, k));
  }

  lemma PartsDetermine(q: Regions, r: Regions)
    requires forall i | 0 <= i < 4 :: Part(q, i) == Part(r, i)
    ensures q == r
  {
    assert Part(q, 0) == Part(r, 0) && Part(q, 1) == Part(r, 1) && Part(q, 2) == Part(r, 2) && Part(q, 3) == Part(r, 3);
  }

  /** Writing at a region changes that region only. */
  lemma WriteOneRegion(l: Layout, disk: Bytes, k: nat, data: Bytes)
    requires l.Inside(|disk|) && k < 4 && |data| <= PartSize(l, k)
    ensures Offset(l, k) + |data| <= |disk|
    ensures var q := Cut(l, disk);
            |data| <= |Part(q, k)| && Cut(l, Write(disk, Offset(l, k), data)) == WithPart(q, k, data + Part(q, k)[|data|..])
  {
    HitPart(l, disk, k, data);
    PartIsSlice(l, disk, k);
    var q := Cut(l, disk);
    var r := Cut(l, Write(disk, Offset(l, k), data));
    forall i | 0 <= i < 4
      ensures Part(r, i) == Part(WithPart(q, k, data + Part(q, k)[|data|..]), i)
    {
      if i != k { KeepPart(l, disk, k, data, i); }
    }
    PartsDetermine(r, WithPart(q, k, data + Part(q, k)[|data|..]));
  }

  /** The writes of a save, as operations at the standard places. */
  function StandardOps(l: Layout, to: Regions): seq<Op> {
    [Op(l.secondTable, to.secondTable), Op(l.secondHeader, to.secondHeader),
     Op(l.mainTable, to.mainTable), Op(l.mainHeader, to.mainHeader)]
  }

  /** The regions after whole writes i..k of a save and j bytes of write k. */
  function Resumed(q: Regions, to: Regions, i: nat, k: nat, j: nat): Regions
    requires SameShape(q, to) && i <= 4
    decreases 4 - i
  {
    if i == 4 then q
    else if i == k then WithPart(q, i, Torn(Part(to, i), Part(q, i), Clip(j, |Part(to, i)|)))
    else Resumed(WithPart(q, i, Part(to, i)), to, i + 1, k, j)
  }

  function Clip(j: nat, n: nat): nat {
    if j < n then j else n
  }

  /** The operations are the writes of parts i, i+1, ... of a save. */
  predicate AreWrites(ops: seq<Op>, l: Layout, to: Regions, i: nat) {
    i <= 4 && |ops| == 4 - i && forall x | 0 <= x < |ops| :: ops[x] == Op(Offset(l, i + x), Part(to, i + x))
  }

  /** A torn write of part i, on the disk and on the regions. */
  lemma TearPart(l: Layout, disk: Bytes, i: nat, data: Bytes, n: nat)
    requires l.Inside(|disk|) && i < 4 && |data| == PartSize(l, i) && n <= |data|
    ensures Offset(l, i) + n <= |disk|
    ensures |Part(Cut(l, disk), i)| == |data|
    ensures Cut(l, Write(disk, Offset(l, i), data[..n])) == WithPart(Cut(l, disk), i, Torn(data, Part(Cut(l, disk), i), n))
  {
    PartIsSlice(l, disk, i);
    WriteOneRegion(l, disk, i, data[..n]);
  }

  lemma PerformTorn(l: Layout, disk: Bytes, ops: seq<Op>, i: nat, data: Bytes, j: nat)
    requires l.Inside(|disk|) && i < 4 && |data| == PartSize(l, i)
    requires |ops| > 0 && ops[0] == Op(Offset(l, i), data) && InsideDisk(disk, ops)
    ensures |Part(Cut(l, disk), i)| == |data|
    ensures Cut(l, Perform(disk, ops, 0, j)) == WithPart(Cut(l, disk), i, Torn(data, Part(Cut(l, disk), i), Clip(j, |data|)))
  {
    assert (if j < |data| then data[..j] else data) == data[..Clip(j, |data|)];
    TearPart(l, disk, i, data, Clip(j, |data|));
  }

  lemma WriteWhole(l: Layout, disk: Bytes, i: nat, data: Bytes)
    requires l.Inside(|disk|) && i < 4 && |data| == PartSize(l, i)
    ensures Offset(l, i) + |data| <= |disk|
    ensures Cut(l, Write(disk, Offset(l, i), data)) == WithPart(Cut(l, disk), i, data)
  {
    TearPart(l, disk, i, data, |data|);
    assert data[..|data|] == data && Torn(data, Part(Cut(l, disk), i), |data|) == data;
  }

  lemma ShapeSizes(l: Layout, disk: Bytes, to: Regions, i: nat)
    requires l.Inside(|disk|) && i < 4 && SameShape(Cut(l, disk), to)
    ensures |Part(to, i)| == PartSize(l, i)
    ensures SameShape(WithPart(Cut(l, disk), i, Part(to, i)), to)
  {}

  lemma {:induction false} PerformFrom(l: Layout, disk: Bytes, ops: seq<Op>, to: Regions, i: nat, k: nat, j: nat)
    requires l.Inside(|disk|) && AreWrites(ops, l, to, i) && SameShape(Cut(l, disk), to)
    requires InsideDisk(disk, ops) && i <= k
    ensures Cut(l, Perform(disk, ops, k - i, j)) == Resumed(Cut(l, disk), to, i, k, j)
    decreases 4 - i
  {
    if i < 4 {
      ShapeSizes(l, disk, to, i);
      assert ops[0] == Op(Offset(l, i + 0), Part(to, i + 0));
      if i == k {
        PerformTorn(l, disk, ops, i, Part(to, i), j);
      } else {
        WriteWhole(l, disk, i, Part(to, i));
        assert AreWrites(ops[1..], l, to, i + 1);
        PerformFrom(l, Write(disk, Offset(l, i), Part(to, i)), ops[1..], to, i + 1, k, j);
      }
    }
  }

  lemma ResumedIsInterrupted(q: Regions, to: Regions, k: nat, j: nat)
    requires SameShape(q, to)
    ensures Resumed(q, to, 0, k, j) == Interrupted(q, to, k, Clip(j, WriteSize(to, k)))
  {
    var q1 := WithPart(q, 0, Part(to, 0));
    var q2 := WithPart(q1, 1, Part(to, 1));
    var q3 := WithPart(q2, 2, Part(to, 2));
    var q4 := WithPart(q3, 3, Part(to, 3));
    if k > 0 { assert Resumed(q, to, 0, k, j) == Resumed(q1, to, 1, k, j); }
    if k > 1 { assert Resumed(q1, to, 1, k, j) == Resumed(q2, to, 2, k, j); }
    if k > 2 { assert Resumed(q2, to, 2, k, j) == Resumed(q3, to, 3, k, j); }
    if k > 3 { assert Resumed(q3, to, 3, k, j) == Resumed(q4, to, 4, k, j) == to; }
  }

  /** A save stopped anywhere on the disk is the interrupted save on its regions. */
  lemma PerformIsInterrupted(g: Geometry, disk: Bytes, to: Regions, k: nat, j: nat)
    requires IsDisk(g, disk) && SameShape(RegionsOf(g, disk), to)
    ensures InsideDisk(disk, StandardOps(LayoutOf(g), to))
    ensures RegionsOf(g, Perform(disk, StandardOps(LayoutOf(g), to), k, j))
            == Interrupted(RegionsOf(g, disk), to, k, Clip(j, WriteSize(to, k)))
  {
    var l := LayoutOf(g);
    PerformFrom(l, disk, StandardOps(l, to), to, 0, k, j);
    ResumedIsInterrupted(RegionsOf(g, disk), to, k, j);
  }
}
