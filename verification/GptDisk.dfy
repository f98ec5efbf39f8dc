/**
  The safety results for the real header format: crash consistency for any checksum, and
  recovery from any damaged byte for the CRC-32 that the program uses.
 */
module GptDisk {
  import opened Crc32
  import opened GptHeader
  import opened GptStore
  import opened GptSafety
  import opened Options

  // ----- the real format -----

  predicate Shaped(h: Header) {
    |h.diskGUID| == 16 && |h.reserved2| == 420
  }

  function DecodeSector(b: Bytes): Header {
    if |b| == HEADER_BYTES then Decode(b) else Decode(Zeros(HEADER_BYTES))
  }

  function EncodeSector(h: Header): Bytes {
    if Shaped(h) then Encode(h) else Zeros(HEADER_BYTES)
  }

  predicate GoodSector(crc: Summer, blockSize: nat, h: Header) {
    Shaped(h) && CrcOk(crc, blockSize, h)
  }

  function SealSector(crc: Summer, h: Header, size: nat, tableCrc: U32): Header {
    if Shaped(h) then Sealed(crc, h, size, tableCrc) else h
  }

  function RealFormat(crc: Summer, blockSize: nat): Format {
    Format(DecodeSector, EncodeSector, h => GoodSector(crc, blockSize, h),
           (h: Header, size: nat, tableCrc: U32) => SealSector(crc, h, size, tableCrc), crc)
  }

  // ----- what a save writes is consistent -----

  /** Headers in memory that will be saved at the standard places. */
  predicate Storable(g: Geometry, m: Header, s: Header)
    requires g.Valid()
  {
    Fits(m) && Fits(s) && Standard(g, m, true) && Standard(g, s, false)
  }

  /** And with a size that a reader will believe. */
  predicate SaveReady(g: Geometry, m: Header, s: Header)
    requires g.Valid()
  {
    Storable(g, m, s) && m.headerSize >= HEADER_SIZE
  }

  function SavedRegions(g: Geometry, crc: Summer, m: Header, s: Header, t: Bytes): Regions
    requires g.Valid() && Storable(g, m, s)
  {
    Regions(Encode(Sealed(crc, m, m.headerSize, crc(t))), t, t, Encode(Sealed(crc, s, m.headerSize, crc(t))))
  }

  lemma Pow256Four()
    ensures Pow256(4) == 0x1_0000_0000
  {
    assert Pow256(1) == 256;
    assert Pow256(2) == 0x1_0000;
    assert Pow256(3) == 0x100_0000;
  }

  lemma SealedFits(crc: Summer, h: Header, size: nat, tableCrc: U32)
    requires Fits(h)
    ensures Fits(Sealed(crc, h, size, tableCrc)) && SameLayoutFields(Sealed(crc, h, size, tableCrc), h)
    ensures Sealed(crc, h, size, tableCrc).partitionEntriesCRC == tableCrc
  {
    Pow256Four();
  }

  lemma SealedHeaderReadsBack(g: Geometry, crc: Summer, h: Header, isMain: bool, size: nat, tableCrc: U32)
    requires g.Valid() && Fits(h) && Standard(g, h, isMain) && size >= HEADER_SIZE
    ensures var f := RealFormat(crc, g.blockSize);
            var b := Encode(Sealed(crc, h, size, tableCrc));
            && f.decode(b) == Sealed(crc, h, size, tableCrc) && f.good(f.decode(b))
            && Standard(g, f.decode(b), isMain) && f.decode(b).partitionEntriesCRC == tableCrc
  {
    SealedFits(crc, h, size, tableCrc);
    HeaderRoundTrip(Sealed(crc, h, size, tableCrc));
    SealedPasses(crc, g.blockSize, h, size, tableCrc);
  }

  /** The four structures a save writes agree with each other and with the table. */
  lemma SavedIsConsistent(g: Geometry, crc: Summer, m: Header, s: Header, t: Bytes)
    requires g.Valid() && SaveReady(g, m, s) && |t| == g.TableBytes()
    ensures Consistent(g, RealFormat(crc, g.blockSize), SavedRegions(g, crc, m, s, t), t)
  {
    SealedHeaderReadsBack(g, crc, m, true, m.headerSize, crc(t));
    SealedHeaderReadsBack(g, crc, s, false, m.headerSize, crc(t));
  }

  lemma SavedTearsFine(g: Geometry, crc: Summer, was: Regions, m: Header, s: Header, t: Bytes)
    requires g.Valid() && SaveReady(g, m, s) && |t| == g.TableBytes()
    requires SameShape(was, SavedRegions(g, crc, m, s, t))
    requires SameLayoutFields(m, Decode(was.mainHeader)) && SameLayoutFields(s, Decode(was.secondHeader))
    ensures TornFine(RealFormat(crc, g.blockSize), SavedRegions(g, crc, m, s, t), was)
  {
    var to := SavedRegions(g, crc, m, s, t);
    forall j | 0 <= j <= HEADER_BYTES
      ensures SameLayoutFields(DecodeSector(Torn(to.mainHeader, was.mainHeader, j)), DecodeSector(was.mainHeader))
      ensures SameLayoutFields(DecodeSector(Torn(to.secondHeader, was.secondHeader, j)), DecodeSector(was.secondHeader))
    {
      TornHeader(crc, m, m.headerSize, crc(t), was.mainHeader, j);
      TornHeader(crc, s, m.headerSize, crc(t), was.secondHeader, j);
    }
  }

  lemma TornHeader(crc: Summer, h: Header, size: nat, tableCrc: U32, was: Bytes, j: nat)
    requires Fits(h) && |was| == HEADER_BYTES && j <= HEADER_BYTES && SameLayoutFields(h, Decode(was))
    ensures SameLayoutFields(Decode(Encode(Sealed(crc, h, size, tableCrc))[..j] + was[j..]), Decode(was))
  {
    SealedFits(crc, h, size, tableCrc);
    BytesRoundTrip(was);
    DecodeFits(was);
    TornSameLayout(Sealed(crc, h, size, tableCrc), Decode(was), j);
  }

  /** The writes of SaveGPTData are the standard writes of those four structures. */
  lemma OpsAreStandard(g: Geometry, crc: Summer, m: Header, s: Header, t: Bytes)
    requires g.Valid() && Storable(g, m, s)
    ensures var f := RealFormat(crc, g.blockSize);
            SaveOps(g, f, f.seal(m, m.headerSize, crc(t)), f.seal(s, m.headerSize, crc(t)), t)
            == StandardOps(LayoutOf(g), SavedRegions(g, crc, m, s, t))
  {
    SealedFits(crc, m, m.headerSize, crc(t));
    SealedFits(crc, s, m.headerSize, crc(t));
    SectorOne(g);
  }

  /** A write of sector 0 after the others leaves the four structures as they are. */
  lemma MbrApart(g: Geometry, disk: Bytes, ops: seq<Op>, mbr: Bytes, k: nat, j: nat)
    requires IsDisk(g, disk) && InsideDisk(disk, ops) && |mbr| == HEADER_BYTES
    ensures InsideDisk(disk, ops + [Op(0, mbr)])
    ensures RegionsOf(g, Perform(disk, ops + [Op(0, mbr)], k, j)) == RegionsOf(g, Perform(disk, ops, k, j))
  {
    Places(g);
    PerformLast(disk, ops, Op(0, mbr), k, j);
    var image, part := Perform(disk, ops, k, j), if k == |ops| && j < |mbr| then mbr[..j] else mbr;
    var l := LayoutOf(g);
    WriteApart(image, 0, part, l.mainHeader, l.mainHeader + HEADER_BYTES);
    WriteApart(image, 0, part, l.mainTable, l.mainTable + l.table);
    WriteApart(image, 0, part, l.secondTable, l.secondTable + l.table);
    WriteApart(image, 0, part, l.secondHeader, l.secondHeader + HEADER_BYTES);
  }

  /**
    Crash consistency on the disk, for any checksum. Save t1 over a disk that consistently holds
    t0, stop after any k writes and any j bytes of the next: the next load gives t0 if the
    main table was not reached, t1 if it was finished, and only inside that one write
    anything else.
   */
  lemma CrashConsistency(g: Geometry, crc: Summer, disk: Bytes, t0: Bytes,
                         m: Header, s: Header, t1: Bytes, mbr: Bytes, k: nat, j: nat, mem: Memory)
    requires IsDisk(g, disk) && Consistent(g, RealFormat(crc, g.blockSize), RegionsOf(g, disk), t0)
    requires SaveReady(g, m, s) && |t1| == g.TableBytes() && mem.Sized(g.TableBytes()) && |mbr| == HEADER_BYTES
    requires SameLayoutFields(m, Decode(RegionsOf(g, disk).mainHeader))
    requires SameLayoutFields(s, Decode(RegionsOf(g, disk).secondHeader))
    ensures var f := RealFormat(crc, g.blockSize);
            var ops := AllOps(g, f, f.seal(m, m.headerSize, crc(t1)), f.seal(s, m.headerSize, crc(t1)), t1, Some(mbr));
            && InsideDisk(disk, ops)
            && var image := Perform(disk, ops, k, j);
               && TableSizeFixed(g, f, image)
               && (k < 2 || (k == 2 && j == 0) ==> Loaded(g, f, image, mem) == t0)
               && (k > 2 || (k == 2 && j >= |t1|) ==> Loaded(g, f, image, mem) == t1)
  {
    var f := RealFormat(crc, g.blockSize);
    var was, to := RegionsOf(g, disk), SavedRegions(g, crc, m, s, t1);
    OpsAreStandard(g, crc, m, s, t1);
    SavedIsConsistent(g, crc, m, s, t1);
    SavedTearsFine(g, crc, was, m, s, t1);
    PerformIsInterrupted(g, disk, to, k, j);
    InterruptedSaveLoads(g, f, was, t0, to, t1, k, Clip(j, WriteSize(to, k)));
    MbrApart(g, disk, StandardOps(LayoutOf(g), to), mbr, k, j);
    LoadedByRegions(g, f, Perform(disk, StandardOps(LayoutOf(g), to) + [Op(0, mbr)], k, j), mem);
  }

  /**
    The stale table is real: on every geometry, with the real format and CRC-32 and any headers that can be saved,
    three tables that differ in their first byte bring it about.
   */
  lemma StaleTableIsReal(g: Geometry, m: Header, s: Header) returns (t0: Bytes, t1: Bytes, t2: Bytes)
    requires g.Valid() && SaveReady(g, m, s)
    ensures |t0| == |t1| == |t2| == g.TableBytes() && t1 != t0 && t1 != t2
    ensures var f := RealFormat(Checksum32, g.blockSize);
            var q0 := SavedRegions(g, Checksum32, m, s, t0);
            var b := Interrupted(Interrupted(q0, SavedRegions(g, Checksum32, m, s, t1), 3, 0), q0, 2, 0);
            TableOf(f, b) == t0 && TableOf(f, Interrupted(b, SavedRegions(g, Checksum32, m, s, t2), 1, 0)) == t1
  {
    t0 := Zeros(g.TableBytes());
    t1, t2 := t0[0 := 1], t0[0 := 2];
    assert t1[0] != t2[0];
    OneByteChangesChecksum(t0, 0, 1);
    OneByteChangesChecksum(t0, 0, 2);
    SavedIsConsistent(g, Checksum32, m, s, t0);
    SavedIsConsistent(g, Checksum32, m, s, t1);
    SavedIsConsistent(g, Checksum32, m, s, t2);
    StaleTableReturns(g, RealFormat(Checksum32, g.blockSize), SavedRegions(g, Checksum32, m, s, t0), t0,
                      SavedRegions(g, Checksum32, m, s, t1), t1, SavedRegions(g, Checksum32, m, s, t2), t2);
  }

  // ----- a main table that cannot be read -----

  /** A valid main header whose table would begin right behind the last sector. */
  predicate LeadsOff(g: Geometry, f: Format, h: Header, tableCrc: nat) {
    && f.Valid(h) && h.partitionEntriesLBA == g.diskSize && h.backupLBA == g.diskSize - 1
    && h.partitionEntriesCRC == tableCrc && h.numParts == g.numParts && h.sizeOfPartitionEntries == GPT_SIZE
  }

  /** Sealing any standard header with that place gives one. */
  lemma SealedLeadsOff(g: Geometry, crc: Summer, m: Header, tableCrc: U32)
    requires g.Valid() && Fits(m) && Standard(g, m, true) && m.headerSize >= HEADER_SIZE
    ensures var f, b := RealFormat(crc, g.blockSize), Encode(Sealed(crc, m.(partitionEntriesLBA := g.diskSize), m.headerSize, tableCrc));
            |b| == HEADER_BYTES && LeadsOff(g, f, f.decode(b), tableCrc)
  {
    var h := m.(partitionEntriesLBA := g.diskSize);
    SealedFits(crc, h, m.headerSize, tableCrc);
    HeaderRoundTrip(Sealed(crc, h, m.headerSize, tableCrc));
    SealedPasses(crc, g.blockSize, h, m.headerSize, tableCrc);
  }

  lemma WriteApart(disk: Bytes, at: nat, data: Bytes, lo: nat, hi: nat)
    requires at + |data| <= lo <= hi <= |disk|
    ensures Write(disk, at, data)[lo..hi] == disk[lo..hi] && Write(disk, at, data)[at..at + |data|] == data
  {}

  /** The headers and the backup table of a consistent disk whose main header is overwritten by such a one. */
  lemma OverwrittenMain(g: Geometry, f: Format, disk: Bytes, t: Bytes, b: Bytes)
    requires IsDisk(g, disk) && Consistent(g, f, RegionsOf(g, disk), t)
    requires |b| == HEADER_BYTES && LeadsOff(g, f, f.decode(b), f.crc(t))
    ensures g.blockSize + |b| <= |disk| && g.SecondTableAt() + g.TableBytes() <= |disk|
    ensures var image := Write(disk, g.blockSize, b);
            && RawMain(g, f, image) == f.decode(b) && RawSecond(g, f, image) == f.decode(RegionsOf(g, disk).secondHeader)
            && image[g.SecondTableAt()..g.SecondTableAt() + g.TableBytes()] == t
  {
    Places(g);
    SectorOne(g);
    WriteApart(disk, g.blockSize, b, g.SecondHeaderAt(), g.SecondHeaderAt() + HEADER_BYTES);
    WriteApart(disk, g.blockSize, b, g.SecondTableAt(), g.SecondTableAt() + g.TableBytes());
    assert SecondSector(g, f, Write(disk, g.blockSize, b)) == g.diskSize - 1;
  }

  /** The main table of such a disk is not read, and what the temporary space held is taken for it. */
  lemma MainNotRead(g: Geometry, f: Format, disk: Bytes, mem: Memory)
    requires IsDisk(g, disk) && mem.Sized(g.TableBytes()) && MainUsed(g, f, disk).partitionEntriesLBA == g.diskSize
    ensures !MainRead(g, f, disk) && MainTable(g, f, disk, mem) == mem.spare.main
  {
    assert TableAt(g, MainUsed(g, f, disk)) == |disk|;
    assert ReadInto(disk, |disk|, mem.spare.main) == mem.spare.main;
  }

  /**
    A backup that is not used: both headers are valid and the backup table agrees with both, but the main header leads
    off the disk. Whatever the temporary space held is loaded as the table, unless it has the sum of the table by chance.
   */
  lemma BackupNotUsed(g: Geometry, f: Format, disk: Bytes, t: Bytes, b: Bytes, mem: Memory)
    requires IsDisk(g, disk) && Consistent(g, f, RegionsOf(g, disk), t) && mem.Sized(g.TableBytes())
    requires |b| == HEADER_BYTES && LeadsOff(g, f, f.decode(b), f.crc(t)) && f.crc(mem.spare.main) != f.crc(t)
    ensures g.blockSize + |b| <= |disk|
    ensures var image := Write(disk, g.blockSize, b);
            && TableSizeFixed(g, f, image) && MainValid(g, f, image) && SecondValid(g, f, image)
            && BackupAgrees(g, f, image, mem) && Loaded(g, f, image, mem) == mem.spare.main != t
  {
    OverwrittenMain(g, f, disk, t, b);
    var image := Write(disk, g.blockSize, b);
    MainNotRead(g, f, image, mem);
    StandardRead(g, image, SecondUsed(g, f, image), g.SecondTableAt(), mem.spare.check);
  }

  /** With the real format and CRC-32 this happens to every consistent disk, as soon as one byte of memory differs. */
  lemma BackupNotUsedIsReal(g: Geometry, disk: Bytes, t: Bytes, m: Header, mem: Memory, x: Byte)
    requires IsDisk(g, disk) && Consistent(g, RealFormat(Checksum32, g.blockSize), RegionsOf(g, disk), t)
    requires Fits(m) && Standard(g, m, true) && m.headerSize >= HEADER_SIZE
    requires mem.Sized(g.TableBytes()) && t[0] != x && mem.spare.main == t[0 := x]
    ensures var f := RealFormat(Checksum32, g.blockSize);
            var b := Encode(Sealed(Checksum32, m.(partitionEntriesLBA := g.diskSize), m.headerSize, Checksum32(t)));
            && g.blockSize + |b| <= |disk|
            && var image := Write(disk, g.blockSize, b);
               BackupAgrees(g, f, image, mem) && Loaded(g, f, image, mem) == t[0 := x]
  {
    OneByteChangesChecksum(t, 0, x);
    SealedLeadsOff(g, Checksum32, m, Checksum32(t));
    BackupNotUsed(g, RealFormat(Checksum32, g.blockSize), disk, t,
                  Encode(Sealed(Checksum32, m.(partitionEntriesLBA := g.diskSize), m.headerSize, Checksum32(t))), mem);
  }

  // ----- repair -----

  lemma RebuiltMainIsStandard(g: Geometry, s: Header)
    requires g.Valid() && Fits(s) && Standard(g, s, false)
    ensures Fits(RebuiltMain(s)) && Standard(g, RebuiltMain(s), true)
  {
    Pow256Four();
    assert Pow256(8) > 2 by { assert Pow256(5) > Pow256(4); assert Pow256(6) > Pow256(5); assert Pow256(7) > Pow256(6); }
  }

  lemma RebuiltSecondIsStandard(g: Geometry, m: Header)
    requires g.Valid() && Fits(m) && Standard(g, m, true)
    ensures Fits(RebuiltSecond(m)) && Standard(g, RebuiltSecond(m), false)
  {
    Pow256Four();
  }

  /** The headers that a load of a placed disk ends up with are standard ones. */
  lemma LoadedIsStandard(g: Geometry, crc: Summer, disk: Bytes)
    requires IsDisk(g, disk) && Placed(g, RealFormat(crc, g.blockSize), RegionsOf(g, disk))
    ensures var f := RealFormat(crc, g.blockSize);
            var m, s := MainUsed(g, f, disk), SecondUsed(g, f, disk);
            Fits(m) && Fits(s) && Standard(g, m, true) && Standard(g, s, false)
  {
    var f, q := RealFormat(crc, g.blockSize), RegionsOf(g, disk);
    RawHeaders(g, f, disk);
    var m, s := RawMain(g, f, disk), RawSecond(g, f, disk);
    DecodeFits(q.mainHeader);
    DecodeFits(q.secondHeader);
    assert (f.Valid(m) <==> f.good(m)) && (f.Valid(s) <==> f.good(s));
    if f.good(m) {
      RebuiltSecondIsStandard(g, m);
    }
    if f.good(s) {
      RebuiltMainIsStandard(g, s);
    }
  }

  /** A header saved with this size is good when it is read: a size below 92 is not believed. */
  predicate Survives(crc: Summer, h: Header, size: nat, tableCrc: U32)
    requires Shaped(h)
  {
    var r := Sealed(crc, h, size, tableCrc);
    size >= HEADER_SIZE || crc(Image(r, size)) == crc(Image(r, HEADER_SIZE))
  }

  lemma SealedReadsBack(g: Geometry, crc: Summer, h: Header, isMain: bool, size: nat, tableCrc: U32)
    requires g.Valid() && Fits(h) && Standard(g, h, isMain)
    ensures var f, b := RealFormat(crc, g.blockSize), Encode(Sealed(crc, h, size, tableCrc));
            && |b| == HEADER_BYTES && (f.good(f.decode(b)) <==> Survives(crc, h, size, tableCrc))
            && Standard(g, f.decode(b), isMain) && f.decode(b).partitionEntriesCRC == tableCrc
  {
    SealedFits(crc, h, size, tableCrc);
    HeaderRoundTrip(Sealed(crc, h, size, tableCrc));
    SealedPasses(crc, g.blockSize, h, size, tableCrc);
  }

  /** What a complete save leaves is consistent if and only if both headers survive. */
  lemma SavedExactly(g: Geometry, crc: Summer, m: Header, s: Header, t: Bytes)
    requires g.Valid() && Storable(g, m, s) && |t| == g.TableBytes()
    ensures Consistent(g, RealFormat(crc, g.blockSize), SavedRegions(g, crc, m, s, t), t)
            <==> Survives(crc, m, m.headerSize, crc(t)) && Survives(crc, s, m.headerSize, crc(t))
    ensures |SavedRegions(g, crc, m, s, t).mainHeader| == |SavedRegions(g, crc, m, s, t).secondHeader| == HEADER_BYTES
  {
    SealedReadsBack(g, crc, m, true, m.headerSize, crc(t));
    SealedReadsBack(g, crc, s, false, m.headerSize, crc(t));
  }

  /** A complete save over any disk leaves one that holds the table consistently if and only if both headers survive. */
  lemma SavedLoads(g: Geometry, crc: Summer, disk: Bytes, m: Header, s: Header, t: Bytes, mem: Memory)
    requires IsDisk(g, disk) && Storable(g, m, s) && |t| == g.TableBytes() && mem.Sized(g.TableBytes())
    ensures var f := RealFormat(crc, g.blockSize);
            var ops := SaveOps(g, f, f.seal(m, m.headerSize, crc(t)), f.seal(s, m.headerSize, crc(t)), t);
            && InsideDisk(disk, ops)
            && var image := Perform(disk, ops, 4, 0);
               && (Consistent(g, f, RegionsOf(g, image), t)
                   <==> Survives(crc, m, m.headerSize, crc(t)) && Survives(crc, s, m.headerSize, crc(t)))
               && (Consistent(g, f, RegionsOf(g, image), t) ==> Loaded(g, f, image, mem) == t)
  {
    var f, to := RealFormat(crc, g.blockSize), SavedRegions(g, crc, m, s, t);
    OpsAreStandard(g, crc, m, s, t);
    SavedExactly(g, crc, m, s, t);
    PerformIsInterrupted(g, disk, to, 4, 0);
    var image := Perform(disk, StandardOps(LayoutOf(g), to), 4, 0);
    if Consistent(g, f, RegionsOf(g, image), t) {
      LoadedByRegions(g, f, image, mem);
    }
  }

  /**
    Repair: whatever happened to a disk that still loads, loading it and completing a save of what was loaded leaves a
    disk that holds that table consistently, so that the next load gives it again, if and only if both headers survive
    the save with the size that was loaded; with a size of 92 or more they do.
   */
  lemma RepairedIsConsistent(g: Geometry, crc: Summer, disk: Bytes, mem: Memory)
    requires IsDisk(g, disk) && Placed(g, RealFormat(crc, g.blockSize), RegionsOf(g, disk)) && mem.Sized(g.TableBytes())
    ensures var f := RealFormat(crc, g.blockSize);
            var m, s, t := MainUsed(g, f, disk), SecondUsed(g, f, disk), TableOf(f, RegionsOf(g, disk));
            var ops := SaveOps(g, f, f.seal(m, m.headerSize, crc(t)), f.seal(s, m.headerSize, crc(t)), t);
            && Loaded(g, f, disk, mem) == t && InsideDisk(disk, ops) && Shaped(m) && Shaped(s)
            && var image := Perform(disk, ops, 4, 0);
               && (Consistent(g, f, RegionsOf(g, image), t)
                   <==> Survives(crc, m, m.headerSize, crc(t)) && Survives(crc, s, m.headerSize, crc(t)))
               && (Consistent(g, f, RegionsOf(g, image), t) ==> Loaded(g, f, image, mem) == t)
               && (m.headerSize >= HEADER_SIZE ==> Consistent(g, f, RegionsOf(g, image), t))
  {
    var f := RealFormat(crc, g.blockSize);
    LoadedIsStandard(g, crc, disk);
    LoadedByRegions(g, f, disk, mem);
    SavedLoads(g, crc, disk, MainUsed(g, f, disk), SecondUsed(g, f, disk), TableOf(f, RegionsOf(g, disk)), mem);
  }

  /** Sealing again, after whatever happened to the checksum, gives the same header. */
  lemma ResealedSame(crc: Summer, h: Header, size: nat, tableCrc: U32, l: Header)
    requires Shaped(h) && l.(headerCRC := Sealed(crc, h, size, tableCrc).headerCRC) == Sealed(crc, h, size, tableCrc)
    ensures l.headerSize == (if size > HEADER_BYTES then HEADER_SIZE else size)
    ensures SealSector(crc, l, l.headerSize, tableCrc) == SealSector(crc, h, size, tableCrc)
  {
    var r := Sealed(crc, h, size, tableCrc);
    var small := if size > HEADER_BYTES then HEADER_SIZE else size;
    assert l == r.(headerCRC := l.headerCRC);
    assert l.(headerSize := small, partitionEntriesCRC := tableCrc, headerCRC := 0)
        == h.(headerSize := small, partitionEntriesCRC := tableCrc, headerCRC := 0);
  }

  /** What a save leaves has twin headers if those in memory are. */
  lemma SavedTwins(g: Geometry, crc: Summer, m: Header, s: Header, t: Bytes)
    requires g.Valid() && SaveReady(g, m, s) && Twins(m, s) && |t| == g.TableBytes()
    ensures var f, q := RealFormat(crc, g.blockSize), SavedRegions(g, crc, m, s, t);
            && f.decode(q.mainHeader) == Sealed(crc, m, m.headerSize, crc(t))
            && f.decode(q.secondHeader) == Sealed(crc, s, m.headerSize, crc(t))
            && Twins(f.decode(q.mainHeader), f.decode(q.secondHeader))
  {
    SealedHeaderReadsBack(g, crc, m, true, m.headerSize, crc(t));
    SealedHeaderReadsBack(g, crc, s, false, m.headerSize, crc(t));
  }

  /** The table and both headers that such a load ends with are sealed as they were. */
  lemma ResealedAsSaved(g: Geometry, crc: Summer, m: Header, s: Header, t: Bytes, disk: Bytes, mem: Memory)
    requires IsDisk(g, disk) && SaveReady(g, m, s) && Twins(m, s) && |t| == g.TableBytes() && mem.Sized(g.TableBytes())
    requires OneRegionDiffers(SavedRegions(g, crc, m, s, t), RegionsOf(g, disk))
    requires Detected(RealFormat(crc, g.blockSize), SavedRegions(g, crc, m, s, t), RegionsOf(g, disk))
    ensures var f := RealFormat(crc, g.blockSize);
            var lm, ls := MainUsed(g, f, disk), SecondUsed(g, f, disk);
            && Loaded(g, f, disk, mem) == t
            && f.seal(lm, lm.headerSize, crc(t)) == f.seal(m, m.headerSize, crc(t))
            && f.seal(ls, lm.headerSize, crc(t)) == f.seal(s, m.headerSize, crc(t))
  {
    var f, q := RealFormat(crc, g.blockSize), SavedRegions(g, crc, m, s, t);
    SavedIsConsistent(g, crc, m, s, t);
    SavedTwins(g, crc, m, s, t);
    HeadersRecovered(g, f, q, t, disk);
    SingleFaultRecovery(g, f, q, t, RegionsOf(g, disk));
    LoadedByRegions(g, f, disk, mem);
    ResealedSame(crc, m, m.headerSize, crc(t), MainUsed(g, f, disk));
    ResealedSame(crc, s, m.headerSize, crc(t), SecondUsed(g, f, disk));
  }

  /**
    Repair brings back every byte: damage one of the four structures of a saved table in any way that its checksum
    detects; loading the disk and saving what was loaded writes all four structures as they were.
   */
  lemma RepairRestoresBytes(g: Geometry, crc: Summer, m: Header, s: Header, t: Bytes, disk: Bytes, mem: Memory)
    requires IsDisk(g, disk) && SaveReady(g, m, s) && Twins(m, s) && |t| == g.TableBytes() && mem.Sized(g.TableBytes())
    requires OneRegionDiffers(SavedRegions(g, crc, m, s, t), RegionsOf(g, disk))
    requires Detected(RealFormat(crc, g.blockSize), SavedRegions(g, crc, m, s, t), RegionsOf(g, disk))
    ensures var f := RealFormat(crc, g.blockSize);
            var lm, ls, lt := MainUsed(g, f, disk), SecondUsed(g, f, disk), Loaded(g, f, disk, mem);
            var ops := SaveOps(g, f, f.seal(lm, lm.headerSize, crc(lt)), f.seal(ls, lm.headerSize, crc(lt)), lt);
            lt == t && InsideDisk(disk, ops) && RegionsOf(g, Perform(disk, ops, 4, 0)) == SavedRegions(g, crc, m, s, t)
  {
    ResealedAsSaved(g, crc, m, s, t, disk, mem);
    SaveWrites(g, crc, disk, m, s, t);
  }

  /** A complete save over any disk writes those four structures. */
  lemma SaveWrites(g: Geometry, crc: Summer, disk: Bytes, m: Header, s: Header, t: Bytes)
    requires IsDisk(g, disk) && Storable(g, m, s) && |t| == g.TableBytes()
    ensures var f := RealFormat(crc, g.blockSize);
            var ops := SaveOps(g, f, f.seal(m, m.headerSize, crc(t)), f.seal(s, m.headerSize, crc(t)), t);
            InsideDisk(disk, ops) && RegionsOf(g, Perform(disk, ops, 4, 0)) == SavedRegions(g, crc, m, s, t)
  {
    OpsAreStandard(g, crc, m, s, t);
    SavedExactly(g, crc, m, s, t);
    PerformIsInterrupted(g, disk, SavedRegions(g, crc, m, s, t), 4, 0);
  }

  // ----- one damaged byte -----

  /** The structure with its own checksum field zeroed. */
  function Blanked(b: Bytes): (r: Bytes)
    requires |b| == HEADER_BYTES
    ensures |r| == HEADER_BYTES
  {
    b[..16] + [0, 0, 0, 0] + b[20..]
  }

  lemma BlankedStart(h: Header)
    ensures EncodeStart(h.(headerCRC := 0)) == EncodeStart(h)[..16] + [0, 0, 0, 0] + EncodeStart(h)[20..]
  {
    assert LE(0, 4) == [0, 0, 0, 0] by {
      assert LE(0, 1) == [0];
      assert LE(0, 2) == [0, 0];
      assert LE(0, 3) == [0, 0, 0];
    }
    var p := LE(h.signature, 8) + LE(h.revision, 4) + LE(h.headerSize, 4);
    assert EncodeStart(h) == p + LE(h.headerCRC, 4) + LE(h.reserved, 4);
    assert EncodeStart(h.(headerCRC := 0)) == p + LE(0, 4) + LE(h.reserved, 4);
  }

  /** The n bytes that a checksum of that span covers, from the bytes of the sector. */
  function Covered(b: Bytes, n: nat): (c: Bytes)
    requires |b| == HEADER_BYTES
    ensures |c| == n
  {
    if n <= HEADER_BYTES then Blanked(b)[..n] else Blanked(b) + Zeros(n - HEADER_BYTES)
  }

  lemma CoveredIsImage(b: Bytes, n: nat)
    requires |b| == HEADER_BYTES
    ensures Image(Decode(b), n) == Covered(b, n)
  {
    var h := Decode(b);
    BytesRoundTrip(b);
    BlankedStart(h);
    EncodeParts(h);
    assert b[..16] == EncodeStart(h)[..16] && b[20..24] == EncodeStart(h)[20..];
    assert b[20..] == b[20..24] + b[24..];
    assert b[24..] == EncodePlace(h) + h.diskGUID + EncodeTable(h) + h.reserved2;
    assert Encode(h.(headerCRC := 0)) == Blanked(b);
  }

  lemma FieldUntouched(b: Bytes, i: nat, x: Byte, at: nat, w: nat)
    requires i < |b| && at + w <= |b| && (i < at || at + w <= i)
    ensures Field(b[i := x], at, w) == Field(b, at, w)
  {
    assert b[i := x][at..at + w] == b[at..at + w];
  }

  lemma FieldTouched(b: Bytes, i: nat, x: Byte, at: nat, w: nat)
    requires i < |b| && at <= i < at + w <= |b| && b[i] != x
    ensures Field(b[i := x], at, w) != Field(b, at, w)
  {
    var c := b[i := x];
    assert c[at..at + w][i - at] != b[at..at + w][i - at];
    FromLERoundTrip(c[at..at + w]);
    FromLERoundTrip(b[at..at + w]);
  }

  function Put(b: Bytes, i: nat, x: Byte): Bytes
    requires i < |b|
  {
    b[i := x]
  }

  /** The checksum notices every change of a single byte. */
  ghost predicate DetectsOneByte(crc: Summer) {
    forall b: Bytes, i: nat, x: Byte :: i < |b| && b[i] != x ==> crc(Put(b, i, x)) != crc(b)
  }

  lemma Crc32DetectsOneByte()
    ensures DetectsOneByte(Checksum32)
  {
    forall b: Bytes, i: nat, x: Byte | i < |b| && b[i] != x ensures Checksum32(Put(b, i, x)) != Checksum32(b) {
      OneByteChangesChecksum(b, i, x);
    }
  }

  /** The covered bytes of a header and of a damaged copy of it. */
  lemma CoveredByte(b: Bytes, n: nat, i: nat, x: Byte)
    requires |b| == HEADER_BYTES && i < HEADER_BYTES
    ensures Covered(b[i := x], n) == if 16 <= i < 20 || i >= n then Covered(b, n) else Put(Covered(b, n), i, x)
  {
    assert Blanked(b[i := x]) == if 16 <= i < 20 then Blanked(b) else Put(Blanked(b), i, x);
  }

  /** A changed byte outside the size field leaves the span of the checksum as it was. */
  lemma SameSpan(b: Bytes, i: nat, x: Byte, blockSize: nat)
    requires |b| == HEADER_BYTES && i < HEADER_BYTES && !(12 <= i < 16)
    ensures Span(Decode(b[i := x]), blockSize) == Span(Decode(b), blockSize)
  {
    FieldUntouched(b, i, x, 12, 4);
  }

  /** A changed byte among the covered ones, outside the size field, is detected, whatever the header size. */
  lemma HeaderByteDetected(crc: Summer, blockSize: nat, b: Bytes, i: nat, x: Byte)
    requires |b| == HEADER_BYTES && i < HEADER_BYTES && i < Span(Decode(b), blockSize) && b[i] != x && !(12 <= i < 16)
    requires DetectsOneByte(crc) && CrcOk(crc, blockSize, Decode(b))
    ensures !CrcOk(crc, blockSize, Decode(b[i := x]))
  {
    var c, n := b[i := x], Span(Decode(b), blockSize);
    SameSpan(b, i, x, blockSize);
    CoveredIsImage(b, n);
    CoveredIsImage(c, n);
    CoveredByte(b, n, i, x);
    var covered := Covered(b, n);
    assert Field(b, 16, 4) == crc(covered);
    assert CrcOk(crc, blockSize, Decode(c)) <==> Field(c, 16, 4) == crc(Covered(c, n));
    if 16 <= i < 20 {
      FieldTouched(b, i, x, 16, 4);
    } else {
      FieldUntouched(b, i, x, 16, 4);
      assert covered[i] == b[i];
    }
  }

  /** A changed byte after the covered ones leaves the header good and its placement as it was. */
  lemma PaddingByteHarmless(crc: Summer, blockSize: nat, b: Bytes, i: nat, x: Byte)
    requires |b| == HEADER_BYTES && Span(Decode(b), blockSize) <= i < HEADER_BYTES && CrcOk(crc, blockSize, Decode(b))
    ensures var h := Decode(b[i := x]);
            CrcOk(crc, blockSize, h) && h == Decode(b).(reserved2 := h.reserved2)
  {
    var n := Span(Decode(b), blockSize);
    SameSpan(b, i, x, blockSize);
    CoveredIsImage(b, n);
    CoveredIsImage(b[i := x], n);
    CoveredByte(b, n, i, x);
    PaddingFields(b, i, x);
  }

  /** A changed byte of the size field or of the padding leaves every other field as it was. */
  lemma PaddingFields(b: Bytes, i: nat, x: Byte)
    requires |b| == HEADER_BYTES && (12 <= i < 16 || HEADER_SIZE <= i < HEADER_BYTES)
    ensures var h := Decode(b[i := x]); h == Decode(b).(headerSize := h.headerSize, reserved2 := h.reserved2)
    ensures i >= HEADER_SIZE ==> Decode(b[i := x]).headerSize == Decode(b).headerSize
  {
    FieldUntouched(b, i, x, 0, 8);
    FieldUntouched(b, i, x, 8, 4);
    if i >= HEADER_SIZE {
      FieldUntouched(b, i, x, 12, 4);
    }
    FieldUntouched(b, i, x, 16, 4);
    FieldUntouched(b, i, x, 20, 4);
    FieldUntouched(b, i, x, 24, 8);
    FieldUntouched(b, i, x, 32, 8);
    FieldUntouched(b, i, x, 40, 8);
    FieldUntouched(b, i, x, 48, 8);
    FieldUntouched(b, i, x, 72, 8);
    FieldUntouched(b, i, x, 80, 4);
    FieldUntouched(b, i, x, 84, 4);
    FieldUntouched(b, i, x, 88, 4);
  }

  /** A changed header byte leaves its region bad, or good and equivalent. */
  predicate BadOrSame(f: Format, was: Bytes, now: Bytes) {
    || !f.good(f.decode(now))
    || f.decode(now) == f.decode(was).(headerSize := f.decode(now).headerSize, reserved2 := f.decode(now).reserved2)
  }

  /** Every single changed byte leaves the header bad or equivalent. */
  ghost predicate HeaderRobust(f: Format, b: Bytes) {
    |b| == HEADER_BYTES && forall i: nat, x: Byte :: i < |b| ==> BadOrSame(f, b, Put(b, i, x))
  }

  lemma RealHeaderRobust(crc: Summer, blockSize: nat, b: Bytes)
    requires DetectsOneByte(crc) && |b| == HEADER_BYTES && CrcOk(crc, blockSize, Decode(b))
    ensures HeaderRobust(RealFormat(crc, blockSize), b)
  {
    forall i: nat, x: Byte | i < |b| ensures BadOrSame(RealFormat(crc, blockSize), b, Put(b, i, x)) {
      if b[i] == x {
        assert b[i := x] == b;
      } else if 12 <= i < 16 {
        PaddingFields(b, i, x);
      } else if i < Span(Decode(b), blockSize) {
        HeaderByteDetected(crc, blockSize, b, i, x);
      } else {
        PaddingByteHarmless(crc, blockSize, b, i, x);
      }
    }
  }

  lemma RegionDamage(g: Geometry, f: Format, q: Regions, t: Bytes, r: Regions)
    requires g.Valid() && Consistent(g, f, q, t) && OneRegionDiffers(q, r)
    requires BadOrSame(f, q.mainHeader, r.mainHeader) && BadOrSame(f, q.secondHeader, r.secondHeader)
    requires r.mainTable != q.mainTable ==> f.crc(r.mainTable) != f.crc(t)
    requires r.secondTable != q.secondTable ==> f.crc(r.secondTable) != f.crc(t)
    ensures Placed(g, f, r) && TableOf(f, r) == t
  {}

  /** A byte of the disk lies in the part of region k, or in none. */
  lemma {:induction false} PartOfDamagedDisk(l: Layout, disk: Bytes, p: nat, x: Byte, k: nat)
    requires l.Inside(|disk|) && p < |disk| && k < 4
    ensures var a, n := Offset(l, k), PartSize(l, k);
            Part(Cut(l, disk[p := x]), k)
            == if a <= p < a + n then Part(Cut(l, disk), k)[p - a := x] else Part(Cut(l, disk), k)
  {
    PartIsSlice(l, disk, k);
    PartIsSlice(l, disk[p := x], k);
    var a, n := Offset(l, k), PartSize(l, k);
    if a <= p < a + n {
      assert disk[p := x][a..a + n] == disk[a..a + n][p - a := x];
    } else {
      assert disk[p := x][a..a + n] == disk[a..a + n];
    }
  }

  lemma DamageHitsOneRegion(l: Layout, disk: Bytes, p: nat, x: Byte)
    requires l.Inside(|disk|) && p < |disk|
    ensures OneRegionDiffers(Cut(l, disk), Cut(l, disk[p := x]))
  {
    PartOfDamagedDisk(l, disk, p, x, 0);
    PartOfDamagedDisk(l, disk, p, x, 1);
    PartOfDamagedDisk(l, disk, p, x, 2);
    PartOfDamagedDisk(l, disk, p, x, 3);
    PartsApart(l, 0, 1);
    PartsApart(l, 0, 2);
    PartsApart(l, 0, 3);
    PartsApart(l, 1, 2);
    PartsApart(l, 1, 3);
    PartsApart(l, 2, 3);
  }

  lemma DamagedHeader(f: Format, l: Layout, disk: Bytes, p: nat, x: Byte, k: nat)
    requires l.Inside(|disk|) && p < |disk| && (k == 1 || k == 3)
    requires HeaderRobust(f, Part(Cut(l, disk), k))
    ensures BadOrSame(f, Part(Cut(l, disk), k), Part(Cut(l, disk[p := x]), k))
  {
    PartOfDamagedDisk(l, disk, p, x, k);
    var b, a := Part(Cut(l, disk), k), Offset(l, k);
    if a <= p < a + HEADER_BYTES {
      assert Part(Cut(l, disk[p := x]), k) == Put(b, p - a, x);
    } else {
      assert Put(b, 0, b[0]) == b;
    }
  }

  lemma DamagedTable(crc: Summer, l: Layout, disk: Bytes, p: nat, x: Byte, k: nat)
    requires l.Inside(|disk|) && p < |disk| && (k == 0 || k == 2) && DetectsOneByte(crc)
    ensures var b, c := Part(Cut(l, disk), k), Part(Cut(l, disk[p := x]), k);
            c != b ==> crc(c) != crc(b)
  {
    PartOfDamagedDisk(l, disk, p, x, k);
    PartIsSlice(l, disk, k);
    var b, i := Part(Cut(l, disk), k), p - Offset(l, k);
    if 0 <= i < |b| {
      assert Part(Cut(l, disk[p := x]), k) == Put(b, i, x);
      assert b[i] == x ==> Put(b, i, x) == b;
    }
  }

  lemma DamagedByteRecovered(g: Geometry, f: Format, disk: Bytes, t: Bytes, p: nat, x: Byte)
    requires IsDisk(g, disk) && Consistent(g, f, RegionsOf(g, disk), t) && DetectsOneByte(f.crc)
    requires HeaderRobust(f, RegionsOf(g, disk).mainHeader) && HeaderRobust(f, RegionsOf(g, disk).secondHeader)
    requires p < |disk|
    ensures var r := RegionsOf(g, disk[p := x]);
            Placed(g, f, r) && TableOf(f, r) == t
  {
    var l := LayoutOf(g);
    DamageHitsOneRegion(l, disk, p, x);
    DamagedHeader(f, l, disk, p, x, 1);
    DamagedHeader(f, l, disk, p, x, 3);
    DamagedTable(f.crc, l, disk, p, x, 0);
    DamagedTable(f.crc, l, disk, p, x, 2);
    RegionDamage(g, f, RegionsOf(g, disk), t, RegionsOf(g, disk[p := x]));
  }

  /** With the real CRC-32, changing any one byte of a consistent disk still loads the original table. */
  lemma AnyDamagedByteRecovered(g: Geometry, disk: Bytes, t: Bytes, p: nat, x: Byte, mem: Memory)
    requires IsDisk(g, disk) && Consistent(g, RealFormat(Checksum32, g.blockSize), RegionsOf(g, disk), t)
    requires p < |disk| && mem.Sized(g.TableBytes())
    ensures TableSizeFixed(g, RealFormat(Checksum32, g.blockSize), disk[p := x])
    ensures Loaded(g, RealFormat(Checksum32, g.blockSize), disk[p := x], mem) == t
  {
    var f := RealFormat(Checksum32, g.blockSize);
    Crc32DetectsOneByte();
    RealHeaderRobust(Checksum32, g.blockSize, RegionsOf(g, disk).mainHeader);
    RealHeaderRobust(Checksum32, g.blockSize, RegionsOf(g, disk).secondHeader);
    DamagedByteRecovered(g, f, disk, t, p, x);
    LoadedByRegions(g, f, disk[p := x], mem);
  }
}
