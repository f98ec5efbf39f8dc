/**
  Saving and loading a GUID partition table (external/gptfdisk/gpt.cc). The disk is its
  bytes. A save is five writes: backup table, backup header, main table, main header and the
  protective MBR. A load decides from four checksums which copies to trust. The table keeps its size, so
  SetGPTSize only copies the entry count into the two headers.
 */
module GptStore {
  import opened Crc32
  import opened GptHeader
  import opened Options

  const TWO63 := 0x8000_0000_0000_0000
  const TWO64 := 0x1_0000_0000_0000_0000

  // ----- standard geometry -----

  datatype Geometry = Geometry(blockSize: nat, diskSize: nat, numParts: nat) {
    function TableBytes(): nat { numParts * GPT_SIZE }

    function TableSectors(): nat
      requires blockSize > 0
    {
      (TableBytes() + blockSize - 1) / blockSize
    }

    predicate Valid() {
      && blockSize >= HEADER_BYTES && 0 < numParts < Pow256(4) && diskSize < Pow256(8)
      && diskSize >= 2 * TableSectors() + 3 && DiskBytes() < TWO63
    }

    function DiskBytes(): nat { diskSize * blockSize }

    function MainTableAt(): nat { 2 * blockSize }

    function SecondTableLBA(): nat
      requires Valid()
    {
      diskSize - 1 - TableSectors()
    }

    function SecondTableAt(): nat
      requires Valid()
    {
      SecondTableLBA() * blockSize
    }

    function SecondHeaderAt(): nat
      requires Valid()
    {
      (diskSize - 1) * blockSize
    }
  }

  lemma MulOrder(a: int, b: int, k: nat)
    requires a <= b
    ensures a * k <= b * k
  {}

  lemma CeilingCovers(n: nat, k: nat)
    requires k > 0
    ensures ((n + k - 1) / k) * k >= n
  {}

  /** The four structures follow each other on the disk without touching. */
  lemma Places(g: Geometry)
    requires g.Valid()
    ensures g.blockSize + HEADER_BYTES <= g.MainTableAt()
    ensures g.MainTableAt() + g.TableBytes() <= g.SecondTableAt()
    ensures g.SecondTableAt() + g.TableBytes() <= g.SecondHeaderAt()
    ensures g.SecondHeaderAt() + HEADER_BYTES <= g.DiskBytes()
  {
    var k, ts := g.blockSize, g.TableSectors();
    CeilingCovers(g.TableBytes(), k);
    assert ts * k >= g.TableBytes();
    MulOrder(2 + ts, g.SecondTableLBA(), k);
    assert (2 + ts) * k == 2 * k + ts * k;
    assert g.SecondTableAt() + ts * k == g.SecondHeaderAt() by {
      assert (g.diskSize - 1 - ts) * k == (g.diskSize - 1) * k - ts * k;
    }
    assert (g.diskSize - 1) * k + k == g.diskSize * k;
  }

  lemma SectorInside(g: Geometry, sector: nat)
    requires g.Valid() && sector < g.diskSize
    ensures sector * g.blockSize + HEADER_BYTES <= g.DiskBytes()
  {
    MulOrder(sector, g.diskSize - 1, g.blockSize);
    Places(g);
  }

  ghost predicate IsDisk(g: Geometry, disk: Bytes) {
    g.Valid() && |disk| == g.DiskBytes()
  }

  // ----- reading and writing -----

  function Write(disk: Bytes, at: nat, data: Bytes): (r: Bytes)
    requires at + |data| <= |disk|
    ensures |r| == |disk|
  {
    disk[..at] + data + disk[at + |data|..]
  }

  /** A read of as many bytes as are in buffer: what the disk does not hold is left as it is there. */
  function ReadInto(disk: Bytes, at: nat, buffer: Bytes): (r: Bytes)
    ensures |r| == |buffer|
  {
    if at + |buffer| <= |disk| then disk[at..at + |buffer|]
    else if at <= |disk| then disk[at..] + buffer[|disk| - at..]
    else buffer
  }

  /**
    Whether a read of n bytes counts as whole. DiskIO::Read goes by blocks, and takes a short read for whole if the
    bytes asked for do not fill the last block.
   */
  predicate ReadCounts(g: Geometry, disk: Bytes, at: nat, n: nat)
    requires g.blockSize > 0
  {
    n == 0 || at + n <= |disk| || (n % g.blockSize != 0 && at < |disk|)
  }

  /** Where a header says that its table is, in the 64 bits that DiskIO::Seek computes with. */
  function TableAt(g: Geometry, h: Header): nat {
    (h.partitionEntriesLBA * g.blockSize) % TWO64
  }

  /** The offset is not a negative number to lseek64. */
  predicate Reaches(g: Geometry, h: Header) {
    TableAt(g, h) < TWO63
  }

  predicate WholeRead(g: Geometry, disk: Bytes, h: Header, n: nat)
    requires g.blockSize > 0
  {
    Reaches(g, h) && ReadCounts(g, disk, TableAt(g, h), n)
  }

  /** What the temporary space of the reads of a load holds: main table, check of the other table, backup table. */
  datatype Spare = Spare(main: Bytes, check: Bytes, backup: Bytes) {
    predicate Sized(n: nat) {
      |main| == |check| == |backup| == n
    }
  }

  /** What a load finds in memory: a table, whether its sum was right, and the temporary space. */
  datatype Memory = Memory(table: Bytes, tableOk: bool, spare: Spare) {
    predicate Sized(n: nat) {
      |table| == n && spare.Sized(n)
    }
  }

  function HeaderAt(g: Geometry, f: Format, disk: Bytes, sector: nat): Header
    requires sector * g.blockSize + HEADER_BYTES <= |disk|
  {
    f.decode(disk[sector * g.blockSize..sector * g.blockSize + HEADER_BYTES])
  }

  /**
    How headers are stored and judged: decoder, encoder, CheckHeaderCRC, the per-header part of
    RecomputeCRCs, and the table checksum. What a load and a save do is stated for any of
    them; `GptSafety` supplies the real ones.
   */
  datatype Format = Format(decode: Bytes -> Header, encode: Header -> Bytes, good: Header -> bool,
                           seal: (Header, nat, U32) -> Header, crc: Summer) {
    /** One header's part of CheckHeaderValidity. */
    predicate Valid(h: Header) {
      h.signature == GPT_SIGNATURE && good(h) && h.revision == GPT_REVISION
    }
  }

  // ----- what a load means -----

  function RebuiltMain(s: Header): Header {
    s.(signature := GPT_SIGNATURE, headerCRC := 0, currentLBA := s.backupLBA, backupLBA := s.currentLBA,
       partitionEntriesLBA := 2)
  }

  function RebuiltSecond(m: Header): Header {
    m.(signature := GPT_SIGNATURE, headerCRC := 0, currentLBA := m.backupLBA, backupLBA := m.currentLBA,
       partitionEntriesLBA := (m.lastUsableLBA + 1) % TWO64)
  }

  function RawMain(g: Geometry, f: Format, disk: Bytes): Header
    requires g.Valid() && |disk| == g.DiskBytes()
  {
    SectorInside(g, 1);
    HeaderAt(g, f, disk, 1)
  }

  function SecondSector(g: Geometry, f: Format, disk: Bytes): (s: nat)
    requires g.Valid() && |disk| == g.DiskBytes()
    ensures s < g.diskSize
  {
    var m := RawMain(g, f, disk);
    if f.good(m) && m.backupLBA < g.diskSize then m.backupLBA else g.diskSize - 1
  }

  function RawSecond(g: Geometry, f: Format, disk: Bytes): Header
    requires g.Valid() && |disk| == g.DiskBytes()
  {
    SectorInside(g, SecondSector(g, f, disk));
    HeaderAt(g, f, disk, SecondSector(g, f, disk))
  }

  predicate MainValid(g: Geometry, f: Format, disk: Bytes)
    requires g.Valid() && |disk| == g.DiskBytes()
  {
    f.Valid(RawMain(g, f, disk))
  }

  predicate SecondValid(g: Geometry, f: Format, disk: Bytes)
    requires g.Valid() && |disk| == g.DiskBytes()
  {
    f.Valid(RawSecond(g, f, disk))
  }

  /** The main header a load ends up with: its own if valid, else rebuilt from the backup. */
  function MainUsed(g: Geometry, f: Format, disk: Bytes): Header
    requires g.Valid() && |disk| == g.DiskBytes()
  {
    if MainValid(g, f, disk) || !SecondValid(g, f, disk) then RawMain(g, f, disk)
    else RebuiltMain(RawSecond(g, f, disk))
  }

  function SecondUsed(g: Geometry, f: Format, disk: Bytes): Header
    requires g.Valid() && |disk| == g.DiskBytes()
  {
    if SecondValid(g, f, disk) || !MainValid(g, f, disk) then RawSecond(g, f, disk)
    else RebuiltSecond(RawMain(g, f, disk))
  }

  /** The bytes at a header's place, as many as spare has, are read and match both headers' checksums (CheckTable). */
  predicate AgreesOver(g: Geometry, f: Format, disk: Bytes, h: Header, other: Header, spare: Bytes)
    requires g.blockSize > 0
  {
    && WholeRead(g, disk, h, |spare|)
    && var t := ReadInto(disk, TableAt(g, h), spare);
       f.crc(t) == h.partitionEntriesCRC && f.crc(t) == other.partitionEntriesCRC
  }

  /** The backup table agrees with both headers that a load uses. */
  predicate BackupAgrees(g: Geometry, f: Format, disk: Bytes, mem: Memory)
    requires g.Valid() && |disk| == g.DiskBytes()
  {
    AgreesOver(g, f, disk, SecondUsed(g, f, disk), MainUsed(g, f, disk), mem.spare.check)
  }

  /** The main table was read whole. */
  predicate MainRead(g: Geometry, f: Format, disk: Bytes)
    requires g.Valid() && |disk| == g.DiskBytes()
  {
    WholeRead(g, disk, MainUsed(g, f, disk), g.TableBytes())
  }

  /** What reading the main table leaves in memory; nothing is read if the place cannot be reached. */
  function MainTable(g: Geometry, f: Format, disk: Bytes, mem: Memory): Bytes
    requires g.Valid() && |disk| == g.DiskBytes()
  {
    var m := MainUsed(g, f, disk);
    if Reaches(g, m) then ReadInto(disk, TableAt(g, m), mem.spare.main) else mem.table
  }

  /** The flag of the main table: its sum is right, or an earlier one was and nothing was read. */
  predicate MainSumOk(g: Geometry, f: Format, disk: Bytes, mem: Memory)
    requires g.Valid() && |disk| == g.DiskBytes()
  {
    var m := MainUsed(g, f, disk);
    if Reaches(g, m) then f.crc(MainTable(g, f, disk, mem)) == m.partitionEntriesCRC else mem.tableOk
  }

  /** The backup copy replaces the main one: the main copy was read whole and fails its checksum, the backup passes both. */
  predicate FallsBack(g: Geometry, f: Format, disk: Bytes, mem: Memory)
    requires g.Valid() && |disk| == g.DiskBytes()
  {
    MainRead(g, f, disk) && !MainSumOk(g, f, disk, mem) && BackupAgrees(g, f, disk, mem)
  }

  /** The partition table in memory after a load. */
  function Loaded(g: Geometry, f: Format, disk: Bytes, mem: Memory): (t: Bytes)
    requires g.Valid() && |disk| == g.DiskBytes() && mem.Sized(g.TableBytes())
    ensures |t| == g.TableBytes()
  {
    if !MainValid(g, f, disk) && !SecondValid(g, f, disk) then mem.table
    else if FallsBack(g, f, disk, mem) then ReadInto(disk, TableAt(g, SecondUsed(g, f, disk)), mem.spare.backup)
    else MainTable(g, f, disk, mem)
  }

  /**
    With a backup table on the disk that agrees with both headers, the table loaded has the sum they state if and only
    if the main table was read whole, or what was read of it has that sum anyway: after a short read the code
    announces the backup and does not load it.
   */
  lemma BackupRescuesExactly(g: Geometry, f: Format, disk: Bytes, mem: Memory)
    requires IsDisk(g, disk) && mem.Sized(g.TableBytes()) && (MainValid(g, f, disk) || SecondValid(g, f, disk))
    requires BackupAgrees(g, f, disk, mem) && TableAt(g, SecondUsed(g, f, disk)) + g.TableBytes() <= |disk|
    ensures f.crc(Loaded(g, f, disk, mem)) == MainUsed(g, f, disk).partitionEntriesCRC
            <==> MainRead(g, f, disk) || f.crc(MainTable(g, f, disk, mem)) == MainUsed(g, f, disk).partitionEntriesCRC
  {
    var at := TableAt(g, SecondUsed(g, f, disk));
    assert ReadInto(disk, at, mem.spare.backup) == ReadInto(disk, at, mem.spare.check);
  }

  /** Every header the load trusts describes a table of the fixed size. */
  predicate TableSizeFixed(g: Geometry, f: Format, disk: Bytes)
    requires g.Valid() && |disk| == g.DiskBytes()
  {
    && SizeFixed(g, f, RawMain(g, f, disk))
    && SizeFixed(g, f, RawSecond(g, f, disk))
  }

  predicate SizeFixed(g: Geometry, f: Format, h: Header) {
    f.good(h) ==> h.numParts == g.numParts && h.sizeOfPartitionEntries == GPT_SIZE
  }

  // ----- what a save means -----

  datatype Op = Op(at: nat, data: Bytes)

  predicate InsideDisk(disk: Bytes, ops: seq<Op>) {
    forall i | 0 <= i < |ops| :: ops[i].at + |ops[i].data| <= |disk|
  }

  /** The disk after the first k writes and j bytes of the next. */
  function Perform(disk: Bytes, ops: seq<Op>, k: nat, j: nat): (r: Bytes)
    requires InsideDisk(disk, ops)
    ensures |r| == |disk|
    decreases |ops|
  {
    if ops == [] then disk
    else if k == 0 then Write(disk, ops[0].at, if j < |ops[0].data| then ops[0].data[..j] else ops[0].data)
    else Perform(Write(disk, ops[0].at, ops[0].data), ops[1..], k - 1, j)
  }

  /** Backup table, backup header, main table, main header. */
  function SaveOps(g: Geometry, f: Format, m: Header, s: Header, t: Bytes): seq<Op> {
    [Op(s.partitionEntriesLBA * g.blockSize, t), Op(m.backupLBA * g.blockSize, f.encode(s)),
     Op(m.partitionEntriesLBA * g.blockSize, t), Op(1 * g.blockSize, f.encode(m))]
  }

  /** And last of all the protective MBR, if its own table can be written. */
  function AllOps(g: Geometry, f: Format, m: Header, s: Header, t: Bytes, mbr: Option<Bytes>): seq<Op> {
    SaveOps(g, f, m, s, t) + if mbr.Some? then [Op(0, mbr.value)] else []
  }

  lemma {:induction false} PerformLast(disk: Bytes, ops: seq<Op>, op: Op, k: nat, j: nat)
    requires InsideDisk(disk, ops) && op.at + |op.data| <= |disk|
    ensures InsideDisk(disk, ops + [op])
    ensures Perform(disk, ops + [op], k, j)
            == if k < |ops| then Perform(disk, ops, k, j)
               else Write(Perform(disk, ops, k, j), op.at, if k == |ops| && j < |op.data| then op.data[..j] else op.data)
    decreases |ops|
  {
    var more := ops + [op];
    if ops == [] {
      assert more == [op] && more[1..] == [];
      assert k > 0 ==> Perform(disk, more, k, j) == Perform(Write(disk, op.at, op.data), more[1..], k - 1, j);
    } else if k > 0 {
      assert more[0] == ops[0] && more[1..] == ops[1..] + [op];
      PerformLast(Write(disk, ops[0].at, ops[0].data), ops[1..], op, k - 1, j);
    }
  }

  // ----- the object -----

  datatype Validity = GptValid | GptCorrupt | GptInvalid

  class GptData {
    const g: Geometry
    const f: Format
    var mainHeader: Header
    var secondHeader: Header
    var partitions: Bytes
    var mainCrcOk: bool
    var secondCrcOk: bool
    var mainPartsCrcOk: bool
    var secondPartsCrcOk: bool
    var state: Validity

    ghost predicate Ready()
      reads this
    {
      g.Valid() && |partitions| == g.TableBytes()
    }

    constructor (g: Geometry, f: Format, blank: Header)
      requires g.Valid()
      ensures Ready() && this.g == g && this.f == f && state == GptInvalid && mainHeader == secondHeader == blank
      ensures !mainCrcOk && !secondCrcOk && !mainPartsCrcOk && !secondPartsCrcOk
    {
      this.g, this.f := g, f;
      mainHeader, secondHeader := blank, blank;
      partitions := Zeros(g.TableBytes());
      mainCrcOk, secondCrcOk, mainPartsCrcOk, secondPartsCrcOk := false, false, false, false;
      state := GptInvalid;
    }

    method LoadHeader(disk: Bytes, sector: nat) returns (h: Header, crcOk: bool)
      requires IsDisk(g, disk) && sector < g.diskSize
      requires sector * g.blockSize + HEADER_BYTES <= |disk|
      requires SizeFixed(g, f, HeaderAt(g, f, disk, sector))
      ensures h == HeaderAt(g, f, disk, sector) && crcOk == f.good(h)
    {
      h := f.decode(disk[sector * g.blockSize..sector * g.blockSize + HEADER_BYTES]);
      crcOk := f.good(h);
    }

    /** 1: main header good, 2: backup good, 3: both, 0: neither. */
    method CheckHeaderValidity() returns (valid: int)
      requires Ready()
      ensures valid == (if f.Valid(mainHeader) then 1 else 0)
                     + (if f.Valid(secondHeader) then 2 else 0)
    {
      valid := 3;
      if mainHeader.signature != GPT_SIGNATURE || !f.good(mainHeader) {
        valid := valid - 1;
      } else if mainHeader.revision != GPT_REVISION && valid != 0 {
        valid := valid - 1;
      }
      if secondHeader.signature != GPT_SIGNATURE || !f.good(secondHeader) {
        valid := valid - 2;
      } else if secondHeader.revision != GPT_REVISION && valid != 0 {
        valid := valid - 2;
      }
    }

    /** SetGPTSize leaves a table of this size as it is. */
    method LoadPartitionTable(h: Header, disk: Bytes, spare: Bytes) returns (ok: bool)
      requires Ready() && IsDisk(g, disk) && |spare| == g.TableBytes()
      requires h.numParts == g.numParts && h.sizeOfPartitionEntries == GPT_SIZE
      modifies this
      ensures Ready() && ok == WholeRead(g, disk, h, g.TableBytes())
      ensures mainCrcOk == old(mainCrcOk) && secondCrcOk == old(secondCrcOk) && state == old(state)
      ensures if Reaches(g, h) then
                && partitions == ReadInto(disk, TableAt(g, h), spare)
                && mainPartsCrcOk == secondPartsCrcOk == (f.crc(partitions) == h.partitionEntriesCRC)
                && mainHeader == old(mainHeader).(numParts := g.numParts)
                && secondHeader == old(secondHeader).(numParts := g.numParts)
              else
                && partitions == old(partitions) && mainHeader == old(mainHeader) && secondHeader == old(secondHeader)
                && mainPartsCrcOk == old(mainPartsCrcOk) && secondPartsCrcOk == old(secondPartsCrcOk)
    {
      var at := TableAt(g, h);
      ok := at < TWO63;
      if ok {
        mainHeader := mainHeader.(numParts := g.numParts);
        secondHeader := secondHeader.(numParts := g.numParts);
        ok := ReadCounts(g, disk, at, |partitions|);
        partitions := ReadInto(disk, at, spare);
        mainPartsCrcOk := f.crc(partitions) == h.partitionEntriesCRC;
        secondPartsCrcOk := mainPartsCrcOk;
      }
    }

    method CheckTable(h: Header, other: Header, disk: Bytes, spare: Bytes) returns (ok: bool)
      requires Ready() && IsDisk(g, disk) && h.sizeOfPartitionEntries <= GPT_SIZE
      requires |spare| == h.numParts * h.sizeOfPartitionEntries
      ensures ok == AgreesOver(g, f, disk, h, other, spare)
    {
      ok := false;
      var at := TableAt(g, h);
      if at < TWO63 && ReadCounts(g, disk, at, |spare|) {
        var newCrc := f.crc(ReadInto(disk, at, spare));
        ok := newCrc == h.partitionEntriesCRC;
        if newCrc != other.partitionEntriesCRC {
          ok := false;
        }
      }
    }

    /** Load as much as possible, using whichever copies pass their checksums. */
    method ForceLoadGPTData(disk: Bytes, spare: Spare) returns (allOK: bool)
      requires Ready() && IsDisk(g, disk) && TableSizeFixed(g, f, disk) && spare.Sized(g.TableBytes())
      modifies this
      ensures Ready()
      ensures partitions == Loaded(g, f, disk, Memory(old(partitions), old(mainPartsCrcOk), spare))
      ensures mainHeader == MainUsed(g, f, disk) && secondHeader == SecondUsed(g, f, disk)
      ensures state == GptInvalid <==> !MainValid(g, f, disk) && !SecondValid(g, f, disk)
      ensures var mem := Memory(old(partitions), old(mainPartsCrcOk), spare);
              state == GptValid
              <==> MainValid(g, f, disk) && SecondValid(g, f, disk) && MainSumOk(g, f, disk, mem) && BackupAgrees(g, f, disk, mem)
      ensures allOK <==> state == GptInvalid || MainRead(g, f, disk)
      ensures var mem := Memory(old(partitions), old(mainPartsCrcOk), spare);
              state != GptInvalid ==>
                && mainCrcOk && secondCrcOk && (mainPartsCrcOk <==> MainSumOk(g, f, disk, mem))
                && (secondPartsCrcOk <==> BackupAgrees(g, f, disk, mem) && (FallsBack(g, f, disk, mem) ==>
                      f.crc(partitions) == secondHeader.partitionEntriesCRC))
    {
      var validHeaders := LoadHeaders(disk);
      allOK := true;
      if validHeaders > 0 {
        allOK := LoadTables(disk, spare);
      } else {
        state := GptInvalid;
      }
    }

    /** Both headers, each rebuilt from the other if only one is valid. */
    method LoadHeaders(disk: Bytes) returns (validHeaders: int)
      requires Ready() && IsDisk(g, disk) && TableSizeFixed(g, f, disk)
      modifies this
      ensures Ready() && partitions == old(partitions) && mainPartsCrcOk == old(mainPartsCrcOk)
      ensures mainHeader == MainUsed(g, f, disk) && secondHeader == SecondUsed(g, f, disk)
      ensures validHeaders > 0 <==> MainValid(g, f, disk) || SecondValid(g, f, disk)
      ensures validHeaders > 0 ==>
                && mainCrcOk && secondCrcOk && state != GptInvalid
                && (state == GptValid <==> MainValid(g, f, disk) && SecondValid(g, f, disk))
                && mainHeader.numParts == secondHeader.numParts == g.numParts
                && mainHeader.sizeOfPartitionEntries == secondHeader.sizeOfPartitionEntries == GPT_SIZE
    {
      SectorInside(g, 1);
      SectorInside(g, SecondSector(g, f, disk));
      mainHeader, mainCrcOk := LoadHeader(disk, 1);
      if mainCrcOk && mainHeader.backupLBA < g.diskSize {
        secondHeader, secondCrcOk := LoadHeader(disk, mainHeader.backupLBA);
      } else {
        secondHeader, secondCrcOk := LoadHeader(disk, g.diskSize - 1);
      }
      validHeaders := CheckHeaderValidity();
      if validHeaders > 0 {
        state := GptValid;
        if validHeaders == 1 {
          secondHeader := RebuiltSecond(mainHeader);
          state := GptCorrupt;
          secondCrcOk := mainCrcOk;
        } else if validHeaders == 2 {
          mainHeader := RebuiltMain(secondHeader);
          state := GptCorrupt;
          mainCrcOk := secondCrcOk;
        }
      }
    }

    /**
      The table, from the main copy unless only the backup copy checks out. A valid header has
      a good checksum, so both header flags are set here: the branch that would read the
      backup table first (gpt.cc:854-866) is never taken. The backup is not read any more
      once the main table was not read whole.
     */
    method LoadTables(disk: Bytes, spare: Spare) returns (allOK: bool)
      requires Ready() && IsDisk(g, disk) && mainCrcOk && secondCrcOk && state != GptInvalid && spare.Sized(g.TableBytes())
      requires mainHeader.numParts == secondHeader.numParts == g.numParts
      requires mainHeader.sizeOfPartitionEntries == secondHeader.sizeOfPartitionEntries == GPT_SIZE
      modifies this
      ensures Ready() && mainHeader == old(mainHeader) && secondHeader == old(secondHeader) && mainCrcOk && secondCrcOk
      ensures var reached := Reaches(g, mainHeader);
              var read := if reached then ReadInto(disk, TableAt(g, mainHeader), spare.main) else old(partitions);
              var mainOk := if reached then f.crc(read) == mainHeader.partitionEntriesCRC else old(mainPartsCrcOk);
              var secondOk := AgreesOver(g, f, disk, secondHeader, mainHeader, spare.check);
              && partitions == (if allOK && !mainOk && secondOk
                                then ReadInto(disk, TableAt(g, secondHeader), spare.backup)
                                else read)
              && state == (if mainOk && secondOk then old(state) else GptCorrupt)
              && mainPartsCrcOk == mainOk
              && secondPartsCrcOk == if allOK && !mainOk && secondOk then f.crc(partitions) == secondHeader.partitionEntriesCRC else secondOk
      ensures allOK == WholeRead(g, disk, mainHeader, g.TableBytes())
    {
      allOK := LoadPartitionTable(mainHeader, disk, spare.main);
      secondPartsCrcOk := CheckTable(secondHeader, mainHeader, disk, spare.check);
      if secondPartsCrcOk && secondCrcOk && !mainPartsCrcOk {
        allOK := UseBackup(disk, spare.backup, allOK);
      }
      if !mainCrcOk || !secondCrcOk || !mainPartsCrcOk || !secondPartsCrcOk {
        state := GptCorrupt;
      }
    }

    /** LoadSecondTableAsMain, unless the main table was not read whole; the main table stays marked as bad. */
    method UseBackup(disk: Bytes, spare: Bytes, allOK: bool) returns (ok: bool)
      requires Ready() && IsDisk(g, disk) && |spare| == g.TableBytes() && Reaches(g, secondHeader)
      requires mainHeader.numParts == secondHeader.numParts == g.numParts && secondHeader.sizeOfPartitionEntries == GPT_SIZE
      modifies this
      ensures Ready() && mainHeader == old(mainHeader) && secondHeader == old(secondHeader) && state == GptCorrupt
      ensures mainCrcOk == old(mainCrcOk) && secondCrcOk == old(secondCrcOk) && !mainPartsCrcOk
      ensures ok == (allOK && WholeRead(g, disk, secondHeader, g.TableBytes()))
      ensures if allOK then
                && partitions == ReadInto(disk, TableAt(g, secondHeader), spare)
                && secondPartsCrcOk == (f.crc(partitions) == secondHeader.partitionEntriesCRC)
              else partitions == old(partitions) && secondPartsCrcOk == old(secondPartsCrcOk)
    {
      state := GptCorrupt;
      ok := allOK;
      if ok {
        ok := LoadPartitionTable(secondHeader, disk, spare);
      }
      mainPartsCrcOk := false;
    }

    method RecomputeCRCs()
      requires Ready()
      modifies this`mainHeader, this`secondHeader
      ensures mainHeader == f.seal(old(mainHeader), old(mainHeader).headerSize, f.crc(partitions))
      ensures secondHeader == f.seal(old(secondHeader), old(mainHeader).headerSize, f.crc(partitions))
    {
      var size, tableCrc := mainHeader.headerSize, f.crc(partitions);
      mainHeader, secondHeader := f.seal(mainHeader, size, tableCrc), f.seal(secondHeader, size, tableCrc);
    }

    /**
      Write the table. `checksPass` is the outcome of the size, overlap and sanity checks and
      of the user's confirmation; `completed` and `torn` say how far the device gets: a
      failed write stops the ones after it. `mbr` is the sector of the protective MBR.
     */
    method SaveGPTData(disk: Bytes, mbr: Option<Bytes>, checksPass: bool, completed: nat, torn: nat) returns (image: Bytes, allOK: bool)
      requires Ready() && IsDisk(g, disk)
      requires var size, sum := mainHeader.headerSize, f.crc(partitions);
               InsideDisk(disk, AllOps(g, f, f.seal(mainHeader, size, sum), f.seal(secondHeader, size, sum), partitions, mbr))
      modifies this`mainHeader, this`secondHeader
      ensures mainHeader == f.seal(old(mainHeader), old(mainHeader).headerSize, f.crc(partitions))
      ensures secondHeader == f.seal(old(secondHeader), old(mainHeader).headerSize, f.crc(partitions))
      ensures image == (if checksPass
                        then Perform(disk, AllOps(g, f, mainHeader, secondHeader, partitions, mbr), completed, torn)
                        else disk)
      ensures allOK == (checksPass && mbr.Some? && completed >= 5)
    {
      RecomputeCRCs();
      image, allOK := disk, checksPass;
      if allOK {
        image, allOK := WriteAll(disk, AllOps(g, f, mainHeader, secondHeader, partitions, mbr), completed, torn);
        allOK := allOK && mbr.Some?;
      }
    }

    /** The writes in turn, until one fails. */
    static method WriteAll(disk: Bytes, ops: seq<Op>, completed: nat, torn: nat) returns (image: Bytes, allOK: bool)
      requires InsideDisk(disk, ops)
      ensures image == Perform(disk, ops, completed, torn) && allOK == (completed >= |ops|)
    {
      image, allOK := disk, true;
      var i := 0;
      while allOK && i < |ops|
        invariant 0 <= i <= |ops| && i <= completed + 1 && |image| == |disk|
        invariant allOK ==> i <= completed && Perform(image, ops[i..], completed - i, torn) == Perform(disk, ops, completed, torn)
        invariant !allOK ==> completed < |ops| && image == Perform(disk, ops, completed, torn)
      {
        assert ops[i..][0] == ops[i] && ops[i..][1..] == ops[i + 1..];
        if i == completed {
          var part := if torn < |ops[i].data| then ops[i].data[..torn] else ops[i].data;
          image, allOK := Write(image, ops[i].at, part), false;
        } else {
          image := Write(image, ops[i].at, ops[i].data);
        }
        i := i + 1;
      }
    }
  }
}
