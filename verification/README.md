# gptfdisk and dnsmasq: a verified model of their cores

This project models the parts of two programs where the hard reasoning is, and proves what they keep over every
input, every run and every reachable state. The model takes the form of the source: objects and lists that are
changed in place are classes with `modifies` clauses, loops are loops with invariants, and each method is proved
against functions whose own properties are proved as lemmas.

**gptfdisk** (`external/gptfdisk`)

- `Crc32`, `GptHeader`, `GptStore`, `GptSafety`, `GptDisk`: saving and loading a GUID partition table as a machine
  that may stop at any point (section 5.3 of the UEFI Specification). The disk is a sequence of bytes, a save is five
  writes, and loading decides by checksums which copy to trust.
- `FreeSpace`, `GptAllocator`: the search for free space, alignment and the operations that create, delete, swap and
  sort partitions.
- `SpaceList`, `SpaceTiling`: the doubly linked list of partitions and gaps of the curses program.
- `MbrTable`, `MbrRearrange`, `MbrChain`, `MbrReader`, `MbrData`: primary and logical partitions, the chain of EBR sectors
  that is written for them, and the reader that must undo it.

**dnsmasq** (`external/dnsmasq/src`)

- `CacheState`, `CacheLookup`, `CacheSweep`, `CacheInsert`, `CacheRoom`, `CacheClears`, `CacheLocal`, `DnsCache`, `CacheAlias`, `CacheStarved`:
  the DNS cache, whose records are at once in hash chains with an order of classes, in an LRU list and in an insert
  transaction.
- `ForwardTable`, `ForwardRuns`, `Forwarding`: queries sent to other servers, shared sockets counted by references,
  matching and counting of replies.
- `LeaseScripts`, `LeaseNames`: DHCP leases and the events a script is told.
- `AddressPool`: the choice of an address (section 4.3.1 of RFC 2131).
- `HexText`, `LeaseText`: hardware addresses and client ids in the lease file, and the parser that overwrites its input.
- `Tftp`: transfers in octet mode and shared files (sections 2 and 6 of RFC 1350).

`Lists`, `Sorting` and `Options` hold what several modules use.

## Where the code falls short of a property

Each of these has a lemma with the inputs that fail and the exact condition under which the property holds.

- A main partition table that is torn in the middle of its write can be loaded as it is: the check wants the sums of both
  headers, which differ by then, so neither copy passes and the main one is taken (exact condition in
  `GptSafety.TornMainTable`). Runs of interrupted saves can bring back a stale table (`StaleTableReturns`,
  `GptDisk.StaleTableIsReal`; exact condition in `SaveFromAnySoundDisk`).
- A main table that cannot be read whole is not replaced by a good backup, although the program says so
  (`GptDisk.BackupNotUsed`, `BackupNotUsedIsReal`; exact condition in `GptStore.BackupRescuesExactly`).
- `RecomputeCRCs` takes a header size below 92 as it is while `CheckHeaderCRC` uses 92 (`GptHeader.SealedPasses`; what this
  means for repair in `GptDisk.RepairedIsConsistent`).
- `FindLastInFree` compares strictly and passes over one-sector partitions at certain places
  (`FreeSpace.LastInFreeExact`); so free space is counted wrongly (`FreeBlocksConserved`) and an overlapping partition can be
  created (`GptAllocator.CreateMayOverlap`; exact condition in `CreateExact`).
- A logical partition may start at sector 1, where its EBR overwrites the main record and all primary partitions are lost
  (`MbrChain.TableAtOne`, `PrimariesLost`; exact condition in `MainKeptExactly`).
- The length of the extended entry is cut to 32 bits, and then it does not reach the end of the last logical partition
  (`MbrChain.TableTooLong`; exact condition in `ExtendedCoversExactly`).
- The reader of a chain does not end on EBRs that only link to each other in a circle (`MbrReader.TwoLinksNeverEnd`; exact
  condition in `EndsUnlessCycle`).
- `cache_insert` takes it that throwing out the tail of the LRU list frees a record. It does not if the alias of a DHCP lease
  stands before it in its chain, and an insert that replaces nothing then fails (`CacheStarved.AliasStarves`, `CacheAlias.AliasBlocks`; exact
  condition in `CacheRoom.SpillFailsExactly`).
- A lease that is renamed twice before the script runs makes the script hear of the loss of a name that it never heard of
  (`LeaseNames.RenamedTwice`; exact condition over runs in `RunHonestExactly`).
- A hardware address of type 0 comes back from the lease file as Ethernet (`LeaseText.HwRoundTrip`).
- TFTP block numbers have 16 bits; a file of more blocks is ambiguous to a client unless blocks of equal number are equal
  (`Tftp.AmbiguousMisleads`).

## Where code and documentation disagree

The model follows the code.

- The comment on `ReadMBRData` (`external/gptfdisk/basicmbr.cc:108-109`) says that a failed read returns 0; a failed read of
  sector 0 returns 1.
- `ForceLoadGPTData` has a branch for a bad main header beside a good backup header (`external/gptfdisk/gpt.cc:854-866`)
  that is never taken, because by then the bad header has been rebuilt and has taken over the flag of the good one.
- The comment on `get_new_frec` speaks of records older than the timeout; a record of less than twice the timeout is spared
  as long as the table may grow.

## Model

| member | source | states |
|---|---|---|
| `Crc32.GenerateTable` | external/gptfdisk/crc32.cc:50-72 | the table built by shifting holds, for every byte, eight steps of the bit-at-a-time shift register |
| `Crc32.Checksum` | external/gptfdisk/crc32.cc:32-43 | the table-driven checksum of any byte string equals the bit-at-a-time reflected CRC-32 (section 8 of RFC 1952) |
| `Crc32.OneByteDetected` | external/gptfdisk/crc32.cc:32-72 | changing any one byte of any block changes its checksum, whatever the length and the position |
| `Crc32.OneByteChangesChecksum` | external/gptfdisk/crc32.cc:32-72 | the same on integer bytes, the form in which headers and tables are summed |
| `Crc32.PolynomialIs` | external/gptfdisk/crc32.cc:50-72 | the polynomial has the powers 26, 23, 22, 16, 12, 11, 10, 8, 7, 5, 4, 2, 1 and 0 (section 8 of RFC 1952) |
| `Crc32.CheckValue` | external/gptfdisk/crc32.cc:32-43 | the sum of the digits 1 to 9 is CBF43926 |
| `GptHeader.HeaderRoundTrip` | external/gptfdisk/gpt.h:43-59 | decoding what was encoded gives back every field of a header (section 5.3.2 of the UEFI Specification) |
| `GptHeader.BytesRoundTrip` | external/gptfdisk/gpt.h:43-59 | encoding what was decoded gives back all 512 bytes, so the codec is a bijection |
| `GptHeader.SealedPasses` | external/gptfdisk/gpt.cc:448-540 | a header sealed by RecomputeCRCs passes CheckHeaderCRC if and only if its size is at least 92 or the two sums happen to agree |
| `GptStore.GptData.CheckHeaderValidity` | external/gptfdisk/gpt.cc:404-442 | the result counts 1 for a good main and 2 for a good backup header |
| `GptStore.GptData.LoadPartitionTable` | external/gptfdisk/gpt.cc:945-980 | what is in memory after a whole read, a short one and a failing seek, in the 64 bits of the offset and the blocks of the reader; both table flags say whether it has the sum of the header, and stay after a failing seek |
| `GptStore.GptData.CheckTable` | external/gptfdisk/gpt.cc:986-1020 | the table at a header agrees exactly if all of it, in the size that the header says, counts as read and its sum is that of both headers |
| `GptStore.GptData.ForceLoadGPTData` | external/gptfdisk/gpt.cc:802-894 | for every disk: which of the two tables is loaded, which headers are used or rebuilt, and exactly when the result is valid, invalid or repaired and each table is flagged good; the backup is used exactly if the main table was read whole, fails its sum, and the backup agrees with both headers |
| `GptStore.BackupRescuesExactly` | external/gptfdisk/gpt.cc:875-882 | with a backup table that agrees with both headers, what is loaded has the sum they state if and only if the main table was read whole or what was read of it has that sum anyway |
| `GptDisk.BackupNotUsed` | external/gptfdisk/gpt.cc:875-882 | a disk with two valid headers and an agreeing backup table whose main header leads off the disk: what memory held is loaded as the table |
| `GptDisk.BackupNotUsedIsReal` | external/gptfdisk/gpt.cc:875-882 | the same with the real format and CRC-32, made from any consistent disk |
| `GptStore.GptData.SaveGPTData` | external/gptfdisk/gpt.cc:1028-1166 | a save that stops after any number of its five writes, the protective MBR last, or inside one, leaves exactly the disk with that prefix of writes; it succeeds exactly if all were made |
| `GptSafety.LoadedByRegions` | external/gptfdisk/gpt.cc:802-894 | the table that ForceLoadGPTData loads is a function of the four regions of the disk alone |
| `GptSafety.InterruptedSaveLoads` | external/gptfdisk/gpt.cc:1114-1132 | whatever the checksum function: a save stopped before the main table loads the old table, one stopped after it the new table, also inside any other write |
| `GptSafety.TornMainTable` | external/gptfdisk/gpt.cc:986-1020 | a main table torn in the middle loads as old or new if and only if it is one of them or its sum gives it away; otherwise the mixture is loaded |
| `GptSafety.SaveFromAnySoundDisk` | external/gptfdisk/gpt.cc:802-894 | from any disk that saves can leave: the load after every stop is old or new if and only if the main table was good, or the backup was not relied upon, or the new table agrees with it |
| `GptSafety.StopsBetweenWrites` | external/gptfdisk/gpt.cc:1114-1132 | the five disks that a save with whole writes can leave: backup table, backup header, main table, main header, in this order |
| `GptSafety.StaleTableReturns` | external/gptfdisk/gpt.cc:986-1020 | three saves, each stopped between writes, that bring back a table which is neither the last loaded nor the new one, for any three tables with different sums |
| `GptDisk.StaleTableIsReal` | external/gptfdisk/gpt.cc:986-1020 | with the real format and CRC-32, on every geometry, there are three tables for which this happens |
| `GptSafety.RunKeepsSound` | external/gptfdisk/gpt.cc:1028-1166 | over every run of interrupted saves the disk stays one from which a table is loaded |
| `GptSafety.RunLoadsOldOrNew` | external/gptfdisk/gpt.cc:802-894 | over every run in which no save starts while the backup is relied upon, each load gives the table loaded before or the table saved last, and never any but a saved one |
| `GptSafety.SingleFaultRecovery` | external/gptfdisk/gpt.cc:544-583 | any damage to one of the four regions that its checksum detects still loads the original table |
| `GptSafety.HeadersRecovered` | external/gptfdisk/gpt.cc:544-583 | and ends with both original headers in every field, up to the checksum of one that was rebuilt, if the two headers say the same |
| `GptDisk.SavedIsConsistent` | external/gptfdisk/gpt.cc:1028-1166 | what a complete save leaves is a consistent disk in the real format |
| `GptDisk.CrashConsistency` | external/gptfdisk/gpt.cc:1114-1135 | on bytes: the image of a disk after a stopped save of any new table and protective MBR loads exactly the old table if the main table was not reached, and exactly the new one if it was finished, for every checksum function |
| `GptDisk.HeaderByteDetected` | external/gptfdisk/gpt.cc:448-491 | a changed byte among those that the checksum covers, outside the size field, makes the header bad, whatever the header size |
| `GptDisk.PaddingByteHarmless` | external/gptfdisk/gpt.cc:448-491 | a changed byte behind the covered ones leaves a good header good and its meaning unchanged |
| `GptDisk.RealHeaderRobust` | external/gptfdisk/gpt.cc:448-491 | every one-byte change of a good header, whatever its size, is detected or leaves everything that loading uses |
| `GptDisk.AnyDamagedByteRecovered` | external/gptfdisk/gpt.cc:802-894 | with the real CRC-32 and the real format, changing any one byte of a consistent disk, wherever it is and whatever the header size, still loads the original table |
| `GptDisk.RepairedIsConsistent` | external/gptfdisk/gpt.cc:802-1166 | repair: loading any disk that still loads and completing a save of what was loaded leaves that table consistent on the disk, so that the next load gives it again, if and only if both headers survive the size they are sealed with; from 92 on they do |
| `GptDisk.RepairRestoresBytes` | external/gptfdisk/gpt.cc:544-1166 | damage to one of the four structures of a saved table that its checksum detects: loading and saving again writes all four back byte for byte |
| `FreeSpace.LastInFreeExact` | external/gptfdisk/gpt.cc:2170-2182 | FindLastInFree stops right before the next partition if and only if that entry is not passed over by the strict comparison |
| `FreeSpace.PassedOverIsShort` | external/gptfdisk/gpt.cc:2170-2182 | only partitions of one sector are ever passed over |
| `FreeSpace.StepsAreRuns` | external/gptfdisk/gpt.cc:2186-2212 | without a spilled entry every segment that FindFreeBlocks steps through is a maximal run of free sectors |
| `FreeSpace.RunsAreSteps` | external/gptfdisk/gpt.cc:2186-2212 | and every maximal run of free sectors is one of its segments |
| `FreeSpace.FreeBlocksConserved` | external/gptfdisk/gpt.cc:2186-2212 | free sectors counted plus used sectors is the usable size plus an exact excess, which is zero if and only if no entry is spilled |
| `FreeSpace.LongPartitionsAreTame` | external/gptfdisk/gpt.cc:2186-2212 | partitions of two sectors or more are never spilled |
| `GptAllocator.FindFirstAvailable` | external/gptfdisk/gpt.cc:2087-2117 | the result is the first free sector from the start on, and 0 exactly if there is none; the fixpoint search ends |
| `GptAllocator.FindLastInFree` | external/gptfdisk/gpt.cc:2170-2182 | the result is the nearest end that the strict comparison leaves, over all entries |
| `GptAllocator.TestIsRight` | external/gptfdisk/gpt.cc:2218-2237 | on a sound table the test of IsFree holds of exactly the free sectors of the usable area |
| `GptAllocator.IsFree` | external/gptfdisk/gpt.cc:2218-2237 | computes that test for any table |
| `GptAllocator.FindFreeBlocks` | external/gptfdisk/gpt.cc:2186-2212 | for any table: total, number and maximum of the segments stepped through; the search ends |
| `GptAllocator.FindFirstInLargest` | external/gptfdisk/gpt.cc:2121-2138 | the result starts a segment of the largest size |
| `GptAllocator.GapsAreRuns` | external/gptfdisk/gpt.cc:2186-2212 | on a sound table without spilled entries the segments are the maximal free runs, each once and in order |
| `GptAllocator.Align` | external/gptfdisk/gpt.cc:1981-2017 | the aligned sector is reached over free sectors only, down before up, and otherwise the sector stays |
| `GptAllocator.AlignedExactly` | external/gptfdisk/gpt.cc:1981-2017 | a sector between two multiples of the alignment goes to the lower one if that is in the area and all sectors to it are free, else likewise to the upper one, else it stays; a multiple stays |
| `GptAllocator.CreateExact` | external/gptfdisk/gpt.cc:1780-1800 | a created partition keeps the table disjoint and inside the area if and only if the requested end sector was free |
| `GptAllocator.LongTablesAreCareful` | external/gptfdisk/gpt.cc:1780-1800 | if all partitions have two sectors or more, the end that CreatePartition accepts is free |
| `GptAllocator.SoundAfterDelete` | external/gptfdisk/gpt.cc:1757-1776 | deleting keeps a table sound |
| `GptAllocator.SoundAfterExchange` | external/gptfdisk/gpt.cc:1814-1826 | swapping two entries keeps a table sound |
| `GptAllocator.SoundAfterSort` | external/gptfdisk/gpt.cc:1804-1807 | sorting keeps a table sound and orders it by start, unused entries last |
| `GptAllocator.ApplyKeepsSound` | external/gptfdisk/gpt.cc:1757-1826 | each of the four operations keeps a sound table sound if and only if a created partition ends at a free sector |
| `GptAllocator.RunKeepsSound` | external/gptfdisk/gpt.cc:1757-1826 | over every run of careful operations the table stays sound |
| `GptAllocator.LongRunsAreCareful` | external/gptfdisk/gpt.cc:1757-1826 | runs that start with and make only partitions of two sectors or more are careful |
| `GptAllocator.CreateMayOverlap` | external/gptfdisk/gpt.cc:2170-2182 | a one-sector partition at the end of the area lets CreatePartition make an overlapping one |
| `GptAllocator.FindOverlaps` | external/gptfdisk/gpt.cc:624-642 | zero problems if and only if all pairs of partitions are compatible |
| `GptAllocator.FindInsanePartitions` | external/gptfdisk/gpt.cc:649-666 | zero problems if and only if no partition is insane |
| `GptAllocator.CheckGPTSize` | external/gptfdisk/gpt.cc:350-398 | zero problems if and only if no partition leaves the usable area |
| `GptAllocator.VerifySound` | external/gptfdisk/gpt.cc:624-666 | on a sound table all three checks find nothing |
| `GptAllocator.PartitionTable.constructor` | external/gptfdisk/gpt.cc:65-86 | the table without partitions is sound |
| `GptAllocator.PartitionTable.CreatePartition` | external/gptfdisk/gpt.cc:1780-1800 | success exactly if entry, start and end qualify, and then the entry holds the aligned range |
| `GptAllocator.PartitionTable.GetPartRange` | external/gptfdisk/gpt.cc:2032-2052 | how many entries are used, and the lowest and the highest of them, or zeros |
| `GptAllocator.PartitionTable.DeletePartition` | external/gptfdisk/gpt.cc:1757-1776 | success exactly if the entry is between the lowest and the highest used one; then it is blank |
| `GptAllocator.PartitionTable.SwapPartitions` | external/gptfdisk/gpt.cc:1814-1826 | the two entries change places exactly if both exist |
| `GptAllocator.PartitionTable.SortGPT` | external/gptfdisk/gpt.cc:1804-1807 | the entries are sorted by their order |
| `SpaceList.Spaces.EmptySpaces` | external/gptfdisk/gptcurses.cc:72-82 | the list is empty |
| `SpaceList.Spaces.UnlinkSpace` | external/gptfdisk/gptcurses.cc:151-165 | the doubly linked chain loses exactly that node; first, last and count follow |
| `SpaceList.Spaces.LinkToEnd` | external/gptfdisk/gptcurses.cc:168-180 | the doubly linked list gains exactly that node at its end |
| `SpaceList.Spaces.FindEarliest` | external/gptfdisk/gptcurses.cc:183-203 | a node that starts no later than any other of its chain |
| `SpaceList.Spaces.SortSpaces` | external/gptfdisk/gptcurses.cc:183-203 | relinking ends with the same nodes, sorted, well linked |
| `SpaceTiling.MakeSpacesFromParts` | external/gptfdisk/gptcurses.cc:87-103 | one new node for each used partition, and no others |
| `SpaceTiling.AddEmptySpace` | external/gptfdisk/gptcurses.cc:106-116 | a gap is added and the list is sorted |
| `SpaceTiling.AddEmptySpaces` | external/gptfdisk/gptcurses.cc:120-147 | the loop over a list that grows and is resorted under it ends, and the nodes then cover the usable area without overlap |
| `SpaceTiling.FillGaps` | external/gptfdisk/gptcurses.cc:120-147 | the same for the loop, from any sorted non-empty list of partitions |
| `SpaceTiling.OneOrder` | external/gptfdisk/gptcurses.cc:183-203 | nodes with different starts have one sorted order only |
| `SpaceTiling.GapsAreFreeRuns` | external/gptfdisk/gptcurses.cc:120-147 | every gap of a list that covers the area is a maximal run of free sectors |
| `SpaceTiling.FreeRunsAreGaps` | external/gptfdisk/gptcurses.cc:120-147 | and every maximal run of free sectors is one of its gaps |
| `SpaceTiling.IdentifySpaces` | external/gptfdisk/gptcurses.cc:208-211 | a well-formed sorted list of numSpaces nodes that tiles firstUsable to lastUsable: one for each used partition, and a gap exactly for each maximal free run |
| `MbrTable.OverlapIsCommonSector` | external/gptfdisk/mbrpart.cc:230-233 | DoTheyOverlap holds exactly if a sector is in both partitions |
| `MbrTable.EbrSectorFree` | external/gptfdisk/basicmbr.cc:897-926 | in a legal table the sector before a logical partition that starts at 2 or later is in no partition |
| `MbrTable.ExtendedOverlapsNoPrimary` | external/gptfdisk/basicmbr.cc:1331-1368 | the extended partition made around the logical ones meets no primary one |
| `MbrRearrange.RemovedOk` | external/gptfdisk/basicmbr.cc:1277-1300 | with enough free slots behind, only primary partitions are left in the first four entries, and nothing is lost |
| `MbrRearrange.MovedOk` | external/gptfdisk/basicmbr.cc:1304-1325 | all primary partitions end up in the first four entries, and nothing is lost |
| `MbrRearrange.SortOk` | external/gptfdisk/basicmbr.cc:1127-1130 | sorting orders the entries by start, unused ones last, and keeps pairs disjoint |
| `MbrRearrange.PlacedOk` | external/gptfdisk/basicmbr.cc:1331-1368 | the three rearrangements together: primaries in front, logicals sorted behind, the same partitions as before |
| `MbrChain.ExtendsExactly` | external/gptfdisk/basicmbr.cc:1331-1368 | on an arranged table CreateExtended succeeds if and only if there is no logical partition or no entry of kind 0xEE |
| `MbrChain.EbrRecordOk` | external/gptfdisk/basicmbr.cc:379-395 | the record filled in for logical partition k says that it starts one sector on, leads to the EBR of the next one and to no other, with a length of one sector more than that partition, and holds nothing else |
| `MbrChain.ExtendedCoversExactly` | external/gptfdisk/basicmbr.cc:1341-1350 | the extended entry covers exactly the sectors from the first EBR to the end of the last logical partition if their number has 32 bits, and otherwise it does not reach the end |
| `MbrChain.LogicalsInside` | external/gptfdisk/basicmbr.cc:1341-1350 | then every logical partition and its EBR lie inside the extended entry |
| `MbrChain.PrimariesOutside` | external/gptfdisk/basicmbr.cc:1341-1350 | and no primary partition has a sector of it |
| `MbrChain.TableTooLong` | external/gptfdisk/basicmbr.cc:1341-1350 | a legal table, accepted for writing, whose extended entry does not reach the end of its logical partition |
| `MbrChain.LinkSpans` | external/gptfdisk/basicmbr.cc:383-387 | the link in an EBR spans exactly the next EBR and its partition, unless that has the greatest length |
| `MbrChain.MainKeptExactly` | external/gptfdisk/basicmbr.cc:341-403 | after a write the main record is in sector 0 if and only if no logical partition starts at sector 1; otherwise the first EBR is there |
| `MbrChain.PrimariesLost` | external/gptfdisk/basicmbr.cc:138-237 | and then no primary partition is among the entries read from sector 0 |
| `MbrChain.TableAtOne` | external/gptfdisk/basicmbr.cc:897-926 | a table with one primary partition and one logical partition at sector 1 that is legal and accepted for writing |
| `MbrReader.EndsUnlessCycle` | external/gptfdisk/basicmbr.cc:247-319 | for every disk, start and number: the reader ends if and only if its walk never comes to a circle of two or more records that only point on |
| `MbrReader.CycleNeverEnds` | external/gptfdisk/basicmbr.cc:254-263 | from any record of such a circle, of any length, the reader runs on beyond any number of rounds |
| `MbrReader.SelfLinkEnds` | external/gptfdisk/basicmbr.cc:257-263 | a record that points to itself is noticed, whatever else is on the disk |
| `MbrReader.TwoLinksNeverEnd` | external/gptfdisk/basicmbr.cc:247-319 | a disk with two records that point to each other, on which the reader does not end |
| `MbrReader.ChainReadsBack` | external/gptfdisk/basicmbr.cc:247-319 | a chain as it is written is read back whole: result and table |
| `MbrReader.OneChainReadsBack` | external/gptfdisk/basicmbr.cc:138-237 | from a disk with one chain as it is written, exactly the primary entries and the logical partitions of the chain are read |
| `MbrChain.WrittenReadsBack` | external/gptfdisk/basicmbr.cc:138-237 | the table made from the four entries and the chain is the arranged one, packed |
| `MbrChain.EbrsInFreeSectors` | external/gptfdisk/basicmbr.cc:341-403 | every sector written other than sector 0 is the one before a logical partition and lies in no partition |
| `MbrChain.PackedSame` | external/gptfdisk/basicmbr.cc:247-319 | packing the logical partitions keeps all primaries and all logicals, these in order of start |
| `MbrData.FindOverlaps` | external/gptfdisk/basicmbr.cc:707-734 | zero problems if and only if all used entries are disjoint in pairs |
| `MbrData.CountPrimaries` | external/gptfdisk/basicmbr.cc:738-750 | the number of primaries, with one for the extended partition that logicals need |
| `MbrData.FirstLogicalLBA` | external/gptfdisk/basicmbr.cc:832-843 | the least start of a logical partition |
| `MbrData.LastLogicalLBA` | external/gptfdisk/basicmbr.cc:847-857 | the greatest end of a logical partition |
| `MbrData.AreLogicalsContiguous` | external/gptfdisk/basicmbr.cc:862-879 | no primary partition starts between the first EBR and the last logical sector |
| `MbrData.DoTheyFit` | external/gptfdisk/basicmbr.cc:883-892 | no entry of the table starts or ends beyond the size of the disk |
| `MbrData.SectorUsedAs` | external/gptfdisk/basicmbr.cc:1448-1463 | the use of a sector, with the precedence of the loop |
| `MbrData.SpaceBeforeAllLogicals` | external/gptfdisk/basicmbr.cc:897-907 | before every logical partition there is room for an EBR |
| `MbrData.IsLegal` | external/gptfdisk/basicmbr.cc:917-926 | all the conditions of a legal table together |
| `MbrData.NumLogicals` | external/gptfdisk/basicmbr.cc:753-761 | the number of logical partitions, zero exactly if there is none |
| `MbrData.FindNextInUse` | external/gptfdisk/basicmbr.cc:942-950 | the next entry in use, or -1 if there is none |
| `MbrData.WriteChain` | external/gptfdisk/basicmbr.cc:375-401 | the chain of EBRs for all logical partitions is on the disk, and no other sector has changed |
| `MbrData.BasicMBRData.constructor` | external/gptfdisk/basicmbr.cc:33-44 | the empty table is legal and can be written |
| `MbrData.BasicMBRData.RemoveLogicalsFromFirstFour` | external/gptfdisk/basicmbr.cc:1277-1300 | in place, swap by swap, the specified rearrangement |
| `MbrData.BasicMBRData.MovePrimariesToFirstFour` | external/gptfdisk/basicmbr.cc:1304-1325 | in place, swap by swap, the specified rearrangement |
| `MbrData.BasicMBRData.SortLogicals` | external/gptfdisk/basicmbr.cc:1127-1130 | the entries from 4 on are sorted |
| `MbrData.BasicMBRData.CreateExtended` | external/gptfdisk/basicmbr.cc:1331-1368 | the extended partition goes into a free one of the first four entries, if the table is legal and there is one |
| `MbrData.BasicMBRData.ReadLogicalParts` | external/gptfdisk/basicmbr.cc:247-319 | for every disk whose walk does not come to such a circle the reader ends, with the result and the table of that walk; the first four entries stay |
| `MbrData.BasicMBRData.ReadRound` | external/gptfdisk/basicmbr.cc:254-317 | one round in place is one step of the walk, and stores a partition exactly if the record describes one |
| `MbrData.BasicMBRData.DeleteExtendedParts` | external/gptfdisk/basicmbr.cc:1154-1167 | exactly the extended entries are blank |
| `MbrData.BasicMBRData.WriteMBRData` | external/gptfdisk/basicmbr.cc:341-403 | success exactly for a legal table with room for the extended entry; then the chain is on the disk, and the main record if and only if no logical partition starts at sector 1; otherwise the disk does not change; afterwards memory holds the same partitions and no extended entry |
| `MbrData.BasicMBRData.ReadMBRData` | external/gptfdisk/basicmbr.cc:138-237 | on every disk on which the walks behind its extended entries end: success, the fields of the main record, and the table that those walks give, each extended entry blanked after its own |
| `MbrData.SaveAndReload` | external/gptfdisk/basicmbr.cc:138-403 | writing any legal table keeps its main record if and only if no logical partition starts at sector 1, and then reading the disk gives back the same primaries and the same logicals in order: start, length, type, status |
| `CacheState.DropOk` | external/dnsmasq/src/cache.c:176-223 | unhashing and freeing any record keeps the invariant of chains, LRU list, new chain and big names |
| `CacheState.FreedTargetsStayOutdated` | external/dnsmasq/src/cache.c:235-244 | once the target of a CNAME is freed, the CNAME is outdated, and no later release revives it |
| `DnsCache.Cache.UnlinkAndFree` | external/dnsmasq/src/cache.c:176-223 | the record goes to the free end of the LRU list with a new serial number and gives back its big name |
| `DnsCache.Cache.ScanForName` | external/dnsmasq/src/cache.c:501-568 | one pass over a chain that it frees from, reorders and rotates leaves the specified state |
| `DnsCache.Cache.FindByName` | external/dnsmasq/src/cache.c:495-577 | each call, first or later, gives the specified answer; a later call changes nothing |
| `DnsCache.Cache.LookupAll` | external/dnsmasq/src/cache.c:495-577 | calling until no answer gives the live wanted records of the chain, local ones first, each once, and nothing else |
| `CacheLookup.AnswersAreLiveWanted` | external/dnsmasq/src/cache.c:495-577 | a record of the chain is an answer if and only if it is wanted and not dead when the scan meets it; no record twice |
| `CacheLookup.LookupMissesNothing` | external/dnsmasq/src/cache.c:495-577 | a record anywhere in the cache is found if and only if it has a wanted type, an equal name and is not dead when the scan meets it: expired, or a CNAME whose target is gone or was freed by this very scan |
| `CacheLookup.HitsLeadLru` | external/dnsmasq/src/cache.c:513-527 | after the scan the pooled hits lead the LRU list in order, and nothing behind them is wanted |
| `CacheLookup.NameAnswers` | external/dnsmasq/src/cache.c:495-577 | the first call gives the first answer, each later one the next, and none comes after the last |
| `CacheSweep.EarlyStopLosesNothing` | external/dnsmasq/src/cache.c:299-331 | on a chain in class order the sweep that stops early drops exactly the victims and finds exactly what is wanted, like a filter over the whole chain |
| `CacheSweep.RulesStopSafely` | external/dnsmasq/src/cache.c:299-331 | the rules of cache_scan_free and cache_find_by_addr stop only where nothing can follow |
| `CacheSweep.NothingBehind` | external/dnsmasq/src/cache.c:579-642 | after a search by address no live reverse record that answers is missing from the hits |
| `CacheSweep.NameSweepExact` | external/dnsmasq/src/cache.c:274-298 | of every kind of record: it is dropped if and only if the sweep has not stopped before it and it is expired, an outdated CNAME by then, or to be replaced; the pooled ones among them are freed; the sweep stops exactly at a protected record |
| `DnsCache.Cache.SweepChain` | external/dnsmasq/src/cache.c:299-331 | one chain is swept as specified |
| `DnsCache.Cache.ScanFreeName` | external/dnsmasq/src/cache.c:274-298 | the chain of the name is swept, and the result says whether a protected record stopped it |
| `DnsCache.Cache.ScanFreeAll` | external/dnsmasq/src/cache.c:299-331 | every expired or replaced record of the whole table is removed, and every other one stays |
| `DnsCache.Cache.ScanForAddr` | external/dnsmasq/src/cache.c:595-634 | one pass over the leading reverse records of all chains finds all live records with the address, removes the expired ones, and brings the pooled ones to the head of the LRU list |
| `DnsCache.Cache.FindByAddr` | external/dnsmasq/src/cache.c:579-642 | each call, first or later, gives the specified answer; a later call changes nothing |
| `DnsCache.Cache.LookupAddr` | external/dnsmasq/src/cache.c:579-642 | calling until no answer gives exactly the live reverse records of the whole cache with the address and a wanted type, each once |
| `CacheSweep.AddrAnswers` | external/dnsmasq/src/cache.c:590-642 | the links lead from the local records found to the pooled ones at the head of the LRU list and then to none |
| `DnsCache.Cache.FindPlace` | external/dnsmasq/src/cache.c:154-174 | the two loops find the place after the lower classes |
| `DnsCache.Cache.CacheHash` | external/dnsmasq/src/cache.c:154-174 | the record is put at that place of its chain |
| `CacheInsert.HashInOk` | external/dnsmasq/src/cache.c:154-174 | hashing keeps every chain in the order reverse, mortal, immortal and adds that record only |
| `CacheInsert.CommitOk` | external/dnsmasq/src/cache.c:473-493 | settling a new record keeps the invariant |
| `CacheInsert.GrabOk` | external/dnsmasq/src/cache.c:424-462 | taking the free tail for a new record keeps the invariant, big names included |
| `CacheInsert.TargetOk` | external/dnsmasq/src/rfc1035.c:787-848 | giving a new CNAME its target keeps the invariant |
| `CacheRoom.SpillsExact` | external/dnsmasq/src/cache.c:274-298 | sweeping a name frees a record if and only if a pooled one that goes stands before every protected one |
| `CacheRoom.SpillFrees` | external/dnsmasq/src/cache.c:409-414 | throwing out the tail of the LRU list frees a record if and only if the sweep for its name, or its address, frees one |
| `CacheRoom.SpillFailsExactly` | external/dnsmasq/src/cache.c:274-298 | throwing out the tail of a full cache fails if and only if a protected record of its name stands in its chain before every record that goes |
| `CacheAlias.AliasInFront` | external/dnsmasq/src/cache.c:154-174 | the alias of a lease goes in front of all records of its chain but the reverse ones |
| `CacheAlias.AliasBlocks` | external/dnsmasq/src/cache.c:1099-1118 | adding a live alias of the name of the tail to any cache full of live records leaves no room, unless a reverse record of the chain goes |
| `CacheAlias.RecordByRoom` | external/dnsmasq/src/cache.c:359-470 | a forward insert of a short name that replaces nothing gives a record if and only if there is room |
| `CacheStarved.AliasStarves` | external/dnsmasq/src/cache.c:359-470 | a run from the start of the cache: an address is cached, a lease and an alias of its name are added, and the next address is refused |
| `CacheRoom.SpillAfterExpiry` | external/dnsmasq/src/cache.c:409-419 | sweeping the table for expired records first, if there are none, does not change whether the tail can be thrown out |
| `CacheRoom.HuntEnds` | external/dnsmasq/src/cache.c:386-421 | within three rounds the loop finds a free record if and only if there is room, and it throws out a live one if and only if none is free and none has expired |
| `CacheRoom.InsertionAdds` | external/dnsmasq/src/cache.c:359-470 | an insert adds to the new chain one record with exactly the name, address, flags and time given, or leaves the new chain as it is |
| `CacheRoom.InsertionThins` | external/dnsmasq/src/cache.c:359-470 | no record leaves the chains by an insert unless it has expired, is outdated by then, is replaced, or has the name or address of a tail that had to be thrown out; the others are unchanged |
| `CacheClears.InsertionClears` | external/dnsmasq/src/cache.c:359-470 | by flags, folded names and addresses alone: a record that was taken finds nothing in the chains that contradicts it |
| `CacheClears.InsertionSpares` | external/dnsmasq/src/cache.c:274-470 | by flags, folded names and addresses alone: what leaves a chain had expired, was an alias of a freed record, or was a pooled one in the way of the new record or of the tail of a full list |
| `CacheClears.NameRefused` | external/dnsmasq/src/cache.c:274-298 | a name is refused only for a live record of a hosts file or a lease that contradicts it, and always for one that is no alias |
| `CacheLocal.LocalAddedOk` | external/dnsmasq/src/cache.c:1087-1097 | hashing a local record keeps the invariant and adds that record, in the chain of its name, and nothing else |
| `CacheLocal.ReloadedOk` | external/dnsmasq/src/cache.c:876-897 | the clearing loop of a reload keeps the invariant: only DHCP records stay hashed, and no buffer is lost |
| `CacheLocal.AllFreeAfter` | external/dnsmasq/src/cache.c:876-897 | after it every record on the LRU list is free, where it was |
| `CacheInsert.RehashedOk` | external/dnsmasq/src/cache.c:103-135 | a table with the same records, each in the chain of its name, keeps the invariant |
| `DnsCache.Cache.StartInsert` | external/dnsmasq/src/cache.c:344-357 | what an aborted insert left goes back to the pool |
| `DnsCache.Cache.SetTarget` | external/dnsmasq/src/rfc1035.c:787-848 | the CNAME is not outdated and nothing else changes |
| `DnsCache.Cache.EndInsert` | external/dnsmasq/src/cache.c:473-493 | if the transaction failed nothing happens; otherwise a new record is given back if and only if it is an outdated CNAME when its turn comes, and all others are hashed and lead the LRU list, the last one first |
| `DnsCache.Cache.FreeTail` | external/dnsmasq/src/cache.c:386-421 | within three rounds the tail is free if and only if there is room: a free record, an expired one that may still be looked for, or a tail that can be thrown out; what left the chains had expired, was outdated or went with the tail |
| `DnsCache.Cache.Insert` | external/dnsmasq/src/cache.c:359-470 | a record is taken if and only if the name is not protected, there is room and, for a long name, a buffer; otherwise insert_error is set; after an error nothing changes; once it is taken, no chain holds a forward record of the folded name that is an alias, or any at all if the new one is an alias, or one of the same address family, nor a pooled reverse record of the same address |
| `DnsCache.Cache.AddLocal` | external/dnsmasq/src/cache.c:1087-1097 | the record of a hosts file or a lease is hashed and the invariant holds |
| `DnsCache.Cache.UnhashDhcp` | external/dnsmasq/src/cache.c:1018-1033 | exactly the DHCP records are taken out of the chains, the others stay in order, and the invariant holds |
| `DnsCache.Cache.ClearForReload` | external/dnsmasq/src/cache.c:876-897 | the chains keep exactly the DHCP records, hosts records are gone, pooled ones are free, their buffers too, and the invariant holds |
| `DnsCache.Cache.TableSize` | external/dnsmasq/src/cache.c:103-121 | the least power of two from 64 on that is no less than a tenth of the size |
| `DnsCache.Cache.constructor` | external/dnsmasq/src/cache.c:73-97 | the invariant holds of the new cache |
| `DnsCache.Cache.Rehash` | external/dnsmasq/src/cache.c:103-135 | no record is lost or gained, every one is in the chain of its name, and the order of classes holds |
| `LeaseScripts.ScriptRunKeeps` | external/dnsmasq/src/lease.c:540-627 | after every single event a listener that replays them sees each name on one lease at most |
| `LeaseScripts.ScriptRunShrinks` | external/dnsmasq/src/lease.c:540-627 | every event leaves exactly one event less to come |
| `LeaseScripts.NothingLeft` | external/dnsmasq/src/lease.c:540-627 | when do_script_run finds nothing, the view of the listener equals the lease table |
| `LeaseScripts.RenamedKeeps` | external/dnsmasq/src/lease.c:425-516 | giving a lease a name that another one has takes it away there, and the listener is still on the way to the truth |
| `LeaseScripts.AllocatedKeeps` | external/dnsmasq/src/lease.c:337-358 | a new lease keeps the invariant |
| `LeaseScripts.PrunedKeeps` | external/dnsmasq/src/lease.c:275-300 | ended leases move to the old list and keep the invariant |
| `LeaseScripts.DoKeeps` | external/dnsmasq/src/lease.c:275-627 | each operation keeps the promise to the listener and the number of leases left plus those held |
| `LeaseScripts.RunKeeps` | external/dnsmasq/src/lease.c:275-627 | over every run of operations no prefix of the events shows one name on two leases |
| `LeaseScripts.RunTellsRightly` | external/dnsmasq/src/lease.c:275-627 | over every run: an add event is for a lease that the listener does not know, added and not deleted since, an old event for one that it knows; a lease is marked new if and only if it is not known |
| `LeaseScripts.DoNews` | external/dnsmasq/src/lease.c:275-627 | the same for each operation |
| `LeaseScripts.ScriptRunIsDue` | external/dnsmasq/src/lease.c:540-627 | an event is given exactly if a lease has ended, lost a name or has news; ended leases come first, then lost names, then the first lease with news, each with its own id and name |
| `LeaseScripts.RenamedMeans` | external/dnsmasq/src/lease.c:425-516 | what renaming does to every lease: it gets the name unless a lease with a protected name has it and the client asks, whoever had it loses it, and nothing else changes |
| `LeaseScripts.StartIsGood` | external/dnsmasq/src/lease.c:527-533 | after rerun_scripts a listener that knows nothing can start |
| `LeaseScripts.LeaseDb.constructor` | external/dnsmasq/src/lease.c:30-43 | without leases the promise to the listener holds |
| `LeaseNames.RunHonestExactly` | external/dnsmasq/src/lease.c:275-627 | over every run: all events for old host names carry the name the listener then believes in if and only if none is announced of which the last lost name was taken before the listener was told it |
| `LeaseNames.QuietIsTimely` | external/dnsmasq/src/lease.c:425-445 | which is so for every lease without pending news |
| `LeaseNames.RenamedTwice` | external/dnsmasq/src/lease.c:425-516 | a lease renamed twice before the script runs leaves a name that the listener never heard |
| `LeaseNames.RunIsHonest` | external/dnsmasq/src/lease.c:275-627 | over every run that takes only names the listener knows, every event for an old host name carries the name the listener believes in |
| `LeaseScripts.LeaseDb.LeaseAllocate` | external/dnsmasq/src/lease.c:337-358 | success exactly while leases are left, and then one more lease |
| `LeaseScripts.LeaseDb.LeasePrune` | external/dnsmasq/src/lease.c:275-300 | exactly the ended leases, and the one asked for, are moved |
| `LeaseScripts.LeaseDb.LeaseSetHostname` | external/dnsmasq/src/lease.c:447-516 | in place: refused exactly if a protected name is taken by a client, and then nothing changes; otherwise the lease has the name and no other lease has it |
| `LeaseScripts.LeaseDb.RerunScripts` | external/dnsmasq/src/lease.c:527-533 | every lease is marked changed |
| `LeaseScripts.LeaseDb.DoScriptRun` | external/dnsmasq/src/lease.c:540-627 | one event, the one that is due, or none exactly if no lease has ended, lost a name or has news, and then listener and table agree; all events from the start on add only unknown leases and change only known ones |
| `LeaseScripts.LeaseDb.TellAll` | external/dnsmasq/src/lease.c:540-627 | calling until there is nothing to do gives as many events as there was work and ends with the listener knowing the table |
| `HexText.HexRead` | external/dnsmasq/src/lease.c:199-216 | a number printed in hexadecimal is read as the same number |
| `HexText.ParseHex` | external/dnsmasq/src/util.c:398-439 | parse_hex over its own buffer gives what the parse of the untouched text gives: octets, length, wildcard mask and type |
| `LeaseText.OctetsLength` | external/dnsmasq/src/lease.c:77-84 | the printed text has three characters for an octet less one, so 255 octets fit the field of 764 |
| `LeaseText.PrintHw` | external/dnsmasq/src/lease.c:199-206 | the loop prints the type if it is needed and the octets with colons between them |
| `LeaseText.PrintClid` | external/dnsmasq/src/lease.c:211-219 | the loop prints the octets with colons, or a star |
| `LeaseText.OctetsRead` | external/dnsmasq/src/util.c:398-439 | octets that were printed are read again, wherever in the text they are |
| `LeaseText.HwRead` | external/dnsmasq/src/lease.c:85-89 | a printed hardware address parses to its octets and its type |
| `LeaseText.HwRoundTrip` | external/dnsmasq/src/lease.c:85-89 | writing and reading gives the same octets, and the same type if and only if it is not type 0 with octets |
| `LeaseText.ClidRoundTrip` | external/dnsmasq/src/lease.c:93-95 | writing and reading a client id of at most 255 octets gives the same octets; none stays none |
| `AddressPool.MatchNetid` | external/dnsmasq/src/dhcp.c:505-528 | true exactly if every plain tag is in the pool and every negated one is not, and no tag at all is enough only if so allowed |
| `AddressPool.ConfigFindByAddress` | external/dnsmasq/src/dhcp.c:492-501 | found exactly if a configuration reserves the address |
| `AddressPool.CheckPings` | external/dnsmasq/src/dhcp.c:592-596 | no ping is needed exactly if there was one for the address lately or there were six lately; otherwise there is an old result to replace or room for a new one |
| `AddressPool.HashHw` | external/dnsmasq/src/dhcp.c:543-545 | the hash is the sum of the bytes times 0x10101 in 32 bits |
| `AddressPool.NextInRing` | external/dnsmasq/src/dhcp.c:625-630 | the search is back at its start after as many steps as the range has addresses, and not before |
| `AddressPool.RingCovers` | external/dnsmasq/src/dhcp.c:625-630 | and meets every address of the range |
| `AddressPool.RingIs` | external/dnsmasq/src/dhcp.c:554-558 | the t-th address tried is t places on from the place that the hash of the client and the epoch give modulo the size of the range, going round |
| `AddressPool.AwkwardMeans` | external/dnsmasq/src/dhcp.c:571-575 | the addresses never given are those of class C that end in 0 or 255 |
| `AddressPool.Allocator.TryAddress` | external/dnsmasq/src/dhcp.c:561-623 | an address is taken exactly if it is no router, unleased, unreserved, not awkward, and needs no ping or does not answer it |
| `AddressPool.Allocator.SearchContext` | external/dnsmasq/src/dhcp.c:554-631 | the search of one range ends with the first good address from the place that depends on the client; failure means that no address of it will do; the epoch has counted those that answered |
| `AddressPool.Allocator.AddressAllocate` | external/dnsmasq/src/dhcp.c:530-633 | an address found is good and in an eligible range, all ranges before it and all tagged ones are exhausted; failure means that every free address of every eligible range answered the ping |
| `AddressPool.Allocator.SearchPass` | external/dnsmasq/src/dhcp.c:547-631 | the first eligible range that has a good address gives it |
| `ForwardTable.FreeKeeps` | external/dnsmasq/src/forward.c:954-968 | freeing a record keeps all socket counts equal to the records that use them, the families, the ids and the size |
| `ForwardTable.UseKeeps` | external/dnsmasq/src/forward.c:918-952 | giving a record a socket keeps all counts right and within 16 bits |
| `ForwardTable.SentKeeps` | external/dnsmasq/src/forward.c:358-363 | marking a record as sent keeps the invariant |
| `ForwardTable.MakingFails` | external/dnsmasq/src/forward.c:377-379 | a query that could be sent to nobody leaves no trace in the counts |
| `ForwardTable.TargetsOnce` | external/dnsmasq/src/forward.c:286-372 | going once round the servers reaches no server twice |
| `ForwardTable.AllTargets` | external/dnsmasq/src/forward.c:286-372 | and misses none |
| `ForwardTable.TargetsInOrder` | external/dnsmasq/src/forward.c:286-372 | in the order of the list |
| `ForwardTable.FreeIdExists` | external/dnsmasq/src/forward.c:1097-1099 | with fewer records than ids there is always an id that get_id may draw |
| `ForwardTable.AllServersCounted` | external/dnsmasq/src/forward.c:555-570 | over every run of replies to a query sent to n servers: it is finished by the first good reply, or else by the n-th, and not before; that reply alone is passed on, to the client that asked |
| `ForwardRuns.AnswersNeverExceedQueries` | external/dnsmasq/src/forward.c:203-571 | over every run of queries, replies, timeouts and lost servers, the answers sent to a client, errors included, and the queries it waits for are no more than the queries it asked, repetitions not counted |
| `Forwarding.LookupFrec` | external/dnsmasq/src/forward.c:1038-1048 | the first active record with the id and the question; an unknown question matches any |
| `Forwarding.LookupBySender` | external/dnsmasq/src/forward.c:1050-1064 | the first active record of this client, id and question, or there is none |
| `Forwarding.DrawId` | external/dnsmasq/src/forward.c:1097-1099 | drawing ends with an id that no active record answers to |
| `Forwarding.Forwarder.constructor` | external/dnsmasq/src/forward.c:899-916 | the empty table meets the invariant |
| `Forwarding.Forwarder.FreeFrec` | external/dnsmasq/src/forward.c:954-968 | both counts go down and the record is free |
| `Forwarding.Forwarder.AllocateRfd` | external/dnsmasq/src/forward.c:918-952 | a fresh socket if one can be opened, otherwise one of the family with room to share, noted for the next search; none exactly if there is neither |
| `Forwarding.Forwarder.GetNewFrec` | external/dnsmasq/src/forward.c:974-1035 | a free record, or none exactly if the table is full of young ones; no record younger than the timeout is given up, nor one younger than twice the timeout while the table may grow |
| `Forwarding.Forwarder.GiveUpOld` | external/dnsmasq/src/forward.c:982-995 | records of four times the timeout are freed; if there is no free one, the oldest is found |
| `Forwarding.Forwarder.GetId` | external/dnsmasq/src/forward.c:1086-1102 | afterwards no active record has the id and a known question; a signed query keeps its id and frees only what is in its way |
| `Forwarding.Forwarder.TakeSocket` | external/dnsmasq/src/forward.c:299-320 | the record has a socket of the family afterwards, its own or a new one, unless there is none to be had |
| `Forwarding.Forwarder.TrySend` | external/dnsmasq/src/forward.c:286-365 | one server: sent exactly if it suits and can be reached, unless there is no socket |
| `Forwarding.Forwarder.SendAround` | external/dnsmasq/src/forward.c:281-372 | the query goes to the first server that can be reached, or to all of them, each once, in order from the start |
| `Forwarding.Forwarder.Prepare` | external/dnsmasq/src/forward.c:243-274 | when all servers are asked, and from which one on |
| `Forwarding.Forwarder.NewQuery` | external/dnsmasq/src/forward.c:234-380 | a new query waits in one record with its client, id and question and the right number of replies to come; it fails exactly if there are no servers, it is local, the table is full of young records, none of the servers for it can be sent to, or hardly a socket is left; no other young record is touched |
| `Forwarding.Forwarder.Retry` | external/dnsmasq/src/forward.c:219-233 | a waiting query goes to all servers of its kind and domain from the next one on, for the same client; it is freed if nobody can be reached |
| `Forwarding.Forwarder.ForwardQuery` | external/dnsmasq/src/forward.c:203-389 | told by kind, domain and literal flag of the servers: a query goes to the first server of its kind and domain that can be sent to, from the favourite on, or to all of them, each once and in order; it fails only without servers, if local, with a table full of young records, if none of these can be sent to, or for want of sockets, and at once in the first three cases; a repeated query goes to those behind the last one asked; the invariant holds and no bystander is touched |
| `Forwarding.Forwarder.FindServer` | external/dnsmasq/src/forward.c:493-497 | a server at the address, or there is none |
| `Forwarding.Forwarder.NoteServer` | external/dnsmasq/src/forward.c:534-553 | the favourite is the server that gave a good reply, and none after an error |
| `Forwarding.Forwarder.ReplyQuery` | external/dnsmasq/src/forward.c:471-571 | a reply of a known server changes one record at most: it asks the others exactly after an unsigned error to a query that went to one server, without an order of servers; or it frees the record and answers the recorded client with its own id; or it waits for one reply less |
| `Forwarding.Forwarder.Conclude` | external/dnsmasq/src/forward.c:555-570 | the record is freed and answered on the last or a good reply, and on no other |
| `Forwarding.Forwarder.ServerGone` | external/dnsmasq/src/forward.c:1067-1080 | exactly the records sent to the server are freed |
| `Tftp.BlocksMakeFile` | external/dnsmasq/src/tftp.c:551-564 | the blocks put together are the file, and exactly the last one is short |
| `Tftp.FewBlocksUnambiguous` | external/dnsmasq/src/tftp.c:559-560 | up to 65536 blocks no two blocks that differ have the same number |
| `Tftp.ClientGetsFile` | external/dnsmasq/src/tftp.c:551-564 | whatever packets of the file arrive, in any order and any number of times, the client has a prefix of the file, and all of it when done, if blocks of equal number are equal |
| `Tftp.AmbiguousMisleads` | external/dnsmasq/src/tftp.c:559-560 | and if they are not, packets of the file alone can give the client a wrong prefix |
| `Tftp.GetBlock` | external/dnsmasq/src/tftp.c:517-566 | block k carries the bytes from (k-1) times the block size on; done exactly after the last block |
| `Tftp.HeardOk` | external/dnsmasq/src/tftp.c:390-424 | the block moves on by one, its offset with it, if and only if the present block is acknowledged; an error makes the transfer due at once and too late to go on; anything else changes nothing |
| `Tftp.Turn` | external/dnsmasq/src/tftp.c:385-463 | when a transfer sends, and what; when it ends; and that it is otherwise as it was |
| `Tftp.Server.OpenFile` | external/dnsmasq/src/tftp.c:328-356 | a file of the same identity is shared and counted, otherwise a new one is opened |
| `Tftp.Server.Request` | external/dnsmasq/src/tftp.c:265-285 | the transfer starts at block 1, or 0 with options, with its first timeout; the first packet acknowledges the options or is block 1 with the beginning of the file; it fails exactly if block 1 cannot be read, and every count is right also then |
| `Tftp.Server.Release` | external/dnsmasq/src/tftp.c:469-478 | the count goes down and the file is closed exactly at zero |
| `Tftp.Server.CheckListeners` | external/dnsmasq/src/tftp.c:371-467 | every transfer has its turn, exactly those that end are taken off the list, in order, and every count is the number of transfers that hold the file |
| `Tftp.Server.Serve` | external/dnsmasq/src/tftp.c:381-466 | the same for one transfer while the list is being walked |

## Left out

- gpt.cc: conversion from and to MBR and BSD tables, `SetGPTSize`, GUIDs, names, attributes, `MoveSecondHeaderToEnd` and the interactive checks; the number of table entries is fixed and the geometry is standard.
- gpt.cc: write errors; a save stops after or inside a write instead. Byte order is little-endian on disk, the host's own is not a matter of the model.
- GptSafety.InterruptedSaveLoads: leaves the torn main table to `TornMainTable`, because it is not old or new there in general.
- GptSafety.RunLoadsOldOrNew: only for runs in which no save starts while the backup is relied upon; `StaleTableReturns` shows that it fails otherwise.
- GptStore.GptData.LoadPartitionTable: for headers whose table has the size of the one in memory; `SetGPTSize`, which the code calls otherwise, is not modelled. What the temporary space of the reader holds is given.
- GptStore.GptData.CheckTable: for entries of at most 128 bytes, beyond which the code leaves its array; table sizes are not cut to 32 bits.
- GptStore.GptData.ForceLoadGPTData: for disks of less than 2 to the 63 bytes on which every header with a good checksum has the standard number and size of entries, since `SetGPTSize` is not modelled.
- GptStore.GptData.SaveGPTData: without the moves of the second header to the end of the disk; the sector of the protective MBR is given.
- basicmbr.cc: CHS fields, `MakeItLegal`, `MaximizeLogicals`, `UpdateCanBeLogical`, the menu, and failing writes. The library sort is a function with the properties of a sort.
- MbrData.BasicMBRData.WriteMBRData: for legal tables whose entries have 32-bit fields, no extended kind and no start at sector 0, and with slots to move entries into; the length of the extended partition is cut to 32 bits as in the code.
- MbrData.BasicMBRData.ReadMBRData: for disks whose chains end (`MbrReader.EndsUnlessCycle`); an extended entry starts above sector 0.
- MbrData.BasicMBRData.ReadLogicalParts: an extended partition at sector 0 is left out; there the code takes its empty slots for records it has read and leaves its array, which C++ does not define.
- MbrData.SaveAndReload: the disk is read only if its main record is still there; `MbrChain.PrimariesLost` says what is read otherwise.
- gptcurses.cc: display and menus.
- cache.c: reading hosts files, the checks before `cache_add_dhcp_entry` adds a record, logging; records of hosts files and leases are given with their number; hashes are an abstract function of folded names, allocation may fail by a parameter, and serial numbers do not come round.
- lease.c: name qualification with a domain; names are folded and have no dots, and leases have identities. Saving besides the two fields of `LeaseText`, timers and the DNS side of leases.
- helper.c: a script is told of a lost name by the event for the old host name; that the lease then has no name is how the listener reads it.
- HexText.ParseHex: values beyond a `long` and the truncation of types to an `int`.
- LeaseText.HwRoundTrip: the fields are given to the parser as they were printed; the splitting of a line into fields is not modelled.
- dhcp.c: contexts and their ranges are given, with an end not before the start; `narrow_context`, `address_available`. An address answers pings or does not for the whole of one search, and there is memory to note the result of one.
- forward.c: packets, logging, TCP, `search_servers` and `process_reply`; question checksums, reachability, random numbers and time are given. The list of servers is fixed and `ServerGone` drops the references to one.
- Forwarding.Forwarder.GetNewFrec: the form that waits instead of freeing, and failing allocation.
- Forwarding.Forwarder.GetId: the numbers drawn must contain one that is free; `ForwardTable.FreeIdExists` says that there is one. For an unknown question a signed query frees the first record in its way only, so that uniqueness is claimed for known questions.
- tftp.c: netascii, option parsing, file names and permissions, error packets, ports; the block size is positive and numbers in the server are unbounded.
- Everything else in the tree (network, netlink, D-Bus, helper processes, DHCP packets, the other external projects): foreign calls, constants or user interface.
