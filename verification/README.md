# NTux-OS storage and memory core: a Dafny model

This project models the parts of the NTux-OS kernel that keep state consistent, and proves what they promise:
the FAT32 driver, the physical page bitmap and the multi-page mapping on top of it, the first-fit kernel heap,
the in-memory file system tree, and the bounded random numbers.

`dafny verify dfyconfig.toml` checks everything.

## How the model is built

**FAT32 driver** (`kernel/src/drivers/fs/FAT/fat32.c`). The device is a sequence of 512-byte sectors written one
at a time (`Disks.Disk`); any transfer may fail, failures are counted, and every completed write is recorded in a
history. What a call promises when no transfer failed during it is stated in terms of that count. `Fat`, `File`
and `Dir` are classes whose methods follow the C functions branch by branch; loops and long functions are split
into several methods. Their contracts speak of three abstractions:

- the *view* of a volume: the one-sector write-back buffer laid over the device, so that the cache becomes
  invisible;
- the *tables*: the low 28 bits of every entry, for the active copy and its mirror. What allocation and removal do
  is first proved about plain tables (`Chains`), then carried over to the driver, and closed over whole runs by a
  state machine (`Allocator`);
- for files the bytes along a chain (`FileLayout`, `FileBytes`), and for directories the 32-byte slots along a chain
  and the listing they parse to (`LongName`, `ShortName`, `DirSlots`, `DirLayout`).

`CrashSafety` takes the history of one growth or removal and looks at every prefix of it. `OpenFiles` puts any number of
open files and directories beside each other on one volume: every call says that it changed nothing off its own chain
and where it left the volume's buffer, and from that all others stay usable with the contents they had. `FileLaws` has
what several calls do together.

What the code computes byte by byte is not only a function that the code is proved equal to. Lemmas beside the function
say in numbers what it yields: where each entry, byte, slot and character lies, which bits and ranges mean what, and
`ReadmeEntry` has one directory entry in full.

**Memory** (`kernel/src/mem`). `Pages.Pmm` is the bitmap as a set of free pages, `VirtualPages.Vmm` the page table
with allocation and rollback, `KernelHeap.Heap` the free list threaded through block headers.

**File tree and random numbers**. `RamFs` models `kernel/src/fs/ramfs.c` as nodes on the heap and a snapshot of
them as a map, on which path resolution is defined; `Random` models `kernel/src/kernel_lib/random.c` over an
arbitrary stream of 64-bit words.

The on-disk layout is that of the Microsoft FAT32 File System Specification 1.03, sections "FAT Data Structure",
"FAT Directory Structure" and "FAT Long Directory Entries".

## Assumptions

The driver does not check these; they are preconditions here.

- `Geometry.Ok`: sectors per cluster is a power of two and the data region starts at a multiple of it (line 511
  tests the absolute sector number); the two tables, FSInfo and the data region do not overlap, exclude sector 0 and
  fit into 32 bits; usable clusters are the code's own `[2, clust_cnt)`. `Volume.SmallVolume` gives one such volume.
- `last_used` starts inside that range; the code takes it from FSInfo unchecked (line 1107) and then keeps it there.
- Mirroring means what the code does when `fat_sect[1]` is not 0.
- At most one open file or directory on a chain, and when a file is opened its own sectors are not in the volume's
  buffer; `OpenFiles` shows that they never get there.
- Heap addresses do not reach 2^64. The memory map has page-aligned, disjoint usable entries, one of which has
  room for the bitmap.

## Where the code does something a reader would not expect

The model follows the code in each case.

- `stretch_chain` returns the class of the last entry instead of the error when `get_fat` fails during the scan (line 426):
  because a read failed, or because the entry is undecodable, which takes no failed transfer. For a new chain that
  class is unset before the first entry was read; it is the parameter `junk` here. Without a failed transfer the call
  reports success without having allocated anything if and only if `junk` is 0 and the first entry scanned does not
  decode (`StretchChain`, `CreateChain`; `FirstBadExample` is such a table). When an existing chain is stretched, or
  the class is not 0, success is reported truthfully. The ghost result `ok` says what happened.
- `fat_file_write` declares a second `err` inside its loop (lines 1359 and 1382) and so reports success after a
  failed seek; the result `ok` of `Write`, which the C function does not have, tells the two apart. Without a failed
  transfer the true outcome is success if and only if the end of the write is below 2^32 and the chain can be made long
  enough to hold the byte behind it.
  `Reaches` says the latter of the state before the call, and on a table whose entries all decode it is a matter of
  counting free entries: `RoomIff`. `WriteFalsely` is a volume on which the report is false.
- `fat_file_read` seeks after each chunk, so reading to the end of a file that fills its clusters exactly makes the
  chain grow by a cluster. Where it cannot, such a read delivers its bytes and then reports FULL or BROKEN; `Read` has the exact
  condition, `Seek` and `DirAdd` have theirs.
- After a write that was cut short, the count of bytes includes the last chunk, but position and size stop
  before it: `Write`.
- `fat_file_sync` before the first seek that succeeded writes to sector 0xffffffff, the mark for "none": `FlushFile`. This
  is the only transfer for which the driver names a sector that the device does not have; `Disk.Read` and
  `Disk.Write` require one that it has.
- `dir_next_stretch` links a new cluster before clearing it. After a power cut in between, a directory that was full to
  its last slot also lists what the cluster held while it was free: `DirGrowthCut`.
- A year is stored in six bits, where the format has seven: from 2044 on it reads back as 64 years earlier,
  `TimestampRoundTrip`.
- `sfn_char` keeps no digit: in a short name all of them are underscores. `ShortRoundTrip` says which names come back.
- `parse_lfn_name` compares a plain `char` with 0xff (lines 695 to 697). Where `char` is signed, as it is on x86-64,
  the comparison never holds. Both cases are covered; the round trip says exactly which names survive in each.
- `pmm_init` advances the base of the entry that hosts the bitmap without aligning it again, so a page with bitmap
  bytes can be handed out: `BitmapExposedIff` says when.
- The bitmap has up to eight bits more than there are pages. Freeing such a page raises the count of free pages although
  no page became free: `FreePage`, `Miscount`.
- Page 0 is an address that also means "none": if it is ever free, `pmm_alloc_page` takes it and reports failure.
- `heap_max` never moves, so the first `kmalloc` past it takes every free page: `Expand`. It ignores whether that was
  enough, so `kmalloc` never returns null for a positive size: `Kmalloc`. The memory that `RamFs` says can run out
  (`room`) is thus that of an allocator that reports it; on this kernel those cases of its theorems do not arise.
- `align8` wraps to 0 above 2^64 - 8: `Align8Enough`.
- `random_range_u64` over the full 64-bit range always returns the minimum: `RangeUnbiasedIff`.
- `ramfs` cuts names to 31 characters when storing them but compares whole components, so a longer component can be
  created but never found again: `Mkdir`, `TooLong`. A node for a full directory is allocated before the directory is
  looked at, and never given back: `AddChild`.
- The base address the kernel hands out virtual pages from lies behind the 512 entries of its table, so
  `vmm_alloc_user_pages` always returns null: `HeapBaseOutside`. A request that fails does not take back the addresses it
  used up: `AllocUserPages`.

## Model

| member | source | states |
|---|---|---|
| `Volume.PutEntryTable` | kernel/src/drivers/fs/FAT/fat32.c:326-341 | storing an entry is a point update of its own table with the low 28 bits of the value; the reserved four bits of that word and every other word stay |
| `Volume.PutEntryOther` | kernel/src/drivers/fs/FAT/fat32.c:326-341 | a store into one copy of the table leaves the other copy alone |
| `Volume.EntryBytes` | kernel/src/drivers/fs/FAT/fat32.c:294-303 | entry `c` is the low 28 bits of the four bytes from byte `4 * c` of the table on, least significant first |
| `Volume.PutEntryBytes` | kernel/src/drivers/fs/FAT/fat32.c:326-341 | storing it changes those four bytes and no other byte of the volume |
| `Volume.PutBothTables` | kernel/src/drivers/fs/FAT/fat32.c:344-354 | `put_fat` is the same point update on both copies, so equal copies stay equal, and nothing outside the tables changes |
| `Volume.PutMirrorTables` | kernel/src/drivers/fs/FAT/fat32.c:346-351 | half way through `put_fat` only the mirror has changed: what a power cut between the two stores can see |
| `Volume.PutInfoTables` | kernel/src/drivers/fs/FAT/fat32.c:278-281 | storing the counters makes FSInfo carry exactly them, and changes no other byte of that sector, neither table and no other sector |
| `Volume.InfoBytes` | kernel/src/drivers/fs/FAT/fat32.c:278-281 | in FSInfo the free count stands in bytes 488 to 491 and the last cluster used in bytes 492 to 495, least significant first, and all other bytes stay |
| `Bytes.WordBytes` | kernel/src/drivers/fs/FAT/fat32.c:278-281 | byte `i` of a stored word is its bits from `8 * i` on |
| `Bytes.ReadBytes` | kernel/src/drivers/fs/FAT/fat32.c:294-303 | byte `i` of a word read is its bits from `8 * i` on |
| `Bytes.HalfBytes` | kernel/src/drivers/fs/FAT/fat32.c:1507-1517 | the same for 16-bit words, stored and read |
| `Volume.ClustSectRoundTrip` | kernel/src/drivers/fs/FAT/fat32.c:223-232 | cluster to sector and back is the identity on every sector of a cluster, and with an aligned data region the sector number modulo the cluster size is the place inside the cluster |
| `Volume.ClustersApart` | kernel/src/drivers/fs/FAT/fat32.c:229-232 | no sector belongs to two clusters |
| `Volume.ClustInData` | kernel/src/drivers/fs/FAT/fat32.c:229-232 | every sector of a usable cluster lies in the data region |
| `Chains.ChainDistinct` | kernel/src/drivers/fs/FAT/fat32.c:357-385 | a chain that ends is acyclic |
| `Chains.ChainUnique` | kernel/src/drivers/fs/FAT/fat32.c:357-385 | a head determines its chain |
| `Chains.RemoveChainExact` | kernel/src/drivers/fs/FAT/fat32.c:357-385 | on a well-formed chain removal succeeds and frees exactly its clusters, and counts exactly their number |
| `Chains.RemoveOkIff` | kernel/src/drivers/fs/FAT/fat32.c:366-382 | removal succeeds if and only if the head starts a well-formed chain: anything cyclic, cross-linked into freed clusters or undecodable ends in BROKEN |
| `Chains.RemoveOkChain` | kernel/src/drivers/fs/FAT/fat32.c:366-382 | the chain that a successful removal went along |
| `Chains.RemoveCount` | kernel/src/drivers/fs/FAT/fat32.c:373-377 | on any table whatever, the count added is the number of entries that became free |
| `Chains.RemoveBroken` | kernel/src/drivers/fs/FAT/fat32.c:364-382 | what a removal that fails leaves: everything it passed is free and counted and nothing else, up to an entry that it had freed itself or that neither ends nor continues a chain |
| `Chains.RemoveStep` | kernel/src/drivers/fs/FAT/fat32.c:364-382 | each round either stops or strictly raises the number of free entries, which is why removal ends on any table |
| `Chains.ScanExact` | kernel/src/drivers/fs/FAT/fat32.c:412-431 | the cyclic scan returns the first free cluster ahead of it before `last_used` comes round, and FULL only after passing every one of them |
| `Chains.ScanDecodable` | kernel/src/drivers/fs/FAT/fat32.c:424-426 | on a table whose entries all decode the scan never breaks |
| `Chains.ChooseExact` | kernel/src/drivers/fs/FAT/fat32.c:398-431 | on a decodable table FULL is reported if and only if no cluster other than `last_used` is free and, when stretching, neither is the cluster after `prev`; what is returned was free and in range, and is the one described below |
| `Chains.ChooseIff` | kernel/src/drivers/fs/FAT/fat32.c:398-431 | on any table, and said of the entries alone: when stretching, a free entry after `prev` (2 at the end of the table) is taken and an undecodable one ends the call; otherwise, and for a new chain, the cluster is the first free one behind `last_used` going round, every entry passed being decodable and in use, FULL means that all are, and BROKEN that the first that is not so is undecodable |
| `Chains.ChooseFree` | kernel/src/drivers/fs/FAT/fat32.c:398-431 | on any table at all, what is returned was free and in range |
| `Chains.StretchExtends` | kernel/src/drivers/fs/FAT/fat32.c:433-443 | growth appends exactly the new cluster to the chain that ended at `prev` |
| `Chains.StretchKeeps` | kernel/src/drivers/fs/FAT/fat32.c:433-443 | growth leaves every chain that does not hold `prev` as it was, and takes its cluster from none of them |
| `Chains.StretchCount` | kernel/src/drivers/fs/FAT/fat32.c:433-446 | growth uses up exactly one free entry |
| `Chains.CanGrowIff` | kernel/src/drivers/fs/FAT/fat32.c:388-450 | how often a chain can be stretched in a row: on a decodable table `k` times if and only if `k` is 0, or a cluster is found and at least `k` entries are free |
| `Chains.FirstBadExample` | kernel/src/drivers/fs/FAT/fat32.c:415-426 | a table with a free cluster on which the scan for a new chain breaks at its first entry |
| `Growth.RoomIff` | kernel/src/drivers/fs/FAT/fat32.c:388-450 | for a chain on a volume with a decodable table: it can be made so many clusters long if and only if it is, or a cluster is found and as many entries are free as are lacking |
| `Growth.GotThere` | kernel/src/drivers/fs/FAT/fat32.c:1443-1462 | a chain that became long enough by taking chosen clusters one by one could do so on the table it started from |
| `Growth.FellShort` | kernel/src/drivers/fs/FAT/fat32.c:1443-1462 | a chain that is too short when no cluster is left to choose could not have been made long enough on the table it started from |
| `FatVolume.Fat.constructor` | kernel/src/drivers/fs/FAT/fat32.c:1107-1125 | a mounted volume shows the device itself; the buffer for sector 0 was never loaded and means nothing |
| `FatVolume.Fat.SyncBuf` | kernel/src/drivers/fs/FAT/fat32.c:235-245 | changes nothing logically, even when it fails; afterwards device and logical view coincide; it fails only if a transfer failed |
| `FatVolume.Fat.UpdateBuf` | kernel/src/drivers/fs/FAT/fat32.c:248-263 | changes nothing logically, holds the sector asked for, and writes at most the dirty buffer |
| `FatVolume.Fat.SyncFs` | kernel/src/drivers/fs/FAT/fat32.c:266-291 | device and logical view coincide afterwards, and differ from the old view only by the counters in FSInfo |
| `FatVolume.Fat.ClustClear` | kernel/src/drivers/fs/FAT/fat32.c:459-479 | exactly the sectors of the cluster become zero, and they are on the device; every image written on the way is the volume with the first so many of them zero |
| `FatVolume.ClassRanges` | kernel/src/drivers/fs/FAT/fat32.c:303-318 | the classes in numbers: 0 free, 0x0ffffff7 bad, 0x0ffffff8 and above last, 2 to below the cluster count used, all others refused |
| `FatVolume.Fat.GetFat` | kernel/src/drivers/fs/FAT/fat32.c:294-323 | the entry of the active table with its class, BROKEN exactly for an undecodable one, an I/O error only if a transfer failed; the logical disk unchanged |
| `FatVolume.Fat.PutFat2` | kernel/src/drivers/fs/FAT/fat32.c:326-341 | the logical disk with one entry of the given copy replaced; at most the old view reaches the device |
| `FatVolume.Fat.PutFat` | kernel/src/drivers/fs/FAT/fat32.c:344-354 | the logical disk with the entry replaced in the mirror and then in the active table; the device sees only the old view and the half-way one |
| `FatVolume.Fat.RemoveChain` | kernel/src/drivers/fs/FAT/fat32.c:357-385 | refines the removal on tables, whatever the table: unless a transfer fails, success, BROKEN and the count agree with it; mirrors stay equal, FSInfo carries the count, no data sector changes; every image it writes has a number of rounds done in the active table and the same or one more in the mirror |
| `FatVolume.Fat.FindFree` | kernel/src/drivers/fs/FAT/fat32.c:388-431 | when a cluster is found it is the free one after `prev`, or else the first free one behind `last_used`; when no transfer fails: it succeeds if and only if there is such a cluster, reports FULL if and only if all are in use, and returns 0 without having found one if and only if a new chain is asked for, the variable that was never set holds 0, and the first entry scanned is undecodable |
| `FatVolume.Fat.ScanFree` | kernel/src/drivers/fs/FAT/fat32.c:412-431 | the scan finds what the cyclic scan on tables finds, and FULL if and only if that is full, when no transfer fails; then its failure looks like success if and only if the class it was entered with is 0 and its first entry does not decode |
| `FatVolume.Fat.StretchChain` | kernel/src/drivers/fs/FAT/fat32.c:388-450 | takes the free cluster after `prev`, or else the first free one behind `last_used`, grows both copies by it, keeps `last_used` in range, counts one down and puts the count into FSInfo on the device; without a failed transfer it succeeds if and only if there is a cluster to take, reports FULL if and only if the table is full, reports a false success in exactly the case above, and a failure changes nothing; every image it ever puts on the device is one of six stages |
| `FatVolume.GrowthTables` | kernel/src/drivers/fs/FAT/fat32.c:433-443 | in both copies growth is the growth of the table, and nothing else on the volume moves |
| `CrashSafety.GrowthStageTables` | kernel/src/drivers/fs/FAT/fat32.c:344-354 | each image written on the way has, in each copy, the old table, the table with only the new end mark, or the grown table |
| `CrashSafety.GrowthTableSafe` | kernel/src/drivers/fs/FAT/fat32.c:433-443 | each of those three is safe: every old chain is unchanged or, if it ended at `prev`, longer by the marked cluster; no new link to a free cluster; at most one orphan |
| `CrashSafety.GrowthIsCrashSafe` | kernel/src/drivers/fs/FAT/fat32.c:235-450 | cut the power before, between or after any of the writes of one `stretch_chain`, successful or not: both copies on the device are safe |
| `Chains.FreedUpToChain` | kernel/src/drivers/fs/FAT/fat32.c:364-382 | so many rounds of removal along a chain free exactly a prefix of it |
| `CrashSafety.FreedPrefixSafe` | kernel/src/drivers/fs/FAT/fat32.c:364-382 | then what is left of the chain is a chain, and so is every chain apart from it |
| `CrashSafety.RemovalIsCrashSafe` | kernel/src/drivers/fs/FAT/fat32.c:235-385 | cut the power anywhere during one `remove_chain`: in each copy on the device exactly a prefix of the chain is free, in the mirror at most one cluster more, and every other chain is intact |
| `CrashSafety.DirGrowthCut` | kernel/src/drivers/fs/FAT/fat32.c:544-557 | cut the power between linking a directory's new cluster and the end of clearing it: the directory has its old slots and then those of the formerly free cluster, less the sectors cleared; it lists what it listed if it had an end marker or one sector was cleared, and otherwise also what the free cluster held |
| `Allocator.NextSafe` | kernel/src/drivers/fs/FAT/fat32.c:357-456 | each creation, growth and removal keeps live chains acyclic, terminated, in range and pairwise disjoint, and changes no chain but its own |
| `Allocator.NextConserves` | kernel/src/drivers/fs/FAT/fat32.c:357-456 | free count minus number of free entries is the same modulo 2^32 after each operation, FULL included |
| `Allocator.RunSafe` | kernel/src/drivers/fs/FAT/fat32.c:357-456 | over every run: the chains are sound, chains no operation names are untouched, the drift of the free count is what it was |
| `Allocator.ZeroedCount` | kernel/src/drivers/fs/FAT/fat32.c:373-377 | freeing a chain raises the number of free entries by its length |
| `Allocator.CreateChain` | kernel/src/drivers/fs/FAT/fat32.c:453-456 | on the driver's state, `create_chain` is the step of the state machine unless a transfer fails, and succeeds if and only if there is a free cluster to find; without a failed transfer the report is false if and only if the unset class holds 0 and the first entry scanned does not decode |
| `Allocator.GrowChain` | kernel/src/drivers/fs/FAT/fat32.c:388-450 | on the driver's state, `stretch_chain` at a tail is the step of the state machine unless a transfer fails; here success is reported truthfully |
| `Allocator.DeleteChain` | kernel/src/drivers/fs/FAT/fat32.c:357-385 | on the driver's state, `remove_chain` of a live head is the step of the state machine, is never BROKEN, and fails only if a transfer failed |
| `FileLayout.FileSectInjective` | kernel/src/drivers/fs/FAT/fat32.c:1464 | different sectors of a file lie at different places on the device |
| `FileLayout.DivClust` | kernel/src/drivers/fs/FAT/fat32.c:1429-1431 | dividing by the cluster size finds the cluster that holds the sector of the byte |
| `FileLayout.BytePlace` | kernel/src/drivers/fs/FAT/fat32.c:229-232 | where byte `i` of a file is on the device, in bytes: in the cluster at index `i / clust_size` of its chain, clusters lying one behind the other from cluster 2 at the start of the data region on |
| `FileLayout.PatchSector` | kernel/src/drivers/fs/FAT/fat32.c:1375 | overwriting one sector of a chain changes exactly the bytes of that sector in the file |
| `FileLayout.StretchIsExtension` | kernel/src/drivers/fs/FAT/fat32.c:1454-1459 | one growth makes the new chain a continuation of the old one by formerly free clusters |
| `FileLayout.ExtensionKeepsOthers` | kernel/src/drivers/fs/FAT/fat32.c:1454-1459 | a chain apart from the old chain is untouched by the growth and apart from the new one |
| `FileBytes.WroteChunk` | kernel/src/drivers/fs/FAT/fat32.c:1373-1380 | a chunk copied into the sector where the written range ends extends the written range by exactly that chunk |
| `FileBytes.WroteMoved` | kernel/src/drivers/fs/FAT/fat32.c:1382 | seeking on afterwards, with growth, does not disturb what was written |
| `FileBytes.WroteReadsBack` | kernel/src/drivers/fs/FAT/fat32.c:1321-1391 | reading the range that was written gives the bytes written |
| `FileBytes.WroteKeepsRest` | kernel/src/drivers/fs/FAT/fat32.c:1357-1391 | every byte of the file outside the range is what it was |
| `FileBytes.WroteKeepsOthers` | kernel/src/drivers/fs/FAT/fat32.c:1357-1391 | every other file keeps its chain and all its bytes |
| `FileBytes.StoredMoved` | kernel/src/drivers/fs/FAT/fat32.c:1403-1482 | seeking changes no byte of the file |
| `FatFile.File.constructor` | kernel/src/drivers/fs/FAT/fat32.c:1287-1304 | an opened file is attached to its chain at position 0 with nothing loaded; truncation sets the size to 0 and marks it modified when there was something to cut |
| `FatFile.File.Follow` | kernel/src/drivers/fs/FAT/fat32.c:1443-1462 | leads to the cluster so many places further along the chain, which is the old one or longer by no more than needed; without a failed transfer it succeeds if and only if the chain could be made that long at the start |
| `FatFile.File.SwitchBuf` | kernel/src/drivers/fs/FAT/fat32.c:1467-1479 | a dirty buffer reaches its old sector before the buffer is loaded anew, so the file's logical content does not change |
| `FatFile.File.Walk` | kernel/src/drivers/fs/FAT/fat32.c:1433-1465 | forward or backward, the cluster is the one at index `off / clust_size` and the sector the one that holds byte `off`; without a failed transfer it gets there if and only if the chain could be made long enough at the start |
| `FatFile.File.Seek` | kernel/src/drivers/fs/FAT/fat32.c:1403-1482 | the target is the offset counted from the start, from the position or from the size; EOF exactly when it is out of range, and then nothing changes; in range and without a failed transfer it is reached if and only if the chain could be made long enough for it when the call began; the old chain is a prefix of the new one, nothing changes off the chain but tables and FSInfo, the volume's buffer goes nowhere else, and size and marks stay |
| `FatFile.File.PutChunk` | kernel/src/drivers/fs/FAT/fat32.c:1373-1376 | the logical volume with the chunk laid into the sector at the position |
| `FatFile.File.Write` | kernel/src/drivers/fs/FAT/fat32.c:1357-1391 | exactly bytes `[o, o + len)` changed, the size is the larger of the old size and the end, nothing off the chain changed; without a failed transfer it truly succeeds if and only if the end is below 2^32 and the chain could be made long enough for it when the call began; otherwise exactly the bytes it counts are in place, but position and size stop where the last chunk begins; success is reported whatever happened (lines 1359 and 1382); the file is marked for the next sync all the same, and a refused write changes nothing |
| `FatFile.File.ReadChunk` | kernel/src/drivers/fs/FAT/fat32.c:1334-1347 | delivers the stored bytes at the position and moves past them |
| `FatFile.File.Read` | kernel/src/drivers/fs/FAT/fat32.c:1321-1350 | delivers exactly the stored bytes from the position to the nearer of the length asked for and the end of the file, across sectors, clusters and growth, and nothing else in the target changes; without a failed transfer it reports success if and only if the chain could be made long enough for the position behind them when the call began, and otherwise the bytes it counts are delivered all the same; size and the mark that the file was written stay whatever happens, and a refused read changes nothing |
| `FullVolume.WriteFalsely` | kernel/src/drivers/fs/FAT/fat32.c:1357-1391 | a volume with one usable cluster, on which a write of 512 bytes without any failed transfer reports success and 512 bytes, and leaves position and size at 0 |
| `FileLaws.Append` | kernel/src/drivers/fs/FAT/fat32.c:1357-1482 | seeking to the end and truly writing keeps every byte below the old size, puts the new ones behind, and makes the size the old size and their number |
| `FileLaws.Moves` | kernel/src/drivers/fs/FAT/fat32.c:1321-1482 | any sequence of seeks and reads keeps the size, the mark for the next sync, and the slots of a directory open beside the file |
| `FileLaws.WriteMovesSync` | kernel/src/drivers/fs/FAT/fat32.c:1321-1527 | after a true write, any seeks and reads and a sync that succeed, the entry of the file in its directory says the size that the write left |
| `FatFile.File.FlushFile` | kernel/src/drivers/fs/FAT/fat32.c:1494-1495 | puts the file's buffer on the device without any logical change; it fails only if the transfer failed, or no sector was ever loaded, when it addresses sector 0xffffffff |
| `FatFile.File.StampEntry` | kernel/src/drivers/fs/FAT/fat32.c:1497-1519 | only the directory entry's own fields change, and only in the volume's buffer |
| `FatFile.File.Sync` | kernel/src/drivers/fs/FAT/fat32.c:1488-1527 | afterwards the device itself holds the file's bytes and the tables, and the directory entry its size and times; every other sector but FSInfo is what it was; it fails only if a transfer failed or no sector was ever loaded, and then the marks for the next sync stay |
| `FatFile.Stamped` | kernel/src/drivers/fs/FAT/fat32.c:1503-1518 | which bytes of a directory sector the stamp may change, that the name and cluster of the entry stay, and what size, times and the archive bit then read as |
| `FileBytes.LocalUndisturbed` | kernel/src/drivers/fs/FAT/fat32.c:357-479 | work on one chain leaves every sector of a chain apart from it, and its links, as they were, and never brings the volume's buffer there |
| `OpenFiles.FileOnIsValid` | kernel/src/drivers/fs/FAT/fat32.c:1403-1482 | the state of an open file depends on the rest of the volume only through its own chain and through where the volume's buffer is |
| `OpenFiles.FileStays` | kernel/src/drivers/fs/FAT/fat32.c:1403-1482 | a file whose chain is not disturbed stays in a sound state with the same bytes, dirty buffer included |
| `OpenFiles.DirStays` | kernel/src/drivers/fs/FAT/fat32.c:501-529 | a directory whose chain is not disturbed keeps its slots |
| `OpenFiles.OthersStay` | kernel/src/drivers/fs/FAT/fat32.c:1321-1482 | for any number of open files and directories on chains of their own: work on one chain keeps all others in a sound state, with the same bytes and slots, and apart from it |
| `OpenFiles.WriteBeside` | kernel/src/drivers/fs/FAT/fat32.c:1357-1391 | `fat_file_write` among other open files and directories: all others keep their contents and can be used on, also when the volume is full |
| `OpenFiles.ReadBeside` | kernel/src/drivers/fs/FAT/fat32.c:1321-1350 | the same for `fat_file_read`, which may let the chain grow |
| `OpenFiles.SeekBeside` | kernel/src/drivers/fs/FAT/fat32.c:1403-1482 | the same for `fat_file_seek` |
| `OpenFiles.SyncBeside` | kernel/src/drivers/fs/FAT/fat32.c:1488-1527 | the same for `fat_file_sync`, for all that do not have the directory sector that lists the file |
| `OpenFiles.SyncListed` | kernel/src/drivers/fs/FAT/fat32.c:1488-1527 | the same with the directory that lists the file among the open ones: its listing keeps every entry, and the file's own keeps its name and all but size, times and archive bit of its slot |
| `OpenFiles.StampedInfo` | kernel/src/drivers/fs/FAT/fat32.c:1497-1519 | after a sync the entry of a file that was written reads with its size and the time, of any other file as before |
| `OpenFiles.AddBeside` | kernel/src/drivers/fs/FAT/fat32.c:875-987 | the same for `dir_add` |
| `OpenFiles.ReadDirBeside` | kernel/src/drivers/fs/FAT/fat32.c:1617-1669 | the same for `fat_dir_read` |
| `OpenFiles.RemoveBeside` | kernel/src/drivers/fs/FAT/fat32.c:357-385 | the same for `remove_chain` of a chain that none of them is on |
| `OpenFiles.RemoveEntriesBeside` | kernel/src/drivers/fs/FAT/fat32.c:844-872 | the same for `remove_entries` |
| `OpenFiles.CreateBeside` | kernel/src/drivers/fs/FAT/fat32.c:453-456 | the same for `create_chain`, whose new chain is apart from all of theirs |
| `LongName.CharsApart` | kernel/src/drivers/fs/FAT/fat32.c:144 | the two bytes of a character never overlap those of another, nor the seq, attr, type, crc and cluster fields |
| `LongName.FragRoundTrip` | kernel/src/drivers/fs/FAT/fat32.c:649-705 | a fragment reads back as itself if and only if it has no zero byte and, where `char` is unsigned, no 0xff byte; full fragments of 13 have no terminator |
| `LongName.ReadFragExact` | kernel/src/drivers/fs/FAT/fat32.c:693-705 | what is read from any slot at all: its characters up to the first zero, and none if one of them is 0xff and `char` is unsigned |
| `LongName.ReadPrefix` | kernel/src/drivers/fs/FAT/fat32.c:672-719 | the first fragments, stored last, read back as the first characters of the name |
| `LongName.NameRoundTrip` | kernel/src/drivers/fs/FAT/fat32.c:649-719 | a name of any length, multiples of 13 included, reads back as itself if and only if it has no zero byte and, where `char` is unsigned, no 0xff byte |
| `LongName.CharPlace` | kernel/src/drivers/fs/FAT/fat32.c:938-961 | character `k` of the name stands in slot `n - 1 - k / 13` of the run with a zero behind it, and that slot carries number `k / 13 + 1` |
| `LongName.SeqNo` | kernel/src/drivers/fs/FAT/fat32.c:938-953 | no sequence byte looks like a free slot or the end marker, and it says the fragment's number and which one is written first |
| `ShortName.PutSfnName` | kernel/src/drivers/fs/FAT/fat32.c:594-629 | the in-place loops give eight base and three extension characters, none of which can make the slot look free or final |
| `ShortName.GetCrc` | kernel/src/drivers/fs/FAT/fat32.c:181-187 | the loop computes the checksum that the next rows describe |
| `ShortName.CrcRotates` | kernel/src/drivers/fs/FAT/fat32.c:181-187 | one round moves bit `k + 1` to bit `k` and bit 0 to bit 7, and adds the byte modulo 256 |
| `ShortName.CrcRounds` | kernel/src/drivers/fs/FAT/fat32.c:181-187 | the checksum of nothing is 0, and each byte is one round more |
| `ShortName.CrcExample` | kernel/src/drivers/fs/FAT/fat32.c:181-187 | the checksum of "README  TXT" is 0x73 |
| `ShortName.SfnCharExact` | kernel/src/drivers/fs/FAT/fat32.c:594-610 | which characters stay, which become capitals and which become underscores, in numbers; no small letter is left |
| `ShortName.SfnExact` | kernel/src/drivers/fs/FAT/fat32.c:613-629 | the short name of any name: eight characters from before its first dot, three from behind it, and spaces where there are none |
| `ShortName.UpToPadExact` | kernel/src/drivers/fs/FAT/fat32.c:632-645 | parsing takes the bytes up to the first space |
| `ShortName.ShortRoundTrip` | kernel/src/drivers/fs/FAT/fat32.c:594-645 | made into a short name and parsed again a name is the same if and only if it has the 8.3 form in the characters that stay |
| `SlotWriter.PutNameFrag` | kernel/src/drivers/fs/FAT/fat32.c:649-669 | every character position holds its character, the terminator or padding, and nothing outside the slot changes |
| `SlotWriter.PutFragSlot` | kernel/src/drivers/fs/FAT/fat32.c:947-956 | the slot holds fragment, sequence byte, checksum and fixed fields together, none overwriting another |
| `SlotWriter.SfnClusterRoundTrip` | kernel/src/drivers/fs/FAT/fat32.c:584-587 | the first cluster split into two halves is read back whole; a new entry has size 0 |
| `SlotWriter.SfnBytes` | kernel/src/drivers/fs/FAT/fat32.c:966-985 | every byte of the short slot: name, attributes, times, dates, the halves of the cluster, size 0 |
| `ReadmeEntry.ReadmeSlots` | kernel/src/drivers/fs/FAT/fat32.c:875-987 | the 64 bytes that adding README.TXT writes |
| `DirSlots.VacantIsBoundary` | kernel/src/drivers/fs/FAT/fat32.c:896-906 | a free slot before the end marker is never inside an entry of a sound directory |
| `DirSlots.SkipVacant` | kernel/src/drivers/fs/FAT/fat32.c:1636-1637 | free slots contribute nothing to the listing |
| `DirSlots.ExtendList` | kernel/src/drivers/fs/FAT/fat32.c:544-557 | a cleared cluster at the end of a directory lists nothing |
| `DirSlots.SearchEndLonger` | kernel/src/drivers/fs/FAT/fat32.c:888-914 | where the search for usable slots ends does not depend on how many empty slots there already are behind the end |
| `DirSlots.SearchEndExact` | kernel/src/drivers/fs/FAT/fat32.c:888-914 | the run found is the first of so many slots in a row that are vacant or behind the end marker |
| `DirSlots.StopsAtEnd` | kernel/src/drivers/fs/FAT/fat32.c:1633-1634 | behind an end marker nothing is listed, whatever is there |
| `DirSlots.ListsOn` | kernel/src/drivers/fs/FAT/fat32.c:1622-1669 | without an end marker the slots behind the last one are listed as well |
| `DirSlots.NewEntrySound` | kernel/src/drivers/fs/FAT/fat32.c:940-984 | the slots written for a readable name parse as one sound entry of that name |
| `DirSlots.AddExact` | kernel/src/drivers/fs/FAT/fat32.c:875-987 | the listing afterwards is the old listing with exactly the new entry inserted at one place, whether slots are reused, the end marker moves or the directory grows |
| `DirSlots.RemoveExact` | kernel/src/drivers/fs/FAT/fat32.c:844-872 | the listing afterwards is the old listing less exactly the entry whose slots were freed |
| `DirSlots.RestampExact` | kernel/src/drivers/fs/FAT/fat32.c:1497-1519 | rewriting a short slot behind its name bytes changes that entry's slot in the listing and nothing else |
| `DirSlots.ReadNameBack` | kernel/src/drivers/fs/FAT/fat32.c:688-716 | reading slot by slot, with later slots in front, is reading the name |
| `DirLayout.SlotsPut` | kernel/src/drivers/fs/FAT/fat32.c:857-863 | rewriting 32 bytes of a sector of the chain rewrites one slot of the directory and no other |
| `DirLayout.SlotBytes` | kernel/src/drivers/fs/FAT/fat32.c:560-563 | slot `k` is bytes `[32 * k, 32 * k + 32)` of the directory's chain |
| `DirLayout.SlotsGrow` | kernel/src/drivers/fs/FAT/fat32.c:544-557 | a cleared, appended cluster adds end markers behind the old slots and leaves those alone |
| `DirLayout.ClearedSlots` | kernel/src/drivers/fs/FAT/fat32.c:459-479 | with a cluster appended and the first so many of its sectors cleared, the directory has its old slots, then empty ones, then what the cluster held |
| `DirLayout.GrowAndClear` | kernel/src/drivers/fs/FAT/fat32.c:544-557 | growing and clearing touches nothing off the directory's chain and keeps the mirrors equal |
| `DirLayout.SectStep` | kernel/src/drivers/fs/FAT/fat32.c:508-512 | testing the absolute sector number against the cluster mask finds the end of a cluster, given an aligned data region |
| `FatDir.Dir.constructor` | kernel/src/drivers/fs/FAT/fat32.c:490-498 | a directory entered stands on its first slot; cluster 0 stands for the root |
| `FatDir.Dir.AtClust` | kernel/src/drivers/fs/FAT/fat32.c:482-487 | stands on the first slot of that cluster of the chain |
| `FatDir.Dir.Rewind` | kernel/src/drivers/fs/FAT/fat32.c:1686-1692 | stands on the first slot again |
| `FatDir.Dir.Next` | kernel/src/drivers/fs/FAT/fat32.c:501-529 | goes on by exactly one slot across sectors and clusters; EOF exactly behind the last slot, an I/O error only if a transfer failed; the logical disk is unchanged |
| `FatDir.Dir.NextStretch` | kernel/src/drivers/fs/FAT/fat32.c:544-557 | goes on by one slot; at the end of the chain into a new cluster full of end markers, changing nothing off the chain; without a failed transfer it succeeds if and only if the directory could be made long enough for the next slot |
| `FatDir.Dir.Search` | kernel/src/drivers/fs/FAT/fat32.c:888-914 | finds the first run of usable slots and where it starts, never reaching into an entry, growing the directory where it must; without a failed transfer it succeeds if and only if the directory could be made long enough for the slot behind that run |
| `FatDir.Dir.WriteFrags` | kernel/src/drivers/fs/FAT/fat32.c:940-961 | the run holds the whole name, last fragment first, across sectors and clusters; no other slot changes |
| `FatDir.Dir.DirAdd` | kernel/src/drivers/fs/FAT/fat32.c:875-987 | on any slots the entry stands in the first run of usable ones, with a new end marker behind it where the old one was used up, and no other slot changes; on a sound directory success inserts exactly the new entry into the listing, leaves the cursor on its short slot and changes nothing off the chain; a bad length is refused without change; otherwise and without a failed transfer it succeeds if and only if, when the call began, the directory could be made long enough for the slot behind that run, counting on empty ones behind its end; when it fails only empty slots were added |
| `FatDir.Dir.RemoveEntries` | kernel/src/drivers/fs/FAT/fat32.c:844-872 | frees the slots from the recorded place up to the cursor and no other; when they are one entry of a sound directory, the listing loses exactly that entry |
| `FatDir.Dir.ReadChars` | kernel/src/drivers/fs/FAT/fat32.c:693-705 | the characters of one slot go to their place, up to a zero; 0xff is refused only where `char` is unsigned |
| `FatDir.Dir.ParseLfn` | kernel/src/drivers/fs/FAT/fat32.c:672-719 | on any slots it reads the name, finds it broken or runs off the directory exactly as the parse on slots says; from a sound entry it assembles the whole name out of reversed fragments and stops at the short slot |
| `FatDir.Dir.DirRead` | kernel/src/drivers/fs/FAT/fat32.c:1617-1669 | on any directory it returns EOF, BROKEN or an entry exactly as the slots from the cursor on say, with times, size and attributes of the short slot it stops at; on a sound directory never BROKEN, the entry is the head of the listing with the rest behind the cursor, and EOF means that nothing is left |
| `DirSlots.LongEntryReads` | kernel/src/drivers/fs/FAT/fat32.c:672-719 | a sound long entry is never found broken, whatever stands around it |
| `DirSlots.ReadAtIff` | kernel/src/drivers/fs/FAT/fat32.c:672-719 | on any slots a long entry is delivered if and only if its first slot has the mark and announces at most 20, all announced slots are pieces of one checksum, the name has at most 255 characters, and the slot behind is in use and has that checksum; when the directory ends inside it, and that it is broken otherwise |
| `DirSlots.FirstUsedExact` | kernel/src/drivers/fs/FAT/fat32.c:1633-1637 | only slots marked 0xe5 are passed over |
| `DirSlots.SoundReads` | kernel/src/drivers/fs/FAT/fat32.c:1622-1669 | on a sound directory the entry delivered is the head of the listing |
| `FatDir.Dir.ReadAll` | kernel/src/drivers/fs/FAT/fat32.c:1614-1692 | rewinding and then reading and advancing in turn up to EOF enumerates exactly the listing, in order |
| `Timestamps.TimestampRoundTrip` | kernel/src/drivers/fs/FAT/fat32.c:190-208 | a time stored in an entry is the time read back if and only if the year is from 1980 to 2043, the seconds are even and every other field fits its bits |
| `Timestamps.WordFields` | kernel/src/drivers/fs/FAT/fat32.c:201-208 | which bits of the two words hold which field |
| `Timestamps.HighBitIgnored` | kernel/src/drivers/fs/FAT/fat32.c:190-198 | bit 15 of a date is not looked at when it is read |
| `Timestamps.NewInfo` | kernel/src/drivers/fs/FAT/fat32.c:966-980 | a new entry reads back with its attributes, both times and size 0 if and only if the time fits |
| `Random.Pow2Test` | kernel/src/kernel_lib/random.c:74 | the test picks out exactly the powers of two |
| `Random.AndMask` | kernel/src/kernel_lib/random.c:75 | masking with a power of two less one is the remainder |
| `Random.ReducedIsMod` | kernel/src/kernel_lib/random.c:74-82 | both branches compute the same residue for every bound |
| `Random.BoundedU64` | kernel/src/kernel_lib/random.c:71-83 | the first acceptable word decides, earlier ones were all rejected, and the result is its residue |
| `Random.ThresholdExact` | kernel/src/kernel_lib/random.c:78 | the accepted words are a whole number of blocks of the bound's size; a power of two rejects nothing |
| `Random.ClassSize` | kernel/src/kernel_lib/random.c:78-82 | in whole blocks each residue occurs equally often |
| `Random.Unbiased` | kernel/src/kernel_lib/random.c:71-83 | for every nonzero bound each result is produced by equally many of the words in use |
| `Random.RangeU32` | kernel/src/kernel_lib/random.c:85-90 | always inside the range, without wrap-around |
| `Random.RangeU64` | kernel/src/kernel_lib/random.c:92-97 | always inside the range, without wrap-around; the full range returns its minimum without drawing |
| `Random.FullRangeBiased` | kernel/src/kernel_lib/random.c:94 | the full 64-bit range: no word leads to 1, every word to 0 |
| `Random.RangeUnbiasedIff` | kernel/src/kernel_lib/random.c:92-97 | the 64-bit range is unbiased if and only if it is not the full one |
| `Pages.BitSet` | kernel/src/mem/pmm.c:9-11 | setting a bit changes that bit and no other |
| `Pages.BitCleared` | kernel/src/mem/pmm.c:13-15 | clearing a bit changes that bit and no other |
| `Pages.TakenBit` | kernel/src/mem/pmm.c:9-19 | the bit of page `p` is bit `p % 8`, from the lowest, of byte `p / 8` |
| `Pages.TakeExact` | kernel/src/mem/pmm.c:9-11 | setting a page's bit takes that page and no other out of the free set |
| `Pages.ReleaseExact` | kernel/src/mem/pmm.c:13-15 | clearing a page's bit puts that page and no other into the free set; a bit behind the last page changes no set |
| `Pages.Pmm.AllocPage` | kernel/src/mem/pmm.c:64-73 | takes the lowest free page; null exactly when none is free or page 0 is, and in that case page 0 is lost; the count stays the number of clear bits, and no other bit changes |
| `Pages.Pmm.FreePage` | kernel/src/mem/pmm.c:75-81 | the page becomes free; a second time changes neither set nor count; a page behind the highest end whose bit the bitmap still has is counted without becoming free, so the count stays right if and only if the page exists or its bit was clear; no other bit changes |
| `Pages.Miscount` | kernel/src/mem/pmm.c:75-81 | a bitmap of four pages, none free, where freeing page 5 makes no page free and is counted |
| `Pages.Pmm.ClearRegion` | kernel/src/mem/pmm.c:51-58 | exactly the pages of the entry become free |
| `Pages.Pmm.ClearAll` | kernel/src/mem/pmm.c:49-59 | exactly the pages of all usable entries become free, and the count is their number |
| `Pages.Pmm.Init` | kernel/src/mem/pmm.c:21-62 | after initialisation the free set is exactly the pages of the usable entries less the room carved for the bitmap, and the count is right; it says exactly when a free page holds bitmap bytes, and the bits behind the last page are all set |
| `Pages.HighestReached` | kernel/src/mem/pmm.c:22-28 | the number of pages is that of the highest end of some entry, no more |
| `Pages.HostExact` | kernel/src/mem/pmm.c:30-42 | the bitmap has a bit for every page and at most eight more; its host is the first usable entry with room, shortened from below by exactly that room |
| `Pages.CarvedDisjoint` | kernel/src/mem/pmm.c:34-42 | carving keeps the entries' pages disjoint and below the highest end |
| `Pages.BitmapExposedIff` | kernel/src/mem/pmm.c:37-39 | a page that holds bitmap bytes is handed out if and only if the bitmap does not end on a page boundary and a page's worth is left |
| `Pages.InitExposes` | kernel/src/mem/pmm.c:34-59 | the same for the whole map: some page that becomes free holds bitmap bytes if and only if the host's bitmap does not end on a page boundary and a page's worth is left |
| `Pages.BitmapExposedExample` | kernel/src/mem/pmm.c:37-39 | a memory map where it is |
| `VirtualPages.PteRoundTrip` | kernel/src/mem/vmm.c:103-109 | the page address comes back out of an entry whatever the flags, and the flags are its low twelve bits |
| `VirtualPages.Vmm.constructor` | kernel/src/mem/vmm.c:38-40 | the first table maps every page to itself, with flags 3 |
| `VirtualPages.Vmm.MapPage` | kernel/src/mem/vmm.c:78-88 | null exactly when there is no table, no entry or a null address; one entry changes otherwise |
| `VirtualPages.Vmm.FreePage` | kernel/src/mem/vmm.c:62-76 | unmaps the page and frees what it was mapped to, or changes nothing at all; mapped to a page that does not exist but has a bit, no page becomes free, and the count of free pages stays right if and only if that bit was clear |
| `VirtualPages.Vmm.Rollback` | kernel/src/mem/vmm.c:121-127 | gives every page back and clears exactly their entries |
| `VirtualPages.Vmm.AllocUserPages` | kernel/src/mem/vmm.c:116-148 | succeeds if and only if the count is positive, there are that many free pages, page 0 not among them, and that many entries behind the heap; null leaves the free set as it was (with page 0 reserved) and at most cleared entries behind, and addresses used up are not taken back: it says how many; success maps consecutive virtual pages with flags 7 to different pages that were free, and no other entry changes |
| `VirtualPages.HeapBaseOutside` | kernel/src/mem/vmm.h:8-9 | with the base the kernel is built with, that condition never holds |
| `KernelHeap.Align8Enough` | kernel/src/mem/kmalloc.c:20-22 | rounding up is at least the size if and only if the size is at most 2^64 - 8 |
| `KernelHeap.Align8Wraps` | kernel/src/mem/kmalloc.c:20-22 | above that it is 0 |
| `KernelHeap.Unlink` | kernel/src/mem/kmalloc.c:55 | redirecting the link before a block takes exactly that block out of the list |
| `KernelHeap.Heap.constructor` | kernel/src/mem/kmalloc.c:38-45 | an empty heap with no block, live or free, from the base to the limit given |
| `KernelHeap.Heap.Expand` | kernel/src/mem/kmalloc.c:24-35 | ends because each round uses up a free page; below the limit nothing is added; past it, since the limit never moves, every page there is, or none but page 0 when that is free |
| `KernelHeap.Heap.FindFit` | kernel/src/mem/kmalloc.c:50-59 | the first block of the list that is large enough, every one before it being too small, and its predecessor |
| `KernelHeap.Heap.Kmalloc` | kernel/src/mem/kmalloc.c:47-67 | the first fitting free block, which leaves the free list in order, or a new one if and only if none fits; a new block starts at the end of the heap, or as many pages behind it as were added, and the heap ends where it does; aligned, at least as large as asked for, not live before; every other block keeps its place and size |
| `KernelHeap.Heap.Kfree` | kernel/src/mem/kmalloc.c:69-75 | the block goes to the front of the free list; sizes, places and all other live blocks stay |
| `KernelHeap.Heap.LiveBlocksApart` | kernel/src/mem/kmalloc.c:47-75 | in every reachable state live blocks are aligned, large enough, off the free list and apart with their headers |
| `RamFs.NextToken` | kernel/src/fs/ramfs.c:11-34 | cuts the first component off in place; what is left is the rest of the path |
| `RamFs.TokensExact` | kernel/src/fs/ramfs.c:11-34 | a path without a slash is its own one component, and the components of two paths joined by a slash are those of the first and then those of the second |
| `RamFs.Cut` | kernel/src/fs/ramfs.c:50-52 | a path of fewer than 256 characters is taken whole, of a longer one the first 255 characters |
| `RamFs.StoredName` | kernel/src/fs/ramfs.c:84-87 | a stored name is the component, or its first 31 characters |
| `RamFs.NoCycle` | kernel/src/fs/ramfs.c:58-100 | going down never leads back to the same node |
| `RamFs.TooLong` | kernel/src/fs/ramfs.c:85-86 | a component that does not fit into a stored name leads nowhere |
| `RamFs.GrownGood` | kernel/src/fs/ramfs.c:79-97 | adding a node keeps levels, parent links, distinctness and the limit of 16 children |
| `RamFs.ResolveGrown` | kernel/src/fs/ramfs.c:79-97 | every path that led somewhere still leads to the same node |
| `RamFs.RamFs.constructor` | kernel/src/fs/ramfs.c:105-116 | a sound tree of one node, or no root, exactly without memory |
| `RamFs.RamFs.LookUp` | kernel/src/fs/ramfs.c:64-77 | the first child of that name, null exactly when there is none |
| `RamFs.RamFs.AddChild` | kernel/src/fs/ramfs.c:79-97 | adds exactly one node below the current one; null if and only if there is no memory or the directory is full, and in the latter case the memory is lost |
| `RamFs.RamFs.FindNode` | kernel/src/fs/ramfs.c:36-103 | without creating, it is path resolution and changes nothing; creating, it only adds, and fails if and only if components are missing and the directory to put the first into is full or memory does not suffice for all |
| `RamFs.RamFs.Mkdir` | kernel/src/fs/ramfs.c:118-134 | only adds, even when it fails; fails if and only if the path leads to a file, or the first missing component would go into a full directory, or memory does not suffice for all missing ones; on success exactly the missing nodes were added, and lookup of the path gives the node returned if and only if every component fits; an existing directory is returned without any change; without memory for all of them it says how many nodes stay behind |
| `RamFs.HaltResolve` | kernel/src/fs/ramfs.c:58-100 | a path resolves if and only if the walk that would create finds nothing missing, and then to the node where that walk ends |
| `RamFs.FoundMeans` | kernel/src/fs/ramfs.c:36-134 | what a walk's outcome means for looking the same path up afterwards |

## Left out

- Name lookup (`find_fat_volume`, `dir_search`, `follow_path`) and what is built on it (`fat_stat`, `fat_unlink`, the lookup half of `fat_file_open`, `fat_dir_open`): it takes `memcmp` to be zero on equality, while the one linked returns true on equality (libc/string.c:50-60), so a lookup theorem would be about a different function.
- `fat_mount`, probing, partition tables and boot sector checks: one-branch checks; the mounted state is a constructor parameter.
- The clock (`fat_get_timestamp`): packed date and time are parameters.
- `fat_dir_create`: a sequence of `create_chain`, `clust_clear` and `dir_add`, which are modelled, and of storing two dot entries at fixed places, which is not.
- `fat_dir_next`, `fat_file_close` and the null checks of the directory functions: one-line wrappers.
- The state after a failed transfer: the driver restores neither position nor buffer, so nothing is said about it, apart from what growth and removal can leave on the device. When transfers fail is up to the device.
- Truncation of the chain: the code never frees clusters when a file is opened with `FAT_TRUNC`.
- FatVolume.Fat.FindFree: when a transfer failed during the scan for a new chain, the value returned is tied to the outcome only if the unset variable was not 0.
- FatFile.File.Write: nothing is claimed about the bytes when a transfer failed.
- FatFile.File.Read: nothing is claimed about position and buffer when a transfer failed.
- FatFile.File.Seek: after a failed transfer, or when a seek over more than one cluster cannot make the chain long enough, nothing is claimed about the position, which the code leaves half way.
- FatDir.Dir.ParseLfn: the name is described for sound entries only; where a fragment other than the last is not full the code leaves old contents of its buffer in the name.
- ShortName.GetCrc: the checksum is compared with its recurrence only; that different names may share one is not excluded by the code either.
- The short slot is put together as a value and copied in one step, where the code assigns field by field; `parse_sfn_name` is a function of the slot.
- Flag words (`flags` of volume and file) are separate booleans; FAT32 sector numbers are unbounded naturals kept below 2^32 by the assumptions.
- `vmm_init` takes four pages for itself before the table is ready; the constructor starts behind that. `vmm_alloc_page`, `vmm_unmap_page`, `vmm_alloc_stack` and `vmm_free_pages_region` are simpler cases of what is modelled.
- Contents of memory pages: zero-filling (`my_memset`) and the bytes of heap blocks are not modelled; block headers are a map from address to header. The bitmap is an array of its own and does not share memory with the pages.
- `expand_heap` calls `vmm_map_page` and ignores its result; the call has no effect on the heap and is left out. The wrap-around of heap addresses is not modelled.
- KernelHeap.Heap.Kfree: only for null and live pointers; for others the code writes a header wherever they point.
- Pages.Pmm.FreePage: only for pages that have a bit in the bitmap; for others the code reads and writes outside it.
- VirtualPages.Vmm.FreePage: only for entries that map a page with a bit in the bitmap, for the same reason.
- `ramfs_create_file`, `ramfs_delete_file`, reading and listing: file creation cuts the path at its first slash (kernel/src/fs/ramfs.c:143), so it does not do what its names suggest; deletion removes one element of the child array, reading and listing change nothing, and they are left out. The child array with its counter is a sequence of at most 16.
- A null path given to `ramfs_mkdir`: returns null at once. Memory is a number of nodes (`room`) that only these functions use up, where the kernel shares it with everything else and `kmalloc` never reports that it ran out.
- The generator's state update (`random_u64`): words are arbitrary, so that the loop ends is not claimed, nor a period.
- `umalloc.c` is `kmalloc.c` with a different rounding mask; the `vector.h` macros do not copy old elements when they grow; the ring buffer and the 16-slot scheduler are single-index updates. None of them is modelled.
- Drivers for ATA, PCI, interrupts, timer, keyboard, mouse, audio, graphics and virtio, program loading, power management, shell, assembly and fonts: hardware access, user interface or tables.
