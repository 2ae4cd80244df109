# A verified model of the FatFs engine, the random number generator and the timer list

The project models the parts of this firmware that carry its hard logic and proves what they promise.

* **FatFs** (`USER/FATFS/ff.c`), bottom-up, in the configuration of `USER/FATFS/ffconf.h`: no tiny
  buffer, long names on the stack, sector sizes from 512 to 4096 bytes.
  * `Volume` is the drive, the geometry of a mounted volume and the one-sector write-back window.
    `FATFS.View()` is the drive as the file system means it: its sectors overlaid with a dirty
    window. Everything above is stated about this view.
  * `FatCodec` reads and writes 12-, 16- and 32-bit FAT entries through the window; `Fat(v, g)` is the
    whole FAT as a sequence of entries.
  * `Chains` is the theory of cluster chains: a `Forest` is a FAT that consists of acyclic, pairwise
    disjoint chains. `Allocator` and `ChainOps` are create_chain and remove_chain against it.
    `FreeCount` is f_getfree.
  * `FileImage`, `FileSectors` and `FileIO` are an open file: f_read, f_write, f_lseek and f_truncate
    on a class `FIL` whose specification is the sequence of the file's bytes and a position.
    `FileRuns` joins them to arbitrary runs of operations: the file is a byte sequence that can grow to a
    capacity, the file's own and the free clusters, which no operation on it changes. `FilePairs` is two
    open files of one volume, and runs of operations on both. `LinkMap` is fast seek.
  * `DirTable`, `Directory`, `DirSearch`, `DirFind` and `DirRegister` are directories: stepping,
    allocating, finding and registering. `DirMatch` says what a search finds, in terms of the bytes of the
    entries alone. `NameHash` shows that the hash of numbered names is a cyclic redundancy check. `DirPairs`
    is an open file beside a directory. `LongName` is the long-name codec, `Glob` the wildcard matcher.
  * `Format`, `Mkfs`, `Mount` and `FreshVolume` are f_mkfs and the mounting half of find_volume.
  * `LockTable` is the table of open-object locks.
* **The linear congruential generator** of `uCOS_III/uC-LIB/lib_math.c` is `Rand`.
* **The software timers** (`USER/Server/TimerServer.c` on the list of `USER/Server/IList.c`) are `IList`,
  `TimerServer` and `TimerRuns`.
* `OnDisk` gives the formats that all of this shares in numbers: FAT entries, clusters, entries, characters.
* `Arith` holds machine arithmetic: 32-bit wrap-around, bit masks, division facts.

Methods are proved against value-level functions and predicates; the theorems are about those.
Where the code falls short of what one would expect, the exact condition is proved, and a lemma shows a
failing input:

* A name of 255 characters can be registered, but its long entries never match, and a name of 254 or 255
  characters is not decoded: `_MAX_LFN` is tested against the index of the terminator too
  (`LongName.ScanFindsName`, `LongName.DecodeName`, `DirRegister.FoundAfterRegister`; the last entries of
  such names are in `LongName.LongestNotFound` and `LongName.LongNotPicked`).
* f_mkfs can report success on a volume that mounting refuses: the alignment of the data area to the
  erase block is not followed by a second test of the volume's size. It happens exactly on FAT12 volumes
  whose aligned data area starts on the drive but less than a cluster before its end
  (`Mkfs.DoneWithoutRoom`, `FreshVolume.FormatAndMount`; `Mkfs.DoneOnSmallDrive` is such a call).
* f_mkfs computes the size of the FAT in 32 bits and does not limit the number of clusters. The FAT has room for
  its entries if and only if that size does not wrap around (`Format.FatLargeEnough`); `Format.FatWraps` is a
  call where it does.
* On FAT16 and FAT32, f_getfree counts the two reserved entries as well. On a FAT12 volume with a corrupt
  entry it reports an error but keeps the count of the free clusters in front of it as the counter, which is
  exact if and only if none behind it is free (`FreeCount.GetFree`, `FreeCount.PartialCount`;
  `FreeCount.ReservedCounted` and `FreeCount.PartialCountWrong` are such volumes).
* The 256th simultaneous reader of an object looks like a writer to the lock table
  (`LockTable.ReaderAdded`, `LockTable.Locks.Open`; `LockTable.TooManyReaders`).
* f_truncate leaves the buffer on a sector that it gives up. Another file, or a directory, may take that
  sector and change it; the file then reads old bytes from its buffer once it has the sector again. Its bytes and
  position are kept in any case, and it stays valid if and only if its buffer is newer than the sector or the
  sector did not change, so always if the sector is its own (`FilePairs.PerformBeside`,
  `FilePairs.ImageStays`; `FilePairs.GivenUpSectorChanges` is such an image with such a change). In a run
  over two files it takes a truncation that gives up the buffered sector (`FilePairs.RunPair`).
* Mounting computes its sums of sectors in 32 bits. Where none wraps around, it accepts exactly the consistent
  volumes (`Mount.WrapsAway`); a volume whose two FATs of 2^31 sectors add up to none is accepted though it has
  no room for them (`Mount.WrapAccepted`).
* Appending an object that is in the list already cuts the list off behind it, or closes a circle if it was
  the last one (`IList.ListHandle.Append`); the timers never do.
* The link map builder takes an end mark for a link when it is one more than the last cluster
  (`LinkMap.CreateLinkMap`; `LinkMap.FalseRunOnSmallVolume`); the usual end marks are larger than any
  cluster number plus one (`LinkMap.UsualMarks`).

## Model

| member | source | states |
|---|---|---|
| Arith.RangeTest | USER/FATFS/ff.c:715 | the unsigned test `a - lo < len` selects exactly the sectors lo to lo + len - 1, below lo included through wrap-around |
| Arith.MaskIsMod | USER/FATFS/ff.c:2613 | masking with a power of two minus one is the remainder, for all numbers |
| Arith.ClearMask | USER/FATFS/ff.c:3115 | masking with the complement of a power of two minus one rounds a 32-bit word down to a multiple |
| Volume.FATFS.constructor | USER/FATFS/ff.c:2308-2328 | a freshly mounted volume has an empty window, so its view is the drive itself, and unknown allocation counters |
| Volume.FATFS.SyncWindow | USER/FATFS/ff.c:700-724 | the overlaid drive is unchanged, and on success nothing is left in the window only; a failed mirror write changes no sector outside the second FAT |
| Volume.FATFS.WriteMirrors | USER/FATFS/ff.c:715-719 | exactly the sector's counterpart in the second FAT copy gets the window's bytes |
| Volume.FATFS.MoveWindow | USER/FATFS/ff.c:729-750 | moving the window changes nothing in the overlaid drive, and the window then shows the wanted sector of it |
| Volume.StoreMirrored | USER/FATFS/ff.c:715-719 | storing a sector keeps every FAT sector equal to its mirror |
| FatCodec.GetFat | USER/FATFS/ff.c:818-862 | the entry's value for all three sub-types, entries that straddle sectors included, without changing the overlaid drive; 1 outside the cluster range |
| FatCodec.GetFat12 | USER/FATFS/ff.c:835-842 | a FAT12 entry from two bytes that may lie in two sectors |
| FatCodec.GetFat16 | USER/FATFS/ff.c:844-848 | an entry of two bytes |
| FatCodec.GetFat32 | USER/FATFS/ff.c:850-854 | the lower 28 bits of an entry of four bytes |
| FatCodec.PutFat | USER/FATFS/ff.c:873-926 | for every 32-bit value: the FAT afterwards is the FAT before with that one entry replaced by the value masked to the entry's width; everything outside the FAT and the equality of the mirrors are kept, and so are the upper four bits of all FAT32 entries when the value has none |
| FatCodec.PutFat12 | USER/FATFS/ff.c:889-901 | exactly the bytes of the entry change, and of the shared byte only the entry's nibble |
| FatCodec.PutFat16 | USER/FATFS/ff.c:903-909 | exactly the entry's two bytes change |
| FatCodec.PutFat32 | USER/FATFS/ff.c:911-918 | exactly the entry's four bytes change; its upper four bits stay, or take on those of a value that has any |
| FatCodec.EntryRewritten | USER/FATFS/ff.c:889-918 | after the bytes of entry c are rewritten, every other entry has its old value and c the new one; the upper nibble of a FAT32 entry becomes the old one or-ed with the value's |
| FatCodec.FatFrame | USER/FATFS/ff.c:818-862 | the FAT depends on the sectors of the first copy only |
| OnDisk.TwelveBits | USER/FATFS/ff.c:835-842 | two FAT12 entries in three bytes, the lower digits first |
| OnDisk.WholeBytes | USER/FATFS/ff.c:844-854 | FAT16 and FAT32 entries as numbers of two and four bytes, the upper four bits of the latter left out |
| OnDisk.FatByteIs | USER/FATFS/ff.c:835-854 | which byte of which sector byte i of the FAT is |
| OnDisk.FatLength | USER/FATFS/ff.c:2316-2322 | the FAT's size in bytes reaches to the last byte of its last entry |
| OnDisk.EndMarks | USER/FATFS/ff.c:1025-1027 | the end marks stored for the three sub-types, eight above the largest number of entries |
| OnDisk.ClusterPlace | USER/FATFS/ff.c:800-809 | cluster 2 is the first of the data area, and the clusters follow each other |
| Chains.StretchForest | USER/FATFS/ff.c:1025-1034 | appending a formerly free cluster to one chain keeps the FAT a forest and touches no other chain |
| Chains.NewChainForest | USER/FATFS/ff.c:1025-1034 | a new one-cluster chain keeps the FAT a forest |
| Chains.CutForest | USER/FATFS/ff.c:3495-3501 | ending a chain early splits it into two chains of a forest |
| Chains.FreeForest | USER/FATFS/ff.c:953-975 | freeing a chain leaves a forest of the others |
| Chains.UnlinkedChain | USER/FATFS/ff.c:953-975 | following the links of a chain and zeroing them frees exactly its members |
| Chains.UnlinkedOnlyFrees | USER/FATFS/ff.c:953-975 | on every FAT, cyclic and cross-linked ones included, entries are only ever freed |
| Chains.ChainUnique | USER/FATFS/ff.c:2614-2627 | a first cluster determines its chain |
| Chains.CountFreeUpdate | USER/FATFS/ff.c:1029-1034 | the free count moves by one exactly when an entry changes between free and used |
| Allocator.FindFree | USER/FATFS/ff.c:1011-1023 | the clusters looked at are the first ones in the circular order, none of them twice, up to the first free or corrupt one, which decides the result; 0 only after all were looked at |
| Allocator.SearchDetermined | USER/FATFS/ff.c:1011-1023 | 0 exactly if no entry is free or corrupt, 1 exactly if a corrupt entry precedes every free one in the order of the search, r exactly if r is the first free cluster and no corrupt one precedes it |
| Allocator.LookedOnce | USER/FATFS/ff.c:1011-1023 | no cluster is looked at twice |
| Allocator.CreateChain | USER/FATFS/ff.c:990-1040 | follows the chain, or links exactly one formerly free cluster behind it: no cluster between the start of the search and it is free or corrupt, and the search starts at the chain's last cluster, or for a new chain at the one allocated last; nothing else in the FAT changes, an exact free counter stays exact and known, and its change is flagged |
| Allocator.SearchNearest | USER/FATFS/ff.c:999-1023 | the cluster taken is the nearest free one behind the start of the search in circular order, without a corrupt one before it; 1 only if a corrupt one comes first, 0 only if there is neither |
| Allocator.NextIfFree | USER/FATFS/ff.c:1008-1017 | a chain grows by the next cluster whenever that is free |
| Allocator.LinkCluster | USER/FATFS/ff.c:1025-1034 | the FAT afterwards is the stretched FAT; a known free counter goes down by one and is flagged for FSINFO; the last allocated cluster follows |
| Allocator.RemoveChain | USER/FATFS/ff.c:937-979 | ends on every FAT and zeroes exactly the entries the links lead through; reports a corrupt link; the exact free counter stays exact |
| Allocator.FreeCluster | USER/FATFS/ff.c:958-963 | one entry becomes free; a known free counter goes up by one and is flagged for FSINFO |
| ChainOps.CreateKeepsForest | USER/FATFS/ff.c:990-1040 | whatever create_chain returns on a forest, the result is a forest that differs by one followed, appended or new cluster |
| ChainOps.Create | USER/FATFS/ff.c:990-1040 | create_chain, from any cluster in use or none, turns a forest into a forest |
| ChainOps.Remove | USER/FATFS/ff.c:937-979 | remove_chain on a chain frees exactly its members; the other chains stay a forest |
| ChainOps.FullIffNoneFree | USER/FATFS/ff.c:999-1023 | without corrupt entries, create_chain for a new chain or behind a chain's end returns 0 exactly when no entry is free, which is when the count is 0 |
| FreeCount.GetFree | USER/FATFS/ff.c:3404-3460 | a known counter is returned; otherwise the scan's count equals the number of free clusters, on FAT16 and FAT32 if and only if the reserved entries are not 0, on FAT12 with a corrupt entry if and only if nothing behind the first one is free |
| FreeCount.ScanAligned | USER/FATFS/ff.c:3437-3453 | streaming the FAT sector by sector counts the same zero entries as looking at each entry |
| FreeCount.ScanFat12 | USER/FATFS/ff.c:3429-3435 | counts the free entries in front of the first corrupt one, which it reports, or all of them |
| FreeCount.PartialCount | USER/FATFS/ff.c:3429-3456 | the count of an ended scan is exact if and only if no entry behind the corrupt one is free |
| FreeCount.PartialCountWrong | USER/FATFS/ff.c:3429-3456 | a FAT12 volume whose counter becomes 0 though a cluster is free |
| FreeCount.ReservedCounted | USER/FATFS/ff.c:3437-3453 | a FAT16 volume whose reserved entry 1 is counted as a free cluster |
| FreeCount.ReservedEntries | USER/FATFS/ff.c:3437-3453 | counting from entry 0 is counting from entry 2 exactly when entries 0 and 1 are not 0 |
| FileSectors.Clust2SectIs | USER/FATFS/ff.c:800-809 | clust2sect gives the first data sector of every cluster |
| FileSectors.SecsDistinct | USER/FATFS/ff.c:800-809 | no two places of a chain show the same sector |
| FileSectors.SecsInData | USER/FATFS/ff.c:800-809 | the sectors of a chain lie in the data area |
| FileSectors.SecsRun | USER/FATFS/ff.c:2632-2636 | inside one cluster the file's sectors are consecutive, so they can be transferred in one go |
| FileImage.Flushed | USER/FATFS/ff.c:2738-2742 | writing the dirty buffer back does not change the file's bytes |
| FileImage.Loaded | USER/FATFS/ff.c:2651-2663 | loading a sector into a clean buffer does not change the file's bytes and makes the buffer coherent |
| FileImage.Stale | USER/FATFS/ff.c:2775-2781 | beyond the end of the file the buffer may keep stale bytes without changing the file |
| FileImage.PutPartial | USER/FATFS/ff.c:2783-2792 | a copy into the buffer is a splice of the file's bytes |
| FileImage.DirectWrite | USER/FATFS/ff.c:2747-2767 | a multi-sector write around the buffer, with the cache refill, is a splice of the file's bytes |
| FileImage.ReadDirect | USER/FATFS/ff.c:2632-2649 | what a multi-sector read fetches are the file's bytes, apart from a sector that is dirty in the buffer |
| FileImage.PatchedRun | USER/FATFS/ff.c:2643-2644 | replacing the dirty sector in the fetched data gives the file's bytes |
| FileImage.Extended | USER/FATFS/ff.c:2716-2733 | a longer chain and other FAT contents leave the file's bytes alone |
| FileImage.Shrunk | USER/FATFS/ff.c:3488-3503 | a shorter chain keeps the bytes it still holds |
| FileIO.FIL.constructor | USER/FATFS/ff.c:2561-2573 | opening gives a valid file at position 0 |
| FileIO.FIL.Write | USER/FATFS/ff.c:2687-2800 | the file's bytes become the old bytes overwritten from the position on by what was written; fewer bytes only on a full volume, then up to the end of the last cluster; none if the file would reach 4 GB; all other sectors outside the FAT unchanged; the file is marked as changed |
| FileIO.FIL.WriteLoop | USER/FATFS/ff.c:2711-2794 | the same for the loop, over all its steps |
| FileIO.FIL.WriteStep | USER/FATFS/ff.c:2711-2794 | one turn writes some bytes at the position, directly or through the buffer |
| FileIO.FIL.LocateForWrite | USER/FATFS/ff.c:2714-2733 | the cluster of the position, stretched on demand; fails only at the end of the chain when nothing is free |
| FileIO.FIL.NextCluster | USER/FATFS/ff.c:2716-2733 | the next cluster of the chain, or one new cluster behind its end; all other chains as before |
| FileIO.FIL.WriteDirect | USER/FATFS/ff.c:2747-2767 | whole sectors written around the buffer are a splice |
| FileIO.FIL.PutBytes | USER/FATFS/ff.c:2783-2792 | bytes put into the buffered sector are a splice |
| FileIO.FIL.Flush | USER/FATFS/ff.c:2738-2742 | writing back a dirty buffer keeps the file's bytes |
| FileIO.FIL.Read | USER/FATFS/ff.c:2586-2677 | returns exactly the bytes from the position on, as many as asked for or left; the file and all other sectors are unchanged |
| FileIO.FIL.ReadLoop | USER/FATFS/ff.c:2610-2674 | the loop returns exactly the bytes asked for, over all its steps |
| FileIO.FIL.ReadStep | USER/FATFS/ff.c:2610-2674 | one turn returns the next bytes of the file |
| FileIO.FIL.ReadDirect | USER/FATFS/ff.c:2632-2649 | whole sectors read around the buffer are the file's bytes, a dirty buffer included |
| FileIO.FIL.LoadSector | USER/FATFS/ff.c:2651-2663 | the buffer shows the sector, its old contents are written back, the file's bytes are unchanged |
| FileIO.FIL.Lseek | USER/FATFS/ff.c:3101-3175 | the position becomes the target; clipped to the size for readers, and for writers the end of the last allocated cluster when the volume is full; the bytes up to the old size are unchanged; the file is marked as changed exactly if it grew |
| FileIO.FIL.SeekCluster | USER/FATFS/ff.c:3109-3154 | from any valid position the seek ends with the chain element that holds the byte before the new position, as a walk from the first cluster does |
| FileIO.FIL.SeekStart | USER/FATFS/ff.c:3109-3129 | continuing from the current cluster and starting over agree on where the seek is |
| FileIO.FIL.SeekLoop | USER/FATFS/ff.c:3130-3146 | following or stretching the chain keeps the walked distance exact |
| FileIO.FIL.BufferSought | USER/FATFS/ff.c:3155-3168 | a position inside a sector has that sector buffered |
| FileIO.FIL.Truncate | USER/FATFS/ff.c:3470-3517 | the file becomes its bytes before the position; the chain keeps exactly the clusters that hold them, the rest is freed, all other chains are untouched; it is marked as changed exactly if it was cut |
| FileIO.FIL.ReleaseTail | USER/FATFS/ff.c:3491-3503 | exactly the clusters behind the position are freed |
| FileIO.FollowOrStretch | USER/FATFS/ff.c:990-1040 | in a forest create_chain behind a cluster of the chain gives its successor, or a free cluster at its end, or finds nothing free |
| FileRuns.Perform | USER/FATFS/ff.c:2586-3517 | one operation on the open file is the same operation on a byte sequence with a position that can grow to a capacity; the capacity stays the same, and the number of clusters afterwards is given; the sectors of all other chains, and those in front of the data area outside the FATs, keep their contents; equal FAT copies stay equal |
| FileRuns.RunOps | USER/FATFS/ff.c:2586-3517 | any sequence of writes, reads, seeks and truncations is a run of that simple file, at one capacity given by the state before the run; equal FAT copies are equal after it; a file whose bytes differ from those before is marked as changed |
| FileRuns.CompleteIfFree | USER/FATFS/ff.c:2716-2733 | a write below 4 GB is complete, and then the whole splice, if and only if the clusters of the file and the free ones are as many as its end needs |
| FileRuns.ClustersHold | USER/FATFS/ff.c:2714-2733 | n clusters hold x bytes exactly if x bytes need at most n clusters |
| FileRuns.RoomKept | USER/FATFS/ff.c:990-1040 | the file's clusters and the free ones together are those the other chains leave, so their number depends on the other chains only |
| FileRuns.CapFacts | USER/FATFS/ff.c:2716-2733 | a valid file fits its capacity, and has reached it when the pointer is at the end of the chain of a full volume |
| FilePairs.PerformBeside | USER/FATFS/ff.c:2586-3517 | an operation on one open file does to it what it does alone; another open file of the volume keeps its bytes and position, and is valid if and only if its buffer is newer than its sector or that sector did not change, and always if the sector is its own |
| FilePairs.RunPair | USER/FATFS/ff.c:2586-3517 | any interleaved operations on two open files are a run of two simple files that share the clusters no other file has; it goes on as long as both are valid, to its end if no truncation gives up a buffered sector; equal FAT copies are equal after it |
| FilePairs.PairTurn | USER/FATFS/ff.c:2586-3517 | one operation of such a run, on the file it names: the number of clusters that the two files have or could have stays the same |
| FilePairs.TotalKept | USER/FATFS/ff.c:990-1040 | that number depends on the chains of all other files only |
| FilePairs.FirstKeeps | USER/FATFS/ff.c:2586-3517 | in such a run, bytes of one file that its own operations leave alone are unchanged, whatever is done to the other |
| FilePairs.ImageStays | USER/FATFS/ff.c:2651-2663 | when the drive changes outside a file's sectors the file's bytes stay, and its buffer is good if and only if it is newer than its sector or the sector did not change |
| FilePairs.GivenUpSectorChanges | USER/FATFS/ff.c:3470-3517 | a file that was cut to nothing with a sector still in its buffer: once another file has written that sector and this one has it again, buffer and drive differ |
| FilePairs.GivenUpSector | USER/FATFS/ff.c:3470-3517 | such an image |
| FilePairs.OwnsSwapped | USER/FATFS/ff.c:990-1040 | two chains of one volume, seen from either file |
| FileRuns.RunKeeps | USER/FATFS/ff.c:2586-3517 | bytes no operation of a run touches are unchanged |
| FileRuns.ReadsLastWritten | USER/FATFS/ff.c:2586-3517 | a read returns the bytes last written there within the capacity, whatever happened elsewhere in between |
| LinkMap.LookUpIsChain | USER/FATFS/ff.c:1052-1069 | the table is a run-length encoding: looking up k gives the k-th cluster of the chain, and 0 past its end |
| LinkMap.ClmtClust | USER/FATFS/ff.c:1052-1069 | the cluster of every offset, 0 past the end |
| LinkMap.CreateLinkMap | USER/FATFS/ff.c:3049-3071 | the table holds the map if it fits; the exact size needed is reported in any case; nothing is stored beyond the given size; the error case exactly |
| LinkMap.UsualMarks | USER/FATFS/ff.c:3055-3061 | end marks above the largest number of entries of the sub-type never look like a link |
| LinkMap.FalseRunOnSmallVolume | USER/FATFS/ff.c:3055-3061 | a chain on a sound FAT12 volume whose end mark does |
| LinkMap.Fragment | USER/FATFS/ff.c:3055-3061 | the maximal run of consecutive clusters |
| LinkMap.FastSeek | USER/FATFS/ff.c:3073-3097 | fast seek ends in the state the ordinary seek would reach, without changing the file |
| DirTable.PutEntry | USER/FATFS/ff.c:1619-1641 | storing 32 bytes at an entry's place changes that entry of the directory and no other |
| DirTable.TableGrows | USER/FATFS/ff.c:1163-1172 | a zero-filled further cluster appends blank entries |
| DirTable.CountNext | USER/FATFS/ff.c:1210-1217 | the counter of free entries in a row reaches the wanted number first at the first such row |
| OnDisk.EntryPlace | USER/FATFS/ff.c:1080-1118 | entry i is the 32 bytes from byte 32 * i on, and it is free if its first byte is 0 or 0xE5 |
| Directory.DIR.constructor | USER/FATFS/ff.c:1080-1095 | a directory object for the root or a chain |
| Directory.DIR.Sdi | USER/FATFS/ff.c:1080-1118 | success exactly for indices inside the table; then cluster, sector and window place are those of the entry, in static and chained directories |
| Directory.DIR.Next | USER/FATFS/ff.c:1128-1188 | from entry i it reaches exactly the place of entry i + 1, as seeking there does; at the end it reports so, or appends a blank cluster; only the FAT and the directory's sectors change, equal FAT copies stay equal, and the window shows no sector of another chain that it did not show before |
| Directory.DIR.Stretch | USER/FATFS/ff.c:1153-1172 | one cluster is appended to the chain and reads as zeros; all other entries and chains are unchanged |
| Directory.CleanCluster | USER/FATFS/ff.c:1163-1172 | the new cluster is all zeros, the rest as before, and the window is coherent |
| Directory.DIR.Alloc | USER/FATFS/ff.c:1199-1224 | stops at the end of the first row of enough free entries; denied only if there is none and the table cannot grow; no entry changes |
| DirSearch.SumSfn | USER/FATFS/ff.c:1438-1447 | the rotating checksum of the first eleven bytes |
| DirSearch.RowFound | USER/FATFS/ff.c:1458-1509 | the search finds a freshly written row of entries from any state, if and only if its short name can be compared or it has at most 254 characters |
| DirSearch.RegisteredIsFound | USER/FATFS/ff.c:1578-1645 | finding after registering, and all live entries kept, over tables of entries |
| DirFind.Find | USER/FATFS/ff.c:1458-1509 | stops at the first entry that bears the name in front of the end mark, and finds nothing exactly when there is none: a live short entry with the eleven bytes, or with the wanted long name in front of it, part by part, under its checksum |
| DirFind.Examine | USER/FATFS/ff.c:1480-1500 | one entry of that search: it ends at a live short entry whose checksum is that of a name completed just before, or whose eleven bytes are the exact short name |
| DirMatch.SearchFinds | USER/FATFS/ff.c:1458-1509 | the search with its order number and checksum finds exactly the first entry that bears the name, read off the bytes of the entries |
| DirMatch.AcceptsIs | USER/FATFS/ff.c:1274-1302 | what cmp_lfn accepts, character by character |
| DirMatch.StateMeans | USER/FATFS/ff.c:1480-1500 | whenever order number o is expected next, parts o + 1 and up of the wanted name stand in front, under one checksum |
| DirMatch.FoundName | USER/FATFS/ff.c:1458-1509 | a long name found holds the wanted characters up to upper-casing, and ends where they end |
| DirSearch.SumRotates | USER/FATFS/ff.c:1438-1447 | the checksum of a further byte is the checksum before, rotated right by one bit, plus the byte |
| DirRegister.GenNumname | USER/FATFS/ff.c:1379-1427 | the numbered name of the sequence number, or from 6 on of the hash of the long name |
| DirRegister.Digits | USER/FATFS/ff.c:1407-1415 | a tilde and the hexadecimal digits of the number at the end of the buffer |
| DirRegister.HexRoundTrip | USER/FATFS/ff.c:1407-1415 | the digits read back as the number, without leading zeros |
| DirRegister.Hash | USER/FATFS/ff.c:1392-1404 | the loops compute the hash as a fold over the bits of the name's characters, within 16 bits |
| NameHash.NumberIsRemainder | USER/FATFS/ff.c:1391-1405 | up to 5 the number is the sequence number, from 6 on it is the remainder of the sequence number, followed by the bits of the name, by x^16 + x^12 + x^5 + 1 |
| NameHash.OneRemainder | USER/FATFS/ff.c:1391-1405 | there is only one such remainder |
| DirRegister.NumNameIs | USER/FATFS/ff.c:1417-1426 | the longest prefix of whole characters that has no space and leaves room, a tilde, the number in hexadecimal and spaces; extension kept |
| DirRegister.KeptIs | USER/FATFS/ff.c:1417-1423 | the kept prefix is the longest that ends before a space and splits no two-byte character |
| DirRegister.HashBitBound | USER/FATFS/ff.c:1394-1405 | the hash stays within 16 bits, so at most four digits are written |
| DirRegister.PutTail | USER/FATFS/ff.c:1424-1426 | the number goes behind the kept prefix, then spaces |
| DirRegister.NumberName | USER/FATFS/ff.c:1595-1605 | the first numbered name among 1 to 99 that a search does not find; 100 only if all of them are found |
| DirRegister.NoSuchShortName | USER/FATFS/ff.c:1595-1605 | then no live short entry of a well-ended directory bears the name |
| DirRegister.WriteLong | USER/FATFS/ff.c:1615-1627 | the entries in front of the short entry become the long entries of the name, last part first |
| DirRegister.StoreEntry | USER/FATFS/ff.c:1620-1623 | one entry of the directory is replaced, through the window |
| DirRegister.WriteShort | USER/FATFS/ff.c:1632-1641 | the short entry holds the name and the case flags; its other bytes are 0 |
| DirRegister.Register | USER/FATFS/ff.c:1578-1645 | the name's entries stand in the first row of free entries that is long enough; a generated short name is the first that was not in the directory; denied only if all 99 are, or if no row is long enough and the directory cannot grow; on failure no entry changed; the new short entry has the name, its case flags and nothing else, so no cluster and no bytes |
| OnDisk.EntriesNeeded | USER/FATFS/ff.c:1607-1613 | one long entry for every 13 characters, and a short one |
| DirRegister.NewEntryEmpty | USER/FATFS/ff.c:1632-1641 | a new entry's first cluster and size are 0 |
| DirRegister.FoundAfterRegister | USER/FATFS/ff.c:1578-1645 | the registered name is found at its new short entry, if and only if its short name is exact or it has at most 254 characters; live entries are unchanged and the directory stays well ended |
| DirRegister.CreateName | USER/FATFS/ff.c:2470-2500 | find, register, find again: when the first search finds nothing, no entry bears the name; when registering is not refused the second search stops at the entry registered, which has no cluster and no bytes; only the FAT and the directory's sectors change, and equal FAT copies stay equal |
| DirPairs.CreateBeside | USER/FATFS/ff.c:2470-2500 | creating a name beside an open file leaves the file its bytes and position; it is valid if and only if the window does not show the sector in its buffer, and the buffer is newer than it or it did not change, and always if the sector is its own |
| DirPairs.PerformBesideDir | USER/FATFS/ff.c:2586-3517 | an operation on an open file beside a directory object does what it does alone; the directory has the entries it had, and its object stands where it stood |
| DirPairs.DirApart | USER/FATFS/ff.c:800-809 | a directory, static or chained, shares no sector with a file |
| LongName.FitLfn | USER/FATFS/ff.c:1341-1366 | entry number ord holds the characters of its part, a terminator and filler, and the flag exactly on the part where the name ends |
| OnDisk.CharPlaces | USER/FATFS/ff.c:1270 | where the thirteen characters of a long entry are |
| LongName.LastFlagOnce | USER/FATFS/ff.c:1363-1364 | the last-entry flag is on exactly one entry of a name |
| LongName.PickLfn | USER/FATFS/ff.c:1307-1336 | exactly which entries are taken, what is stored where, and that nothing else in the buffer changes |
| DirMatch.PicksIs | USER/FATFS/ff.c:1307-1336 | what pick_lfn takes, character by character |
| LongName.CmpLfn | USER/FATFS/ff.c:1274-1302 | accepts exactly the well-formed segments that agree with the buffer up to upper-casing |
| LongName.EncodeName | USER/FATFS/ff.c:1607-1627 | all entries of a name, for names of 1 to 255 characters |
| LongName.DecodeName | USER/FATFS/ff.c:1547-1553 | reading the entries of a name in directory order gives the name back, if and only if it has at most 253 characters |
| LongName.PickEncoded | USER/FATFS/ff.c:1307-1336 | an entry of a name is refused exactly if it is the last one and the name has more than 253 characters |
| LongName.LongestNotFound | USER/FATFS/ff.c:1274-1302 | a name of 255 characters whose last entry does not match it |
| LongName.LongNotPicked | USER/FATFS/ff.c:1307-1336 | a name of 254 characters whose last entry is not taken |
| LongName.ScanFindsName | USER/FATFS/ff.c:1486-1495 | all entries of a name are accepted if and only if the names agree up to upper-casing and have at most 254 characters |
| Glob.PatternMatching | USER/FATFS/ff.c:1773-1832 | returns 1 exactly when the folded name, from some allowed start on, matches the pattern under the declarative relation for `?` and `*` |
| Glob.TryHere | USER/FATFS/ff.c:1813-1827 | one attempt at a fixed place of the name |
| Glob.TakeBlock | USER/FATFS/ff.c:1816-1819 | a block of wildcards is a number of single characters and whether any number may follow |
| Glob.BlockMeaning | USER/FATFS/ff.c:1816-1820 | the order of `?` and `*` within a block does not matter |
| Glob.NeedsThatMany | USER/FATFS/ff.c:1807-1829 | a match needs as many characters as the pattern has literals and `?` |
| Glob.TooShort | USER/FATFS/ff.c:1828-1829 | stopping when the name has run out loses no match |
| Glob.FoldIs | USER/FATFS/ff.c:1773-1791 | a name starts with two bytes that form a character, or with the capital of a letter, or with the byte itself |
| Glob.TokensIs | USER/FATFS/ff.c:1773-1827 | a pattern starts with a wildcard, or with such a character |
| Glob.AsciiFold | USER/FATFS/ff.c:1773-1791 | names without two-byte characters are folded letter by letter |
| Mount.FindBootSector | USER/FATFS/ff.c:2253-2267 | sector 0 as a boot sector, or the first partition that is a FAT volume; what it finds has the signature and the letters FAT |
| Mount.LocateIs | USER/FATFS/ff.c:2253-2267 | sector 0 if it is the boot sector of a FAT volume; otherwise, if it is a boot sector, the partition with the least number that is a FAT volume; the verdict of the last one if there is none |
| Mount.CheckFsIs | USER/FATFS/ff.c:2184-2192 | check_fs in terms of the sector's bytes |
| Mount.SubType | USER/FATFS/ff.c:2304-2305 | FAT12 exactly when 12-bit entries can number the clusters below their reserved values, FAT32 exactly when 16-bit entries cannot |
| Mount.CheckBpb | USER/FATFS/ff.c:2273-2324 | accepts exactly the parameter blocks whose 32-bit sums pass the tests, for all blocks, and derives the geometry from them; where no sum wraps around these are the consistent ones |
| Mount.Boundaries | USER/FATFS/ff.c:2304-2324 | sub-type, limits and the size test of the FAT, with the 32-bit sums of the code |
| Mount.AcceptedIsSound | USER/FATFS/ff.c:2273-2324 | an accepted volume that lies on the drive and keeps the limits mounting does not test has a sound geometry |
| Mount.AcceptedExactly | USER/FATFS/ff.c:2273-2324 | mounting refuses nothing sound: a block is accepted exactly if its own fields are in order, a cluster fits, and its geometry is sound |
| Mount.GeomLayout | USER/FATFS/ff.c:2308-2322 | the areas of the geometry follow each other without gaps, and there are as many clusters as the data area has room for |
| Mount.WrapsAway | USER/FATFS/ff.c:2273-2324 | where no sum wraps around, what the 32-bit arithmetic accepts and derives is what unbounded arithmetic does |
| Mount.NeedUnwrapped | USER/FATFS/ff.c:2323-2324 | the 32-bit test of the FAT's size is then the test on its bytes |
| Mount.WrapAccepted | USER/FATFS/ff.c:2277-2324 | a parameter block that is accepted because its FAT sizes wrap around |
| Mount.FatNeeds | USER/FATFS/ff.c:2323-2324 | the rounded-up sector test is the test on bytes |
| Mount.InfoIs | USER/FATFS/ff.c:2332-2342 | the signatures of a valid FSINFO sector, byte by byte |
| Mount.Pow2Test | USER/FATFS/ff.c:2285-2287 | the bit test on the cluster size accepts exactly the powers of two |
| Mount.MountVolume | USER/FATFS/ff.c:2204-2362 | for every drive: mounted exactly if a FAT boot sector is found and its parameters are accepted in 32-bit arithmetic, with that geometry and the allocation hints of FSINFO; the sub-type is the narrowest for its entries |
| Format.ClusterSizeOk | USER/FATFS/ff.c:4118-4126 | every request ends in a power of two of at most 128 sectors per cluster |
| Format.ChosenSize | USER/FATFS/ff.c:4119-4126 | the number of sectors per cluster for each range of volume sizes, on sectors of 512 bytes |
| Format.ChosenInGeneral | USER/FATFS/ff.c:4119-4126 | the same for all sector sizes, by the volume's size in units of 2000 blocks of 512 bytes |
| Format.RequestGranted | USER/FATFS/ff.c:4118-4126 | a requested size is granted if it is a power of two of at least one and at most 128 sectors |
| Format.RoomForEntries | USER/FATFS/ff.c:4134-4141 | the FAT is sized for exactly the number of entries of each sub-type |
| Format.AlignedIs | USER/FATFS/ff.c:4150-4153 | the mask expression moves the data start up by less than the erase block, and for a power of two to the least multiple that is not below it |
| Format.RoundUpUnique | USER/FATFS/ff.c:4150-4153 | there is one such multiple |
| Format.PlanStart | USER/FATFS/ff.c:4148-4161 | the planned data area starts where the mask moves the unaligned layout, by a longer FAT or a later one: not at all unless the drive reports an erase block of 2 to 32768 sectors, by less than a block, and to a block for a power of two |
| Format.ComputePlan | USER/FATFS/ff.c:4128-4165 | for every volume size and erase block: the plan that size, start, sector size, request and erase block determine in 32-bit arithmetic, made exactly if the volume is large enough before alignment and has enough clusters for its sub-type after it; the sub-type is the narrowest for the clusters before alignment |
| Format.FatLargeEnough | USER/FATFS/ff.c:4134-4141 | the FAT has room for all entries if and only if its size in bytes can be rounded up in 32 bits |
| Format.FatWraps | USER/FATFS/ff.c:4128-4165 | the plan made for a drive of 2^30 sectors in one-sector clusters, whose FAT is a single sector |
| Format.PlanIsOk | USER/FATFS/ff.c:4128-4165 | when the FAT's size does not wrap around: areas that fit their fields, a data start aligned to erase blocks of a power of two, a FAT with room for every entry, and a sub-type that mounting derives again |
| Format.RefusedExactly | USER/FATFS/ff.c:4160-4165 | where alignment leaves room for a cluster, the plan is refused exactly if alignment changed the sub-type |
| Format.NothingLeft | USER/FATFS/ff.c:4128-4165 | the plan made for a drive of 128 sectors with erase blocks of 128, which leaves no cluster |
| Format.PlanMounts | USER/FATFS/ff.c:2273-2324 | mounting accepts a recorded plan if and only if the aligned data area leaves a cluster, and recovers its geometry, which is sound |
| Mkfs.MakeBoot | USER/FATFS/ff.c:4208-4245 | the boot sector records the plan; every byte of it is given |
| Mkfs.MakeTable | USER/FATFS/ff.c:4188-4201 | every byte of a partition table with one partition from sector 63 to the end of the drive; it is no FAT boot sector |
| Mkfs.MakeFatHead | USER/FATFS/ff.c:4254-4264 | the bytes of the reserved entries, the rest zero |
| Mkfs.WriteTables | USER/FATFS/ff.c:4251-4279 | succeeds exactly if the FAT and the root directory lie on the drive; they are fresh then, and every sector before and behind them is unchanged |
| Mkfs.MakeFs | USER/FATFS/ff.c:4063-4300 | the answer that the drive's size and the request determine; on success the drive holds the partition table, boot sector, FAT, root directory and FSINFO of the plan they determine; every byte of table, boot sector and FSINFO is given, and their backups are equal |
| Mkfs.DoneWithoutRoom | USER/FATFS/ff.c:4128-4165 | exactly which calls succeed without leaving room for a cluster |
| Mkfs.DoneWithRoom | USER/FATFS/ff.c:4128-4165 | where the aligned data start leaves room, f_mkfs succeeds if and only if the plan is allowed, that is, if alignment does not change the sub-type |
| Mkfs.DoneOnSmallDrive | USER/FATFS/ff.c:4128-4165 | one such call |
| FreshVolume.FreshFat | USER/FATFS/ff.c:4251-4272 | the value of every entry of the new FAT |
| FreshVolume.FreshForest | USER/FATFS/ff.c:4251-4272 | only the reserved entries and a FAT32 root are in use, and the free count is exact |
| FreshVolume.VolumeFound | USER/FATFS/ff.c:2253-2267 | the search for the boot sector ends where f_mkfs wrote it |
| FreshVolume.FreshHints | USER/FATFS/ff.c:4288-4297 | the FSINFO count, where there is one, is the number of free clusters |
| FreshVolume.FormatAndMount | USER/FATFS/ff.c:4063-4300 | the answer and the plan are those the inputs determine; mounting what was written is accepted if and only if the aligned data start of the inputs leaves room for a cluster; the geometry is recovered and the FAT is fresh |
| LockTable.Locks.constructor | USER/FATFS/ff.c:455-457 | an empty table with nothing open |
| LockTable.Locks.ChkLock | USER/FATFS/ff.c:589-611 | the verdict in terms of who has the object open, not of the table |
| LockTable.Locks.EnqLock | USER/FATFS/ff.c:614-621 | whether a slot is blank |
| LockTable.Locks.IncLock | USER/FATFS/ff.c:624-655 | counts one more open, or returns 0 and changes nothing; the table stays consistent if and only if a reader joins neither a writer nor 255 readers |
| LockTable.Locks.DecLock | USER/FATFS/ff.c:658-677 | one open fewer; the slot is blank exactly when nothing is open on the object any more |
| LockTable.Locks.ClearLock | USER/FATFS/ff.c:680-689 | exactly the opens on that volume are forgotten |
| LockTable.Locks.Open | USER/FATFS/ff.c:2484-2545 | a chk_lock that agrees is never followed by the internal error of inc_lock; only a 256th reader makes the table inconsistent |
| LockTable.WriterExcludes | USER/FATFS/ff.c:589-677 | in a consistent table an object has one writer or only readers, at most 255 |
| LockTable.OpenHasSlot | USER/FATFS/ff.c:589-677 | an object has a slot exactly if it is open |
| LockTable.Registered | USER/FATFS/ff.c:640-654 | a new slot keeps the table consistent |
| LockTable.ReaderAdded | USER/FATFS/ff.c:650-652 | one more reader keeps the table consistent if and only if nobody writes and there were fewer than 255 |
| LockTable.TooManyReaders | USER/FATFS/ff.c:650-652 | a consistent table with 255 readers, and the 256th |
| LockTable.Closed | USER/FATFS/ff.c:666-672 | closing one open keeps the table consistent |
| Rand.WrapInvisible | uCOS_III/uC-LIB/lib_math.c:272-280 | 32-bit wrap-around inside the expression does not change the number drawn |
| Rand.Generator.constructor | uCOS_III/uC-LIB/lib_math.c:147-150 | starts from the initial seed |
| Rand.Generator.SetSeed | uCOS_III/uC-LIB/lib_math.c:175-183 | the sequence restarts from the seed |
| Rand.Generator.Next | uCOS_III/uC-LIB/lib_math.c:215-229 | the numbers drawn are the sequence of the seed: each is 1103515245 times the one before plus 12345, modulo 2^31 |
| Rand.DrawnIsAffine | uCOS_III/uC-LIB/lib_math.c:272-280 | the n-th number is a closed affine expression in the seed, modulo 2^31 |
| Rand.AffineReturns | uCOS_III/uC-LIB/lib_math.c:272-280 | for every k, n steps of that expression lead back modulo 2^k exactly if 2^k divides n |
| Rand.ReturnsExactly | uCOS_III/uC-LIB/lib_math.c:272-280 | for every k up to 31, from any draw on, the residue modulo 2^k returns after n draws exactly if 2^k divides n |
| Rand.ResiduesDistinct | uCOS_III/uC-LIB/lib_math.c:272-280 | 2^k draws in a row have different residues modulo 2^k |
| Rand.FullPeriod | uCOS_III/uC-LIB/lib_math.c:272-280 | every residue modulo 2^k occurs among any 2^k draws in a row, once |
| Rand.Repeats | uCOS_III/uC-LIB/lib_math.c:272-280 | after 2^k draws the residue modulo 2^k repeats |
| Rand.EveryValueOnce | uCOS_III/uC-LIB/lib_math.c:272-280 | from any seed every value below 2^31 is drawn exactly once in each 2^31 draws |
| IList.ListHandle.constructor | USER/Server/IList.c:33-48 | an empty list |
| IList.ListHandle.Append | USER/Server/IList.c:58-73 | an object that is not in the list goes to the end; head, tail and count follow; one that is in the list cuts it off behind itself, or closes a circle if it was the last |
| IList.ListHandle.Delete | USER/Server/IList.c:89-118 | the object is unlinked if it is there, the order of the others is kept, no other link changes, and the current object is none again |
| IList.ListHandle.GetNumber | USER/Server/IList.c:156-173 | the object's place, 0xFFFF when it is not in the list |
| IList.ListHandle.GetSize | USER/Server/IList.c:175-179 | the number of objects as a 16-bit count |
| IList.ListHandle.GetFirst | USER/Server/IList.c:198-204 | the first object, or null |
| IList.ListHandle.GetLast | USER/Server/IList.c:205-211 | the last object, or null |
| TimerServer.Server.constructor | USER/Server/TimerServer.c:16-19 | no timers |
| TimerServer.Server.AppendTimer | USER/Server/TimerServer.c:24-38 | one timer more at the end, unless the pool is used up |
| TimerServer.Server.RunTimers | USER/Server/TimerServer.c:40-53 | every unfinished timer ticks once; the callbacks are made in list order |
| TimerServer.Server.SortTimers | USER/Server/TimerServer.c:55-69 | exactly the finished timers are taken out, the order of the rest is kept |
| TimerRuns.TickStep | USER/Server/TimerServer.c:44-50 | a timer's tick field and callback agree with its age in passes |
| TimerRuns.EveryRunFiresOnTime | USER/Server/TimerServer.c:24-69 | over every run a one-shot timer of period p is called in its p-th pass and a reloading one in passes p, 2p, 3p and so on, and at no other time; a period of 0 counts as 2^32 |
| TimerRuns.OneShotOnce | USER/Server/TimerServer.c:40-53 | a one-shot timer is called exactly once when its period is over, never before |
| TimerRuns.SortInvisible | USER/Server/TimerServer.c:55-69 | leaving out all sort steps of a run gives the same callbacks |
| TimerRuns.Drive | USER/Server/TimerServer.c:24-69 | the list-based server goes through any such run and keeps its callbacks exact |

## Left out

- Disk errors above the sector window: the window layer is proved for failing drives too; everything above requires a drive that does not fail, so the branches that handle such errors are there but proved unreachable.
- FileIO.FIL.Read, FileIO.FIL.Write, FileIO.FIL.Lseek: the ABORT paths that set the sticky error flag are not reached, since neither the drive nor the FAT is faulty; a flag that is set is respected.
- FileIO.FIL.constructor: the path and directory half of f_open, and f_sync's update of the directory entry, are not part of the model.
- FileIO.FIL.Write: takes the caller's buffer as a sequence of fewer than 2^32 bytes.
- Mount.AcceptedIsSound: assumes that the volume lies on the drive, which mounting does not test, that the 32-bit sums do not wrap around, and that the number of FAT entries stays below the end marks.
- Mkfs.MakeFs: requires that the size of the FAT does not wrap around; the plan (`Format.ComputePlan`) is exact without that.
- FreshVolume.FormatAndMount: requires fewer than 2^28 clusters, whose numbers stay below the end marks; f_mkfs does not limit them.
- FilePairs.RunPair: two files; a third, and directory operations between theirs, are covered step by step only (`FilePairs.PerformBeside`, `DirPairs.CreateBeside`, `DirPairs.PerformBesideDir`).
- Multi-partition drives, TRIM and the clock that gives the volume serial of f_mkfs are not modelled; the serial is a parameter.
- Mount.MountVolume: drive numbers, forced partition numbers and write protection.
- Directory.DIR.Alloc, DirFind.Find: the index of the first long entry (`lfn_idx`) is not kept.
- DirRegister.Register: requires what create_name delivers, a short name that does not start with 0 or the deletion mark and the long-name flag on every inexact name.
- DirRegister.WriteLong: an entry is built in a buffer of its own and then copied into the window, where the code writes it in place.
- LongName.CmpLfn: upper-casing is an arbitrary function that maps only 0 to 0.
- Glob.PatternMatching: strings of bytes in code page 936; the 16-bit character configuration is not modelled.
- TimerServer.Server.RunTimers: callbacks do not touch the list; memory is a flag that says whether the pool has room.
- C functions with long loops are split into methods, one per phase of the loop.
- insertObject, removeNumber and getObject of the list: they do not keep the list's invariant, and the timers do not use them.
- dir_read's filtering, dir_remove, f_rename, f_unlink, labels, f_forward, f_fdisk, string functions and the re-entrancy wrappers.
- The fixed-width CPU ports, network code, key handling and lookup tables of the firmware: declarations, plumbing or finite tables.
