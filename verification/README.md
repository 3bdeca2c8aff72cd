# A verified model of the FAT driver

This project models the on-disk engine of the FAT file system driver in `myfat/example`, and the
cluster transfer routines of `myfat/simplefat`, and proves what the engine keeps. The layers
build on each other; `dafny verify dfyconfig.toml` checks all of them.

| layer | files | what it shows |
|---|---|---|
| packed FAT entries | `Packing`, `FatDevice` | the 12, 16 and 28-bit entries in blocked bytes, with a cursor that moves without reading again, behave like a plain list of entries, in all FAT copies |
| cluster chains | `Chains`, `Log`, `AllocSteps`, `Volume` | next-fit allocation, rollback and freeing, with a complete log of the entry writes and of who owned what then |
| files | `Walks`, `BlockMath`, `Inode`, `Session` | the run cache is invisible, growing and truncating keep sizes and chains together, over whole runs of calls |
| interleaving | `CacheSteps` | adding to the cache while the lock is dropped for allocation, and invalidating it meanwhile |
| layout | `Mounting`, `Mapping` | when the layout computed at mount time lies on the volume; where blocks and directory entries lie |
| directories | `DirSearch`, `FillOrder`, `Directory`, `VfatEntry` | adding and deleting entries across blocks and clusters is an exact splice, block by block |
| names | `LongNames`, `ShortNames`, `ShowNames`, `DosNames` | long-name slots, aliases, 8.3 formatting and printing, each with its round trip |
| time stamps | `Timestamps` | FAT time and Unix time are inverse, and order is kept |
| the small driver | `SimpleFat` | block-wise cluster I/O is a splice of one flat run of bytes |

`Machine`, `Arith` and `Splicing` hold error numbers, multiplication and division by variables as
recursive functions, and the overwriting of a stretch of a sequence.

How to read the model:

- Code that updates state is a class or a method with loops; what it is proved against is a
  function or predicate on plain values. A buffer is named by its block number, as the buffer
  cache keeps one buffer per block.
- `Volume.trace` records, from mount time on, the FAT, the chains of all files and the chain
  that is just being built or given back. Its last snapshot is always the present state, and
  `LogOk` says what may lie between two snapshots: at most one entry write, and one of six moves
  of clusters between the free ones, the pending chain and one file (`Logs.Move`).
- `Volume.discarded` lists the clusters covered by discard requests. `FatDevice.stale` is the
  set of blocks of the first FAT whose copies may differ from it. `Directory.views` records what a
  directory shows after each block that an addition fills in, and after it grew. All of these
  are ghost.
- Some predicates that say where a loop stands are quantified over what a walk or a search comes
  to (`Chains.WalkAt`, `DirSearch.SearchAt`, `Logs.LogGrows`), so that their meaning is looked
  up in a lemma and not unfolded at every step.
- `BUG_ON` and `WARN_ON` appear as asserts of the opposite. Error exits that cannot be taken
  when blocks can be read and memory is available are asserted or follow from the contracts.
- Block reads and writes, memory allocation and `copy_from_user` succeed, except in `SimpleFat`,
  where any set of blocks may fail.
- `FAT_START_ENT`, the BAD and EOF marks, `MAX_FAT12` (0xFF4), `MAX_FAT16` (0xFFF4), `MAX_FAT32`
  (0x0FFFFFF6), `FAT_MAX_DIR_SIZE` and the valid media values come from kernel headers that are
  not part of the repository. The on-disk formats are those of the Microsoft FAT32 File System
  Specification, version 1.03.

Where the code does not do what its design suggests, the model follows the code and gives the
exact condition:

- A mount is accepted although the data area starts behind the end of the volume, or the FAT has
  no room for any entry (`Mounting.SoundIff`; inputs in `Mounting.ShortVolumePasses` and
  `Mounting.EmptyFatPasses`).
- With the greatest number of clusters a FAT32 mount accepts, the last cluster has the number of
  the BAD mark, so that a link to it reads back as EOF (`Mounting.ClustersLegal`,
  `Packing.PutGet`; an input in `Mounting.MostClustersPass`). The other layers require that this
  is not so.
- Adding to the cluster cache is safe for up to eight threads, and not for nine
  (`CacheSteps.EightAddersAreSafe`, `CacheSteps.NineAddersAreNot`).
- An invalidation leaves the cache right for whatever chain comes next exactly when no adder
  waits for memory at that moment (`CacheSteps.InvalidationCompleteIff`): a run that waits can meet
  the BUG_ON afterwards (`CacheSteps.WaitingRunsCanConflict`; a run of steps in
  `CacheSteps.InvalidationMissesTheWindow`).
- A run from before an invalidation is recognised by its generation
  (`CacheSteps.OutdatedIsDropped`), unless its walk began at the first cluster or left the cached
  run: such runs carry none and are taken in (`CacheSteps.UndatedIsTaken`).
- The search for a hexadecimal alias ends exactly when one is free
  (`ShortNames.SearchEndsIffSomeFree`; a directory with none in `ShortNames.AllTailsTaken`).
- The last of the 65536 entries of a directory of greatest size is never handed out
  (`DirSearch.SearchExact`).

## Model

| member | source | states |
|---|---|---|
| Packing.PutGet | myfat/example/fatent.c:120-196 | A value written into an entry of any FAT reads back exactly when it is legal, that is EOF or below the BAD mark; other values come back as EOF. |
| Packing.PutElsewhere | myfat/example/fatent.c:156-196 | Writing one entry changes no other entry, for all three widths, FAT12 neighbours that share a byte included. |
| Packing.Put12KeepsNeighbour | myfat/example/fatent.c:156-176 | The half byte that belongs to the neighbour survives a FAT12 write. |
| Packing.PutTouches | myfat/example/fatent.c:156-196 | A write changes only the bytes of its own entry. |
| Packing.EntryBits | myfat/example/fatent.c:120-154 | Where the bits of an entry are: two FAT12 entries are the halves of three bytes, the others numbers of two or four bytes, lowest byte first, and FAT32 leaves four bits out. |
| FatDevices.CollectBhs | myfat/example/fatent.c:437-453 | The collected buffer list is the union of what was there and the handle's buffers, keeps its order, and stays free of duplicates. |
| FatDevices.FatDevice.EntBlocknr | myfat/example/fatent.c:24-42 | Block and offset of an entry, which lie inside the first FAT. |
| FatDevices.FatDevice.EntSetPtr | myfat/example/fatent.c:44-68 | The pointers set are those of that entry, across a block end for FAT12; the WARN_ONs never fire. |
| FatDevices.FatDevice.EntBread | myfat/example/fatent.c:70-118 | A freshly read handle stands at its entry, with one block or two. |
| FatDevices.FatDevice.EntUpdatePtr | myfat/example/fatent.c:311-339 | A reused handle is accepted only if its buffers really hold the new entry, and then it is the one a fresh read gives. |
| FatDevices.FatDevice.EntGet | myfat/example/fatent.c:120-154 | Reading through a handle yields the entry of the abstract FAT. |
| FatDevices.FatDevice.EntPut | myfat/example/fatent.c:156-196 | Writing through a handle is a single update of the abstract FAT; the blocks written are exactly those that then wait for mirroring. |
| FatDevices.FatDevice.EntNext | myfat/example/fatent.c:198-250 | When the cursor can move on inside its buffers, its pointers are those of the next entry. |
| FatDevices.FatDevice.FatEntNext | myfat/example/fatent.c:415-423 | The cursor stops at max_cluster and otherwise moves exactly one entry. |
| FatDevices.FatDevice.EntReadBlock | myfat/example/fatent.c:425-435 | A handle set to an entry and read stands at that entry. |
| FatDevices.FatDevice.EntRead | myfat/example/fatent.c:341-366 | Out-of-range entries give -EIO, others the entry's value, whether the handle was reused or read afresh. |
| FatDevices.FatDevice.Mirror | myfat/example/fatent.c:368-397 | Afterwards the given blocks agree in all copies, the first FAT is untouched, and no other block becomes stale. |
| FatDevices.FatDevice.CopiesTile | myfat/example/fatent.c:376-381 | The copies of the FAT follow one another without gaps. |
| FatDevices.FatDevice.EntriesAfterPut | myfat/example/fatent.c:156-196 | If bytes change as one entry write says, the list of entries changes in that place only. |
| Chains.PutOutsideLive | myfat/example/fatent.c:488-496 | A write to an entry of no live chain leaves every live chain in range, acyclic, EOF-terminated and disjoint. |
| Chains.JoinChains | myfat/example/misc.c:105-121 | Linking the end of one chain to the head of another disjoint chain gives one well-formed chain. |
| Chains.CutChain | myfat/example/file.c:386-408 | Putting EOF after k clusters leaves two well-formed disjoint chains. |
| Chains.ChainUnique | myfat/example/cache.c:217-274 | The chain that starts at a cluster is determined by the FAT. |
| Chains.FullTurnMeetsAll | myfat/example/fatent.c:472-519 | A full turn of the cyclic scan meets each entry once: it finds as many free ones as there are. |
| Chains.ScanOutcome | myfat/example/fatent.c:472-526 | The scan ends with nr entries exactly when that many are free, and they are the first ones in cyclic order. |
| Chains.FirstFreeNearest | myfat/example/fatent.c:472-526 | Those are ordered by their cyclic distance from where the scan starts, and no nearer free entry is left out. |
| Chains.LinkedExact | myfat/example/fatent.c:488-512 | Taking free entries one after the other leaves exactly one well-formed chain of them and all else unchanged. |
| Chains.MetLinked | myfat/example/fatent.c:472-541 | Linking the free entries met uses up exactly that many, makes one chain of them, and clearing it restores the FAT. |
| Chains.FreeSucceedsIffChain | myfat/example/fatent.c:557-601 | Freeing from a cluster succeeds if and only if a well-formed chain starts there, on any FAT. |
| Chains.FreeWalkExact | myfat/example/fatent.c:557-601 | On any FAT, cyclic or corrupt, freeing clears distinct entries that were in use, changes nothing else and raises the free count by their number. |
| Chains.FreeWalkPath | myfat/example/fatent.c:557-601 | They are linked in that order from the first cluster on; freeing stops at the end mark, or with the error at an entry out of range, free, or cleared on the way. |
| Chains.FreeWalkOfChain | myfat/example/fatent.c:557-601 | Freeing a well-formed chain clears exactly its clusters. |
| Chains.ClearLinked | myfat/example/fatent.c:537-541 | Clearing what an allocation linked restores the FAT entry by entry. |
| Chains.CountAfterPut | myfat/example/fatent.c:498-500 | One entry write changes the free count by at most one, by which side of FREE it crosses. |
| Logs.NextTaken | myfat/example/fatent.c:488-497 | Linking one more cluster to the chain under construction is safe once EOF is in it. |
| Logs.LinkFirstIsWrong | myfat/example/fatent.c:488-497 | Were the link written before EOF, no right snapshot could be logged in between. |
| Logs.HeadReleased | myfat/example/fatent.c:581-583 | Clearing the first entry of a chain that is given back leaves the rest a well-formed chain and all files as they were. |
| Logs.GrowsTrans | myfat/example/fatent.c:488-496 | Two stretches of the log make one: every snapshot right, one step behind the one before, only the named files changing hands. |
| Logs.GrowsMeans | myfat/example/fatent.c:488-496 | A log that grows so stays right in all its snapshots and steps, and files not named keep their chains in all new snapshots. |
| Volumes.Volume.constructor | myfat/example/inode.c:1448-1458 | After mounting, a hint that names an existing cluster is kept, a free count up to the number of clusters is kept but not trusted, any other is unknown, and the log begins with the FAT as it is. |
| Volumes.Volume.Put | myfat/example/fatent.c:488-496 | The one way to write a FAT entry during allocation and freeing: the chains live at that moment and the one being built or given back stay well formed and disjoint, and the FAT, all of these and the write are logged. |
| Volumes.Volume.EntWrite | myfat/example/fatent.c:399-413 | A single entry write, mirrored at once, together with the change of one live chain it means, and logged as such. |
| Volumes.Volume.LinkEntry | myfat/example/fatent.c:488-497 | EOF goes into the new entry and then the link to it is written: after each write the chain under construction is well formed, ends in EOF and is disjoint from all files, which the other order would not give. |
| Volumes.Volume.TakeEntry | myfat/example/fatent.c:486-503 | One found entry: linked, counted, its buffers collected. |
| Volumes.Volume.TakeFree | myfat/example/fatent.c:467-526 | The scan comes to nr clusters exactly when that many are free, else to all free ones; what it took is one chain, and clearing it restores the FAT. |
| Volumes.Volume.FreeEntry | myfat/example/fatent.c:581-599 | One freed entry: counted, the head of what is being given back, its buffers queued, the queue flushed before it exceeds MAX_BUF_PER_PAGE. |
| Volumes.Volume.BatchDiscard | myfat/example/fatent.c:567-579 | The pending run and what was discarded together cover each freed cluster once, in order. |
| Volumes.Volume.FreeClusters | myfat/example/fatent.c:544-621 | On any FAT: terminates, has the result of the reference walk, logs one snapshot for each cleared entry with all files as they were and the rest of the chain still well formed; on success the discards are exactly the freed clusters and the copies agree there. |
| Volumes.Volume.Scan | myfat/example/fatent.c:467-526 | The next-fit scan takes exactly the free entries among those it met, in cyclic order from prev_free + 1. |
| Volumes.Volume.Rollback | myfat/example/fatent.c:520-541 | After a failed allocation the FAT is entry by entry what it was, and the free count is exact and valid. |
| Volumes.Volume.AllocClusters | myfat/example/fatent.c:455-542 | Succeeds if and only if enough entries are free, and then yields the first ones in cyclic order as a linked chain that is nobody's yet; else -ENOSPC and nothing changed. No file changes at any write; no copy is left behind. |
| Volumes.Volume.CountFreeClusters | myfat/example/fatent.c:636-675 | The count is that of the free entries, each counted once despite the block restarts. |
| Walks.NaiveSkips | myfat/example/cache.c:217-274 | Starting further along a walk gives the same reply. |
| Walks.NaiveExact | myfat/example/cache.c:217-274 | On any FAT the walk stands where fclus links lead; it stops early with FAT_ENT_EOF exactly at the end mark, and with -EIO exactly at the size limit or at an entry out of range or free. |
| Walks.AddRunOk | myfat/example/cache.c:117-177 | Adding a right run to a right cache leaves a right one, of at most eight runs; the merge never meets a different disk cluster. |
| Walks.AddRunMeans | myfat/example/cache.c:134-177 | The run added stands in front, or the longer one of the same start; the others follow in their order, all but the last if a new run meets a full cache. |
| Walks.RunOkIffOnChain | myfat/example/cache.c:203-207 | On a well-formed chain a run is right exactly when it is a stretch of that chain. |
| Walks.NaiveOnChain | myfat/example/cache.c:217-274 | The reply for any cluster index, FAT_ENT_EOF included, on a well-formed chain. |
| Walks.RunsOkTransfer | myfat/example/cache.c:80-115 | A right cache stays right when the chain grows, and when it is cut behind the cached runs. |
| Inodes.Inode.FindHit | myfat/example/cache.c:87-103 | The run that holds the cluster, else the nearest one before it. |
| Inodes.Inode.CacheLookup | myfat/example/cache.c:80-115 | The hit moves to the front and its position is at or before the cluster sought; otherwise nothing changes. |
| Inodes.Inode.CacheMerge | myfat/example/cache.c:117-132 | The run with the same start is lengthened; the BUG_ON is unreachable. |
| Inodes.Inode.CacheAdd | myfat/example/cache.c:134-177 | A run of the current generation is merged, added or put in the place of the least recently used one; an outdated one is dropped. |
| Inodes.Inode.CacheInval | myfat/example/cache.c:179-201 | No run is left and the generation differs from the old one and from FAT_CACHE_VALID, wrap-around included. |
| Inodes.Inode.GetCluster | myfat/example/cache.c:217-274 | For any FAT, any right cache and any index: the same code, fclus and dclus as the walk without a cache, and it ends even on a cyclic chain. |
| Inodes.Inode.BmapCluster | myfat/example/cache.c:276-293 | The cluster of the chain, 0 for an empty file, -EIO behind the end. |
| Inodes.Inode.BmapBefore | myfat/example/cache.c:330-340 | Where a block before the end lies, and how many blocks from there on are mapped contiguously. |
| Inodes.Inode.Bmap | myfat/example/cache.c:295-342 | Never fails, maps exactly the blocks before the end of the file, and the extent length is the rest of cluster or file, whichever is shorter. |
| Inodes.Inode.ChainAdd | myfat/example/misc.c:85-142 | The new chain hangs behind the old one and is the file's from that write on; i_blocks follows; "clusters badly computed" is never reported. |
| Inodes.Inode.AddCluster | myfat/example/inode.c:42-55 | One more cluster, or -ENOSPC exactly when none is free, and nothing changed. |
| Inodes.Inode.Cut | myfat/example/file.c:354-410 | The cache is dropped and the chain cut in a single write before anything is freed, so that the rest is owned by no file. |
| Inodes.Inode.FatFree | myfat/example/file.c:354-421 | Keeps the first skip clusters and frees exactly the others; i_blocks follows; no error. |
| Inodes.Inode.Truncate | myfat/example/file.c:423-441 | Afterwards the chain has ceil(i_size / cluster_size) clusters, a prefix of the old chain, and mmu_private is i_size. |
| Inodes.Inode.WriteBegin | myfat/example/inode.c:149-158 | Before data goes behind the allocated size, that size moves up to the end of its block, which takes no further cluster; so the next block can be allocated. |
| Inodes.RoundedUnits | myfat/example/inode.c:390-391 | i_blocks of a file just opened counts its clusters. |
| Inodes.Inode.Grow | myfat/example/inode.c:76-104 | The block behind the allocated size gets a cluster when it starts one; the extent is what was asked for or the rest of the cluster, whichever is shorter; neither BUG_ON fires; fails exactly when a cluster is needed and none is free. |
| Inodes.Inode.GetBlock | myfat/example/inode.c:57-107 | Maps an allocated block without change, with an extent that ends at the first of three: what was asked for, the end of the cluster, the end of the file (or of what is allocated, behind that); behind the end maps nothing, or allocates the next block with an extent up to the end of its cluster; -EIO exactly when the block is not the one behind the allocated size, -ENOSPC exactly when no cluster is free. |
| Inodes.CutLive | myfat/example/file.c:386-408 | Cutting one file keeps all live chains well formed and leaves the rest unowned. |
| Inodes.AppendLive | myfat/example/misc.c:105-121 | Appending an unowned chain keeps all live chains well formed and disjoint. |
| Sessions.OpenFile | myfat/example/inode.c:346-405 | A file whose directory entry agrees with the FAT, or a new empty one, joins the open ones; the log goes on. |
| Sessions.NewFiles | myfat/example/inode.c:346-405 | From a volume just mounted, any number of new files can be opened. |
| Sessions.Step | myfat/example/inode.c:57-107 | Any call keeps every open file valid, the copies in step and the free count right; the log grows by right snapshots that hold the same files, and all but the one named keep their chains in all of them. |
| Sessions.Run | myfat/example/file.c:423-441 | Every sequence of calls: the log is complete up to the present state; at each FAT entry write the chain of every file is in range, acyclic, EOF-terminated and disjoint from all others; from write to write one entry and one file change, by a cut, an append or not at all; files no call names keep their chains; copies agree; free_clusters, once valid, is the number of free entries. |
| Sessions.ExtentsApart | myfat/example/cache.c:330-340 | Extents handed out for open files never overlap: a volume block belongs to one block of one file. |
| Mapping.BlockInside | myfat/example/fat.h:196-200 | Every mapped block lies in the data area. |
| Mapping.Extent | myfat/example/cache.c:330-340 | Inside an extent, sector + k maps to phys + k. |
| Mapping.FilesShareNoBlock | myfat/example/fat.h:196-200 | Distinct (file, sector) pairs on disjoint chains never share a block of the volume. |
| Mapping.SlotRange | myfat/example/dir.c:99-108 | Neighbouring directory entries inside a block are neighbours in the directory, and nothing else is. |
| Mounting.FillSuper | myfat/example/inode.c:1293-1447 | Which boot sectors are accepted, and the layout computed in unsigned arithmetic for 32- and 64-bit longs; what that layout means is in the following rows. |
| Mounting.CountGreatest | myfat/example/inode.c:1430-1447 | The number of clusters is the greatest that fits behind the start of the data area and into the FAT, whenever the data area starts on the volume, the FAT has two entries and its bits can be counted. |
| Mounting.KindByRoom | myfat/example/inode.c:1374-1438 | 32 bits where only the long length field is used; else 12 bits exactly on a volume without room for 4085 clusters. |
| Mounting.BmapRoot | myfat/example/cache.c:305-313 | The blocks mapped for the root directory of FAT12 and FAT16 are exactly those between the FAT copies and the data area. |
| Mounting.SoundIff | myfat/example/inode.c:1418-1447 | The root directory starts where the FAT copies end and the data area where the entries of the root directory end, the clusters lie on the volume and their entries in the FAT, exactly when the data area starts inside the volume and the FAT has room for two entries (or for the few clusters there are); the driver checks neither. |
| Mounting.EmptyFatPasses | myfat/example/inode.c:1440-1447 | A boot sector whose FAT has no length is accepted, with 98 clusters, although none has an entry. |
| Mounting.ShortVolumePasses | myfat/example/inode.c:1430-1447 | A boot sector whose data area begins behind the end of the volume is accepted, with 254 clusters there. |
| Mounting.ClustersLegal | myfat/example/inode.c:1443-1450 | Every cluster number can be stored as a link, except when a FAT32 volume has the greatest accepted number of clusters. |
| Mounting.MostClustersPass | myfat/example/inode.c:1443-1450 | A FAT32 boot sector with that greatest number of clusters is accepted, and its last cluster cannot be stored as a link. |
| Mounting.MountVolume | myfat/example/inode.c:1448-1458 | A sound layout, with or without clusters, gives a valid volume with the root directory right behind all FAT copies, the data area right behind the root directory and all clusters on the device. |
| CacheSteps.StepCounts | myfat/example/cache.c:134-177 | After each critical section nr_caches is list length plus adders that wait for memory; a victim is missing exactly when eight adders wait. |
| CacheSteps.EightAddersAreSafe | myfat/example/cache.c:134-177 | Over all interleavings with at most eight adders, lookups and invalidations: eviction finds a victim, the count is right, the runs are distinct. |
| CacheSteps.NineAddersAreNot | myfat/example/cache.c:157-161 | Nine concurrent adders reach an eviction from an empty list. |
| CacheSteps.AloneIsAddRun | myfat/example/cache.c:134-177 | An add that nothing interrupts is the add of the sequential cache. |
| CacheSteps.StepCoherent | myfat/example/cache.c:117-177 | While the chain stands still, no interleaving meets the BUG_ON and every run stays right. |
| CacheSteps.QuietRunsSucceed | myfat/example/cache.c:117-177 | So whole runs succeed and end with a right cache. |
| CacheSteps.InvalidationCompleteIff | myfat/example/cache.c:183-201 | After an invalidation the cache is right for every chain the file may have then, if and only if no adder waits for memory. |
| CacheSteps.OutdatedIsDropped | myfat/example/cache.c:140-144 | A run seen before an invalidation is dropped when it is added with its generation, whatever else has happened, unless all generations have gone by. |
| CacheSteps.UndatedIsTaken | myfat/example/cache.c:209-215 | A run whose walk began at the first cluster, or had left the cached run, carries no generation and is taken in after an invalidation as before. |
| CacheSteps.RunsAcrossInval | myfat/example/cache.c:134-201 | Any steps over one chain, an invalidation through which no adder waits, and any steps over another chain end well with a right cache; of the runs that are dropped for their generation nothing is asked. |
| CacheSteps.WaitingRunsCanConflict | myfat/example/cache.c:145-155 | Whichever run an adder waits with during an invalidation, since its id is not looked at again another adder can bring in a run with which it meets the BUG_ON. |
| CacheSteps.InvalidationMissesTheWindow | myfat/example/cache.c:145-155 | Such a run of steps from an empty cache. |
| LongNames.PadName | myfat/example/namei_vfat.c:563-576 | Pads to whole slots with one NUL and 0xFFFF, and not at all for multiples of 13. |
| LongNames.CharsFillSlot | myfat/example/dir.c:310-312 | The 13 characters of a slot stand in increasing order and fill all bytes but id, attributes, type, checksum and cluster. |
| LongNames.ChecksumTellsAlias | myfat/example/fat.h:185-194 | Aliases that differ in one byte have different checksums. |
| LongNames.BuildSlots | myfat/example/namei_vfat.c:623-640 | The slots hold the parts last first, with the checksum, only the first has the flag bit, and type and cluster are zero. |
| LongNames.BuiltRunAccepted | myfat/example/dir.c:292-337 | Slots so built are a complete run wherever they stand, and their characters read back. |
| LongNames.CopyRun | myfat/example/dir.c:292-327 | The slot loop succeeds exactly on a complete run of matching slots, and fills in its characters; otherwise it ends at the first entry that does not continue the run, which a slot makes a restart and any other entry the end of the parse, or at the end of the directory. |
| LongNames.EndsOnce | myfat/example/dir.c:288-337 | How a pass ends is decided by the directory: these ways exclude one another. |
| LongNames.Restarted | myfat/example/dir.c:323-331 | Where a slot breaks a run off, or follows a complete one, the outcome is that of parsing from that slot. |
| LongNames.RunFound | myfat/example/dir.c:323-331 | A complete run behind slots that an earlier name has left is found, with its slot count and its 8.3 entry. |
| LongNames.FlagEndsText | myfat/example/dir.c:314-315 | A flag bit on a later slot ends the name that is read. |
| LongNames.ParseLong | myfat/example/dir.c:278-337 | On any directory: the restarts lead to one place, and the status is what the entries there say: success exactly on a complete run followed by a usable entry, whose characters are copied; PARSE_EOF only where the directory ends inside a run; PARSE_NOT_LONGNAME only on an entry that is no slot; PARSE_INVALID where no run starts or an unusable entry follows one. |
| LongNames.BuildEntry | myfat/example/namei_vfat.c:616-655 | Slots and 8.3 entry hold the name wherever they are put. |
| LongNames.ParseName | myfat/example/dir.c:278-337 | From the first slot of a stored name the parser recovers that name, the slot count and the 8.3 entry. |
| LongNames.StoreAndParse | myfat/example/namei_vfat.c:563-655 | Round trip for every name of 1 to 256 characters without NUL, in any directory. |
| ShortNames.Scan | myfat/example/dir.c:939-956 | The first 8.3 entry of that name, or -ENOENT exactly when there is none. |
| ShortNames.ToShortnameChar | myfat/example/namei_vfat.c:256-298 | The bytes and flags of one character. |
| ShortNames.AliasBytes | myfat/example/namei_vfat.c:190-199 | Dots and blanks go, six characters become underscores, all others are kept in upper case, so that every byte is one an 8.3 name may have. |
| ShortNames.SplitName | myfat/example/namei_vfat.c:324-357 | The last dot separates the extension, unless it ends the name or only dots and blanks come before it. |
| ShortNames.BuildBase | myfat/example/namei_vfat.c:359-384 | The first eight bytes of the mapped base; the tail positions are the greatest ones that split no character; the short form is possible exactly when the whole base fits unaltered. |
| ShortNames.BuildExt | myfat/example/namei_vfat.c:389-412 | The first bytes of the mapped extension, as many as three bytes hold of whole characters, and whether that is all of it, unaltered. |
| ShortNames.ExtOnce | myfat/example/namei_vfat.c:389-412 | There is one such extension only. |
| ShortNames.StepReaches | myfat/example/namei_vfat.c:478-484 | Stepping by 11 visits every 16-bit value: the step count is given by the inverse 35747. |
| ShortNames.HexReads | myfat/example/namei_vfat.c:479 | The four digits of an alias are capital hexadecimal digits and read as its number. |
| ShortNames.DigitPlace | myfat/example/namei_vfat.c:450-463 | Where tilde and digit of a short tail stand, and what else of the name changes. |
| ShortNames.HexPlace | myfat/example/namei_vfat.c:470-481 | Where the digits, tilde and last digit of a long tail stand, behind which bytes of the base. |
| ShortNames.SearchEndsIffSomeFree | myfat/example/namei_vfat.c:478-484 | The unbounded loop ends if and only if some hexadecimal alias is free. |
| ShortNames.SomeAliasFree | myfat/example/namei_vfat.c:478-484 | In a directory of fewer than 65536 entries one is. |
| ShortNames.SmallHasTail | myfat/example/namei_vfat.c:454-485 | So wherever a tail is looked for there is a free one. |
| ShortNames.AllTailsTaken | myfat/example/namei_vfat.c:454-485 | For every name there is a directory of 65545 entries that leaves no tail, so that the search never ends. |
| ShortNames.SearchHex | myfat/example/namei_vfat.c:470-484 | The first free alias in the order of the search. |
| ShortNames.SearchDigit | myfat/example/namei_vfat.c:459-468 | The first free one of the tails ~1 to ~9, if any. |
| ShortNames.AddTail | myfat/example/namei_vfat.c:459-485 | The first free alias of all; it has eleven bytes and keeps the extension. |
| ShortNames.CreateShortname | myfat/example/namei_vfat.c:306-486 | -EINVAL exactly for an empty base, -EEXIST exactly when the plain form fits and is taken; else an eleven-byte name absent from the directory: the plain form, or the first free alias with its tail inside the base; its last three bytes are the first bytes of the extension, as many as hold whole characters, and blanks. |
| ShowNames.PrintShort | myfat/example/dir.c:572-629 | The characters a listing shows for an 8.3 entry. |
| ShowNames.PartShows | myfat/example/dir.c:572-629 | A part that holds characters of one or more bytes each, and then blanks, is shown as these characters. |
| ShowNames.OptionsShow | myfat/example/dir.c:232-251 | The option lower shows any entry as if both case bits were set, and win95 as if none was. |
| ShowNames.LowerShowsName | myfat/example/dir.c:232-251 | Under lower a name without capitals shows as it is, whatever its case bits. |
| ShowNames.EscapeUndone | myfat/example/dir.c:573-575 | Reading undoes the escape of a first byte 0xE5. |
| ShowNames.FlagsMean | myfat/example/namei_vfat.c:256-298 | A set case flag means that every letter was in that case and every character was one byte. |
| ShowNames.FlagsExact | myfat/example/namei_vfat.c:256-298 | The flags are set exactly for parts whose characters all go in unaltered, and of these for those of single bytes below 0x7F without small letters, or without capitals. |
| ShowNames.AliasShowsName | myfat/example/namei_vfat.c:426-448 | If vfat_create_shortname says no long name is needed, the alias with its case bits shows as exactly the name asked for. |
| DosNames.FormatName | myfat/example/namei_msdos.c:19-116 | The 8.3 form of a name, or -EINVAL, for all checks and options. |
| DosNames.RefusedChars | myfat/example/namei_msdos.c:15-54 | Which characters are refused under which check, in the driver's own lists. |
| DosNames.LongBaseIsCut | myfat/example/namei_msdos.c:72-82 | What follows the eighth character of a base is dropped and the extension behind it found all the same; in strict mode the name is refused. |
| DosNames.LongExtIsCut | myfat/example/namei_msdos.c:86-114 | What follows the third character of an extension is dropped; in strict mode the name is refused. |
| DosNames.CaseMakesNoName | myfat/example/namei_msdos.c:40-116 | Capitals and small letters make the same name, but in strict mode or with nocase. |
| DosNames.CasesMeet | myfat/example/dir.c:576-592 | Letters are capitals on disk and small in listings, unless nocase leaves them alone. |
| DosNames.FormatIsCanonical | myfat/example/namei_msdos.c:19-116 | Every accepted name comes out as a nonempty base and an extension that end in no blank, padded, and of characters that read back. |
| DosNames.PrintName | myfat/example/dir.c:564-626 | How a listing shows an 8.3 entry with single-byte characters. |
| DosNames.PrintThenFormat | myfat/example/namei_msdos.c:19-116 | Formatting what is shown for an entry gives that entry again, for every accepted name and all options. |
| DirSearch.SearchIsRight | myfat/example/dir.c:1253-1285 | Going on from any position, the search finds the lowest run of free entries, else the free end of the directory. |
| DirSearch.SearchExact | myfat/example/dir.c:1253-1285 | The outcome of the search is the one place with that property, or the size limit. |
| DirSearch.AddThenRemove | myfat/example/dir.c:960-1041 | Deleting what was added leaves the entries in use as they were and the others free. |
| DirSearch.AddedKeeps | myfat/example/dir.c:1288-1326 | Adding overwrites free entries only. |
| Directories.Directory.GetEntry | myfat/example/dir.c:114-126 | The next entry of the directory, through the open buffer or a fresh block; nothing behind the end. |
| Directories.Directory.ThreeBlocks | myfat/example/dir.c:1245 | At most 21 entries touch at most three blocks. |
| Directories.Directory.Collect | myfat/example/dir.c:1264-1271 | The blocks collected are those of the free run; the array of three never overflows. |
| Directories.Directory.SearchFree | myfat/example/dir.c:1253-1285 | The block-wise loop computes the search, and knows the blocks of the run. |
| Directories.Directory.FillFree | myfat/example/dir.c:1293-1326 | The run is overwritten by the slots in order, block after block; the directory shows one more block of them after each; no other block changes. |
| FillOrder.OneBlockEach | myfat/example/dir.c:1303-1312 | From one of these views to the next only the entries of one block change. |
| FillOrder.LastEntryLast | myfat/example/dir.c:1295-1322 | The short name appears with the last block only, and then the run is complete. |
| Directories.Directory.ZeroedCluster | myfat/example/dir.c:1047-1094 | Exactly the unused blocks of the new cluster become zero; the buffer array never overflows. |
| Directories.Directory.FillClusters | myfat/example/dir.c:1187-1217 | The new clusters hold the slots and then zeros; the short name is where the caller is told. |
| Directories.Directory.NewClustersFit | myfat/example/dir.c:1176-1183 | One or two clusters are needed, two only where a cluster is one block: the BUG_ON never fires. |
| Directories.Directory.AddNewEntries | myfat/example/dir.c:1161-1238 | New clusters filled before they are linked, or -ENOSPC exactly when too few are free; nothing of the directory or of any file changes. |
| Directories.Directory.Extend | myfat/example/dir.c:1328-1353 | The directory grows by exactly those clusters, its size with it. |
| Directories.Directory.AddEntries | myfat/example/dir.c:1241-1373 | Exact splice: the slots in order at the place the search gives, zeros behind them in new clusters, no other entry and no block of another chain changed; the views in between; which error occurs when; on error entries in use are untouched. |
| Directories.Directory.MarkBack | myfat/example/dir.c:1012-1016 | The part of the entry in the last block is marked, backwards. |
| Directories.Directory.RemoveSlots | myfat/example/dir.c:960-992 | Marks exactly the range, whichever blocks it spans. |
| Directories.Directory.RemoveEntries | myfat/example/dir.c:995-1041 | Marks exactly the slots and the short name as deleted. |
| VfatEntries.BuildAll | myfat/example/namei_vfat.c:581-657 | Which error the name gets; else the slots built for it, if its alias does not tell it all, and the 8.3 entry: with the alias chosen, which no entry has, the case bits that stand in for a long name, and kind, cluster and times as given; where no long name is stored, listings show the name asked for. |
| VfatEntries.BadChars | myfat/example/namei_vfat.c:182-188 | Control characters and nine others are refused. |
| VfatEntries.MakeEntry | myfat/example/namei_vfat.c:643-653 | Read back from its bytes, the entry is an empty file or directory of the given cluster, created, written and read at the stamp of the given time. |
| VfatEntries.DescribesMeans | myfat/example/namei_vfat.c:647-650 | In range, the times read back are the given one to 10 ms for the creation and to two seconds for the last write. |
| VfatEntries.EntryShows | myfat/example/namei_vfat.c:616-620 | Where no long name is stored the listing shows the very name, in every matching character set. |
| VfatEntries.AddEntry | myfat/example/namei_vfat.c:659-693 | The error of the name, or else exactly that of finding or making room; on error entries in use are untouched; else the slots stand where the search says, the last of them the 8.3 entry for that name, cluster and time. |
| VfatEntries.AddedMeans | myfat/example/namei_vfat.c:659-693 | Then no entry in use has changed, there is one more 8.3 entry, and the long name can be parsed from where it was put. |
| Timestamps.DaysBeforeYearFormula | myfat/example/misc.c:164-199 | The day arithmetic is that of the Gregorian calendar from 1980 to 2107, 2100 included. |
| Timestamps.CivilToUnixMeaning | myfat/example/misc.c:177-210 | The seconds computed are those of the calendar date and time. |
| Timestamps.CivilToUnixAny | myfat/example/misc.c:177-210 | Of any fields at all: a month or day of zero counts as one, days beyond a month run on, and months that do not exist start like January, a day later in leap years. |
| Timestamps.ZeroStamp | myfat/example/misc.c:177-210 | A stamp of all zeros is the beginning of 1980. |
| Timestamps.CivilDateMeaning | myfat/example/misc.c:240-262 | Splitting a day number gives the one valid date with that number. |
| Timestamps.TimeUnix2Fat | myfat/example/misc.c:213-269 | The stamp of the reference function, with the saturation at both ends. |
| Timestamps.Unix2FatMeaning | myfat/example/misc.c:213-269 | In range, the stamp is that of the calendar moment, with the odd second and hundredths in cs. |
| Timestamps.ExtremesMeet | myfat/example/misc.c:222-238 | The stamps for times out of range are those of the first and the last moment in range. |
| Timestamps.FatRoundTrip | myfat/example/misc.c:177-269 | Every valid stamp survives the way to Unix time and back. |
| Timestamps.UnixRoundTrip | myfat/example/misc.c:177-269 | Unix time survives up to 10 ms with cs and up to two seconds without. |
| Timestamps.Unix2FatMonotone | myfat/example/misc.c:213-269 | Later times give stamps that are not earlier, saturation included. |
| SimpleFat.AllBytesIffGood | myfat/simplefat/inode.c:1531-1606 | The bytes before the first bad block are all bytes exactly when no block of the transfer is bad. |
| SimpleFat.StopsAtBad | myfat/simplefat/inode.c:1531-1606 | Otherwise they are the bytes before the first bad block. |
| SimpleFat.SfatVolume.WriteBlock | myfat/simplefat/inode.c:1540-1545 | Writing one block is overwriting one stretch of the flat volume. |
| SimpleFat.SfatVolume.WriteCluster | myfat/simplefat/inode.c:1501-1611 | Exactly the bytes before the first bad block are in place and nothing else has changed; there is an error if and only if a block of the transfer is bad. |
| SimpleFat.SfatVolume.ReadCluster | myfat/simplefat/inode.c:1833-1901 | What is read is the stretch of the flat volume before the first bad block; there is an error if and only if a block of the transfer is bad. |
| SimpleFat.SfatVolume.Start | myfat/simplefat/sfat.h:93-96 | Block and offset of a position in a cluster, and that the whole transfer lies on the volume. |
| SimpleFat.SfatVolume.ClustersTile | myfat/simplefat/sfat.h:93-96 | The clusters follow one another from the start of the data area on. |
| SimpleFat.SfatVolume.ClustersApart | myfat/simplefat/sfat.h:93-96 | Transfers inside different clusters have no byte in common. |
| SimpleFat.SfatVolume.WriteThenRead | myfat/simplefat/inode.c:1833-1901 | Reading with the same arguments gives back what was written. |

## Left out

- Mounting.BmapRoot: of the fixed root directory of FAT12 and FAT16 only where its blocks lie; `Directory` works on chains of clusters, and the -ENOSPC for a full fixed root is not modelled.
- Volumes.Volume.FreeClusters: promises agreement of the FAT copies and complete discards on success only; the error exits (`myfat/example/fatent.c:560-566`) skip both.
- Volumes.Volume.constructor: the `usefree` option, which trusts the free count on disk, is left out.
- Volumes.Volume.AllocClusters: at most four clusters at once, since the source's BUG_ON allows half of `MAX_BUF_PER_PAGE`.
- Sessions.Run: regular files only, with i_size never set beyond the allocated size (what the write path does); directories are changed one call at a time by `Directory`.
- Sessions.OpenFile: requires that the directory entry agrees with the FAT; the driver takes it as it is.
- Inodes.Inode.WriteBegin: only what `cont_write_begin` does to `mmu_private`; the page cache is not part of this model.
- Inodes.Inode.CacheAdd: sequential; interleavings are in `CacheSteps`, on values, and freshness of cached runs under concurrency is not claimed.
- CacheSteps.StepCounts: memory allocation succeeds, as the source assumes by not testing its result.
- CacheSteps.RunsAcrossInval: asks that runs without a generation that enter after the invalidation are of the new chain, which the driver does not see to (`CacheSteps.UndatedIsTaken`).
- ShortNames.CreateShortname: the directory is a sequence of entries, so that `fat_scan`'s block-wise reading is not repeated here; the character set is a parameter; 8.3 names are compared over all eleven bytes, where `strncmp` stops at a NUL that names do not contain.
- ShowNames.AliasShowsName: single-byte characters whose cases match, and not the display option "lower", for which see `ShowNames.LowerShowsName`.
- DosNames.PrintName: characters of more than one byte are left out.
- LongNames.ParseLong: the directory is a sequence of entries; the page for the name buffer is always there.
- VfatEntries.AddEntry: begins with the name in Unicode, so that stripping trailing dots and `xlate_to_uni`'s conversion are left out, as are dcache, rename and permissions; the directory is read once into a sequence for the alias search; the time and the time zone are parameters.
- Directories.Directory.constructor: the entries of a directory are kept in an array of their own, apart from the bytes of the FAT copies; that the two areas do not overlap is what `Mounting.MountVolume` promises; clusters of at most half a megabyte, and a file size limit as the mount sets it; creating the "." and ".." entries is left out.
- Directories.Directory.AddEntries: DIRSYNC, and with it synchronous writes that fail, is left out.
- SimpleFat.SfatVolume.WriteCluster: the rest of the small driver is unfinished, and multi-cluster transfers are left out.
- `fat_search_long` and the rest of `__fat_readdir`: they put together parsing, printing and name comparison.
- Buffer reference counts, dirty flags, readahead, page cache, locking, time stamps of inodes, UTF-8 and NLS tables, mount options, ioctl and the VFS registration.
