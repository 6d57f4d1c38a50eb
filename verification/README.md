# mipOS in Dafny

A model of four parts of mipOS, and proofs about them.

- **The FAT file system** (`fatfs/ff.c` as configured by `fatfs/ffconf.h`: no exFAT, no long names, 512-byte sectors,
  code page 932). `FatMount` finds a boot sector and turns it into a geometry. `FatVolume` keeps a write-back window
  over a device that may fail at any time, reads and writes entries of FAT12, FAT16 and FAT32 tables through it, and
  allocates and frees cluster chains. `FatFile` is an open file with a private sector buffer and direct transfers of
  whole sectors. `FatNames` reads and prints file names. `FatRuns` puts whole runs together.
- **The heap** (`mipos/mipos_malloc.c`, 64-bit build). `Heap` keeps two doubly linked lists of descriptors inside one
  arena, with exact or worst fit, splitting at the tail and compaction on demand. `HeapRuns` is about whole runs.
- **The kernel** (`mipos/mipos_kernel.c`, `mipos/mipos_kernel.h`, `mipos/mipos_task.c`, `mipos/mipos_queue.c`).
  `KernelState` is the scheduler with its tasks and message queues as a state machine, `Kernel` and `KernelQueue` are
  the code that works on the task table and on the ring of a queue in place, step by step the same. `KernelRuns` and
  `KernelWakeups` are about whole runs: contexts, fairness, wake-ups, queues. `KernelHistory` tells what runs come to by
  their events: messages, tasks that come and go, the clock.
- **The tiny file system** (`mipos/mipos_tfs.c`). `Tfs` keeps a table of clusters, their bytes and the file descriptors.
  `TfsRuns` is about whole runs.

What each part is about:

- A file on a FAT volume is a byte sequence with a cursor and a capacity, whatever the buffers hold
  (`FatRuns.PerformAll`), and chains of clusters stay disjoint and account for all the space in use
  (`FatRuns.ServeAll`).
- The heap never refuses a request it could meet by merging free blocks, and refuses exactly the others
  (`Heap.Arena.Alloc`); what it hands out belongs to its owner until it is freed (`HeapRuns.RunAll`).
- The scheduler never panics and never resumes a context that was not saved (`KernelRuns.ContextsSound`), every task
  that can run gets its turn (`KernelRuns.FairWithinRound`), a task with a pending signal it waits for is woken
  (`KernelWakeups.WokenInRun`), and messages come out of a queue as they went in (`KernelHistory.FirstInFirstOut`).
- The tiny file system is a shelf of byte sequences, keeps every cluster free or in exactly one chain, and returns what
  was written (`TfsRuns.RunAll`, `TfsRuns.ReadBack`).

Where the code does less than its comments suggest, the model follows the code:

- An allocation of more than 2^64 - 4 bytes is rounded to 0 and can succeed with a block that is too small; the contract
  of `Heap.Arena.Alloc` says exactly when, and `HeapRuns.Oversized` shows it.
- A write of the tiny file system that overwrites a file from before its end to beyond it stops at the end if the file
  fills its last cluster (`TfsState.Stops`, `TfsRuns.OverwriteStops`).
- A write of the tiny file system leaves a chain that the descriptor of the file does not describe if it runs out of
  clusters (`TfsRuns.OutOfClusters`), goes to a file that was deleted and unlocked since (`TfsRuns.StaleHandle`), or
  writes no bytes at the end of a full chain (`TfsRuns.WritesNothing`), and in no other case (`Tfs.FileSystem.Write`). A
  deleted file is unlocked by a read or write that fails on it.
- A read of the tiny file system goes beyond the end of the file, up to the end of its last cluster, exactly if that is
  not full and the position asked for wraps 32 bits to one inside the file (`TfsState.BeyondEnd`,
  `TfsRuns.ReadsBeyond`).
- A real-time sleep whose wake-up time is 0 modulo 2^64 never ends on its own (`KernelWakeups.SleepCall`,
  `KernelWakeups.SleepsForGood`), and a wait for 2^31 visits or more is over at the first one
  (`KernelWakeups.WakeAfterCall`).
- A task that freezes itself and then waits is thawed (`KernelWakeups.SelfFreezeLost`, `KernelWakeups.FrozenStep`).
- Of the signals posted to a task between the visit that wakes it and its resumption, those it waited for are dropped
  unseen, and only those (`KernelWakeups.LateSignals`, `KernelWakeups.SecondSignalGone`).
- A queue whose recorded receiver was deleted never lets a task block again (`KernelRuns.OrphanedForGood`,
  `KernelRuns.OrphansByDeletion`, `KernelRuns.OrphanReached`).
- A parameter block whose areas add up to more than 2^32 sectors can be accepted (`FatMount.HugeFatsAccepted`).

Conventions. A device is a sequence of sectors; every read or write of it may fail, and a failed write may leave any
content in the sectors it was for, unless the volume is declared reliable. `Times`, `Quot` and `Rem` are multiplication,
division and remainder (`FatDisk.TimesIsProduct`, `FatDisk.QuotIsDiv`), written as recursive functions. The predicates
`Unfold`, `Look` and `Glance` of `Hiding` are always true; they guard quantified facts so that these are used only where
the name is mentioned. The number of tasks, and those of clusters and files of the tiny file system, are constants
without a value, so that everything is proved for any number of them; its clusters have 32 bytes. The status word of a
task is modelled as one base status and a frozen bit, a signal mask as eight truth values. The saved context of a task
is the place in the kernel where it gave up control.

## Model

| member | source | states |
|---|---|---|
| `FatEntries.StoredEntry` | fatfs/ff.c:1304-1364 | after storing v, entry c of a FAT12, FAT16 or FAT32 table reads v cut to the entry width, and every other entry, also the FAT12 neighbour that shares a byte and the reserved bits of FAT32, is as before |
| `FatEntries.EntryBytes` | fatfs/ff.c:1221-1250 | in the bytes of a table two 12-bit entries, the first one lower, are the number in three bytes, a 16-bit entry is the number in two, and a 28-bit entry below its four reserved bits that in four, lowest byte first |
| `FatEntries.PairOnDisk` | fatfs/ff.c:1221-1233 | so every pair of FAT12 entries is the number in three bytes of the FAT sectors on disk, wherever a sector ends |
| `FatEntries.EntryOnDisk` | fatfs/ff.c:1235-1250 | and every FAT16 and FAT32 entry that in two and four bytes |
| `FatEntries.StoredInHalves` | fatfs/ff.c:1318-1336 | storing a FAT12 entry byte by byte, possibly in two sectors, is the same as storing it at once |
| `FatEntries.Stored12At` | fatfs/ff.c:1318-1336 | after a FAT12 store every entry of the table, the neighbours that share a byte included, reads the stored value cut to 12 bits if it is the stored one, and what it read before otherwise |
| `FatEntries.Stored32At` | fatfs/ff.c:1347-1360 | after a FAT32 store every entry reads the stored value cut to 28 bits or what it read before, and the top four bits of every entry, the stored one included, are as before |
| `FatEntries.EntryInTable` | fatfs/ff.c:1221-1250 | the two or four bytes of every entry below the number of entries lie inside the table |
| `FatEntries.WordEntry` | fatfs/ff.c:1235-1241 | the 16-bit field found in the sector and at the offset the driver computes is the entry of the table |
| `FatEntries.DwordEntry` | fatfs/ff.c:1243-1250 | the 32-bit field found in the sector and at the offset the driver computes, without its top four bits, is the entry of the table |
| `FatEntries.TiedWritten` | fatfs/ff.c:1089-1140 | data sectors written past the window change the same sectors of the logical disk and leave the table it holds |
| `FatVolume.Volume.SyncWindow` | fatfs/ff.c:1089-1113 | whatever the device does, the logical disk (device overlaid by a dirty window) is unchanged; on success the window is clean; without failures equal FAT copies stay equal |
| `FatVolume.Volume.MoveWindow` | fatfs/ff.c:1117-1140 | whatever the device does, the logical disk is unchanged; on success the window shows the wanted sector |
| `FatVolume.Volume.GetFat` | fatfs/ff.c:1203-1296 | the value of the entry, which is the number its bytes on disk make (`FatEntries.PairOnDisk`, `FatEntries.EntryOnDisk`), 1 for a number that is no cluster, or the error value only on an unreliable device; the logical disk and the table stay |
| `FatVolume.Volume.PutFat` | fatfs/ff.c:1304-1364 | on success the table has the value, cut to the entry width, at that cluster and is otherwise the same, and nothing outside the first FAT copy changes |
| `FatVolume.Volume.CreateChain` | fatfs/ff.c:1643-1763 | returns the existing successor, or links exactly one cluster that was free behind the end of a chain, the next one if that is free and else the first one behind the cluster taken last, or 0 only when no cluster is free, 1 only for a broken table; keeps the free count right and the FAT copies equal |
| `FatVolume.Volume.Choose` | fatfs/ff.c:1655-1744 | returns a free cluster if there is one: right behind the end of the chain if possible, and else the first one behind the hint, going round once |
| `FatVolume.Volume.FindFree` | fatfs/ff.c:1726-1744 | the wrap-around search ends for every hint and returns 0 only when no entry from 2 on is free |
| `FatVolume.Volume.RemoveChain` | fatfs/ff.c:1525-1637 | frees the clusters reached from the given one and ends the chain before it; ends on every table; reports an internal error exactly when a link leads to the reserved value 1; keeps the free count right |
| `FatVolume.Volume.FreeLinks` | fatfs/ff.c:1554-1599 | the loop over links ends on every table and frees exactly what following the links frees |
| `FatVolume.Volume.GetFree` | fatfs/ff.c:5258-5355 | returns the count kept, or counts: for FAT12 entry by entry, else sector by sector; the result is the number of free clusters if entries 0 and 1 are not zero |
| `FatVolume.Volume.ScanSectors` | fatfs/ff.c:5325-5346 | the raw scan of FAT16 and FAT32 sectors counts the zero entries of the table, entries 0 and 1 included |
| `FatDisk.ClusterInData` | fatfs/ff.c:1186-1196 | every sector of every cluster lies in the data region and in no FAT copy |
| `FatDisk.ClustersDisjoint` | fatfs/ff.c:1186-1196 | different clusters share no sector |
| `FatDisk.MirrorAfterReflect` | fatfs/ff.c:1100-1108 | FAT copies that differ in one sector are equal once that sector is copied |
| `FatChains.ChainIsSimple` | fatfs/ff.c:1643-1763 | a chain that ends visits no cluster twice |
| `FatChains.ChainIsUnique` | fatfs/ff.c:1203-1296 | the table and the first cluster fix the chain |
| `FatChains.StretchKeepsWellFormed` | fatfs/ff.c:1745-1749 | linking a free cluster behind a chain keeps all chains finite, simple and disjoint |
| `FatChains.NewKeepsWellFormed` | fatfs/ff.c:1745-1749 | a free cluster marked as an end is a new chain disjoint from the others |
| `FatChains.RemovedChain` | fatfs/ff.c:1554-1599 | following the links of a chain and freeing them frees its clusters and nothing else |
| `FatChains.CutChain` | fatfs/ff.c:1525-1637 | cutting a chain behind its first p clusters leaves them as a chain and frees exactly the rest |
| `FatChains.CutKeepsWellFormed` | fatfs/ff.c:1525-1637 | cutting a chain keeps all chains finite, simple and disjoint |
| `FatChains.DropKeepsWellFormed` | fatfs/ff.c:1525-1637 | removing a whole chain keeps the others |
| `FatChains.SearchMeans` | fatfs/ff.c:1726-1744 | the search as a function returns the first free cluster behind its start, going round, if there is one, and 0 only if there is none |
| `FatChains.ZerosCount` | fatfs/ff.c:5258-5330 | the count of free clusters is the number of entries that are 0 |
| `FatChains.ChainFollows` | fatfs/ff.c:4262-4300 | the k-th cluster of a chain is what following k links leads to |
| `FatDisk.ClusterSector` | fatfs/ff.c:1186-1196 | cluster c begins csize * (c - 2) sectors behind the start of the data region, and a number that is no cluster has no sector |
| `FatDisk.ClusterNumbers` | fatfs/ff.c:70-78 | cluster numbers fit into an entry and end right before the mark of a bad cluster, eight below the largest value of an entry |
| `FatDisk.TableSize` | fatfs/ff.c:3834-3858 | the table of n entries takes n times 12, 16 or 32 bits, rounded up to bytes |
| `FatDisk.FieldNumber` | fatfs/ff.c:743-762 | 16-bit and 32-bit fields are the numbers their bytes make, lowest byte first |
| `FatChains.TakenCount` | fatfs/ff.c:1752-1756 | taking a free cluster lowers the number of free clusters by one |
| `FatChains.CutCount` | fatfs/ff.c:1525-1637 | cutting a chain behind its first n clusters raises the number of free clusters by exactly the number cut off |
| `FatRuns.ServeAll` | fatfs/ff.c:1525-1763 | over any sequence of requests to start, stretch, cut and drop chains: chains stay disjoint, finite and simple, a cluster is in use exactly if a chain owns it, the free count is right, a request for a cluster adds one that no chain owned and is refused exactly if every cluster is owned, and in the end both FAT copies agree sector by sector |
| `FatRuns.AllOwnedIffNoneFree` | fatfs/ff.c:1643-1763 | when chains own all the space in use, no entry is free exactly if every cluster belongs to a chain |
| `FatRuns.ShrinkKeepsCovered` | fatfs/ff.c:1525-1637 | cutting a chain leaves no cluster in use that no chain owns |
| `FatRuns.DropKeepsCovered` | fatfs/ff.c:1525-1637 | removing a chain leaves no cluster in use that no chain owns |
| `FatRuns.StretchKeepsCovered` | fatfs/ff.c:1643-1763 | stretching a chain leaves no cluster in use that no chain owns |
| `FatMount.FoundIsLegal` | fatfs/ff.c:3781-3858 | an accepted parameter block whose areas can be added up in 32 bits gives reserved sectors, FAT copies, root directory and clusters one behind the other inside the volume, as many clusters as fit, of the kind that goes with their number, and FAT copies large enough; the geometry and the place of the root directory, the first cluster of it on FAT32, are given in terms of the bytes of the sector |
| `FatMount.LegalIsFound` | fatfs/ff.c:3781-3858 | every such volume is accepted, with exactly that geometry |
| `FatMount.LegalIsSane` | fatfs/ff.c:3781-3858 | such a geometry has everything the rest of the driver relies on |
| `FatMount.LegalIffNoWrap` | fatfs/ff.c:3791-3834 | every accepted block gives the geometry it lays out, with sector numbers below 2^32, if and only if its sums do not wrap |
| `FatMount.CheckFs` | fatfs/ff.c:3579-3612 | a sector is taken for the boot sector of a FAT volume exactly if it has the signature, a jump instruction and the name FAT or FAT32 |
| `FatMount.FindBoot` | fatfs/ff.c:3688-3714 | the boot sector is sector 0 if that is one, or else that of the first partition that starts with one; without any, the outcome is that of the last partition |
| `FatMount.Mount` | fatfs/ff.c:3688-3858 | what is mounted is what the parameter block of the boot sector found on the device lays out, given in terms of its bytes, and the driver can work with it unless its sums wrap; the outcome is told for every device |
| `FatMount.BootText` | fatfs/ff.c:3579-3612 | a boot sector has the bytes 55 AA at its end, a jump at its beginning, and FAT at 54 or FAT32 at 82 |
| `FatMount.PartitionBytes` | fatfs/ff.c:3693-3699 | a partition starts at the number in bytes 8 to 11 of its 16-byte entry, if byte 4 is not 0; the table begins at byte 446 |
| `FatMount.DisketteMounted` | fatfs/ff.c:3781-3858 | the boot sector of a 1.44 MB diskette gives 2847 clusters of FAT12, the root directory at sector 19 and the data at sector 33 |
| `FatMount.Fat32Mounted` | fatfs/ff.c:3781-3858 | the boot sector of a FAT32 volume gives 130812 clusters and the root directory in cluster 2 |
| `FatMount.MountSecond` | fatfs/ff.c:3688-3858 | a disk whose partition table has that volume as its second entry is mounted with it |
| `FatMount.HugeFatsAccepted` | fatfs/ff.c:3791-3834 | a concrete boot sector, with signature, jump and name, that is accepted although its sums wrap: the root directory is then taken to lie in the FAT |
| `FatMount.MountHugeFats` | fatfs/ff.c:3688-3858 | a device that starts with that sector is mounted |
| `FatNames.CreateName` | fatfs/ff.c:3317-3395 | the loop accepts exactly the segments the specification accepts, with the same eleven bytes and end-of-path flag |
| `FatNames.Characters` | fatfs/ff.c:3360-3386 | the illegal characters, separators, letters raised and bytes of two-byte characters, by the characters they are |
| `FatNames.PlainName` | fatfs/ff.c:3346-3395 | a body and an extension of letters and digits are accepted exactly if they have at most eight and three characters, and stand in upper case at the beginning of their blank-padded fields |
| `FatNames.EntryAt` | fatfs/ff.c:3388-3390 | the eleven bytes of an entry one by one, a first byte E5 stored as 05 |
| `FatNames.SlashInside` | fatfs/ff.c:3370-3376 | a two-byte character whose second byte is a backslash is part of the name |
| `FatNames.EntryText` | fatfs/ff.c:3021-3033 | the loop prints the text the specification gives |
| `FatNames.RoundTrip` | fatfs/ff.c:3021-3033 | for every accepted segment whose entry is not all blank, the printed text is accepted again and gives the same eleven bytes |
| `FatNames.PrintsRaised` | fatfs/ff.c:3021-3033 | the printed text is the segment with single-byte lower case raised and a dot at the end dropped |
| `FatNames.PrintEntry` | fatfs/ff.c:3021-3033 | an entry prints as body, dot and extension, with the 0xE5 and 0x05 exchange undone |
| `FatNames.FieldCanon` | fatfs/ff.c:3340-3384 | accepted parts consist of legal upper-case characters and complete two-byte characters |
| `FatFile.File.constructor` | fatfs/ff.c:4176-4191 | an open file is the bytes of its chain up to its size, found in the sectors that the links of the table lead to from its first cluster, with the cursor at 0 |
| `FatFileState.WhereByte` | fatfs/ff.c:4262-4340 | byte i of a file is byte i mod 512 of sector database + csize * (c - 2) + (i / 512) mod csize, where c is the cluster (i / 512) / csize links behind the first one |
| `FatFile.File.LimitBytes` | fatfs/ff.c:4340-4480 | the capacity of a file is that of the clusters it has or could have, csize * 512 bytes each |
| `FatFile.File.Read` | fatfs/ff.c:4238-4352 | returns exactly the bytes of the file from the cursor on, as many as there are up to the count asked for, despite a dirty buffer and direct transfers; the file stays the same |
| `FatFile.File.Write` | fatfs/ff.c:4360-4508 | replaces exactly the bytes from the cursor on by the bytes written, extends the size if need be and keeps all clusters of others; the number of bytes written is that asked for, up to the largest size and to the bytes of the clusters that the file has or that are free |
| `FatFile.File.Seek` | fatfs/ff.c:4911-5015 | the cursor is at the target, clipped for a file that cannot be written; a writable file grows up to it and stops short only behind its old bytes, at the end of a chain that has every free cluster; the bytes before stay, and the current cluster is the right one whether the walk began at the first cluster or at the current one |
| `FatFile.File.Truncate` | fatfs/ff.c:5362-5410 | the file is its bytes before the cursor, its chain as many clusters as they need, and the clusters behind are free |
| `FatFile.File.Sync` | fatfs/ff.c:4515-4590 | whether or not the file is in error, a changed file has its buffer and the window written back; the device itself then holds the bytes of a file that is not in error in its chain, in the sectors that the links of the table lead to |
| `FatFile.File.StartFrom` | fatfs/ff.c:4925-4949 | the cluster to start walking from, the current one or the first, is the right one for its position |
| `FatFile.File.Walk` | fatfs/ff.c:4950-4985 | walking follows or stretches the chain cluster by cluster up to the target, and stops short only at the end of a chain that has every free cluster |
| `FatFile.File.RoomUsed` | fatfs/ff.c:4403-4415 | the clusters of the file and the free ones together stay the same number, which bounds the file and is reached exactly if no cluster is free |
| `FatFile.File.TransferOut` | fatfs/ff.c:4441-4464 | a direct transfer of whole sectors keeps buffer and disk in agreement |
| `FatFile.File.RunIs` | fatfs/ff.c:4294-4318 | whole sectors read from the disk, with a dirty buffer in its place, are the bytes of the file |
| `FatFile.File.Settled` | fatfs/ff.c:4515-4590 | with a clean buffer the sectors of the chain on the device are the bytes of the file, also while the window is dirty |
| `FatFileState.OtherAfterWrite` | fatfs/ff.c:4441-4464 | writing sectors of the file leaves entry and data of every other cluster in use as they were |
| `FatFileState.Truncated` | fatfs/ff.c:5376-5403 | cutting the chain leaves a well-formed file and everything outside it untouched |
| `FatFileState.Stretched` | fatfs/ff.c:4403-4415 | a stretched chain holds the old sectors first and touches nothing outside |
| `FatFileState.ReadThrough` | fatfs/ff.c:4294-4318 | sectors read past a dirty buffer and patched with it are the sectors of the file |
| `FatFileState.OnDevice` | fatfs/ff.c:4515-4590 | the device holds the file although the window may still hold back other sectors |
| `FatRuns.PerformAll` | fatfs/ff.c:4238-5410 | every run of reads, writes, seeks, truncations and synchronizations on a device without failures is a run on a byte sequence with a cursor and a fixed capacity: reads return what is there, writes write all that fits, seeks go to the target or to the capacity; the number of clusters the file has or could have never changes, what other files hold stays, and when the last operation is a synchronization the device itself holds the bytes |
| `FatRuns.RunShape` | fatfs/ff.c:4238-5410 | the operations alone tell the length and the cursor at each step of a run |
| `FatRuns.ReadBack` | fatfs/ff.c:4238-5410 | in any run a read that begins where an earlier write began returns the bytes written, if no operation between touches them; where operations begin and what they touch is computed from the operations |
| `FatRuns.WriteSeekRead` | fatfs/ff.c:4238-5410 | seek, write, seek back and read returns what was written, whatever the file holds and wherever its cursor is, as long as there is room |
| `FatRuns.Persist` | fatfs/ff.c:4238-5410 | bytes that no step of a run touches are the same in the end |
| `Heap.Arena.constructor` | mipos/mipos_malloc.c:344-352 | one free block takes the whole arena |
| `Heap.Arena.Alloc` | mipos/mipos_malloc.c:386-408 | fails exactly for size 0 and when nowhere in the arena a descriptor and the rounded size fit into bytes of free blocks in a row, however these are cut into blocks; otherwise hands out a block that was free, with at most two descriptors of waste, and leaves other used blocks and free bytes as they were; the block is as big as asked for if and only if the size is at most 2^64 - 4; if a free block is big enough, the one of exactly that size or else the largest is taken, at its tail if what stays behind is worth a block |
| `Heap.Arena.AllocFit` | mipos/mipos_malloc.c:270-310 | hands out a block if and only if a free block is big enough; it is the first of exactly that size or else the first of the largest, and its tail is handed out if what stays behind is worth a block |
| `Heap.Arena.AllocMerged` | mipos/mipos_malloc.c:400-405 | the second chance after compaction fails exactly when there is no room |
| `Heap.Arena.FindFree` | mipos/mipos_malloc.c:179-202 | the first block of exactly the size, or else the first of the largest; none only if all are too small |
| `Heap.Arena.Free` | mipos/mipos_malloc.c:314-340 | frees exactly the used block whose payload starts there; any other pointer changes nothing |
| `Heap.Arena.Compact` | mipos/mipos_malloc.c:356-382 | ends; keeps the free bytes and the used list; stops early only with a block of the size needed, and otherwise leaves no two adjacent free blocks |
| `Heap.Arena.FindAdjacent` | mipos/mipos_malloc.c:230-248 | a free block next to the given one, if there is any |
| `Heap.Arena.Join` | mipos/mipos_malloc.c:252-266 | two adjacent free blocks become one, with the descriptor between them absorbed |
| `Heap.Arena.UsedSize` | mipos/mipos_malloc.c:608-624 | the bytes of used blocks and their descriptors, which are the arena without the free blocks |
| `Heap.Arena.IsIn` | mipos/mipos_malloc.c:223-226 | true exactly for the start of the payload of a used block |
| `Heap.Align` | mipos/mipos_malloc.c:393-397 | rounds up to a multiple of 4 in 64 bits: at least the size up to 2^64 - 4, and 0 beyond |
| `HeapLists.LinkedAfterHead` | mipos/mipos_malloc.c:38-46 | linking behind the head keeps the list acyclic and linked both ways with null ends |
| `HeapLists.Unlinked` | mipos/mipos_malloc.c:64-73 | unlinking any element keeps the list acyclic and linked both ways with null ends |
| `HeapLists.ListIsUnique` | mipos/mipos_malloc.c:206-219 | the links and the head fix the list |
| `HeapLayout.BlocksDisjoint` | mipos/mipos_malloc.c:270-352 | no byte belongs to two blocks, and all blocks lie in the arena |
| `HeapLayout.ByteInBlock` | mipos/mipos_malloc.c:270-352 | every byte of the arena belongs to a block |
| `HeapLayout.RoomIsBlock` | mipos/mipos_malloc.c:356-408 | where no two free blocks are adjacent, enough free bytes in a row are one big enough block |
| `HeapLayout.MergedBytes` | mipos/mipos_malloc.c:142-156 | merging keeps the set of free bytes |
| `HeapState.SplitOffOk` | mipos/mipos_malloc.c:288-295 | splitting a free block keeps tiling, lists and the sum of sizes and descriptors |
| `HeapState.GivenBackOk` | mipos/mipos_malloc.c:314-340 | freeing a block keeps tiling, lists and the sum of sizes and descriptors |
| `HeapState.JoinedOk` | mipos/mipos_malloc.c:142-156 | merging two blocks keeps tiling, lists, the sum of sizes and descriptors, and the free bytes |
| `HeapState.PayloadUntouched` | mipos/mipos_malloc.c:270-382 | an operation writes no descriptor field that overlaps the payload of a block that stays in use |
| `HeapState.RoomIffBlock` | mipos/mipos_malloc.c:356-408 | after complete compaction there is room if and only if there is a big enough block |
| `HeapRuns.RunAll` | mipos/mipos_malloc.c:270-408 | over any sequence of allocations, frees and compactions, whatever was handed out and not freed lies in the arena, overlaps nothing else handed out and not freed, is as big as asked for unless that was more than 2^64 - 4 bytes, and has had nothing written into it by the heap since it was handed out |
| `HeapRuns.Oversized` | mipos/mipos_malloc.c:386-408 | in every fresh arena a request for 2^64 - 1 bytes succeeds with a block that is too small |
| `Kernel.Env.constructor` | mipos/mipos_kernel.c:71-110 | start-up gives the initial state of the state machine, which satisfies the invariant |
| `Kernel.Env.Create` | mipos/mipos_task.c:17-43 | the first unused entry gets the new task |
| `Kernel.Env.Lookup` | mipos/mipos_task.c:48-61 | 0 is the running task, numbers outside the table no task |
| `Kernel.Env.Delete` | mipos/mipos_task.c:66-97 | one step of the state machine, after which there is no task at that entry (`KernelHistory.DeleteCall`) |
| `Kernel.Env.Freeze` | mipos/mipos_kernel.h:478-488 | one step of the state machine |
| `Kernel.Env.Unfreeze` | mipos/mipos_kernel.h:499-509 | one step of the state machine |
| `Kernel.Env.Restart` | mipos/mipos_kernel.h:248-257 | one step of the state machine |
| `Kernel.Env.Notify` | mipos/mipos_kernel.h:457-467 | one step of the state machine |
| `Kernel.Env.Ignore` | mipos/mipos_kernel.h:521-530 | one step of the state machine |
| `Kernel.Env.Allow` | mipos/mipos_kernel.h:542-551 | one step of the state machine |
| `Kernel.Env.Wait` | mipos/mipos_kernel.h:390-402 | saves the context and suspends the caller, as one step of the state machine |
| `Kernel.Env.WakeAfter` | mipos/mipos_kernel.h:407-421 | one step of the state machine, with the count read as a signed 32-bit number |
| `Kernel.Env.Sleep` | mipos/mipos_kernel.h:427-444 | one step of the state machine, with the time computed in 64 bits |
| `Kernel.Env.UpdateRtc` | mipos/mipos_kernel.c:63-67 | one step of the state machine: the counter advances by the quantum in 64 bits (`KernelHistory.ClockRun`) |
| `Kernel.Env.Search` | mipos/mipos_kernel.c:252-302 | ends within twice the table size and stops at the first eligible entry behind the current one, at idle only if there is none |
| `Kernel.Env.Visit` | mipos/mipos_kernel.c:341-374 | a visit to a suspended task: alarm, timer and signals, as the state machine says |
| `Kernel.Env.Dispatch` | mipos/mipos_kernel.c:376-416 | resumes at the saved context if the task is woken, and otherwise starts it |
| `Kernel.Env.Pass` | mipos/mipos_kernel.c:252-416 | one pass of the state machine; the panic branch is never taken and no context is resumed that was not saved |
| `KernelState.PickFirst` | mipos/mipos_kernel.c:252-302 | the choice is the nearest eligible task going round, idle only if there is none |
| `KernelRuns.StepKeepsInv` | mipos/mipos_kernel.c:249-416 | every step keeps: known status values, a saved context exactly while suspended or about to be resumed, reserved signals unmasked, and the queue invariants |
| `KernelRuns.ContextsSound` | mipos/mipos_kernel.c:328-416 | in every run from start-up no pass panics, and whoever gets control was ready and is resumed at its saved place, which it thereby uses up, exactly if it has one |
| `KernelRuns.FairWithinRound` | mipos/mipos_kernel.c:252-302 | a task that stays eligible is chosen within as many passes as the table has entries |
| `KernelRuns.Fair` | mipos/mipos_kernel.c:252-302 | every choice of another task brings the search closer |
| `KernelRuns.QueuesKeepOrder` | mipos/mipos_queue.c:40-105 | in every run from start-up what was received from a queue is a prefix of what it accepted, the rest is what it holds, and that never exceeds its size |
| `KernelRuns.SendKeepsInv` | mipos/mipos_queue.c:40-70 | sending keeps the invariant: a task suspended in a receive while its queue holds messages has the queue signal pending |
| `KernelRuns.OrphanedForGood` | mipos/mipos_queue.c:75-105 | once the task recorded on a queue was deleted, the record stays over every run |
| `KernelRuns.DeletedReceiver` | mipos/mipos_task.c:66-97 | deleting a task that waits in a receive leaves its record on the queue |
| `KernelRuns.OrphansByDeletion` | mipos/mipos_task.c:66-97 | a step orphans a queue if and only if it deletes the task recorded there |
| `KernelRuns.OrphanedNeverBlocks` | mipos/mipos_queue.c:75-105 | on such a queue a blocking receive does not block, even if it is empty |
| `KernelRuns.OrphanReached` | mipos/mipos_queue.c:75-105 | a concrete run from start-up that leads to such a queue |
| `KernelTask.MaskingKeepsTaskOk` | mipos/mipos_kernel.h:521-551 | masking and unmasking never mask a reserved signal |
| `KernelWakeups.WokenInRun` | mipos/mipos_kernel.c:341-374 | a suspended task with a pending signal it waits for is made ready within a round of passes, whatever the other tasks do short of deleting or freezing it |
| `KernelWakeups.EarlySignal` | mipos/mipos_kernel.h:377-402 | a signal posted before the wait is not lost |
| `KernelWakeups.LateSignals` | mipos/mipos_kernel.h:364-372 | signals posted to a task between the visit that woke it and its resumption stay pending up to there, and then exactly those it did not wait for are left, over every run between |
| `KernelWakeups.WokenClean` | mipos/mipos_kernel.c:362-372 | the visit that wakes a task leaves none of the signals it waited for pending |
| `KernelWakeups.SecondSignalGone` | mipos/mipos_kernel.h:364-372 | a task waits for two signals, the first wakes it, the second is posted, the task is resumed: the second is gone |
| `KernelWakeups.SuspendedStep` | mipos/mipos_kernel.c:341-374 | only a visit can make a suspended task ready |
| `KernelWakeups.ReservedLands` | mipos/mipos_kernel.h:457-467 | a reserved signal posted to a living task is always pending afterwards |
| `KernelWakeups.SleeperStep` | mipos/mipos_kernel.c:353-359 | a sleeper is woken by a visit at or after its time and by no earlier one, and with time 0 by none |
| `KernelWakeups.SleeperWakes` | mipos/mipos_kernel.c:353-359 | a sleeper whose time has come is made ready within a round of passes |
| `KernelWakeups.SleepsOn` | mipos/mipos_kernel.c:353-359 | a sleeper sleeps through any run whose visits come before its time |
| `KernelWakeups.SleepCall` | mipos/mipos_kernel.h:427-444 | the time is 0, so that the sleep never ends on its own, exactly if counter and count add up to 0 modulo 2^64 |
| `KernelWakeups.SleepsForGood` | mipos/mipos_kernel.h:427-444 | a sleep for no time right after start-up lasts over every run in which nobody posts the timer signal to the sleeper, freezes it or deletes it |
| `KernelWakeups.DozesOn` | mipos/mipos_kernel.c:345-351 | a task that waits for n visits is still asleep after n visits |
| `KernelWakeups.DozeStep` | mipos/mipos_kernel.c:345-351 | the visit after the last counted one wakes it |
| `KernelWakeups.WakeAfterCall` | mipos/mipos_kernel.h:407-421 | the number of visits is the count, and 0 for counts of 2^31 and more |
| `KernelWakeups.ReceiverWakes` | mipos/mipos_queue.c:75-105 | a task suspended in a receive while its queue holds messages is made ready within a round of passes |
| `KernelWakeups.StaysOnIce` | mipos/mipos_kernel.c:285-301 | a frozen task is not chosen in any run in which nobody unfreezes it |
| `KernelWakeups.FreezeUnfreeze` | mipos/mipos_kernel.h:478-509 | unfreezing undoes freezing |
| `KernelWakeups.SelfFreezeLost` | mipos/mipos_kernel.h:377-384 | a task that freezes itself and then waits is not frozen any more |
| `KernelWakeups.FrozenStep` | mipos/mipos_kernel.h:377-384 | a frozen task, in or out of control, stays frozen in a step if and only if the step does not unfreeze or delete it and is not a call by which the task itself waits |
| `KernelWakeups.FrozenThroughout` | mipos/mipos_kernel.h:377-509 | a frozen task is frozen all through a run if and only if no event of the run does any of that |
| `KernelWakeups.MaskedSignal` | mipos/mipos_kernel.h:521-551 | a masked user signal does not become pending, and unmasking undoes masking |
| `KernelWakeups.StaysDead` | mipos/mipos_kernel.c:331-339 | a task that returned is not chosen in any run in which it is neither restarted nor deleted |
| `KernelWakeups.ReturnAndRestart` | mipos/mipos_kernel.h:248-257 | after its next visit a task that returned is not chosen in any run until it is restarted; then it can be chosen and starts from its entry point |
| `KernelTask.EitherBits` | mipos/mipos_kernel.h:83-93 | the union of masks is the bitwise or of bytes |
| `KernelTask.BothBits` | mipos/mipos_kernel.h:83-93 | their intersection is the bitwise and |
| `KernelTask.LessBits` | mipos/mipos_kernel.h:364-372 | their difference is the bitwise and with the complement |
| `KernelTask.MeetBits` | mipos/mipos_kernel.c:362-372 | masks meet exactly if the bitwise and is not 0 |
| `KernelTask.SignalNumbers` | mipos/mipos_kernel.h:83-93 | the signals are the bits they are in the kernel |
| `KernelTask.StatusBits` | mipos/mipos_kernel.h:62-77 | the status and what is done to it are a word of bits and what is done to that |
| `KernelHistory.FirstInFirstOut` | mipos/mipos_queue.c:40-105 | in every run from start-up the messages sent to a queue while it had room are those received from it, in the same order, followed by those it holds; both lists are computed from the events |
| `KernelHistory.SentRun` | mipos/mipos_queue.c:40-70 | what a queue accepted over any run are the messages sent while it had room |
| `KernelHistory.HandedRun` | mipos/mipos_queue.c:75-105 | what was received from it are the messages that were first in it at each receive |
| `KernelHistory.SendCall` | mipos/mipos_queue.c:40-70 | the message sent goes to the end of a queue with room, a full queue stays as it is, and so do the others |
| `KernelHistory.ReceiveCall` | mipos/mipos_queue.c:75-105 | a receive takes out the first message, and only that |
| `KernelHistory.CallAbout` | mipos/mipos_task.c:47-61 | identifier 0 is the caller, one beyond the table nobody, and any other the task at that entry and no other |
| `KernelHistory.IgnoredSignals` | mipos/mipos_kernel.h:521-535 | user signals that a task ignores do not become pending |
| `KernelHistory.AllowedSignals` | mipos/mipos_kernel.h:542-551 | those it allows do |
| `KernelHistory.DeleteCall` | mipos/mipos_task.c:66-97 | after a delete there is no task at the entry, it cannot be scheduled and is free for a new one, and the other entries are as before |
| `KernelHistory.DeletedForGood` | mipos/mipos_task.c:66-97 | a deleted task is never scheduled again in any run until a task is created at its entry |
| `KernelHistory.GoneStep` | mipos/mipos_task.c:25-45 | a task appears at an empty entry if and only if one is created there |
| `KernelHistory.CreateCall` | mipos/mipos_task.c:17-45 | a task is created at the first empty entry, is to be started, has no pending signals, and gets every signal posted to it |
| `KernelHistory.StartedInRun` | mipos/mipos_kernel.c:252-416 | a new task has control within a round of passes in any run that does not delete or freeze it |
| `KernelHistory.ClockRun` | mipos/mipos_kernel.c:63-67 | over any run the counter advances by the quanta of the clock interrupts, modulo 2^64, and by nothing else |
| `KernelQueue.MsgQueue.constructor` | mipos/mipos_queue.c:17-35 | an empty queue of the given size |
| `KernelQueue.MsgQueue.Send` | mipos/mipos_queue.c:40-70 | one step of the state machine on a ring of items; the count, or 0xFFFF if the queue is full |
| `KernelQueue.MsgQueue.Receive` | mipos/mipos_queue.c:75-105 | one step of the state machine up to the wait: blocks exactly on an empty queue without a waiter, and otherwise takes the oldest message if there is one |
| `KernelQueue.MsgQueue.FinishReceive` | mipos/mipos_queue.c:86-102 | after the wait the record is cleared and the oldest message taken, if there is one |
| `KernelQueue.PassAndFinish` | mipos/mipos_queue.c:75-105 | a pass of the scheduler together with the rest of an interrupted receive is one pass of the state machine, queues included, and hands out the oldest message of the queue |
| `KernelQueue.HoldsPut` | mipos/mipos_queue.c:49-51 | putting an item at the tail of the ring appends it |
| `KernelQueue.HoldsTake` | mipos/mipos_queue.c:91-96 | the item at the head of the ring is the oldest one, and moving the head drops it |
| `Tfs.FileSystem.constructor` | mipos/mipos_tfs.c:789-849 | after formatting there are no files, none is open or locked, and all clusters are free |
| `Tfs.FileSystem.Write` | mipos/mipos_tfs.c:593-782 | replaces the bytes at the seek pointer and touches no other file; as many bytes are written as the clusters allow, up to the end of the file if it fills its last cluster and the write begins before; every cluster stays free or in exactly one chain; the descriptor describes the chain afterwards if and only if the file exists, the clusters suffice, and no cluster is reserved for nothing; a write to a locked file fails, and every write leaves the file unlocked |
| `Tfs.FileSystem.Read` | mipos/mipos_tfs.c:476-588 | returns the bytes of the file at the seek pointer, as many as there are; only if the position asked for wraps to one inside the file, it returns the rest of the last cluster as well and reports failure; a read of a locked file fails, and every read leaves the file unlocked |
| `Tfs.FileSystem.Delete` | mipos/mipos_tfs.c:1269-1333 | frees exactly the clusters of a file that is not locked or read-only, the count of free clusters goes up by their number, and the file stays locked |
| `Tfs.FileSystem.Create` | mipos/mipos_tfs.c:1170-1240 | gives the first unused descriptor to an empty file, open for writing and not locked, and fails only if there is none |
| `Tfs.FileSystem.Open` | mipos/mipos_tfs.c:1100-1165 | opens a file that is there and neither open nor locked, unless it is read-only and to be written |
| `Tfs.FileSystem.Close` | mipos/mipos_tfs.c:1245-1264 | closes a file, resets its seek pointer and leaves its lock |
| `Tfs.FileSystem.Seek` | mipos/mipos_tfs.c:407-471 | moves the seek pointer of a file that is not locked: absolutely only to positions inside the file other than 0, relatively modulo 2^32 |
| `Tfs.FileSystem.ByteOnDevice` | mipos/mipos_tfs.c:204-277 | byte i of a file is byte i mod 32 of the cluster that is i / 32 links behind the first one in its descriptor |
| `Tfs.FileSystem.Lock` | mipos/mipos_tfs.c:986-1006 | locks a file that is not locked |
| `Tfs.FileSystem.Unlock` | mipos/mipos_tfs.c:1010-1030 | unlocks a file that is locked |
| `Tfs.FileSystem.Reserve` | mipos/mipos_tfs.c:104-132 | reserves the first free cluster, if there is one |
| `Tfs.FileSystem.SeekCluster` | mipos/mipos_tfs.c:204-235 | the cluster that holds the byte at the seek pointer, the last one at the end of a full chain |
| `Tfs.FileSystem.WriteRounds` | mipos/mipos_tfs.c:673-743 | the loop over clusters writes exactly what can be written, and leaves a complete file, or one with all clusters full and its old size if they run out |
| `TfsState.ExtendSound` | mipos/mipos_tfs.c:642-662 | a free cluster put behind a chain keeps every cluster free or in exactly one chain |
| `TfsState.ChunkSound` | mipos/mipos_tfs.c:240-277 | bytes written into a cluster of a file are bytes of that file and of no other |
| `TfsState.DropSound` | mipos/mipos_tfs.c:1317-1330 | freeing the first cluster of a chain keeps every cluster free or in exactly one chain |
| `TfsState.GoalStep` | mipos/mipos_tfs.c:673-743 | every chunk brings the write nearer to its goal, and the goal is reached when no bytes are left or the end of a full chain is met |
| `TfsState.ReachStep` | mipos/mipos_tfs.c:673-743 | the same with a limited number of clusters: a chunk that fills the last one there can be is the last one |
| `TfsState.BeyondEnd` | mipos/mipos_tfs.c:521-529 | a read goes beyond the end of the file if and only if the position asked for wraps to one inside the file and the last cluster is not full |
| `TfsState.ClustersFit` | mipos/mipos_tfs.c:593-782 | a file has as many clusters as its bytes need and no more |
| `TfsState.FreesCount` | mipos/mipos_tfs.c:104-132 | the count of free clusters is the number of table entries FFFF |
| `TfsRuns.RunAll` | mipos/mipos_tfs.c:104-1333 | every run is, step by step, a run on a shelf of byte sequences with open and locked files and a count of free clusters, whose next state and answers are functions of the operation; every cluster stays free or in exactly one chain; the run goes on up to the first write that is not orderly |
| `TfsRuns.Conserved` | mipos/mipos_tfs.c:104-1333 | over any run of orderly operations free clusters and clusters in use add up to all clusters |
| `TfsRuns.RunFromFormat` | mipos/mipos_tfs.c:789-849 | so they do after formatting and any run; and unless the run asks for a lock, only deleted files are locked |
| `TfsRuns.LockedDeleted` | mipos/mipos_tfs.c:407-1333 | in any run in which nobody asks for a lock, only deleted files are locked |
| `TfsRuns.ReadBack` | mipos/mipos_tfs.c:476-782 | in any run a read that begins where an earlier write to the same file began returns the bytes written, if no operation between touches them; where operations begin and what they touch is computed from the operations |
| `TfsRuns.Persist` | mipos/mipos_tfs.c:476-1333 | bytes of a file that no operation of a run touches are the same in the end |
| `TfsRuns.Reopened` | mipos/mipos_tfs.c:476-1264 | create, write, close, open and read returns what was written, whatever else there is, as long as the clusters suffice |
| `TfsRuns.WriteSeekRead` | mipos/mipos_tfs.c:407-782 | write, seek back and read returns what was written |
| `TfsRuns.GuardedKept` | mipos/mipos_tfs.c:626-630 | the bytes of a file stay over any run in which it is neither opened for writing nor deleted, if it is not open for writing at its beginning |
| `TfsRuns.OverwriteStops` | mipos/mipos_tfs.c:712-730 | format, create, write a cluster, seek back and write one byte more: the write stops at the end of the file although clusters are free |
| `TfsRuns.OutOfClusters` | mipos/mipos_tfs.c:700-723 | format, create and write one byte more than there is room for: all clusters are full, and the descriptor still says that the file is empty |
| `TfsRuns.StaleHandle` | mipos/mipos_tfs.c:593-782 | format, create, delete and write twice through the old handle: the first write fails but unlocks the file, the second succeeds into a cluster that no descriptor leads to |
| `TfsRuns.WritesNothing` | mipos/mipos_tfs.c:643-668 | format, create and write no bytes: a cluster is taken, and the descriptor still says that the file has none |
| `TfsRuns.ReadsBeyond` | mipos/mipos_tfs.c:521-529 | format, create, write a cluster and one byte, seek back one byte and read 2^32 - 32 bytes: 32 bytes are returned although one is left |

## Left out

- Directories, paths and everything that works on them (`f_open`, `f_mkdir`, `f_rename`, `f_unlink`), time stamps, and the check that a file object belongs to a mounted volume.
- FatFile.File.Sync: models the buffer and the window, not the update of the directory entry nor the FSInfo sector that `f_sync` also writes.
- FatFile.File.Write: promises the bytes and the rest of the volume only on success; after a device error the file refuses further work but a synchronization, and nothing is said about its bytes.
- FatRuns.PerformAll: is about one open handle on a device that does not fail.
- FatVolume.Volume.GetFree: the count is that of the free clusters on success only; after a device error the driver keeps a partial count.
- FatNames.CreateName: does not model how far the path pointer moves past repeated separators.
- exFAT, long file names, fast seek, formatting, locks and string functions, which the configuration leaves out.
- `mipos_mm_realloc`, which copies to address 0 when its allocation fails, and the debugging output of the heap.
- Heap.Arena.Alloc: the link fields and sizes of all descriptors are three maps from addresses; the bytes of payloads are not part of the model, only that no operation writes into them.
- Real-time tasks and soft timers of the scheduler, the idle callback's own kernel calls, stacks and interrupt masking; clock interrupts come as steps of their own.
- A task that deletes itself makes no further kernel call in the model.
- KernelQueue.MsgQueue.Receive: the rest of the receive after a wait is a method of its own, called when the task is resumed (`KernelQueue.PassAndFinish`).
- The scheduler's counter of visits (`tick_counter`), task names, parameters and return values.
- Names of the tiny file system and their lookup by prefix, renaming, the lock around its tables, calls by other tasks while a call is going on, its device errors and the copy of its tables on the device.
- Tfs.FileSystem.Write: what later calls do after a write that is not orderly is not modelled; the calls are for a file system whose descriptors describe its chains.
- The memory pool, mutexes, console, standard input and output, disk driver registry and network adapter.
