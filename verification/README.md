# LiteCore verification

A Dafny model of the parts of the LiteCore kernel that keep state: physical frames and page tables,
the ELF loader, the block cache and the FAT16 and ext2 file systems on it, the kernel heap, the
round-robin scheduler and `sbrk`. Each C file that updates objects in place is a class whose methods
take the source's branches and error codes; each method is proved against a specification on values,
and the theorems are about sequences of operations and about several functions together.

| part | modules |
|---|---|
| physical frames | `FrameMaps` |
| four-level page tables | `PageTables`, `Mapping`, `MappingRuns`, `MapSteps`, `AddressSpaces`, `Paging64` |
| ELF segments | `Elf` |
| block cache, byte access through it | `CacheModel`, `BlockCaches`, `ByteLayer` |
| FAT16 | `Fat16Image`, `Fat16Chains`, `Fat16Files`, `Fat16Format`, `Fat16`, `Fat16Theorems` |
| ext2 | `Ext2Bytes`, `Ext2Trees`, `Ext2Layout`, `Ext2Inodes`, `Ext2Data`, `Ext2Dirs`, `Ext2Create`, `Ext2Format`, `Ext2` |
| kernel heap | `HeapModel`, `HeapRuns`, `HeapCells`, `Heap` |
| scheduler | `Scheduling`, `Schedulers` |
| two-level page tables, `sbrk` | `Directories`, `Transactions`, `Paging32`, `UserHeap` |
| shared definitions | `Utils`, `Arith` |

The file systems are layered as in the kernel. `BlockCaches` works on a disk whose accesses may fail
at any time; `ByteLayer` turns its blocks into one byte space, or uses an image in memory; `Fat16`
is written over that byte space on either branch, and `Ext2` over the cache's blocks. Their theorems hold
when the device's faults are over and the cache's clock has room for the operation; what a fault does to
them is said separately (`AllocateChain`, `MissingLinkCutsChain`, `FailedReadErases`).

`Fat16Format` and `Ext2Format` say in numbers what the names of the other file system modules stand for: which bytes
of the disk are which field, how names are spelled, which modes are directories. `Fat16Format.ReadmeTxt` and
`Ext2Format.RootSearched` are small examples; `HeapCells.ListInMemory` and `Elf.ByteOrder` do the same for memory.

In `PageTables` a walk gives an `Access`: the physical address, the flag bits of the entry that gives it, and whether
all table entries on the way allow writing and user access. "Translation" below means all of these.

`dafny verify dfyconfig.toml` checks the project.

## Model

| member | source | states |
|---|---|---|
| `FrameMaps.FrameMap.Init` | src/kernel/mem/map.c:93-137 | a non-empty byte range makes every frame that overlaps it managed and free, and no other; an empty or inverted range changes nothing |
| `FrameMaps.FrameMap.AllocFrame` | src/kernel/mem/map.c:144-208 | returns the lowest free frame and takes it out of the free set, or 0 exactly when none is free (frame 0 aside), with bitmap chunks made on demand |
| `FrameMaps.FrameMap.FreeFrame` | src/kernel/mem/map.c:215-252 | adds the frame to the free set, and ignores NULL, misaligned and unmanaged addresses |
| `FrameMaps.FrameMap.Reserve` | src/kernel/mem/map.c:278-317 | takes exactly the frames that overlap the byte range out of the free set |
| `PageTables.VirtToPhys64` | src/kernel/mem/vmem.c:99-172 | the unrolled walk agrees with a recursive definition of translation, for 4 KiB, 2 MiB and 1 GiB pages |
| `PageTables.SamePathSamePage` | src/kernel/mem/vmem.c:104-108 | two addresses use the same four table indices exactly when they lie on the same page |
| `Mapping.CreatedSplit` | src/kernel/mem/paging64.c:148-187 | replacing a 2 MiB page by a table of 512 small ones changes no translation under any root: addresses, flag bits and the rights of the tables on the way stay |
| `Paging64.Machine.MapPage64` | src/kernel/mem/paging64.c:25-213 | on any memory, the words written and the frames taken are those of a step-by-step specification (`MapSteps.MapResult`); on a path whose words are what the mapper takes them for it succeeds exactly when the frames for the missing tables are there, and then every access to the page gives bits 12 to 62 of the physical address, with PRESENT set and the caller's other eleven flag bits, and so it does under every root that reaches the table written; no other translation of any root changes, table rights and data frames are untouched, and a failure changes nothing |
| `Mapping.LeafWordBits` | src/kernel/mem/paging64.c:27-207 | the entry stored, bit by bit: bit 0 is set, bits 1 to 11 are the flags', 12 to 62 the address's, and bit 63 is clear |
| `MapSteps.GoodPathMapped` | src/kernel/mem/paging64.c:25-213 | the steps together have that effect on the translations: the tables made, split and followed on the way are invisible |
| `MappingRuns.LastMappingWins` | src/kernel/mem/paging64.c:25-213 | after any sequence of calls, under any roots and for any pages, an address has under a root the page and flag bits of the last successful call for it under that root or under one with which it shared the table written, and without one those of the start; the tables on its way allow what they allowed at the start |
| `MappingRuns.ReachedFromStart` | src/kernel/mem/paging64.c:25-213 | which roots a call of the sequence reaches is known from the start: its own, no other if the page is in a user slot, and every root that shares the top-level slot |
| `MappingRuns.RunKeepsOtherRoots` | src/kernel/mem/paging64.c:25-213 | a sequence of user-slot mappings under other roots changes no translation of a root |
| `MapSteps.UnderHugePage` | src/kernel/mem/paging64.c:87-207 | under a 1 GiB page the mapper takes the data frame for a directory: it succeeds exactly when it finds or makes a frame for the entry, overwrites words of data frames and, when these are none that the walk reads, leaves all translations of that GiB as they were, so the page is mapped as asked if and only if it was mapped so before |
| `Mapping.ClearNxVisible` | src/kernel/mem/paging64.c:72-75 | clearing bit 63 of a top-level entry is invisible to the walker exactly when the table that the entry names behind that bit translates nothing, before the change |
| `Paging64.Machine.InitKernelPml4` | src/kernel/mem/paging64.c:228-322 | with six free frames, and only then, a new root maps the low 4 GiB to themselves, writable and open to the user, and is the firmware's map elsewhere; otherwise the firmware's root stays |
| `Paging64.Machine.CreateUserPml4` | src/kernel/mem/paging64.c:337-392 | a new root shares the kernel's slots 0 and 256 to 511 and translates nothing else, and no existing root changes |
| `Elf.LoadSegment` | src/kernel/task/elf.c:228-295 | on success every byte of the segment reads as the file's byte or zero, through the new root, and every page of it is present, open to the user, and writable if and only if the header says so; whatever the outcome, no other page of any root changes, and no table on the way loses or gains a right |
| `BlockCaches.BlockCache.Read` | src/kernel/fs/block_cache.c:143-211 | gives the block that cache and disk together stand for, unless an earlier failed read spoilt an entry, and changes none; the entries stay the most recently used blocks; it fails only out of range or on a device fault, and then data of an entry can change only by a part of that block |
| `BlockCaches.BlockCache.Fetch` | src/kernel/fs/block_cache.c:183-197 | the device reads into the victim's entry: after a failure the entry is spoilt exactly when it was in use and the part transferred differs from its data |
| `BlockCaches.BlockCache.Write` | src/kernel/fs/block_cache.c:216-266 | changes the contents of its block only, and of none when it fails, whatever part of a victim reached the disk; the order of use is kept |
| `BlockCaches.BlockCache.Flush` | src/kernel/fs/block_cache.c:271-289 | on success the disk holds what the cache stands for; on failure nothing is lost |
| `BlockCaches.BlockCache.FindLru` | src/kernel/fs/block_cache.c:9-29 | the first invalid entry, else one with the oldest stamp, else -1 when every stamp is the largest possible |
| `CacheModel.HitTracks` | src/kernel/fs/block_cache.c:154-170 | stamping a hit entry moves its block to the front of the order of use (the write path at 218-233 does the same) |
| `CacheModel.EvictTracks` | src/kernel/fs/block_cache.c:174-209 | replacing the entry with the oldest stamp by a newly stamped block keeps the entries equal to the updated order of use |
| `CacheModel.CachedIffRecent` | src/kernel/fs/block_cache.c:143-266 | in any cache of n entries that follow the order of use, as Read and Write keep them, a block is cached exactly when it was accessed and fewer than n other blocks were accessed since its last access |
| `CacheModel.LargerCacheContains` | src/kernel/fs/block_cache.c:143-266 | of two caches with the same history the larger holds every block that the smaller holds |
| `ByteLayer.Volume.ReadBytes` | src/kernel/fs/fat/fat16.c:220-261 | over cached blocks as over a flat image it returns the bytes of the range and changes nothing, unless an earlier failed read spoilt the cache; without device faults it fails exactly on ranges past the end |
| `ByteLayer.Volume.WriteBytes` | src/kernel/fs/fat/fat16.c:263-304 | on success the byte space has the range replaced and is the same elsewhere; on failure a prefix may have been written, and nothing else |
| `Fat16.Fat16.FatRead` | src/kernel/fs/fat/fat16.c:307-313 | the table entry of the cluster, and 0xFFFF past the end of the volume or when it cannot be read |
| `Fat16.Fat16.FatWrite` | src/kernel/fs/fat/fat16.c:315-327 | changes one entry in every copy of the table, so the copies stay equal, and nothing else that is stored; while writes of the device fail, the entry in use is the new one or the old one, and the call does not tell which |
| `Fat16.Fat16.AllocateChain` | src/kernel/fs/fat/fat16.c:329-359 | links the first n free clusters in order with an end mark; fails exactly for n = 0, lack of memory or of clusters, and then changes nothing; while writes of the device fail, it takes n free clusters and writes all links but some, whose entries stay zero |
| `Fat16Format.ClusterIffInVolume` | src/kernel/fs/fat/fat16.c:329-347 | a number stands for a cluster exactly when all its sectors are in the volume, behind the reserved sectors, the tables and the root directory |
| `Fat16Format.FreeInVolume` | src/kernel/fs/fat/fat16.c:329-347 | the clusters an allocation chooses from are all those in the volume whose table entry is zero, and no others |
| `Fat16.Fat16.FreeChain` | src/kernel/fs/fat/fat16.c:846-855 | zeroes the entries of a chain; it terminates on every table, cyclic ones too, because each round removes a nonzero byte |
| `Fat16Chains.LinkedIsChain` | src/kernel/fs/fat/fat16.c:350-355 | linking distinct clusters makes a chain that visits exactly them |
| `Fat16Chains.AllocationKeeps` | src/kernel/fs/fat/fat16.c:329-359 | an allocated chain is disjoint from every chain there was, and these stay chains |
| `Fat16Chains.FreeUndoesAllocation` | src/kernel/fs/fat/fat16.c:846-855 | freeing what was just allocated restores the table |
| `Fat16Chains.MissingLinkCutsChain` | src/kernel/fs/fat/fat16.c:315-359 | of clusters linked with some links dropped, as AllocateChain leaves them, a walk visits those up to the first dropped link: all of them exactly when that is the last, and without an end mark in any case |
| `Fat16Chains.WholeIffNoneDropped` | src/kernel/fs/fat/fat16.c:315-359 | they are a chain with an end mark if and only if no link was dropped |
| `Fat16.Fat16.MakeShortName` | src/kernel/fs/fat/fat16.c:361-384 | the loops compute the padded upper-case 8.3 name of the specification |
| `Fat16Format.ShortNameSpells` | src/kernel/fs/fat/fat16.c:361-384 | that name, and no other, has the bytes up to the first dot, at most eight, then three behind the dot, lower-case letters 32 below and all else as it is, with blanks |
| `Fat16Format.CaseIgnored` | src/kernel/fs/fat/fat16.c:361-384 | names that differ in the case of letters only have the same short name and lead to the same entry |
| `Fat16.Fat16.FindRoot` | src/kernel/fs/fat/fat16.c:29-108 | the first entry of that name before the end mark; else the slot for a new one is the end mark, or the first deleted entry when there is no end mark |
| `Fat16.Fat16.Resolve` | src/kernel/fs/fat/fat16.c:386-453 | the root entry that the first path component names, with its offset, or the code of the failure |
| `Fat16.Fat16.ReadFile` | src/kernel/fs/fat/fat16.c:779-841 | returns the first bytes along the file's chain, bounded by file size and buffer, and changes nothing |
| `Fat16.Fat16.WriteFile` | src/kernel/fs/fat/fat16.c:901-1023 | gives up the old chain, stores the bytes in a new one and rewrites one entry; which failure occurs when, and that lack of space loses the old chain |
| `Fat16Theorems.WrittenSound` | src/kernel/fs/fat/fat16.c:901-1023 | a successful write leaves all chains whole, ended and pairwise disjoint |
| `Fat16Theorems.WriteThenRead` | src/kernel/fs/fat/fat16.c:779-1023 | reading back gives exactly the bytes written if and only if a lookup finds the stored name and the write is at most 65535 clusters long |
| `Fat16Theorems.EmptiedReads` | src/kernel/fs/fat/fat16.c:936-956 | a file written with no bytes reads as empty, if a lookup finds the stored name |
| `Fat16Theorems.OthersRead` | src/kernel/fs/fat/fat16.c:779-1023 | every other name reads as before a write |
| `Fat16Theorems.ClustersInUseKept` | src/kernel/fs/fat/fat16.c:901-1023 | clusters in use outside the replaced file, those of subdirectories too, keep entry and contents |
| `Fat16Theorems.RunSound` | src/kernel/fs/fat/fat16.c:901-1023 | in every state of a run of successful writes the chains are acyclic, ended and disjoint; a volume with an empty root is a start (`EmptyRootSound`) |
| `Fat16Theorems.RunKeepsOthers` | src/kernel/fs/fat/fat16.c:779-1023 | a file that a run does not write reads the same in every state of the run |
| `Fat16Theorems.FailedOverwriteUnsound` | src/kernel/fs/fat/fat16.c:913-960 | a write that finds no space leaves a sound volume exactly when there was no old chain to give up |
| `Ext2.Ext2.GetBlockNum` | src/kernel/fs/ext/ext2.c:466-614 | the three nested cases compute one recursive descent of a pointer tree, with each case's error codes |
| `Ext2Trees.LookupIsFlattened` | src/kernel/fs/ext/ext2.c:466-614 | with no pointer block missing, lookup k is block k of the inode's flattened trees, for every k in reach and for no other |
| `Ext2Trees.SlotsApart` | src/kernel/fs/ext/ext2.c:466-614 | different block indices use different pointer slots |
| `Ext2Trees.NoOverflow` | src/kernel/fs/ext/ext2.c:504-552 | with at most 1024 pointers a block no product of the index computation leaves 32 bits |
| `Ext2.Ext2.AllocateBlock` | src/kernel/fs/ext/ext2.c:687-779 | takes the lowest clear block bit of the lowest group and counts down group and superblock; fails, changing nothing, exactly when all bits are set |
| `Ext2.Ext2.AllocateInode` | src/kernel/fs/ext/ext2.c:782-874 | the same for inode bits |
| `Ext2Layout.TakenCounted` | src/kernel/fs/ext/ext2.c:687-874 | an allocation keeps the free counters of blocks and inodes, of every group and of the superblock, equal to the clear bits |
| `Ext2Format.DescriptorBytes` | src/kernel/fs/ext/ext2.c:687-874 | which bytes of a descriptor name the bitmaps and the inode table and count free blocks and inodes |
| `Ext2.Ext2.ReadInode` | src/kernel/fs/ext/ext2.c:144-231 | decodes the inode's slot; fails exactly for number 0 and numbers past the last group |
| `Ext2.Ext2.WriteInode` | src/kernel/fs/ext/ext2.c:877-947 | stores the encoded inode in its slot and changes no other byte |
| `Ext2Inodes.InodeRoundTrip` | src/kernel/fs/ext/ext2.c:877-947 | an inode reads back as it was written |
| `Ext2Format.InodeBytes` | src/kernel/fs/ext/ext2.c:186-231 | which bytes of the slot are which field |
| `Ext2Data.InodeWritten` | src/kernel/fs/ext/ext2.c:877-947 | writing one inode changes no other inode and nothing outside the tables |
| `Ext2.Ext2.WriteInodeData` | src/kernel/fs/ext/ext2.c:950-1010 | the bytes written are in the file and the other bytes of its first twelve blocks are as before, exactly the missing blocks are allocated and counted in the inode as 512-byte sectors, other data blocks untouched; all bytes are written if and only if there are none, or the range ends within the first twelve blocks and as many blocks are free as it lacks |
| `Ext2.Ext2.ReadInodeData` | src/kernel/fs/ext/ext2.c:619-682 | the file's bytes from the offset on, up to the number asked for in 32-bit arithmetic or the first missing block |
| `Ext2Data.WriteThenRead` | src/kernel/fs/ext/ext2.c:619-1010 | what was written is read back, whatever blocks were allocated for it |
| `Ext2Data.AskedExact` | src/kernel/fs/ext/ext2.c:634-637 | a read stops at the end of the file exactly when offset plus length does not wrap around, or wraps to a position past the end |
| `Ext2Data.NothingPastDirect` | src/kernel/fs/ext/ext2.c:960-966 | nothing is written from the thirteenth block on |
| `Ext2Data.FailedReadErases` | src/kernel/fs/ext/ext2.c:978-1000 | when the old contents of a block cannot be read but the new ones can be written, the rest of that block of the file becomes zero |
| `Ext2.Ext2.FindFileInDir` | src/kernel/fs/ext/ext2.c:236-309 | -2 exactly for what is not a directory, -3 for an empty one, else the inode of the first record of that name in its direct blocks, or -5 |
| `Ext2Format.OnlyDirectories` | src/kernel/fs/ext/ext2.c:242-243 | -2 comes exactly from modes whose type bits are not bit 14 alone |
| `Ext2Dirs.InsertRecord` | src/kernel/fs/ext/ext2.c:1086-1146 | finds a place exactly when an unused record is long enough or the last one can be split; the block stays tiled by records and has one with the inode, file type 1 and the name, the stored name is found and every other name leads where it did |
| `Ext2.Ext2.CreateFile` | src/kernel/fs/ext/ext2.c:1035-1167 | every outcome: a new inode and one more name with all other names, inodes and data blocks kept; or each failure with what it leaves, inodes lost to it included; the counters stay right in all of them |
| `Ext2Create.CreatedFound` | src/kernel/fs/ext/ext2.c:1035-1167 | a created file is found under its name if and only if the name has at most 255 bytes |
| `HeapModel.TotalSizeFits` | src/kernel/mem/manager.c:34-36 | the block size holds request, 4 bytes of canary and 16 of header exactly for sizes up to 0xFFFF_FFE0, and is then a multiple of 8 that exceeds the size by 24 to 31 |
| `HeapModel.CanaryPlace` | src/kernel/mem/manager.c:137-243 | kfree looks for the canary where kmalloc wrote it exactly when the block was split or had no byte to spare |
| `Heap.Heap.MemInit` | src/kernel/mem/manager.c:45-62 | the range becomes one free block; too small a range is ignored |
| `Heap.Heap.Kmalloc` | src/kernel/mem/manager.c:71-212 | takes the first fit, growing the heap when nothing fits; NULL exactly for size 0 or an empty free list; no word of a live block changes, pointers are multiples of 8, and the canary is in the last word needed |
| `Heap.Heap.Kfree` | src/kernel/mem/manager.c:220-309 | returns the block and coalesces; the list in memory is again the maximal free ranges in address order, and live blocks are untouched |
| `Heap.Heap.HeapExpand` | src/kernel/mem/manager.c:318-413 | adds whole pages at the end, joined to a free last block |
| `HeapModel.TilingUnique` | src/kernel/mem/manager.c:71-309 | the live blocks determine the tiling of the heap, and so the free list |
| `HeapModel.FreeRefines` | src/kernel/mem/manager.c:276-309 | inserting a block in address order and coalescing in one pass gives the free list of the merged tiling |
| `HeapRuns.RunSound` | src/kernel/mem/manager.c:71-413 | every run of allocations, releases and growth leaves live and free blocks tiling the heap, with no two free ones touching |
| `HeapRuns.ReleaseUndoesAlloc` | src/kernel/mem/manager.c:71-309 | freeing what was just allocated restores the heap when it did not have to grow |
| `HeapRuns.FreeingAllLeavesOneBlock` | src/kernel/mem/manager.c:220-309 | freeing all live blocks, in any order, leaves one block that spans the heap |
| `Schedulers.Scheduler.TaskReady` | src/kernel/task/multi_task.c:288-305 | the task is ready at the end of the queue; NULL is ignored |
| `Schedulers.Scheduler.Schedule` | src/kernel/task/multi_task.c:317-413 | the linked queue and the task states step as the round-robin specification does |
| `Schedulers.Scheduler.Exit` | src/kernel/task/multi_task.c:418-433 | the current task is dead and nothing else changes, until the switch that follows |
| `Scheduling.RunSafe` | src/kernel/task/multi_task.c:288-492 | in every run exactly the current task may be running, queued tasks are ready and queued once, and idle is current or queued |
| `Scheduling.DeadForever` | src/kernel/task/multi_task.c:317-433 | a dead task that has been left never runs and is never queued again |
| `Scheduling.ExitLeaves` | src/kernel/task/multi_task.c:418-433 | the first switch after an exit leaves the dead task |
| `Scheduling.BoundedWaiting` | src/kernel/task/multi_task.c:317-492 | the task at queue position k runs at exactly the (k + 1)-th switch, whatever else happens |
| `Scheduling.FallbackNeverFires` | src/kernel/task/multi_task.c:330-345 | the idle task is never taken from outside the queue |
| `Paging32.Pager.MapPagePd` | src/kernel/mem/paging.c:98-147 | sets one entry, with a zeroed table made on demand; fails, changing nothing, exactly when a table is needed and no frame is free |
| `Paging32.EntryBits` | src/kernel/mem/paging.c:98-147 | the entry set, bit by bit: bit 0 is set, bits 1 to 11 are the flags' and the rest the address's |
| `Paging32.Pager.UnmapPagePd` | src/kernel/mem/paging.c:153-195 | clears one entry and frees a table left without entries; fails, changing nothing, exactly when the page is not mapped |
| `Transactions.UnmapUndoesMap` | src/kernel/mem/paging.c:98-195 | unmapping right after mapping an unmapped page restores directory, entries and free frames |
| `UserHeap.Process.SysSbrk` | src/kernel/syscall.c:25-120 | maps new frames at all pages of the increment and moves the break, or fails exactly for a negative increment, lack of frames or of memory; a failure unmaps the pages it got to, and restores everything when they were unmapped before |
| `UserHeap.NewPageRights` | src/kernel/syscall.c:83-92 | each new page has its frame's address, present, writable and user bits; both levels allow user access exactly when the page's table was there before, with the user bit |
| `UserHeap.PagesCover` | src/kernel/syscall.c:49-57 | the pages mapped cover the increment exactly when its rounded end fits 32 bits |
| `UserHeap.PagesKept` | src/kernel/syscall.c:49-106 | a call keeps the pages handed out before exactly when it starts from a page-aligned break or maps no page |
| `UserHeap.SecondCall` | src/kernel/syscall.c:25-120 | the second of two calls keeps the pages of the first exactly when the break between them is page-aligned; otherwise it replaces the last frame, which is then neither free nor in use |

## Findings

Where the code does not do what its callers may expect. Each has a lemma with the exact condition and,
where the condition is about values, one with a concrete input.

- A FAT16 file reads back what was written if and only if its path is found, or the short name of the whole
  path is that of its first component and does not start with 0xE5, and at most 65535 clusters are written
  (`Fat16Theorems.WriteThenRead`). A new file under "/A" is stored as "/A" and never found
  (`SlashedName`, `SlashedNotRead`); of one byte more than 65535 clusters of 512 bytes only 512 bytes are kept
  (`LongWriteCut`).
- A FAT16 overwrite that finds no space leaves an entry that points into free clusters, exactly when the file
  had a chain (`Fat16Theorems.FailedOverwriteUnsound`; `FailedOverwriteExample` is a volume with one cluster).
- A `block_cache_read` that fails on the device leaves the victim's entry in use with a part of another block in it,
  which later reads then return: exactly when the entry was in use and the part differs from its data
  (`BlockCaches.BlockCache.Fetch`; `SpoiltEntry` has two blocks of two bytes). Failed writes do no such harm.
- `fat_write_entry` ignores failed writes, so `fat16_write_file` can succeed with a chain that ends early: the chain
  is whole exactly when no link was dropped (`Fat16Chains.WholeIffNoneDropped`), and all clusters are still reached
  exactly when the first link dropped is the last one (`MissingLinkCutsChain`; in `DroppedFirstLink` one of three is).
- `kmalloc` hands out too small a block exactly for sizes above 0xFFFF_FFE0, where its 32-bit sizes wrap
  (`HeapModel.TotalSizeFits`; `OversizedRequests` has 0xFFFF_FFFF and 0xFFFF_FFE8).
- `kfree` looks for the canary at the end of the block, `kmalloc` writes it at the end of the bytes needed: a mismatch is
  reported for an untouched block that was taken whole with bytes to spare, unless these hold the canary by chance
  (`HeapModel.CanaryPlace`; `MisplacedCanary` has a block of 48 bytes).
- `sbrk` asks for user pages, but a page table made for them on the way has no user bit: such a page is open to the user
  exactly when its table was there before, with that bit (`UserHeap.NewPageRights`; in `TwoSingleBytes` there was none).
- `sbrk` keeps the pages it handed out before exactly when it starts from a page-aligned break or, its rounded end being
  wrapped around, maps nothing (`UserHeap.PagesKept`, `SecondCall`). Two calls for one byte each map the first heap page
  twice, and the first frame is lost (`TwoSingleBytes`). A failed call from such a break leaves that page unmapped
  (`UserHeap.Process.SysSbrk`).
- `sbrk` moves the break without mapping all of the pages exactly when the rounded end is past 4 GiB
  (`UserHeap.PagesCover`; `WrappedCall` maps none).
- `ext2_read_inode_data` reads past the end of the file exactly when offset plus length wraps around to a position
  inside it (`Ext2Data.AskedExact`; `WrappedRead` has a file of 10 bytes).
- `ext2_write_inode_data` writes nothing from the thirteenth block on, but still sets the size to the offset: with enough
  free blocks it writes everything exactly when the range ends within twelve blocks (`Ext2.Ext2.WriteInodeData`,
  `Ext2Data.NothingPastDirect`; in `ThirteenthBlock` one byte at 12287 fits and one at 12288 does not). A block that cannot
  be read but can be written loses its other bytes (`Ext2Data.FailedReadErases`).
- `ext2_create_file` makes files that cannot be found exactly for names of more than 255 bytes
  (`Ext2Create.CreatedFound`; `Ext2Dirs.LongNameExample` has a name of 256 bytes), and loses the new inode when the root
  directory has no first block or no room in it (`Ext2.Ext2.CreateFile`).
- `map_page_64` under a 1 GiB page succeeds without mapping the page, unless the GiB maps it so already, and overwrites
  words of the data there (`MapSteps.UnderHugePage`; in `HugePageExample` a page is not mapped and the first word of the
  second GiB is lost). Clearing NX on a top-level entry changes translations exactly when the table behind that bit
  translates something (`Mapping.ClearNxVisible`; `RevealedGiB` has one that maps a GiB).

## Left out

- Paging64.Machine.MapPage64: on a path with an NX bit on a table entry, or with a 1 GiB page when the words written are ones that the walk reads, only the words written are described, not the translations.
- Elf.LoadSegment: for segments all of whose pages have a path without 1 GiB pages and NX bits on table entries; what a failed load has mapped by then stays mapped, as in the source.
- FrameMaps.FrameMap.AllocFrame: making a bitmap chunk does not fail; a chunk is 32-bit words of booleans, bit masks are divisions and remainders.
- Fat16.Fat16.WriteFile: for volumes with clusters of at most 4096 bytes, the size of the work buffer, and for the root directory; paths into subdirectories, `fat16_create_file`, listing and reading the boot sector are left out, and so is a whole write while the device fails, of which only the chain is described (`AllocateChain`).
- Fat16.Fat16.AllocateChain: while writes of the device fail, for a cache of blocks of an even size, and when reads do not fail; a read that fails can spoil the cache, as `BlockCaches.BlockCache.Fetch` says.
- Fat16.Fat16.ReadFile: for volumes whose chains are whole and disjoint, which every run of writes keeps.
- Ext2.Ext2.WriteInodeData: a new block keeps what it held before on the disk, and these bytes are not described; the source writes no indirect blocks either.
- Ext2.Ext2.CreateFile: names whose length is within 11 of a multiple of 65536 from below, whose 16-bit record length wraps (`Ext2Dirs.NeededFits`); and when the root has no first block, a new block that is not all zero.
- Ext2.Ext2.FindFileInDir: directories whose blocks are not tiled by records, or whose size is not a whole number of blocks.
- Heap.Heap.Kmalloc: sizes above 0xFFFF_FFE0, which do not fit their block; growth past 4 GiB.
- Heap.Heap.Kfree: pointers that no allocation returned; the check of the canary only prints.
- Schedulers.Scheduler.TaskReady: a task that is already queued, current or dead, which the source does not look for either.
- UserHeap.Process.SysSbrk: the directory is a 32-bit one, as `map_page_pd` takes it, although tasks have four-level tables; a caller without a task; 64-bit wrap of the break; a failed allocation of the frame list is a parameter.
- Address translation inside the kernel is the identity mode; CR3, TLB, context switches, locks and interrupts' register frames are not modelled, and `task_schedule_from_irq` is the same step as `task_schedule`.
- Device faults appear as accesses that fail part of the way, at any byte; a disk is whole blocks, and an access past its end transfers nothing. The file systems' theorems are about the time after the last fault, with no entry spoilt by an earlier one, except where a row says otherwise.
- The cache's clock runs 32 bits without wrapping in the file systems' theorems; a cache of one entry cannot evict at its last tick.
- Allocation of work buffers succeeds, or is a parameter where the source's answer depends on it.
- Mounting and its checks, symbolic links, multi-component paths, the VFS, drivers and the shell.
