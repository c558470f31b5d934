# A verification model of xv6 with graphics

This project models the logic of an xv6 kernel with a small graphics layer, its user
allocator, its shell's parser and its grep, and proves what they are for. The functions
that change state in the source are methods on classes here, with the same loops and
branches; each is proved against a function of its inputs or of the old state, and the
properties below are proved about those functions, for all inputs, all states or all runs.

Check everything with `dafny verify dfyconfig.toml`.

## The parts

- **Storage.** `Log` proves that a commit is atomic under a crash at any disk write, also
  a crash during recovery; `GroupCommit` proves it for every interleaving of operations
  that share a commit; `LogSpace` proves exactly when begin_op's reservation is enough.
  `BufferCache` proves that bread returns the latest contents of a block while the ring of
  buffers is relinked and recycled. `Inodes` and `FileSystem` turn block maps, the bitmap
  and inodes into byte sequences with exact block ownership. `CrashFiles` joins the
  log to the files: a crash leaves the files of whole chunks. `Directories` turns
  directories into maps and paths into lookups; `DiskFormat` says where all this is on the disk.
- **Memory.** `Umalloc` is the circular free list of the user allocator. `Paging` and
  `VirtualMemory` are page tables over the list of free pages, with a ghost map that gives
  each page one use.
- **Processes.** `ProcessTable` is fork, exit, wait, kill and the scheduler; `SleepLocks`
  and `Spinlocks` are locks at the granularity of single memory accesses; `Pipe` is the
  ring of bytes with its sleepers.
- **Languages.** `Shell` is the recursive-descent parser with in-place termination of
  words, and `ShellGrammar` the grammar of the lines that it accepts and what they mean;
  `Grep` is the matcher against the language its patterns denote.
- **Graphics.** `DecimalText`, `Raster` and `Graphics` are number texts, exact lines and
  rectangles, and the queue whose replay equals direct drawing.

`Machine`, `Arithmetic` and `Blocks` hold what several of them need: bytes and words,
division facts, and words and bits in disk blocks.

## What the code does where its comments or interfaces suggest otherwise

- begin_op reserves MAXOPBLOCKS blocks per operation against LOGSIZE, but the header takes
  one of the log's LOGSIZE blocks. Operations that log MAXOPBLOCKS distinct blocks can
  overflow the log; any smaller limit is safe (`LogSpace.ReservationSufficesIff`).
- A writer that was killed returns from a full pipe without waking the readers. That leaves a
  reader asleep with bytes to read exactly if the killed writer has more bytes than room and a
  reader is asleep (`Pipe.Pipe.RunWriter`, `Pipe.Pipe.SleepersWaitIff`); no other step does, and
  `Pipe.KilledWriterLosesWakeup` is a run in which it happens.
- kill looks at free slots too. It hits one exactly if no process has the pid and a free slot
  does (`ProcessTable.ProcTable.Kill`): for pid 0, or for a pid left by a failed fork. The next
  owner of the slot is then born killed (`ProcessTable.KilledBeforeBirth`,
  `ProcessTable.KilledByStalePid`).
- malloc hands sbrk a byte count that becomes negative or zero above 0x7FFFFFF0 bytes, and sbrk
  then returns memory that the program does not have, or takes some away; above 0xFFFFFFF8 the
  rounding itself wraps around. `Umalloc.Heap.Malloc` says exactly when the caller is served,
  and `Umalloc.UnownedBlock` is a request that is not.
- The queue caps pen numbers at 50 and does not refuse pens below 16, and it writes each capped
  number back into the caller's text. Only some requests replay faithfully, above all those with
  texts of their own; `Graphics.ReplayMatchesIff` says which.
- copyout returns -1 at a page that is not the user's, but reads through a null pointer if that
  page's table is missing (`VirtualMemory.Vm.Copyout`). exec gets there exactly if an argument is
  longer than the stack pointer and the pointer wraps around into the gap below the devices
  (`VirtualMemory.Vm.PushArgument`), as in `VirtualMemory.ArgumentInGap`.
- sched restores the interrupt flag of the process, but its CPU's scheduler goes on with the flag
  of the process that left (`Spinlocks.InterruptsRestored`), until it turns interrupts on again.
- In grep a leading `*` is an ordinary character, and `$*`, `^*` and `**` after it are stars.
- The shell opens both `>` and `>>` in the same way.

## Assumptions

The disk is a sequence of blocks with synchronous, block-atomic and error-free writes.
Memory is sequentially consistent, and the exchange that takes a spinlock is atomic. The
layout that mkfs writes is the initial state of the file system: metadata marked in the
bitmap, one place for each inode, the log's size equal to LOGSIZE. The supply
of pages, the process's current directory and the texts given to system calls are parameters.

## Model

| member | source | states |
|---|---|---|
| Log.HeadRoundTrip | log.c:85-113 | the header block as write_head leaves it, over any earlier contents, is read back by read_head as the same list of block numbers |
| Log.RecoveryStep | log.c:69-122 | cutting one recovery after any of its disk writes leaves a disk that a later recovery turns into the same file system |
| Log.RecoveryIsIdempotent | log.c:115-122 | however often recovery is crashed and restarted, the one that completes yields the same home blocks |
| Log.CommittedRecovers | log.c:177-202 | with the header on disk, recovery applies exactly the transaction's updates, later ones winning |
| Log.CommitPrefixRecovers | log.c:177-202 | after any prefix of a commit's writes recovery gives the old disk up to the header write and the new one from it on |
| Log.CrashAtomicity | log.c:177-202 | a commit cut anywhere, then any number of crashed recoveries and one that completes: all of the transaction or nothing of it |
| Log.CommitCompletes | log.c:192-202 | an uninterrupted commit applies the transaction and leaves the log empty |
| Log.RecoveryCompletes | log.c:115-122 | recovery leaves the log empty |
| Log.BlockDevice.Write | memide.c:34-60 | a block write replaces one block, at once and as a whole; the device remembers every content it has had |
| Log.RedoLog.Bwrite | bio.c:106-112 | one disk write of the given contents, after which the buffer is not pinned |
| Log.RedoLog.constructor | log.c:53-66 | initlog recovers: the disk and each of its intermediate contents are those of the recovery, and the log is empty |
| Log.RedoLog.ReadHead | log.c:85-96 | lh holds the block numbers that the header on disk names |
| Log.RedoLog.WriteHead | log.c:101-113 | one disk write, of the header naming lh |
| Log.RedoLog.WriteLog | log.c:177-190 | the disk after every write is the log with one more pinned block; home blocks stay |
| Log.RedoLog.InstallTrans | log.c:69-82 | the disk after every write has one more logged block at home, and its buffer is unpinned |
| Log.RedoLog.RecoverFromLog | log.c:115-122 | the writes issued are exactly those over which the crash lemmas range |
| Log.RedoLog.Commit | log.c:192-202 | the writes issued are exactly those over which the crash lemmas range; outside the log the disk ends with the updates applied, nothing pinned and the log empty |
| Log.RedoLog.LogWrite | log.c:213-233 | the block is pinned with its new contents and recorded in lh once, however often it is written |
| GroupCommit.CrashKeepsWholeOperations | log.c:125-233 | for every interleaving and a crash at any moment, any number of crashed recoveries included: the disk is that of a prefix of the logged updates, which splits no operation and contains nothing of a running one |
| GroupCommit.DurabilityGrows | log.c:145-202 | what has become durable stays durable, and when the log is idle everything is |
| GroupCommit.ProtocolSafety | log.c:125-174 | while committing no operation is outstanding; no home block is written before the header that names it; a sleeper in begin_op would be refused now, and has a committer or a running operation to wake it |
| GroupCommit.EndOpWakes | log.c:145-174 | after every end_op, and after every commit, nobody sleeps in begin_op unless a commit is under way, which the last end_op starts and no other |
| GroupCommit.BeginAdmits | log.c:125-141 | begin_op admits a process exactly if no commit is under way and ten blocks are left for each operation; an idle log always does |
| LogSpace.LogNeverOverflows | log.c:125-141 | operations of fewer than MAXOPBLOCKS blocks never reach the panics of log_write, and the header names at most LOGSIZE - 2 (MAXOPBLOCKS - limit) blocks |
| LogSpace.FilewritesFit | file.c:116-122 | operations of at most seven blocks fill at most 24 places of the log in every interleaving |
| LogSpace.ReservationSufficesIff | log.c:132-141 | begin_op reserves against LOGSIZE, but the log holds LOGSIZE - 1 blocks: no run panics if and only if operations log fewer than MAXOPBLOCKS blocks |
| BufferCache.MovedToFront | bio.c:125-134 | the relinking of brelse keeps both directions of the ring, every buffer on it once, and the order of release |
| BufferCache.RecycledState | bio.c:78-88 | recycling an eligible buffer loses nothing: the disk has the latest contents of the block it held |
| BufferCache.ReadState | bio.c:94-102 | a block in no buffer that must be kept is read from the disk as last written |
| BufferCache.WroteState | memide.c:52-59 | writing a dirty buffer makes the disk agree with it |
| BufferCache.OldestEligible | bio.c:78-88 | the scan from the back finds the eligible buffer released longest ago |
| BufferCache.BusyRoom | bio.c:78-90 | bget can only panic when all buffers are referenced or dirty |
| BufferCache.Cache.constructor | bio.c:38-53 | binit builds the ring of all buffers, each unused with key (0, 0) |
| BufferCache.Cache.PushFirst | bio.c:130-133 | linking in after the head |
| BufferCache.Cache.Bget | bio.c:59-90 | the buffer that has the block, referenced once more, or else the one released longest ago of those with no reference and not dirty; it panics exactly if the block is in no buffer and every buffer is referenced or dirty |
| BufferCache.Cache.FindBlock | bio.c:65-72 | the head is returned exactly if no buffer has the block |
| BufferCache.Cache.FindEligible | bio.c:78-88 | of the buffers without a reference that are not dirty the one released longest ago, or the head if there is none |
| BufferCache.Cache.Lock | sleeplock.c:20-28 | taking a free buffer lock keeps the cache consistent |
| BufferCache.Cache.Iderw | memide.c:34-60 | reads or writes the buffer; afterwards it is valid, clean and equal to the disk and to the latest contents |
| BufferCache.Cache.Bread | bio.c:94-102 | the block's buffer, referenced once more: locked and with the latest contents, unless somebody else holds it and the caller must wait; it does not panic as long as fewer buffers than there are are referenced or dirty; no such buffer is recycled |
| BufferCache.Cache.Load | bio.c:66-70 | when the lock of the awaited buffer is free: the latest contents of the block, locked |
| BufferCache.Cache.Modify | log.c:205-210 | a change by the holder of the buffer becomes the latest contents of that block only |
| BufferCache.Cache.Pin | log.c:231 | B_DIRTY keeps the modified contents in the cache |
| BufferCache.Cache.Bwrite | bio.c:106-112 | the disk block becomes the latest contents, no other block changes |
| BufferCache.Cache.Unlock | bio.c:117-122 | the first half of brelse, between which and the second other processes may run |
| BufferCache.Cache.Put | bio.c:124-136 | the last reference moves the buffer to the front; earlier ones leave the ring alone |
| BufferCache.Cache.MoveToFront | bio.c:128-133 | unlinking and relinking leaves a ring with the buffer first and latest |
| BufferCache.Cache.Brelse | bio.c:117-137 | one reference less, lock free |
| Inodes.PutInodeAt | fs.c:210-224 | an inode stored in its block is read back, and the other inodes of the block stay |
| Inodes.MarkOne | fs.c:61-69 | setting a bitmap bit marks that block and no other |
| Inodes.UnmarkOne | fs.c:82-87 | clearing a bitmap bit frees that block and no other |
| Inodes.SlotsDiffer | fs.c:353-381 | no block is in two slots of any inodes |
| Inodes.OwnedAfterSetAddr | fs.c:357-366 | storing an allocated block in an empty direct or table slot keeps every marked block in exactly one slot |
| Inodes.OwnedAfterSetEntry | fs.c:367-378 | the same for an entry of an indirect table |
| Inodes.DataWriteFrame | fs.c:475-481 | writing a file's data block changes no slot, no mark and no inode on disk |
| Inodes.UpdateFrame | fs.c:210-224 | iupdate changes no slot, mark or data block |
| Inodes.GrowDirect | fs.c:357-364 | a direct block appended keeps the file without holes and all other files whole |
| Inodes.GrowTable | fs.c:367-370 | a new indirect table keeps it so |
| Inodes.GrowEntry | fs.c:371-378 | a block appended through the table keeps it so |
| Inodes.GrownAfterUpdate | fs.c:485-488 | updating the size and the inode on disk once the blocks are there makes memory and disk agree again |
| Inodes.WrittenContents | fs.c:459-490 | when all pieces are in place the file is the old one with the bytes spliced in |
| Inodes.OtherContents | fs.c:459-490 | the contents of every other file are unchanged |
| Inodes.SpliceAt | fs.c:470-490 | byte by byte: the written bytes where they belong, the old ones elsewhere, the larger of both sizes |
| DiskFormat.FileFormat | fs.h:28-36 | where a byte of a file is on the disk: in the block that the inode's bytes name, directly or through its thirteenth block |
| DiskFormat.InodeFormat | fs.h:28-42 | the offsets of an inode's size and block numbers in its block |
| DiskFormat.BitmapFormat | fs.h:44-48 | the bit of a block in the free map |
| DiskFormat.HeadFormat | log.c:101-113 | the header block holds the count and then the block numbers, four bytes each, the lowest first |
| FileSystem.FileSys.constructor | fs.c:165-178 | a mounted file system in which every file is whole, every inode on disk as in memory and every block owned |
| FileSystem.FileSys.Balloc | fs.c:53-73 | the first free block, marked and zeroed; it fails exactly if every block is marked |
| FileSystem.FileSys.Bzero | fs.c:41-48 | the block becomes zeros |
| FileSystem.FileSys.LogWrite | log.c:213-233 | the block has its new contents and is among those logged since begin_op |
| FileSystem.FileSys.Bfree | fs.c:76-89 | exactly that block becomes free; it must be marked, or the source panics |
| FileSystem.FileSys.Iupdate | fs.c:210-224 | the inode's place on disk, and only that, becomes the inode in memory |
| FileSystem.FileSys.Bmap | fs.c:353-381 | the file's block for an index, allocated if it is the next one; bytes that have blocks keep them; only that block, the table and a bitmap block are logged |
| FileSystem.FileSys.Readi | fs.c:441-455 | the slice of the file's contents, cut at its end; -1 exactly beyond the end or on 32-bit wrap-around |
| FileSystem.FileSys.Writei | fs.c:470-490 | splices the bytes into the file and changes no other file; afterwards every inode on disk equals the one in memory although iupdate is conditional; bounds the blocks logged |
| FileSystem.FileSys.CopyTurn | fs.c:477-483 | one turn of writei's loop: one more piece is in place, one data block more is logged |
| FileSystem.FileSys.WriteChunk | file.c:132-138 | one transaction: the bytes spliced in or nothing done; the log_writes alone make the change, to at most seven blocks when one bitmap block covers the disk |
| FileSystem.FileSys.Filewrite | file.c:125-148 | the file with the written prefix spliced in, whole chunks on failure; returns n exactly if all fitted; each transaction within the bound |
| FileSystem.FileSys.WriteChunks | file.c:123-148 | the loop: a refused chunk is one that starts beyond the end or would make the file too large |
| FileSystem.OperationSize | file.c:116-122 | a chunk of at most 1536 bytes at any offset logs at most seven distinct blocks |
| FileSystem.FileSys.Itrunc | fs.c:388-415 | frees exactly the blocks of the inode, whose size becomes 0; all other files stay |
| FileSystem.SlotStillMarked | fs.c:76-89 | during truncation the block in the next slot is still marked, so "freeing free block" cannot happen |
| FileSystem.SpliceMore | file.c:123-148 | two adjacent writes one after the other are one write |
| CrashFiles.CrashKeepsWholeChunks | file.c:125-147 | chunks of filewrite committed in any groups, a crash at any moment and any number of crashed recoveries: the disk is a sound file system with the files as after some number of whole chunks, and after all of them once everything logged is durable |
| CrashFiles.WrittenChunk | file.c:132-138 | what one transaction of filewrite does is a step of the runs over which the crash theorem ranges |
| CrashFiles.CutBetween | log.c:125-174 | a cut of the history that splits no operation lies between two chunks |
| CrashFiles.ReplayedChunks | log.c:213-233 | replaying the logged updates of the first chunks gives the blocks as they were after those chunks |
| CrashFiles.HomeSound | log.c:69-82 | a disk that agrees outside the log with a sound file system is one |
| CrashFiles.HomeContents | log.c:69-82 | and holds the same files |
| Directories.StrncmpIff | fs.c:495-497 | namecmp is 0 exactly for names that agree as far as DIRSIZ bytes count |
| Directories.PaddedReads | string.c:67-78 | a name stored by strncpy reads back, cut to the field |
| Directories.LookupIff | fs.c:501-527 | without duplicate names the scan is the map from names to inode numbers |
| Directories.LinkBinds | fs.c:530-558 | a new entry in a free place adds exactly one binding, keeps names unique and is found by dirlookup |
| Directories.DirLookup | fs.c:501-527 | the inode number the name is bound to, and where; 0 if it is not bound |
| Directories.DirLink | fs.c:530-558 | -1 exactly if the name is taken; otherwise the entry is in the first free place, or behind all if there is none: one binding more, no other byte of the directory changed, and every other file as it was |
| Directories.PlacedBy | fs.h:53-56 | the bytes of the new entry, and where they are: the first free place, or the end |
| Directories.TargetIff | fs.c:607-640 | namex finds an inode exactly if the path's names lead to it through directories, or all but the last name to its parent directory |
| Directories.ElementsIs | fs.c:575-601 | slashes, one or many, only separate the names of a path |
| Directories.SkipElem | fs.c:575-601 | the first name, cut to DIRSIZ, and the rest of the path, empty exactly if no name is left |
| Directories.InodeCache.Iget | fs.c:229-260 | one reference more to the inode, references held by others stay; it panics exactly if the inode has no slot and none is free |
| Directories.InodeCache.Idup | fs.c:264-269 | one reference more to the inode |
| Directories.InodeCache.Ilock | fs.c:266-288 | the link count is read from disk once, and no reference changes |
| Directories.InodeCache.Iput | fs.c:316-335 | one reference less; the file is truncated, all its blocks freed and every other file left alone, exactly if that was the last reference to an inode read from disk that has no links |
| Directories.InodeCache.Drop | fs.c:332-334 | the end of iput: one reference less to the inode |
| Directories.Namex | fs.c:607-640 | the inode that the path's names lead to, or its parent and the last name; on every way out references are balanced, and iput truncates nothing, provided what directories name, and the root, have links or references of others |
| Directories.Follow | fs.c:616-639 | the same for the loop, which uses up the reference it starts from |
| Directories.TakeTurn | fs.c:617-633 | one turn of the loop: ilock, the checks, and the step down, with the old reference given back by iput |
| Directories.Descend | fs.c:628-633 | one step down gives the old reference back by iput and takes one to the child |
| Directories.StaysWhole | fs.c:316-335 | an inode with links, or with another reference, is not truncated by iput |
| Umalloc.UnitsSufficeIff | umalloc.c:71 | a block of the computed units has room for the request exactly if rounding up does not wrap around; otherwise it is a lone header |
| Umalloc.RequestIff | umalloc.c:54-57 | the byte count handed to sbrk, as a signed number, is positive exactly for requests of at most 0x7FFFFFF0 bytes and for those whose rounding wrapped around |
| Umalloc.SbrkOwnsIff | proc.c:157-175 | the memory at sbrk's answer, as long as was wanted, is the program's exactly if the signed request was positive; an answer to another request is memory it does not have |
| Umalloc.Heap.ServedBlockIff | umalloc.c:71-87 | a block handed out has room for the request in memory of the program exactly up to 0x7FFFFFF0 bytes |
| Umalloc.UnownedBlock | umalloc.c:57-64 | a program of five pages that asks for 2^31 bytes gets a block that ends beyond its memory |
| Umalloc.InsertListed | umalloc.c:24-48 | insertion with coalescing keeps address order and leaves no two adjacent free blocks |
| Umalloc.InsertUnits | umalloc.c:33-46 | the list gains exactly the units of the freed block |
| Umalloc.InsertLinked | umalloc.c:33-46 | the pointers that free() writes link the new list in a ring with one wrap |
| Umalloc.RingStep | umalloc.c:28-32 | the two loop conditions stop at the place of the block and nowhere else |
| Umalloc.TakeUnits | umalloc.c:77-84 | the list loses exactly the units handed out |
| Umalloc.TakeSound | umalloc.c:77-88 | after malloc's pointer updates the ring, the order, disjointness and conservation hold again |
| Umalloc.RegionSound | umalloc.c:61-63 | memory that sbrk returns beyond all earlier memory can be given to free() |
| Umalloc.NoneFits | umalloc.c:76-93 | one turn of the ring without success has seen every free block |
| Umalloc.Heap.Search | umalloc.c:28-32 | the search ends at the element after which the block belongs, wherever freep stands |
| Umalloc.Heap.Free | umalloc.c:24-48 | the block goes back, joined with what it touches; every unit is in exactly one free or live block; the search for the next block starts at its predecessor |
| Umalloc.Heap.FreeRequires | umalloc.c:24-48 | whoever holds a block may free it: no sum of pointers in free() wraps around |
| Umalloc.Heap.Store | umalloc.c:9-17 | whatever the program writes into its block leaves the allocator intact |
| Umalloc.Heap.Morecore | umalloc.c:50-65 | sbrk's answer in 32-bit signed arithmetic: null if it fails, else the requested units, but at least 4096, join the list, be they the program's or not |
| Umalloc.Heap.Grow | umalloc.c:89-93 | the same within malloc: where everything held is then, and exactly when a failure has taken memory away |
| Umalloc.Heap.Cut | umalloc.c:77-88 | the units are taken from the end of the block, or the whole block unlinked |
| Umalloc.Heap.Malloc | umalloc.c:67-95 | next fit: the first block large enough going round from freep; sbrk only if none fits; null exactly if sbrk fails too; the new block overlaps no other; the caller gets null or a block with room in its own memory, and loses nothing, exactly for at most 0x7FFFFFF0 bytes, or for null after a wrapped rounding |
| Paging.FramesDiffer | vm.c:58-79 | no user frame is mapped twice, in one address space or in two |
| Paging.UserPteKeeps | vm.c:68-71 | mapping an unused page at a free user address keeps every page in one place |
| Paging.ClearPteKeeps | vm.c:268-276 | unmapping a user page frees its frame only |
| Paging.NewTable | vm.c:42-50 | a new page table changes no mapping |
| Paging.RetireKeeps | vm.c:289-296 | a directory without user pages can be given up with its tables |
| VirtualMemory.OthersUnchanged | vm.c:220-343 | an operation on one address space leaves every entry and every byte of the others |
| VirtualMemory.NothingLeaked | vm.c:319-341 | a space that was made and given up leaves every page with its old use |
| VirtualMemory.Vm.constructor | kalloc.c:31-40 | after kinit every page that was given is free |
| VirtualMemory.Vm.Freerange | kalloc.c:42-48 | exactly the whole pages of the range become free |
| VirtualMemory.Vm.Kalloc | kalloc.c:78-92 | the first free page, or 0 exactly if there is none |
| VirtualMemory.Vm.Kfree | kalloc.c:54-73 | the page is first on the free list, its contents junk but for the link |
| VirtualMemory.Vm.Walkpgdir | vm.c:33-53 | the table for an address; at most a free page becomes a table, and no mapping changes; it fails only without memory |
| VirtualMemory.Vm.Mappages | vm.c:58-79 | maps the pages of the range one to one and changes no other entry; on failure memory is exhausted and nothing below the range has changed |
| VirtualMemory.Vm.MapRange | vm.c:64-77 | the loop, in pages |
| VirtualMemory.Vm.Setupkvm | vm.c:117-136 | a new space maps exactly what kmap says, text read-only and the rest writable, no user page and no kernel page for the user, with exactly the tables that takes; on failure every page has its old use |
| VirtualMemory.KernelIsHidden | vm.c:93-114 | no line of kmap gives the user a page |
| VirtualMemory.KernelPages | vm.c:87-114 | every page below PHYSTOP is at KERNBASE plus its address, devices at their own; kernel text is present and not writable, I/O space, data, memory and devices are writable, and nothing else is mapped |
| VirtualMemory.Translates | mmu.h:71-100 | an entry is found by the ten highest bits of the address and the next ten |
| VirtualMemory.SetupTables | vm.c:117-136 | setupkvm makes exactly the page tables that kmap needs |
| VirtualMemory.OthersHidden | vm.c:117-136 | what happens to one space gives the user of another no page of the kernel |
| VirtualMemory.KmapDone | vm.c:104-134 | mapping the lines of kmap in turn gives every kernel page its entry, without remapping any |
| VirtualMemory.Vm.Allocuvm | vm.c:220-248 | zeroed user pages up to the new size, other entries unchanged; out of memory only if frames and tables do not suffice, and then the space maps what it did |
| VirtualMemory.Vm.Deallocuvm | vm.c:254-279 | the skip over missing tables clears exactly the pages of the range, as a page-by-page loop would; frames outside keep their contents |
| VirtualMemory.Vm.Freevm | vm.c:283-297 | frames, tables and directory are all freed, and nothing else |
| VirtualMemory.Vm.Copyuvm | vm.c:313-343 | a new space whose pages hold the same bytes under the same flags in frames of its own; out of memory it leaves every page with its old use |
| Paging.PutBytesAt | vm.c:378 | memmove changes exactly the bytes of its piece of a page |
| VirtualMemory.Vm.Uva2ka | vm.c:346-358 | the frame of a present page of the user, 0 for any other page, and the read through a null pointer exactly if the table is missing |
| VirtualMemory.Vm.Copyout | vm.c:363-384 | for every address and length: the bytes stand at the user addresses up to the first page that is not the user's, where it returns -1, or, exactly if that page's table is missing, reads through a null pointer; every other mapped byte and every other space is as before; it never goes beyond KERNBASE |
| VirtualMemory.Vm.PushArgument | exec.c:106-107 | the stack pointer moves down to the next multiple of four below the string, in 32-bit arithmetic; a null pointer is read through exactly if the string is longer than the stack pointer and the wrapped pointer lies between the kernel's memory and its devices; a successful push leaves the string below the old stack pointer |
| VirtualMemory.PushStops | exec.c:106-107 | where copyout stops on such an address, as a condition on the stack pointer and the length |
| VirtualMemory.ArgumentInGap | exec.c:93-107 | a space of two pages and an argument of 34 megabytes with which it happens |
| ProcessTable.DescendsFromInit | proc.c:227-268 | every process and every zombie descends from initproc through live processes |
| ProcessTable.ExitedTree | proc.c:251-262 | after exit every orphan has a live parent with a smaller pid |
| ProcessTable.ExitedWaiters | proc.c:251-265 | after exit no process sleeps in wait with a zombie child, initproc included |
| ProcessTable.ExitedExits | proc.c:264-265 | the zombies are those that exited and were not reaped |
| ProcessTable.ReapedExits | proc.c:286-298 | reaping turns exactly one exit into a reaped one |
| ProcessTable.FirstWithPid | proc.c:476-483 | the first slot with a pid is free exactly if no process has that pid; a process with it is the only one |
| ProcessTable.WaitersSound | proc.c:301-309 | in every reachable state a process asleep in wait was not killed and has no zombie child |
| ProcessTable.ProcTable.constructor | proc.c:120-153 | the table after userinit meets all invariants |
| ProcessTable.ProcTable.Allocproc | proc.c:68-93 | the first free slot with a new pid; it fails exactly if there is none |
| ProcessTable.ProcTable.Abandon | proc.c:96-99 | fork's failure paths free the slot, which keeps its stale pid |
| ProcessTable.ProcTable.SetParent | proc.c:198 | the slot's parent is the forking process, whose child is not yet running |
| ProcessTable.ProcTable.Start | proc.c:215-219 | the child is runnable, with a live parent |
| ProcessTable.ProcTable.Wakeup1 | proc.c:452-460 | the loop makes exactly the processes asleep on the channel runnable, whatever the channel is, and changes no other field |
| ProcessTable.ProcTable.Fork | proc.c:180-222 | a runnable child of the caller in a slot of its own, with a new pid; -1 exactly without a slot, a stack or pages; the child is born killed exactly if its slot was marked |
| ProcessTable.ProcTable.Exit | proc.c:227-268 | the whole new table, slot by slot: the parent asleep in wait runnable and, with inherited zombies, initproc; children passed on; the caller a zombie off its CPU |
| ProcessTable.ProcTable.Wait | proc.c:272-311 | reaps the first zombie child, once; -1 exactly without children or if killed; sleeps only without a zombie child |
| ProcessTable.ProcTable.Wakeup | proc.c:452-467 | exactly the processes asleep on the channel become runnable, and no other field changes |
| ProcessTable.ProcTable.Sleep | proc.c:412-447 | the caller sleeps on the channel and is off its CPU |
| ProcessTable.ProcTable.Yield | proc.c:384-389 | the caller is runnable and off its CPU |
| ProcessTable.ProcTable.Dispatch | proc.c:331-341 | a runnable process is running on exactly this CPU |
| ProcessTable.ProcTable.Kill | proc.c:472-489 | hits the process with that pid; a free slot exactly if no process has the pid and a free slot does; -1 exactly if no slot has it; the slot is marked killed and not asleep, runnable if it slept and else in its old state, and nothing else changes |
| ProcessTable.KilledBeforeBirth | proc.c:476-483 | kill(0) marks a free slot, and the next child is born killed |
| ProcessTable.KilledByStalePid | proc.c:96-99 | a fork that found no memory leaves its pid in a free slot; a kill of that pid lets the slot's next owner be born killed |
| SleepLocks.RunsKeepInv | sleeplock.c:20-36 | the invariant over every interleaving of single lock operations |
| SleepLocks.NoLostWakeup | proc.c:412-467 | at most one holder of each lock; while the sleep lock's spinlock is free a process sleeps on it only if it is held by one that has yet to release it |
| SleepLocks.ReleaseWakesAll | sleeplock.c:30-36 | a release that runs to its end leaves nobody asleep |
| Spinlocks.Exclusion | spinlock.c:22-65 | no two CPUs hold a lock; interrupts are off exactly while ncli > 0, and ncli counts the locks held and pushclis open |
| Spinlocks.PanicsIff | spinlock.c:22-120 | the only panics are acquiring a lock already held by the CPU, releasing one it does not hold, and sched without ptable.lock or inside another pushcli |
| Spinlocks.InterruptsRestored | spinlock.c:99-120 | the popcli that closes the outermost pushcli restores a process's interrupt flag, whatever CPU it is on by then; the scheduler's exactly if the last process on its CPU had the same flag |
| Spinlocks.FlagTravels | proc.c:362-381 | a process that calls sched on one CPU resumes on any CPU, whatever has run there, with its own intena |
| Spinlocks.StaysParked | proc.c:378-380 | what sched has saved for a process stays until some scheduler switches to it |
| Pipe.FullIff | pipe.c:87 | the test in wrapping 32-bit arithmetic is true exactly on a full pipe |
| Pipe.PushBack | pipe.c:96 | a byte goes to the end of the pipe's contents, also when a counter wraps |
| Pipe.PopFront | pipe.c:117 | a byte comes from the front of the contents, also when a counter wraps |
| Pipe.Pipe.constructor | pipe.c:34-61 | a new pipe is empty and open at both ends |
| Pipe.OnePut | pipe.c:96 | a writer's next byte goes behind those it has written since it came in, and no other process's share changes |
| Pipe.Pipe.WritesOnce | pipe.c:82-100 | in every reachable state, however often a writer has slept and been woken: what it has put into the pipe since it came in is the first i of its own bytes |
| Pipe.Pipe.FillPipe | pipe.c:86-97 | bytes go in, in order, until all are in or the pipe is full |
| Pipe.Pipe.OnFull | pipe.c:87-95 | on a full pipe: -1 if nobody can read it or the writer was killed, else the readers are woken and the writer sleeps where it was |
| Pipe.Pipe.RunWriter | pipe.c:82-100 | as many bytes as fit go in, in order; a call that returns n has put exactly its n bytes, one that returns -1 fewer, over all its sleeps; sleeps only on a full, readable pipe, with readers woken; afterwards a reader sleeps on a pipe with bytes exactly if the writer was killed, had more bytes than room, and a reader slept |
| Pipe.Pipe.RunReader | pipe.c:102-122 | the first bytes come out, in order, at most as many as were asked for; writers are woken where they were; sleeps only on an empty, writable pipe; 0 bytes of a positive request only from an empty pipe whose write end is closed; a sleeping reader is left with bytes exactly if it was before and some remain |
| Pipe.Pipe.Close | pipe.c:63-80 | closing an end wakes those who wait for it and leaves no reader starved; the pipe is freed exactly with its second end, when nobody is inside |
| Pipe.Pipe.Kill | proc.c:472-489 | a killed sleeper runs again, and goes on where it was |
| Pipe.Pipe.Fifo | pipe.c:82-122 | in every reachable state what was read is a prefix of what was written, and at most PIPESIZE bytes are in between |
| Pipe.Pipe.SleepersWaitIff | pipe.c:82-122 | in every reachable state nobody sleeps without cause if and only if no reader sleeps on a pipe with bytes |
| Pipe.Pipe.NoLostWakeup | pipe.c:82-122 | in every run without kills, and in every other until a killed writer leaves a full pipe past a sleeping reader: readers sleep only on an empty and writers only on a full pipe |
| Pipe.KilledWriterLosesWakeup | pipe.c:88-91 | a killed writer's return from the pipe it has filled leaves a reader asleep with bytes to read |
| Shell.Parser.GetToken | sh.c:254-300 | the token at the scan, as TokenAt describes it |
| Shell.Parser.Peek | sh.c:302-311 | whether the next character is one of the given ones, after white space |
| Shell.Parser.ParseRedirs | sh.c:359-381 | the redirections of the grammar, or a panic |
| Shell.Parser.ParseExecCmd | sh.c:399-432 | a block, or words among redirections, with the redirections in their order around the words |
| Shell.Parser.ParseWords | sh.c:413-431 | the words and redirections, fewer than MAXARGS words |
| Shell.Parser.ParseBlock | sh.c:383-397 | a line in parentheses with redirections |
| Shell.Parser.ParsePipeCmd | sh.c:348-357 | a pipeline, nested to the right |
| Shell.Parser.ParseLineCmd | sh.c:333-346 | pipelines in the background and in sequence |
| Shell.Parser.ParseCmd | sh.c:318-331 | the command, if nothing is left over; terminates on every input |
| Shell.Parser.NulTerminate | sh.c:435-479 | a NUL at the end of every word and file name, and nowhere else |
| Shell.WordsTerminated | sh.c:435-479 | every word and file name, read as a C string afterwards, is the slice that was parsed |
| ShellGrammar.LineReads | sh.c:333-346 | wherever a line of the grammar stands before the end of a text or a closing parenthesis, parseline reads what it means |
| ShellGrammar.PipeReads | sh.c:348-357 | the same for pipelines, nested to the right |
| ShellGrammar.UnitReads | sh.c:383-432 | the same for blocks and simple commands |
| ShellGrammar.SimpleReads | sh.c:399-432 | any mixture of words and redirections is an EXEC of the words inside the redirections, the first innermost |
| ShellGrammar.LineDerived | sh.c:333-346 | whatever parseline reads is a line of the grammar |
| ShellGrammar.ParsesIff | sh.c:318-331 | parsecmd accepts exactly the texts of lines, with any white space, and returns what the line means; it panics on all others |
| ShellGrammar.ParseFlat | sh.c:359-432 | a simple command printed flat, fewer than ten words and any redirections between them, parses to its redirections in order around its words |
| ShellGrammar.ParsePrinted | sh.c:318-432 | every legal command is what its fully parenthesised line parses to |
| ShellGrammar.ParseCommand | sh.c:318-331 | the command that the line means, each of whose words is a C string afterwards; None exactly for texts that are no line |
| Grep.HereStar | grep.c:87-89 | c* is any number of characters that fit c |
| Grep.HereOne | grep.c:93-95 | an ordinary character or '.' takes one character |
| Grep.StarIs | grep.c:100-108 | the star of a character is the strings all of whose characters fit it |
| Grep.Match | grep.c:69-80 | 1 exactly if some substring is in the language of the pattern, at the start with '^' and at the end with '$' |
| Grep.MatchHere | grep.c:83-97 | the pattern at the beginning of the text; terminates |
| Grep.MatchStar | grep.c:100-108 | some number of fitting characters, then the pattern |
| Grep.PlainPattern | grep.c:69-97 | a pattern without special characters matches exactly the texts that contain it |
| Grep.AnchoredPattern | grep.c:69-97 | '$' after a plain pattern anchors it to the end of the text, '^' before it to the beginning, and both to the whole text |
| DecimalText.ValueOfDecimal | graphicsQueueables.c:40-65 | reading a number's digits gives the number |
| DecimalText.TextDigits | graphicsQueueables.c:52-65 | the text is the number's digits, the highest first, without leading zeros |
| DecimalText.ValueDigits | graphicsQueueables.c:40-50 | the value of a string of digits is the number with these digits |
| DecimalText.GetIntLength | graphicsQueueables.c:21-37 | the length of the text that ParseChar writes: 0 for a negative number |
| DecimalText.ParseInt | graphicsQueueables.c:40-50 | the value of the text as digits |
| DecimalText.ParseChar | graphicsQueueables.c:52-65 | the text of the number |
| DecimalText.ValueCapper | graphicsQueueables.c:67-75 | the number moved into 0 to the capacity |
| DecimalText.CappedTextReadsBack | graphicsQueueables.c:67-88 | a capped value survives being stored as text, in at most three characters and so in AppendArg's four bytes |
| Raster.NearestIff | graphicsQueueables.c:116-135 | an error of at most half a pixel determines the height of a step |
| Raster.LineIsExact | graphicsQueueables.c:198-228 | one pixel per step of the major axis, each within half a pixel of the line and inside the box; both ends; the same pixels from either end |
| Raster.RectCovers | graphicsQueueables.c:267-280 | the rows cover exactly the rectangle |
| Raster.RectFillsExactly | graphics.c:164-193 | on screen the pixels inside change and no other |
| Graphics.PlotStep | graphicsQueueables.c:122-134 | the error term tells when the next pixel is one higher |
| Graphics.Display.XIncPlotter | graphicsQueueables.c:116-135 | paints the closed form of the line, column by column |
| Graphics.Display.YIncPlotter | graphicsQueueables.c:137-156 | paints the closed form of the line, row by row |
| Graphics.Display.LineDraw | graphicsQueueables.c:198-228 | paints the line between any two points |
| Graphics.Display.FillRows | graphicsQueueables.c:273-278 | paints the rectangle's rows |
| Graphics.Display.PixelSetterFunc | graphicsQueueables.c:103-108 | one byte of video memory, at the offset cut to 16 bits, takes the pen |
| Graphics.Display.MovePos | graphicsQueueables.c:110-114 | the cursor of the context moves |
| Graphics.Display.SysSetPixel | graphics.c:26-48 | one byte of the framebuffer, that of the point cut to the screen, takes the pen; nothing else changes |
| Graphics.Display.SysMoveTo | graphics.c:50-72 | the cursor is the point cut to the screen; nothing else changes |
| Graphics.Display.SysLineTo | graphics.c:74-98 | the line from the cursor to the point cut to the screen takes the pen, and the cursor is its end |
| Graphics.Display.SysSetPenColour | graphics.c:101-135 | the pen's red, green and blue are the three arguments cut to 0..63 in that order, and every other pen, the framebuffer and the contexts are as before; refused exactly outside 16..255 |
| Graphics.Display.SysSelectPen | graphics.c:137-162 | the context's pen is the given one, unless it is above 255; nothing else changes |
| Graphics.Display.SysFillRect | graphics.c:164-193 | exactly the pixels of the rectangle cut to the screen take the pen |
| Graphics.Display.WriteQueue | graphicsQueueables.c:471-507 | the request's texts are capped in the caller's own buffers, and then stored at the end of the context's queue |
| Graphics.Display.CapText | graphicsQueueables.c:308-309 | the caller's text becomes that of the capped number, short enough for the copy |
| Graphics.Display.AppendPoint | graphicsQueueables.c:300-382 | pixel, line and cursor commands are queued with the texts as they are after both coordinates were capped in place |
| Graphics.Display.AppendDeclarePen | graphicsQueueables.c:384-413 | a colour command is queued with its pen capped at 50 and its colours at 63, in place |
| Graphics.Display.AppendGetPen | graphicsQueueables.c:415-438 | a pen command is queued with its pen capped at 50, in place |
| Graphics.Display.AppendDrawRect | graphicsQueueables.c:440-469 | a rectangle command is queued with its sides, capped in place, in the order in which they are replayed |
| Graphics.Display.QueuedAction | graphicsQueueables.c:90-280 | running a stored command leaves the bytes, the pen's red, green and blue, the cursor and the pen number that its texts spell out |
| Graphics.Display.ReplayQueue | graphics.c:255-264 | the commands run in order |
| Graphics.Display.EndPaint | graphics.c:235-282 | replays if asked to, then gives the context back |
| Graphics.Display.BeginPaint | graphics.c:196-233 | the first free context, reset; -1 exactly if all are taken |
| Graphics.Display.PaintThroughQueue | graphicsQueueables.c:471-507 | faithful requests queued and replayed leave the picture of the direct calls that their texts spelled out at first |
| Graphics.Display.QueueAll | graphicsQueueables.c:471-507 | a list of requests leaves the queue and the buffers of the specification |
| Graphics.CapAllLeast | graphicsQueueables.c:308-309 | a buffer capped several times ends with the least of the capped values |
| Graphics.KeptIff | graphicsQueueables.c:308-309 | the replay sees an argument as the direct call caps it exactly if no capping of its buffer, by this request or before, goes below that; else it sees less |
| Graphics.SharedPointIff | graphicsQueueables.c:308-316 | one buffer for both coordinates of a point is kept exactly if its number is at most 199 |
| Graphics.NumbersMatchIff | graphicsQueueables.c:90-280 | replayed numbers that are no greater than the capped ones draw the same on every picture if and only if they are equal, or neither rectangle has rows, and the pen can be queued |
| Graphics.ReplayMatchesIff | graphicsQueueables.c:300-469 | a request, also after others that used its buffers, is replayed as its direct call on every picture if and only if the queue keeps its pen and each argument is kept, or the rectangle has no rows either way |
| Graphics.AloneReplaysIff | graphicsQueueables.c:300-469 | a request with texts of its own is replayed as its direct call on every picture if and only if its pen can be queued |
| Graphics.ColourReplaysIff | graphicsQueueables.c:384-413 | for a colour request: exactly for pens 16 to 50 |
| Graphics.SelectReplaysIff | graphicsQueueables.c:415-438 | for a pen request: exactly for pens 0 to 50 |
| Graphics.ReplayMatchesDirect | graphics.c:255-264 | a list of faithful requests replayed leaves framebuffer, palette, cursor and pen of the direct calls in order |
| Graphics.ApartIsFaithful | graphicsQueueables.c:471-507 | queueable requests whose texts share no memory are all faithful |
| Graphics.PerformLeaves | graphics.c:26-193 | every direct call cuts its numbers to the screen, colours to 0..63, and leaves exactly the bytes, the pen's red, green and blue, the cursor and the pen number that they say; pens out of range are left alone |
| Graphics.ExecuteDraws | graphicsQueueables.c:90-280 | the same for the numbers that a stored command's texts spell out, in the order of its arguments |
| Graphics.ReplayLeaves | graphicsQueueables.c:300-469 | a request with texts of its own, queued and replayed, leaves what the direct call with its numbers leaves |

## Left out

- Log.RedoLog.LogWrite: the panics for a full log and outside a transaction are preconditions here; `LogSpace` says when they are unreachable.
- BufferCache.Cache.Load: the wait for the lock of a buffer is a precondition here; `SleepLocks` models it.
- CrashFiles.CrashKeepsWholeChunks: the chunks' updates follow one another in the log; chunks of several processes that interleave inside their transactions are covered by `GroupCommit.CrashKeepsWholeOperations` only.
- FileSystem.FileSys.Bmap: an index beyond the file's next block, which no caller passes, since files have no holes.
- BufferCache.Cache.Bwrite: the buffer must come from bread, so it is valid; of iderw the checks for another disk or a block out of range are preconditions.
- FileSystem.FileSys.Balloc: a full disk panics in the source; here it is a result, and what follows it is not described.
- FileSystem.FileSys.Readi: device inodes are not part of this model.
- FileSystem.FileSys.Iupdate: of an inode, the size and the block addresses are modelled, not the type, device numbers and link count.
- FileSystem.FileSys.Filewrite: pipes and devices behind a file, and the file's permission flags, are not part of this model.
- Directories.InodeCache.Iput: the inode's type, which is cleared on disk, and the inode locks are not modelled.
- Directories.InodeCache.Ilock: of what ilock reads, only the link count is kept here; a free inode's panic is not modelled.
- Directories.DirLink: inode numbers are between 1 and 65535, as in a file system of this size; an entry holds 16 bits.
- Umalloc.Heap.Malloc: the end of the program's memory is a multiple of 8, as it is unless the program calls sbrk itself with other sizes; page faults on memory that the program does not have, and what follows when sbrk has taken memory away, are not modelled.
- VirtualMemory.Vm.Kfree: the check that a page is within physical memory is a precondition.
- VirtualMemory.Vm.Copyuvm: a page of the parent that is missing below its size panics, and is a precondition.
- VirtualMemory.Vm.Mappages: addresses are multiples of the page size, as all callers pass them; mapping a mapped page panics, and is a precondition.
- ProcessTable.ProcTable.Exit: closing files and the working directory are not modelled; initproc exiting panics, and is a precondition.
- ProcessTable.ProcTable.Dispatch: the order of the scheduler's scan is not modelled; any runnable process may be chosen.
- Shell.Parser.ParseExecCmd: an EXEC node is built once its words are known, where the source fills it while redirections already point to it.
- Graphics.Display.WriteQueue: a context's queue has room and its buffer is unset, since the source checks neither; contexts are given by an index below five.
- Graphics.Display.AppendPoint: two texts are one buffer or share no memory; texts that overlap in part are not modelled.
- Graphics.Display.CapText: each of the caller's buffers has room for the text of its capped number; a text shorter than that, such as the empty one, is overrun in the source.
- Graphics.Display.LineDraw: coordinates are unbounded integers; the source's int overflows only far beyond the capped coordinates.
- DecimalText.ParseInt: 32-bit overflow for texts of ten digits or more is not modelled.
- Files' reference counts, file descriptors, and loading programs; of exec only the push of an argument is modelled.
- Spinlocks.FlagTravels: a slot of the process table that is used for another process later is not modelled.
- Interrupts, traps, system call argument fetching, context switching and boot.
- Drivers for disk, screen, keyboard, serial line and interrupt controllers; the console, printf and the small user programs.
- The line-reading loop of grep.
- Process ids are unbounded numbers.
- The buffer cache and the log enter the inode layer by what bread returns and log_write records.
