# Verified models of the file system, the thread package and the web server

This project models three programs of the repository in Dafny and proves what they are for.

**The block file system (`fs/`).** The device is an array of blocks that is zero at first. Above it
stand the two freemaps (arrays of words with bits set and cleared in place), the super block, the inode
table with its cache of inodes in memory, the map from logical blocks to device blocks through direct,
single-indirect and double-indirect tables, byte-granular reading and writing, directories as logs of
records of varying length, and the commands of the shell. All of it is imperative: classes with the
fields of the C structures, methods with the C loops and failure exits. Block size, number of direct
blocks and table sizes are positive symbolic constants, so every result holds for all layouts.

One predicate, `FsOwnership.Fsck`, says that the blocks in use are exactly the blocks that the inodes
reach, each in one slot of one inode, that `block_count` counts them, and that free blocks are zero.
`FsAudit.FsckIsAudit` shows that it is what an fsck program would compute from the device alone.
`FsOrder.InOrder` adds the directory logs and the tree of names; every command keeps it, whether it succeeds
or fails, and following the path that `pwd` prints leads back to the directory. The exceptions are named:
`FsShell.Shell.Execute` says of each command, in terms of the state before it, exactly when it loses
ownership, exactly when an assertion of the program stops it, and when the current directory is left with
unsaved changes. `FsShell.Shell.Run` gives the states of a whole run, each the outcome of a command
(`FsCommands.Step`), in all of which blocks in use and blocks left add up to the same number; a session that
leaves nothing unsaved, as `FsMount.Session` says exactly, is found again unchanged by the next one.

How much space an operation needs is foreseen exactly (`FsSpace.Needs`): a write runs out of space if and
only if fewer blocks are left than the blocks it touches need, index blocks included, and what it has
stored by then is determined. A file is whole if it holds nothing but zeros past its end and no block that
freeing would miss. Only writes that run out of space leave files that are not; exactly when, and what such a
file then shows, is stated.

**The thread package (`threads/`).** A region with interrupts off is one step of a state machine
(`Threads.Next`); a preemption is a yield to any thread. Resuming a suspended context is written out: a
thread that wakes up inside `lock_acquire` goes round its loop again. Safety holds over all runs of
allowed steps. Below it stand the linked queue, which refines a sequence, and the scheduler's own
operations over linked queues, index array and lock fields, each of which makes exactly one step of the
state machine.

**The web server (`webserver/server_thread.c`).** The doubly linked list refines a sequence; a buffer of
the hash table refines a map from keys to queues of values; the cache, stored as a list and a table with
pointers back into the list, refines a value whose invariant holds while requests come and go. Eviction
is described in closed form and its loop is proved to compute that. The pool of requests is a
monitor with condition variables as a state machine. Whole runs of both are carried out on the stored
structures (`WebServer.Serve`, `WebPool.Perform`).

Modules follow the source files: `Fs*`, `Thread*` and `Web*`. `Sequences`, `Options` and `Arith` hold
what they share.

## Where the code does not do what it should

Where a property is false of the code, the code is modelled as it is and the condition is proved.

- `fs/read_write.c:225-228`: when the single-indirect block takes the last free block and the data block
  fails, the single-indirect block is freed but `i_indirect` still names it. `FsAllocate.AllocateBlock`,
  `FsReadWrite.WriteData` and the commands above them keep the ownership invariant if and only if this is not
  what happens (`Strands`, `StrandsWrite`, `FsCommands.StrandsAt`: conditions on the state before the call).
  `FsRuns.StrandingRun` is a run of create and write on a new file system that loses it.
- `fs/read_write.c:282-342`: the loops are bounded by `i_size`, so blocks left beyond it by a write
  that ran out of space are not freed. `FsFree.FreeBlocks` ends with `block_count` 0 if and only if the file
  was `Tight`; non-empty writes that do not run out of space keep `Tight`, and those that do lose it if and only if
  `Spills` holds before (`FsReadWrite.SpillsIff`). Removing a file that is not tight fails the assertion in
  `fs/inode.c:223`, which stops the program; `FsRuns.SpillingRun` is such a run.
- `fs/read_write.c:253, 271`, `fs/dir.c:228-238`: a creation that runs out of space leaves the current directory
  with unsaved changes if and only if it has got its inode and there was a block left for the record
  (`FsCommands.NewSpoils`, `FsCommands.DirtyIff`). They stay until something is made or removed in it; `cd`, any
  command that fetches it by name and the end of main meanwhile fail the assertion in `fs/inode.c:166`
  (`FsCommands.StopsAt`). `FsRuns.DirtyRun` is such a run, ended by `cd .`.
- `fs/read_write.c:77, 106, 241, 277`: the requested size is kept in an int, so that a read or write returns it if
  and only if it is below 2^31 (`FsSpace.Int32Iff`). `FsRuns.LongReadRun` reads 3000000000 bytes inside a file, and
  nothing is printed.
- `fs/read_write.c:250-254, 269-277`: a write that runs out of space keeps the size, and so leaves what it has stored
  past the end of the file; nothing is left there if and only if all of it is zero (`FsBytes.StoredZeroIff`). A
  later write behind the end leaves zeros in the gap if and only if there are only zeros there
  (`FsOrder.ContentOverwritten`, `FsCommands.WriteLeaves`). In `FsRuns.GapRun` a byte of a failed write shows.
- `fs/read_write.c:74-75, 238-239`: a start past the last addressable byte gives positive `EFBIG`.
- `fs/read_write.c:80-82, 106`: a clipped read returns the size that was asked for.
- `fs/dir.c:86-115`: the scan stops at the first reusable record, so by itself it can enter a name twice
  (`FsDirLog.AddTwice`, exactly when: `FsDirLog.AddUniqueIff`); its caller looks the name up first.
- `fs/dir.c:112-115, 228-238`: where the record of a new name would pass the last addressable byte of its directory,
  the record is cut off and the bytes of the directory are those of no log; at that byte nothing is entered, and
  success is reported for an inode that no name leads to. A creation that keeps ownership leaves a file system that
  is in order for no logs and no tree if and only if it has space but no room (`FsCommands.NewNoRoom`,
  `FsCommands.NewPast`, `FsCommands.PastDisordered`).
- `threads/thread.c:242-247`: after a switch `thread_yield(THREAD_ANY)` returns the caller's own id, although
  `threads/thread.h:54` promises that of the thread that ran (`ThreadCalls.ThreadYield`).
- `threads/thread.c:624-636`: `lock_release` does not check its caller; it keeps the invariant if and only if
  the lock is free or the caller holds it (`ThreadSync.ReleaseSafeIff`, `ThreadSync.Violated`);
  `ThreadSync.ReleaseByAnother` is a run of two threads that comes to such a release.
- `webserver/server_thread.c:200-206`: a request that missed and whose file was inserted meanwhile takes away
  a pin it never set; every step keeps the invariant of the cache if and only if it is not such an
  insertion (`WebRequests.NextKeepsIff`); `WebRequests.OverlapRun` is a run of two requests that makes one.
- `webserver/server_thread.c:808-854`: table growth moves a chain by the hash of its first key; all values stay
  findable if and only if all keys of the chain have that bucket (`WebTable.RehomedFoundIff`). The keys `AAA` and
  `DZE` share a bucket of a new table and not of the next one (`WebTable.DividedChain`, `WebTable.LostValue`).
- `webserver/server_thread.c:413-416`: with no place in the pool the main thread and all workers end up
  waiting for each other (`WebPool.NeverStuckIff`).

## Model

| member | source | states |
|---|---|---|
| FsBitmap.Bitmap.constructor | fs/bitmap.c:20-54 | a new bitmap has no bit in use below its size, and the left-over bits of its last word never count |
| FsBitmap.Bitmap.Alloc | fs/bitmap.c:69-91 | first fit: every lower bit was in use; exactly that bit is added; -ENOSPC only when all are in use, and then nothing changes |
| FsBitmap.Bitmap.Unmark | fs/bitmap.c:115-126 | exactly that bit is cleared, in one word |
| FsBitmap.Bitmap.NrAllocated | fs/bitmap.c:146-157 | the loop counts the bits in use |
| FsSuper.MarkedCount | fs/bitmap.c:146-157 | the count is bounded by the size, and reaches it exactly when all bits are in use |
| FsCodec.LeRoundTrip | fs/super.c:14-22 | the little-endian bytes of a field decode to it |
| FsSuper.SuperRoundTrip | fs/super.c:14-22 | a super block written to its block reads back the same |
| FsSuper.WriteThrough | fs/super.c:24-49 | writing the one freemap block that holds a changed bit makes the device copy equal to the bitmap in memory again |
| FsSuper.SuperBlock.AllocBlock | fs/super.c:225-240 | the lowest free data block, counted and written through; fails exactly when the limit or the freemap is exhausted, changing nothing; no inode or data block is written |
| FsSuper.SuperBlock.FreeBlock | fs/super.c:243-255 | the block is zeroed, uncounted and written through; no other block outside the freemap changes |
| FsSuper.SuperBlock.GetInodeFreemap | fs/super.c:198-211 | the lowest free inode number, counted and written through, or -ENOSPC when none is free |
| FsSuper.SuperBlock.PutInodeFreemap | fs/super.c:214-222 | the inode number becomes free, counted and written through |
| FsSuper.SuperBlock.Close | fs/super.c:175-195 | closing writes nothing new: write-through kept the device up to date |
| FsSuper.Remount | fs/super.c:136-195 | closing and reading the device again gives the same super block, freemaps and counters |
| FsSuper.SuperBlock.AvailableIs | fs/super.c:226-253 | blocks in use and blocks left always add up to the same number |
| FsInode.DinodeRoundTrip | fs/inode.c:98-113 | an inode written to its slot reads back the same |
| FsInode.SlotsDisjoint | fs/inode.c:78-96 | slots of different inodes in one block do not overlap |
| FsInode.SlotWritten | fs/inode.c:78-113 | writing one slot of the packed table changes that inode and no other |
| FsInode.InodeTable.GetInode | fs/inode.c:117-144 | at most one cached inode per number: a cached one is shared with one more reference, another is read from its slot clean with one reference |
| FsInode.InodeTable.SyncInode | fs/inode.c:147-160 | a dirty inode reaches its slot and becomes clean; every other slot and block is untouched |
| FsInode.InodeTable.PutInode | fs/inode.c:163-171 | one reference less; the last one removes the inode from memory |
| FsInode.InodeTable.AllocBlockFor | fs/inode.c:235-246 | a block leaves the freemap and is charged to the inode; failure changes nothing |
| FsInode.InodeTable.FreeBlockFrom | fs/inode.c:249-257 | the block is zeroed, returned and uncharged; block 0 means none and changes nothing |
| FsOwnership.SlotOf | fs/read_write.c:20-57 | each logical block has a slot whose logical number it is |
| FsOwnership.LogicalOfSlot | fs/read_write.c:20-57 | with SlotOf: the (page, offset) arithmetic is a bijection between logical blocks and data slots |
| FsOwnership.TakeKeepsFsck | fs/inode.c:235-246 | a block fresh from the freemap and charged keeps the ownership invariant and moves no block number of any inode |
| FsOwnership.LinkKeepsFsck | fs/read_write.c:112-230 | storing the number of a charged block in an empty slot keeps the ownership invariant |
| FsOwnership.LinkEntry | fs/read_write.c:112-230 | storing it in an entry of an index block changes that slot of that inode and no slot of any other |
| FsOwnership.UnlinkKeepsFsck | fs/read_write.c:192-202 | an empty index block cleared from its field and returned keeps the ownership invariant |
| FsOwnership.DropKeepsFsck | fs/read_write.c:192-197 | returning a block that no slot names keeps it |
| FsOwnership.DataWrite | fs/read_write.c:232-280 | writing a data block moves no block number and changes one logical block of one inode: the frame between files |
| FsAllocate.ReadBlock | fs/read_write.c:13-58 | the content of a logical block, zeros and 0 where unmapped, through all three levels; EFBIG past the last one |
| FsAllocate.AllocateBlock | fs/read_write.c:112-230 | maps exactly the requested logical block, bringing into use exactly the slots on the way to it; fails with -ENOSPC exactly when fewer blocks are free than it needs; no file changes in any outcome; ownership is kept if and only if the single-indirect rollback is not taken; a failure keeps a double-indirect block exactly where it returns for want of a page; the inode gets unsaved changes exactly if a block was needed and there was one |
| FsAllocate.Stranded | fs/read_write.c:225-228 | freeing the single-indirect block while i_indirect names it breaks ownership of this inode, of no other, and changes no file |
| FsSpace.CostForeseen | fs/read_write.c:112-230 | while a write maps block after block, the next block costs what was foreseen from the state before the write: a block for every slot on the way that is empty and that no earlier block of the write has brought into use |
| FsSpace.StopIs | fs/read_write.c:241-272 | the block at which a write stops is the only one up to which the free blocks reach and past which they do not |
| FsSpace.StoredIs | fs/read_write.c:241-273 | a write without enough space stores exactly the bytes before the block past which the free blocks are not enough |
| FsSpace.MappedNeedsNothing | fs/read_write.c:112-126 | blocks that are mapped need nothing |
| FsSpace.Int32Iff | fs/read_write.c:77-77 | what an int keeps of a size is the size exactly below 2^31, and negative from there to 2^32 |
| FsReadWrite.WriteChunk | fs/read_write.c:241-272 | one round of the loop: the bytes of one block are replaced by the piece of the buffer, keeping the bytes around it; what a failed round leaves of the block map |
| FsReadWrite.WriteRounds | fs/read_write.c:241-262 | the loop stores a prefix of the buffer: all but the last piece, all of the addressable part, or whole blocks up to the one that the free blocks are not enough for |
| FsReadWrite.WriteData | fs/read_write.c:232-280 | runs out of space if and only if fewer blocks are left than the blocks touched need, and takes just those otherwise; exactly bytes [start, start+done) become the buffer's prefix and every other byte of this and every other file stays; done, the result and the new size are determined: everything (size grows by what an int makes of the length), the in-range prefix (size is the maximum file size, -EFBIG) or the whole blocks there is space for (size kept, -ENOSPC); ownership kept if and only if the write does not strand; Tight kept by non-empty writes that do not run out of space; out of space, the inode gets unsaved changes exactly if a block was left |
| FsReadWrite.WrittenTight | fs/read_write.c:274-277 | a write that ends by extending the size keeps what testfs_free_blocks relies on |
| FsReadWrite.SpillsIff | fs/read_write.c:241-272 | a write that runs out of space leaves a tight file tight if and only if it maps no direct or single-indirect block past the end, and no double-indirect block for a file that ends before it |
| FsReadWrite.ReadData | fs/read_write.c:68-107 | the requested slice, for any alignment and number of blocks, clipped at the size; the result is what an int makes of the requested size; EFBIG past the end |
| FsBytes.SliceUpdated | fs/read_write.c:68-107 | what a write stored is what a read of the range returns; disjoint ranges read as before |
| FsBytes.SliceOther | fs/read_write.c:68-107 | a file of another inode reads as before |
| FsBytes.WrittenZero | fs/read_write.c:232-280 | bytes beyond the size stay zero, so a later gap reads as zeros |
| FsFree.FreeBlocks | fs/read_write.c:282-342 | the blocks of no other inode are touched; block_count ends as the number of blocks still owned, and is 0 if and only if the file was Tight; ownership is kept if and only if no single-indirect entry lies beyond the end |
| FsFree.AllFreedIffTight | fs/read_write.c:282-342 | every block of the inode is returned if and only if the file was Tight |
| FsFree.FreedFsck | fs/read_write.c:282-342 | ownership after the loops holds if and only if no single-indirect entry lay past the end |
| FsFiles.CreateInode | fs/inode.c:197-216 | the lowest free number, an empty inode of that type; -ENOSPC exactly when the table is full, changing nothing |
| FsFiles.RemoveInode | fs/inode.c:218-231 | gets past the source's assertion exactly if the file was Tight; then all its blocks, its slot (zeroed) and its number are free, and no other inode changes |
| FsFiles.FilesFrame | fs/inode.c:147-160 | storing fields that are no block numbers moves no block and changes no byte |
| FsDirLog.EncodeLogInjective | fs/dir.c:16-42 | decoding undoes encoding: two logs with the same bytes are the same log |
| FsDirLog.EncodeReplace | fs/dir.c:65-83 | a record of the same length written in place replaces exactly that record |
| FsDirLog.EncodeAppend | fs/dir.c:65-83 | a record written at the end extends the log by it |
| FsDirLog.LookupIsMap | fs/dir.c:324-340 | scanning for a name gives what the finite map gives |
| FsDirLog.AddIsUpdate | fs/dir.c:86-115 | adding an unused name, appended or over a free record, extends the map by it and keeps names unique |
| FsDirLog.RemoveIsErase | fs/dir.c:145-176 | freeing the record of a name erases it from the map |
| FsDirLog.AddReuses | fs/dir.c:98-115 | the first free record of the same length is used again and nothing else changes; only without one does the log grow |
| FsDirLog.RemoveFrees | fs/dir.c:152-177 | exactly the first record in use under the name is freed |
| FsDirLog.AddUniqueIff | fs/dir.c:86-115 | names stay unique if and only if the name is unused or is met before the first reusable record |
| FsDirLog.AddTwice | fs/dir.c:86-115 | a log on which adding a used name makes it appear twice |
| FsDirectory.NextDirent | fs/dir.c:16-42 | the record at an offset and the next offset; nothing at the end |
| FsDirectory.FindDirent | fs/dir.c:47-61 | a record that names the inode, or there is none |
| FsDirectory.WriteDirent | fs/dir.c:65-83 | the bytes of the directory become those of the log with the record, and no other file changes; in place it takes no block and cannot fail; at the end it runs out of space, and loses ownership, exactly as the write does, and then the log stays as it was |
| FsDirectory.AddDirent | fs/dir.c:86-115 | -EEXIST exactly if the scan meets the name, changing nothing; -ENOSPC exactly if the record goes to the end and its blocks cannot be had, leaving the log as it was; otherwise the log is extended, or a size error past the last addressable byte, where positive EFBIG means nothing was written |
| FsDirectory.SolidWritten | fs/dir.c:65-83 | a write that begins inside a file without holes or at its end leaves none, whatever its outcome: directories have no holes |
| FsDirectory.FileWritten | fs/read_write.c:232-280 | a write keeps all files in order; the one it runs out of space on counts as torn |
| FsDirectory.DirNameToInodeNr | fs/dir.c:324-340 | the number of the first live record with the name, or -ENOENT |
| FsEntries.RemoveDirentAllowed | fs/dir.c:117-142 | 0 for files and for directories with only "." and "..", -ENOTEMPTY for all others; references are returned |
| FsEntries.RemoveDirent | fs/dir.c:144-176 | refused with the right error, changing nothing, for dots, unknown names and directories in use; else the record is freed and the number returned, for lack of space never |
| FsEntries.RefusalIs | fs/dir.c:119-173 | -EINVAL exactly for dots, -ENOENT exactly without a record in use, -ENOTEMPTY exactly for a directory with a record in use for anything but dots; otherwise the record goes |
| FsEntries.CreateEmptyDir | fs/dir.c:180-196 | the two records in one block; -ENOSPC exactly without a free block, changing nothing |
| FsEntries.CreateFileOrDir | fs/dir.c:199-238 | -EEXIST if and only if the name is in use, changing nothing; -ENOSPC if and only if there is no inode, no block for a new directory or not the blocks for the record; any failure frees the inode again, keeps every other file and leaves the directory's log; success makes the lowest free inode with its first log and enters it, taking just those blocks; ownership lost exactly as stated |
| FsEntries.RemoveNamed | fs/dir.c:418-424 | the inode whose record was freed goes with its blocks, unless the source's assertion stops the program, exactly for a file that is not Tight; all other files keep their content |
| FsTree.OneEntry | fs/dir.c:198-238 | every live inode but the root has exactly one entry other than "." and "..", the root has none, and every entry names a live inode |
| FsTree.ParentAbove | fs/dir.c:181-195 | ".." is the directory that holds the entry, one level up; only the root is its own parent, so the parent relation has no cycle |
| FsTree.EntryAbove | fs/dir.c:47-61 | in the parent, a record naming d is the one that places it, never "." or ".." |
| FsTree.TreeWithDir | fs/dir.c:198-238 | a new directory under an unused name keeps the tree |
| FsTree.TreeWithFile | fs/dir.c:198-238 | so does a new file |
| FsTree.TreeWithout | fs/dir.c:408-424 | removing a file or an empty directory by a name other than the dots keeps the tree, and is never the root or the current directory |
| FsTree.PathLeadsBack | fs/dir.c:241-265 | walking down the path of an inode from the root arrives at it |
| FsTree.PathLevels | fs/dir.c:241-265 | the path has one name for each level, none of them a dot |
| FsTree.OnlyPath | fs/dir.c:241-265 | no other path without dots leads to the directory |
| FsShell.Pwd | fs/dir.c:241-265 | the recursion terminates by depth, prints the path of the directory in the tree, and returns the references it took |
| FsShell.Shell.PrintDirectory | fs/dir.c:364-372 | following the printed names, none of them a dot, from the root with lookups arrives at the current directory |
| FsShell.Shell.Cd | fs/dir.c:342-361 | moves to the named directory, or fails with -ENOENT or -ENOTDIR and stays; nothing else changes; stops at the assertion of testfs_put_inode exactly when it would leave a directory with unsaved changes |
| FsShell.Shell.Create | fs/dir.c:388-405 | -EEXIST exactly for a used name, changing nothing; -ENOSPC exactly as foreseen, keeping names, tree and all other files, and then the directory has new unsaved changes exactly if there was an inode and a block for the record; given room for the record, else the lowest free inode is entered, just the foreseen blocks are taken and the directory is saved; in order afterwards in all these cases unless ownership is lost, exactly as foreseen; without room the record is entered past 2^31, or cut off at the last addressable byte with -EFBIG, or success is reported for an inode that is not entered, exactly by the size of the directory |
| FsCommands.MadeNames | fs/dir.c:199-238 | after a creation the current directory has exactly the new name more, a new directory has its dots and nothing else, and no other names change |
| FsCommands.PastDisordered | fs/dir.c:112-115 | what such a creation leaves is in order for no logs and no tree |
| FsCommands.NamedNowhere | fs/dir.c:228-238 | an inode reported as created without being entered is the target of no name |
| FsDirLog.CutIsNoLog | fs/dir.c:63-83 | a log followed by a part of one more record is the encoding of no log |
| FsShell.Shell.Rm | fs/dir.c:407-424 | refuses exactly dots, unknown names and directories that hold a name other than dots, each with its error and changing nothing; stops at the source's assertion exactly for a file with blocks that freeing does not find; else the result is 0, the inode goes and its block_count blocks are free again, the directory is saved, all others keep their content, and the file system stays in order; it never runs out of space |
| FsOrder.RmRefusalMeans | fs/dir.c:119-173 | the same in terms of names: refused are exactly dots, unknown names, and directories that hold a name other than dots |
| FsCommands.RemovedNames | fs/dir.c:407-424 | after rm the current directory lacks exactly that name, and no other names change |
| FsRuns.ComeAndGoRun | fs/dir.c:388-424 | a run of mkdir and rm on a new file system: both succeed, and the root is alone again |
| FsShell.Shell.Write | fs/file.c:88-119 | the named file becomes the old content overwritten at start, cut at the maximum size with -EFBIG, with zeros in a gap exactly if nothing else was there, as in every whole file; if it runs out of space, exactly as foreseen, the part stored stands in the file and its size stays, and the file is then whole exactly as foreseen; all other files and the tree stay; ownership lost exactly as foreseen |
| FsCommands.FileRefusalMeans | fs/file.c:12-34 | a name is refused with -ENOENT exactly if it is not there and with -EISDIR exactly if it stands for a directory |
| FsShell.Shell.Read | fs/file.c:36-86 | a range inside the file comes back as last stored if what an int makes of its size is not negative; -EINVAL beyond it; nothing changes |
| FsOrder.ContentOverwritten | fs/read_write.c:232-280 | byte-level update and the size together are an overwrite of the file's content if and only if a gap holds nothing but zeros |
| FsBytes.StoredZeroIff | fs/read_write.c:250-254 | a write that keeps the size leaves zeros past the end if and only if all it stores there is zero |
| FsOrder.ContentClipped | fs/read_write.c:250-271 | after a write that runs out of space the content is the old one with the stored prefix over it, cut at the old size |
| FsShell.Shell.Execute | fs/testfs.c:178-229 | every command, failed or not, has its outcome and keeps the whole invariant (ownership, logs, tree, live current directory), unless, exactly as foreseen from the state before, a write strands a block, an assertion stops the program, or a directory has no room for a record, after which nothing is in order any more |
| FsShell.Shell.Run | fs/testfs.c:178-229 | every sequence of commands, failed ones included, goes through states that are all in order, each the outcome of the next command on the one before, with blocks in use and blocks left always adding up to the same number; it ends early only at such a command, for exactly that reason |
| FsOrder.CreatedInOrder | fs/dir.c:198-238 | the state after a creation is in order: ownership, logs and tree together |
| FsOrder.RemovedInOrder | fs/dir.c:407-424 | so is the state after a removal |
| FsOrder.FileWrittenInOrder | fs/file.c:88-119 | and the state after a change of one file |
| FsOrder.FullInOrder | fs/dir.c:233-238 | and the state after a creation that has run out of space, with the logs and the tree as they were |
| FsShell.NamesFreeBlock | fs/read_write.c:225-228 | looking at i_indirect and the freemap tells whether a write has lost the ownership invariant |
| FsCommands.SizeGivesRoom | fs/dir.c:86-115 | a bound on the directory's size that gives room for the next record |
| FsShell.Shell.FindsRoom | fs/dir.c:98-111 | where the scan for a free record stops tells whether the directory has room for the record |
| FsCommands.DirtyIff | fs/inode.c:147-171 | after a command the current directory has unsaved changes if and only if a creation has just run out of space with a block taken, or it had some and nothing was made or removed in it |
| FsCommands.CleanRun | fs/inode.c:147-171 | in a run that begins without unsaved changes there are none as long as no creation runs out of space with a block taken |
| FsCommands.DirtyRunIff | fs/inode.c:147-171 | at any point of any run there are some if and only if a command has left them and no later one has saved them |
| FsCommands.FileLeft | fs/read_write.c:232-280 | what a write makes of a file in every outcome: out of space it stays without loose blocks, and without bytes past its end, exactly as foreseen; otherwise its content is the expected overwrite if and only if the gap held zeros |
| FsMount.MakeFs | fs/mktestfs.c:24-97 | a new device is in order and holds the root directory alone, which takes one block; it fails if and only if the limit on its size is zero |
| FsMount.Reopen | fs/super.c:136-195 | with the current directory saved, reading the device again gives the same state: freemaps, counters, inodes, names and tree |
| FsMount.Session | fs/testfs.c:178-229 | a run of main to its end: if every command lets the shell go on, main passes its last assertion if and only if the current directory has no unsaved changes, as in every session in which no creation runs out of space with a block taken; the next session then finds the state of the last one |
| FsMount.SavedOnDevice | fs/inode.c:147-160 | with no dirty inode in memory the device holds every inode |
| FsAudit.FsckIsAudit | fs/inode.c:235-257 | the invariant with its ghost owners holds for some owners if and only if what an fsck program computes from device and inodes is right |
| FsAudit.FreemapIsReach | fs/super.c:225-255 | in a file system in order the freemap bits on the device are exactly the blocks the inodes reach, and used_block_count is their number |
| FsRuns.OneFileRun | fs/mktestfs.c:24-97 | a run of create on a new file system: the file is empty, no other name is entered, and only the root's block is taken |
| FsRuns.StrandingRun | fs/read_write.c:225-228 | a run of create and write of one byte on a new file system that ends with the ownership invariant lost |
| FsRuns.SpillingRun | fs/inode.c:218-223 | a run of create, a two-byte write with one block left and rm on a new file system that ends at the failed assertion |
| FsRuns.LongReadRun | fs/read_write.c:68-107 | a run in which a read inside a file returns a negative number and prints nothing |
| FsRuns.GapRun | fs/read_write.c:250-277 | a run in which a byte stored by a write that failed shows in the gap before a later write |
| FsRuns.DirtyRun | fs/inode.c:166-166 | a run on a new file system of a create that runs out of space and "cd .", which ends at the failed assertion |
| ThreadQueue.Queue.Push | threads/thread.c:735-756 | appends to the sequence, with both end pointers right |
| ThreadQueue.Queue.Pop | threads/thread.c:759-778 | drops the first element |
| ThreadQueue.Queue.MoveTop | threads/thread.c:793-831 | moves the element at a position to the front; out of range changes nothing and returns 0 |
| ThreadQueue.Queue.Unlink | threads/thread.c:318-393 | takes one linker out, moving the end pointer if it was last |
| Sequences.SwitchOrder | threads/thread.c:271-283 | pop, move to the front and push turn [c]+A+[w]+B into [w]+A+B+[c] |
| ThreadInvariants.InitialInv | threads/thread.c:68-86 | thread_init establishes the invariant |
| ThreadInvariants.NextKeeps | threads/thread.c:112-697 | every allowed step of every thread operation keeps the invariant of queues, index, statuses, locks and history |
| ThreadInvariants.RunKeeps | threads/thread.c:112-697 | it holds in every state of every run |
| ThreadInvariants.DispatchKeeps | threads/thread.c:212-291 | handing the processor on, through any chain of threads that wake up and sleep again in lock_acquire, keeps it |
| ThreadSync.SchedulerPartition | threads/thread.c:112-451 | in every reachable state the ready queue is not empty, each thread of the index is in exactly one queue once under its id, the running thread is Run or New, other ready ones Idle or New, waiting ones Sleep |
| ThreadSync.LockSafety | threads/thread.c:610-636 | in every reachable state at most one thread is between acquire and release, it is the one on record, and a free lock has no waiters |
| ThreadSync.AcquireHolds | threads/thread.c:610-621 | lock_acquire returns with the caller holding the lock |
| ThreadSync.DispatchHolds | threads/thread.c:499-540 | a thread resumed inside lock_acquire or cv_wait runs on holding the lock it wanted |
| ThreadSync.ReleaseSafeIff | threads/thread.c:624-636 | lock_release keeps the invariant if and only if the lock is free or the caller holds it |
| ThreadSync.Violated | threads/thread.c:624-636 | released by another, the lock can be held by two threads after one more acquire |
| ThreadSync.ReleaseByAnother | threads/thread.c:624-636 | a run of two threads from thread_init that comes to a release by a thread that does not hold the lock, and breaks the invariant |
| ThreadSync.CvWaitAtomic | threads/thread.c:657-671 | between releasing the lock and sleeping no other thread runs and interrupts stay off; with nobody else ready the call returns holding the lock |
| ThreadSync.SignalWakes | threads/thread.c:674-697 | a signal wakes the longest waiter, a broadcast all in the order in which they slept; those woken join the end of the ready queue |
| ThreadSync.AsleepUntilWoken | threads/thread.c:544-579 | in a log in which sleepers are woken first come first, who sleeps stays asleep until woken |
| ThreadSync.NextGrows | threads/thread.c:112-697 | every step only adds to what has happened, and no wait queue goes away |
| ThreadSync.SleepsUntilWoken | threads/thread.c:544-579 | a thread that sleeps in a queue in some state of a run sleeps there in every later state until it has been woken |
| ThreadEffects.CreateIsLast | threads/thread.c:112-170 | the new thread is ready behind all others, under an id that was free; nobody is switched to |
| ThreadEffects.YieldAnySwitches | threads/thread.c:217-247 | the next thread runs and the caller goes to the end; alone, the caller goes on |
| ThreadEffects.YieldToSwitches | threads/thread.c:249-292 | exactly the thread asked for runs next, the others keep their order behind it, and the caller goes to the end |
| ThreadEffects.YieldToNobody | threads/thread.c:252-297 | for the caller's own id, and for one that no ready thread has, nobody is switched to |
| ThreadEffects.ExitSelfSwitches | threads/thread.c:399-443 | the next thread runs, and the caller's id is free |
| ThreadEffects.ExitAnyTakesLast | threads/thread.c:376-398 | the last ready thread is destroyed, and that alone |
| ThreadEffects.ExitIdTakes | threads/thread.c:310-379 | exactly the ready thread with the id is destroyed, the others stay in order |
| ThreadEffects.SleepsLast | threads/thread.c:499-540 | the next thread runs, and the caller sleeps last in the queue; alone, the caller goes on |
| ThreadEffects.WakeupWakes | threads/thread.c:544-579 | the longest sleeper, or all in the order in which they went to sleep, go to the end of the ready queue; the rest sleep on, and nobody is switched to |
| ThreadEffects.AcquireSwitches | threads/thread.c:610-621 | a free lock is taken at once; for a taken one the caller goes to sleep last in its queue, and the next thread runs |
| ThreadEffects.ReleaseWakes | threads/thread.c:624-636 | the lock is free, all its sleepers are ready in order behind the others, no other lock changes, and nobody is switched to |
| ThreadEffects.CvWaitSwitches | threads/thread.c:657-671 | of the threads behind the caller, and behind them the sleepers of the lock, the first runs next |
| ThreadEffects.NothingWithoutLock | threads/thread.c:657-697 | the calls on a condition variable do nothing for a caller without the lock |
| ThreadProgress.DispatchOrder | threads/thread.c:212-291 | a switch hands the processor to the ready threads in queue order |
| ThreadProgress.AcquireOrder | threads/thread.c:610-621 | so does sleeping for a lock |
| ThreadProgress.StepNearer | threads/thread.c:197-307 | each switch of a fair step brings a waiting-to-run thread one place nearer, or runs it |
| ThreadProgress.RunsAfter | threads/thread.c:197-307 | in a run of fair steps a ready thread at position p runs after at most p switches |
| ThreadScheduler.Scheduler.Continue | threads/thread.c:212-247 | resuming the head over the linked queues is the dispatch of the state machine |
| ThreadScheduler.Scheduler.AcquireOrSleep | threads/thread.c:610-621 | the loop of lock_acquire over the linked queues is that of the state machine |
| ThreadCalls.ThreadInit | threads/thread.c:68-86 | the stored state is the initial state of the state machine |
| ThreadCalls.ThreadCreate | threads/thread.c:112-170 | one Create step with the least free id from 1 on and the last place in the queue, or THREAD_NOMORE exactly with all ids taken |
| ThreadCalls.ThreadYield | threads/thread.c:197-307 | exactly one yield step of the state machine (ThreadEffects says which thread runs), and the result in every case: after a switch the id asked for, and for THREAD_ANY the caller's own |
| ThreadCalls.ThreadExit | threads/thread.c:310-451 | exactly one exit step, and the id that is returned |
| ThreadCalls.ThreadSleep | threads/thread.c:499-540 | exactly one sleep step; no queue and nobody else ready are answered at once, and after a switch the result is the id of the thread that was second |
| ThreadCalls.ThreadWakeup | threads/thread.c:544-579 | exactly one wakeup step (ThreadEffects says whom it wakes), and the number woken |
| ThreadCalls.LockAcquire | threads/thread.c:610-621 | exactly one acquire step |
| ThreadCalls.LockRelease | threads/thread.c:624-636 | exactly one release step, whoever calls it |
| ThreadCalls.Wait | threads/thread.c:657-671 | exactly one cv_wait step, nothing if the caller does not hold the lock |
| ThreadCalls.Signal | threads/thread.c:674-697 | exactly one cv_signal or cv_broadcast step |
| WebList.List.Push | webserver/server_thread.c:461-485 | appends, with the links in both directions right |
| WebList.List.Put | webserver/server_thread.c:487-510 | puts in front |
| WebList.List.Pull | webserver/server_thread.c:535-556 | drops the last element |
| WebList.List.Delete | webserver/server_thread.c:558-580 | drops the element at a position, first, last or between; out of range returns 0 and changes nothing |
| WebList.List.PMoveTop | webserver/server_thread.c:648-674 | moves a linker of the list to the front, keeping the order of the others |
| WebTable.BucketBuffer.Find | webserver/server_thread.c:743-766 | the oldest value under the key, or none |
| WebTable.BucketBuffer.Insert | webserver/server_thread.c:874-888 | adds the value behind the key's others; no other key changes |
| WebTable.BucketBuffer.Delete | webserver/server_thread.c:768-806 | takes the key's oldest value away, if any; no other key changes; the counter of pairs is not lowered |
| WebTable.ChainsInserted | webserver/server_thread.c:874-888 | in terms of chains: a pair at the end of its chain extends what is stored under its key, and that alone |
| WebTable.ChainsDeleted | webserver/server_thread.c:768-806 | taking out the first pair with the key removes the oldest value under it, and that alone |
| WebTable.RehomedFoundIff | webserver/server_thread.c:808-854 | after a chain has moved as a whole, all its values are found if and only if all its keys belong to the bucket of the first |
| WebTable.DividedChain | webserver/server_thread.c:928-937 | two keys that share a bucket of a new table and not of the table after its first growth |
| WebTable.LostValue | webserver/server_thread.c:808-854 | moved in one chain, the second of them is not found any more |
| WebCache.CutIs | webserver/server_thread.c:95-121 | eviction stops at the first free block, from the tail, with which the bytes asked for are reached |
| WebCache.SurvivorsAre | webserver/server_thread.c:95-121 | exactly the free blocks from there to the tail are gone: tail-to-head order, and no block in use is evicted |
| WebCache.EvictedKeeps | webserver/server_thread.c:95-121 | eviction succeeds if and only if the free blocks are enough, frees at least the bytes asked for, keeps every pinned block and the counters, and does not empty the list when it fails |
| WebCache.EvictTurn | webserver/server_thread.c:99-117 | one turn of the loop looks at one more block from the tail, or is stuck exactly when only pinned blocks are left |
| WebCache.AbsentInsertion | webserver/server_thread.c:174-199 | a new file is added if and only if it is smaller than half the cache and there is or can be made room; the current size stays the sum and within the total |
| WebCache.EvictedIs | webserver/server_thread.c:95-121 | an eviction leaves the blocks before the position from which on the free ones suffice, and before them those in use from behind it; without enough free blocks only those in use |
| WebCache.AbsentLeaves | webserver/server_thread.c:174-199 | with room nothing is evicted and the file goes before all blocks; without room it goes before what an eviction leaves; on failure only blocks in use are left; a file of half the cache or more changes nothing |
| WebCache.ListedInsertion | webserver/server_thread.c:200-206 | the insertion of a listed file takes one pin from it and changes nothing else |
| WebCache.LookedUpIs | webserver/server_thread.c:134-166 | found exactly if listed and small enough; then one pin more and before all others, which keep their order; otherwise nothing changes |
| WebLru.LruCache.Lookup | webserver/server_thread.c:134-166 | list, table, counters and pins stored as pointers do what the value does: a hit pins, moves to the front and returns the file |
| WebLru.LruCache.Evict | webserver/server_thread.c:95-121 | the loop terminates, looking at one more block in each turn, never looks at an empty list, and computes the closed form; every table entry and link position stays right |
| WebLru.LruCache.Insert | webserver/server_thread.c:167-209 | unpins a listed file, or adds the new one, evicting if need be; list and table stay in bijection; what is true of the cache is kept if and only if a listed block had a pin; the table gets one more pair exactly if a file is added |
| WebServer.Perform | webserver/server_thread.c:250-289 | one step of a request on the stored cache is the step of the cache as a value |
| WebServer.Serve | webserver/server_thread.c:250-289 | every run of requests without overlap, however long, on a new stored cache to which fewer files are added than make the table grow, ends with list, table and counters standing for the cache of the run, and with every request holding what the run gives it |
| WebRequests.NextKeepsIff | webserver/server_thread.c:250-289 | every step keeps the invariant (pin counts are numbers of users, m_nPinned counts pinned blocks, sizes add up, what is being sent stays cached) if and only if it is not an overlapping insertion |
| WebRequests.RunKeeps | webserver/server_thread.c:250-289 | the invariant holds over all runs, and all that a hit can send was inserted before |
| WebRequests.LookupIs | webserver/server_thread.c:134-166 | a request gets the file of the name it has asked for, a hit exactly if that is listed, and other requests are not touched |
| WebRequests.HitKeeps | webserver/server_thread.c:200-206 | the insertion after a hit finds the block and takes back exactly its own pin |
| WebRequests.OverlapBreaks | webserver/server_thread.c:200-206 | an overlapping insertion breaks the pin counts |
| WebRequests.OverlapRun | webserver/server_thread.c:250-289 | two requests for one file, both looking it up before either inserts it, come to an overlapping insertion that breaks the invariant |
| WebRequests.ListedIsPinned | webserver/server_thread.c:200-206 | in runs without overlap an insertion meets what the stored cache asks of its caller |
| WebRequests.QuietServer | webserver/server_thread.c:174-199 | with no request under way nothing is pinned and every file below half the cache can be inserted |
| WebPool.NextKeeps | webserver/server_thread.c:362-423 | every step keeps the pool bounded and first in first out, the main thread waits only while it is full, and as many workers are awake as there are requests, or all |
| WebPool.FirstInFirstOut | webserver/server_thread.c:362-423 | over all runs the pool is bounded and the requests taken are a prefix of those accepted, each once and in order |
| WebPool.NoneLost | webserver/server_thread.c:362-423 | in every run the connections that have arrived are, in order, those taken by workers, those in the pool, and the one the main thread holds |
| WebPool.NeverStuckIff | webserver/server_thread.c:362-423 | in no run do the main thread and all workers wait together, if and only if the pool has a place |
| WebPool.Drains | webserver/server_thread.c:362-380 | from every reachable state the workers alone can take all that is in the pool, in two steps each, and the main thread then does not wait |
| WebPool.RequestPool.Enter | webserver/server_thread.c:404-423 | what the main thread does with the lock held, on the linked list, is one step of the monitor: with a place the connection is last in the pool and one sleeping worker is woken, otherwise the main thread waits and nothing changes |
| WebPool.RequestPool.Take | webserver/server_thread.c:362-376 | what a worker does with the lock held is one step of the monitor, and it gets the oldest connection |
| WebPool.Perform | webserver/server_thread.c:362-423 | every run of the monitor on a new stored pool ends in the state of the run, and the workers have got the connections it says, in order |

## Left out

- ls, lsr, stat, help and printing: output only; `pwd` yields the sequence of names.
- Option parsing of mktestfs: the runs in FsRuns give the limit to testfs_make_super_block as a number of blocks; mktestfs passes it whole megabytes.
- Device files, seeking and read or write errors of the host: the device is an array of blocks.
- malloc failure, leaks and freeing of memory: objects are never reused after they are freed.
- What happens after a write has lost the ownership invariant: the runs end there, as they end at a failed assertion.
- FsAllocate.ReadBlock: excludes the logical block one past the last, which the guard lets through to an entry outside the index block; no caller passes it.
- FsShell.Shell.Read: excludes an offset and a size whose sum is no 64-bit file offset, where the source's sum overflows.
- FsShell.Shell.Write: words of a command line are shorter than 2^31 bytes; what a longer buffer does to the size is in FsReadWrite.WriteData.
- FsReadWrite.ReadData: excludes a start in range but past the end of the file, where the source computes with a negative length; its callers check for it.
- FsFree.FreeBlocks: asks that every block in use is stored in some slot, as it is whenever no allocation is under way; the inode that a failed write stranded is excepted by the parameter `skip`.
- FsDirectory.AddDirent: directories of 2^31 bytes and more are excluded, where the C int offset overflows; the scan past that is not part of this model.
- FsShell.Shell.Execute: ends the run (`NoRoom`) where a directory has no room for the record of a new name; what that leaves is stated, commands on it are not.
- fs/list.h: a bucket of the inode hash is part of a map from numbers to inodes, and there is one super block.
- Stacks, registers, signal masks and timers: a context is what the thread does when it is resumed; a preemption is a yield.
- ThreadCalls.ThreadExit: not with the caller's own numeric id, and not of the last ready thread, which leave the ready queue without a running head.
- ThreadCalls.LockAcquire: when nobody else is ready and the lock is taken the source spins for ever; the state machine marks that state as hung and makes no further step.
- ThreadCalls.LockRelease: `m_eStatus` and `m_pLockedThread` are one optional holder in the state machine, changed together within the step.
- wait_queue_destroy, lock_destroy and cv_destroy.
- Table growth: what moving a chain does is in WebTable.RehomedFoundIff; moving as a whole is not part of this model.
- WebTable.BucketBuffer.Insert: growth and the moving of chains at the end of the source function are not modelled.
- WebTable.Bucket: the mask by a power of two less one is a remainder; characters are not negative.
- WebLru.LruCache.Insert: excludes adding the pair that makes the table grow.
- WebServer.Serve: covers runs whose table does not grow and in which no insertion overlaps another.
- WebPool.Drains: states that the workers can empty the pool, not that the host's scheduler lets them.
- One main thread calls `server_request`, as in webserver/server.c; several producers are not modelled.
- List_movetop, List_concatenate and m_iEvictableSize, which nothing in the modelled part uses.
- HTTP, sockets, reading of files, mutexes as such (a locked region is one step).
- warmup/*, and webserver/os-086/threads/*, a second copy of the thread package.
