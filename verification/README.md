# xv6 with a lottery scheduler, time accounting and signals: a Dafny model

A model of the parts of this xv6 kernel and its user programs that are protocols or data structures,
with proofs of what they promise. State that the C code changes in place is a class whose methods carry
the loops; each method is proved against a function on values, and what the code is for is proved of
those functions, over every input, every interleaving or every crash.

| file | models |
|---|---|
| `Bytes.dfy`, `Sets.dfy` | words and bits in disk blocks; counting sets |
| `RedoLog.dfy`, `GroupCommit.dfy`, `Log.dfy`, `Durable.dfy`, `AtomicDisk.dfy` | log.c: crash recovery, the reservation that admits operations, the code over the buffer cache, whole runs of operations, commits and crashes, and the atomic disk that they refine |
| `BufferCache.dfy` | bio.c over memide.c: the LRU ring and the cache as a block map |
| `Inodes.dfy`, `FileData.dfy`, `FileSystem.dfy`, `OpenFile.dfy` | fs.c and file.c: who owns which block, files as byte sequences, reading and writing |
| `Directory.dfy`, `Paths.dfy`, `Links.dfy`, `Parents.dfy` | fs.c and sysfile.c: directories as maps, path lookup, link counts, where the dots lead |
| `Malloc.dfy` | umalloc.c |
| `Frames.dfy`, `Sweep.dfy`, `Budget.dfy`, `Vm.dfy` | vm.c and kalloc.c: page tables over a free list of frames, which pages deallocuvm comes to, how many frames growing takes |
| `Pipe.dfy` | pipe.c |
| `Processes.dfy`, `Lives.dfy`, `ProcTable.dfy` | proc.c: fork, exit, wait, sleep, wakeup, kill and the timer tick; what a whole run says about each process |
| `Signals.dfy` | trap.c and proc.c: pending signals, delivery, sigreturn |
| `Shell.dfy`, `ShellItems.dfy`, `ShellGrammar.dfy`, `ShellLines.dfy`, `ShellParser.dfy` | sh.c: the parser over tokens, simple commands, the language it accepts, tokens of a line, and the code with nulterminate |
| `Regex.dfy` | grep.c: match, matchhere, matchstar |

`dafny verify dfyconfig.toml` checks the project.

## Where the code falls short of the plain claim

Each of these is a theorem with its exact condition.

- log_write panics exactly when as many blocks are logged as the smaller of LOGSIZE and the log area's data
  blocks (`GroupCommit.PanicsExactly`). Operations within their budgets can bring this about for any size of
  the area (`GroupCommit.PanicReachable`): with the LOGSIZE blocks that mkfs lays out by logging a new block,
  with a larger area only by logging again a block that is in the log already
  (`GroupCommit.NewBlockNeverPanics`).
- commit of a transaction that is not empty, when nobody keeps it from the blocks it needs, panics for want of
  a buffer exactly when every buffer is pinned or held by a reader (`Log.Log.Commit`, `Log.Log.Resume`); with no
  readers, when all NBUF are pinned (`Log.SpareCount`), which three operations within their budgets bring about
  (`Log.Exhausted`).
- begin_op reserves room for MAXOPBLOCKS blocks, and a transaction of filewrite with a full chunk always logs
  more: 13 data blocks, or 14, and the others that it touches (`OpenFile.File.Transact`, `OpenFile.FullChunk`).
  With one bitmap block, chunks of up to 3073 bytes would stay within it (`OpenFile.SafeChunk`).
- writei and filewrite panic on a full disk exactly when fewer blocks are free than the write has to add, the
  indirect block included (`FileSystem.Fs.Writei`, `OpenFile.File.Write`).
- malloc computes a request correctly exactly up to 0x7FFFFFF0 bytes (`Malloc.RequestExact`).
- filewrite in chunks equals one unchunked write exactly when all of it fits under the maximum file size
  or not even its first chunk does (`OpenFile.ChunkedIsWhole`).
- create, mkdir, link and unlink keep every link count right, in a removed directory too; freeing an inode
  whose count is zero does so exactly when it has no entries (`Links.StepExactly`). Removed directories stay
  empty exactly as long as nobody enters a name in one (`Links.TidyExactly`), so until then every count is
  right (`Links.RightAlways`). A name entered in one leads to a wrong count: a file created there ends up with a
  count of one and no name (`Links.RemovedFile`, `Links.RemovedDir` beside a new directory), a file linked there
  with a count that is too high (`Links.RemovedLink`); such a run exists from every file system in which a
  directory can be made (`Links.WrongCount`).
- allocuvm does not look at mappages' result. It loses a frame exactly when the free frames run out at the
  table of a page that has its frame, and reports success with that page unmapped exactly when it is the last
  (`Vm.Machine.Allocuvm`, `Budget.StopExactly`, `Budget.LastLostCase`).
- copyuvm that runs out of frames loses one exactly when the frames left for the pages are 1 modulo 1025, and
  setupkvm that runs out loses every free frame (`Vm.Machine.Copyuvm`, `Budget.CopyLoss`,
  `Vm.Machine.Setupkvm`).
- deallocuvm's 4MB skip passes over a mapped page exactly when it starts inside a region with no page table
  and meets none before the page's own (`Sweep.SweepExact`, `Sweep.HoleMissed`). A sweep that starts on a 4MB
  boundary, as freevm's does, or in an image without holes misses nothing (`Sweep.SweepWhole`,
  `Sweep.SweptContiguous`).
- a killed writer that fills a pipe returns without waking sleeping readers, and no other step does that
  (`Pipe.AwakeExactly`, `Pipe.LostWakeup`).
- kill of a zombie overwrites its termination time, and no other step breaks the time accounts
  (`Processes.TimesExactly`, `Processes.KilledZombie`).
- sigreturn restores every field of the trap frame, and then the system call's result overwrites eax
  (`Signals.RoundTrip`).
- the shell's parser reads a line that the grammar writes as what it means exactly when no simple command in it
  has more than nine arguments (`ShellGrammar.Language`, `ShellLines.ParsePrint`).
- kill of a pid marks the first slot that holds it, also one that is unused: the flag of a slot is set exactly when
  it was hit since its process was reaped (`Lives.KilledExactly`).
- `>>` appends nothing: every line means what it means with `>` in its place (`Shell.AppendIsOut`).

## Model

| member | source | states |
|---|---|---|
| `Bytes.WordOfPut` | fs.c:374-378 | a 32-bit word stored in a block reads back, and no other word of the block changes |
| `Bytes.BlockBitOfPut` | fs.c:62-66 | setting or clearing one bit of a bitmap block changes that bit and no other |
| `RedoLog.HeaderWord` | log.c:100-112 | the header block on disk word by word: the count, the block numbers in order, and then what it held before |
| `RedoLog.HeaderRoundTrip` | log.c:84-112 | reading the header that write_head stored gives back the block list, whatever was in the block before |
| `RedoLog.CommitWriteAt` | log.c:174-199 | each single write of a commit of n blocks: n into the log blocks after the header, the header that names them, n to their homes, and the header with a count of zero |
| `RedoLog.PartialRecovery` | log.c:114-121 | a recovery stopped after any number of its writes leaves every home block's committed value unchanged, and a complete one puts those values in place and empties the log |
| `RedoLog.Restarts` | log.c:114-121 | any number of crashed recoveries, each at any point, keeps every committed value |
| `RedoLog.Reboot` | log.c:53-66 | crashed recoveries followed by a complete one give the recovered disk |
| `RedoLog.CommitBeforeHeader` | log.c:174-199 | a commit stopped before its header write has changed no home block and the log still says empty |
| `RedoLog.CommitAtHeader` | log.c:100-112 | the header write makes the disk carry the whole transaction in its log |
| `RedoLog.CommitTail` | log.c:189-199 | after the header write, what is left of commit is exactly what recovery would do |
| `RedoLog.CommitAfterHeader` | log.c:174-199 | a commit stopped at or after its header write is committed as a whole |
| `RedoLog.CrashAtomicity` | log.c:68-121 | for a crash between any two block writes of commit and any crashes during recovery, every home block ends as it was or every one ends updated, decided by whether the header was written |
| `RedoLog.HistoryAtomicity` | log.c:174-199 | over any history of transactions, crashed or not, each home block holds the value of the last transaction that reached its header write |
| `GroupCommit.InvNext` | log.c:124-171 | each begin_op, log_write, end_op and commit step keeps the reservation: blocks logged plus the unused budget of all open operations stays within LOGSIZE, and commit runs with no operation open |
| `GroupCommit.EveryRun` | log.c:124-171 | in every interleaving the reservation holds, and while a commit runs nothing is admitted, logged or ended |
| `GroupCommit.PanicsExactly` | log.c:210-230 | for every log_write that any run can make, the panic happens exactly when as many blocks are logged as the smaller of LOGSIZE and the area's data blocks; with a larger area that is a log of exactly LOGSIZE blocks, all budgets used up and a block already in the log |
| `GroupCommit.NewBlockNeverPanics` | log.c:215-226 | with an area larger than LOGSIZE no run panics at a block that is not in the log yet |
| `GroupCommit.PanicReachable` | log.c:215-218 | for every size of the area some run without an earlier panic reaches it: at a new block with at most LOGSIZE blocks, which is what mkfs lays out, at a block already logged otherwise |
| `BufferCache.MoveToFront` | bio.c:130-137 | the pointer surgery of brelse turns the ring into the same ring with the buffer moved to the front |
| `BufferCache.RecycleView` | bio.c:85-96 | recycling a clean buffer changes nothing that a reader can see |
| `BufferCache.PinnedCount` | bio.c:85-97 | if all buffers but a few are dirty, at least that many blocks are pinned |
| `BufferCache.Cache.constructor` | bio.c:39-57 | an empty cache is coherent and shows the disk |
| `BufferCache.Cache.FindCached` | bio.c:70-83 | the first scan finds the block's buffer if there is one |
| `BufferCache.Cache.FindClean` | bio.c:85-97 | the second scan finds the least recently used buffer that is neither busy nor dirty, if there is one |
| `BufferCache.Cache.Bget` | bio.c:62-98 | the buffer is the cached one, or the least recent clean one recycled, or the caller sleeps or panics, each exactly when it should; no block's contents change and dirty buffers are never recycled |
| `BufferCache.Cache.Bread` | bio.c:99-110 | bread returns the block's current bytes: the last ones logged if it is pinned, the disk's otherwise |
| `BufferCache.Cache.Bwrite` | bio.c:112-119 | the block on disk becomes the buffer's bytes, in one write, and is no longer pinned |
| `BufferCache.Cache.Brelse` | bio.c:121-142 | the ring is moved to front, and the buffer is free, with every block's contents the same |
| `BufferCache.Cache.MarkDirty` | log.c:227-228 | a logged block stays pinned in the cache with its bytes |
| `Log.CommitKeepsView` | log.c:189-199 | after commit each home block on disk is what the cache showed for it before |
| `Log.SpareCount` | bio.c:85-97 | with no buffer held, one is neither busy nor dirty exactly when fewer than NBUF blocks are pinned |
| `Log.Exhausted` | log.c:174-187 | on a log area of 32 blocks three operations that log ten blocks each leave every buffer pinned, and commit panics for want of one |
| `Log.CommitDurable` | log.c:189-199 | after the last of commit's writes nothing is pinned and the log is empty, on disk and in memory |
| `Log.CommitCrash` | log.c:53-199 | a crash after any number of commit's writes and any crashes during recovery leave each home block as it was on disk, or as the cache showed it, decided for all blocks at once by the header write |
| `Log.Log.BeginOp` | log.c:124-140 | an operation is admitted exactly when no commit runs and the blocks logged with ten for each operation, this one included, are at most 30; what commit relies on is kept |
| `Log.Log.LogWrite` | log.c:210-230 | the block joins the end of the list unless it is in it, its buffer is pinned, the panic happens exactly when 30 blocks, or as many as the area holds, are logged, and what commit relies on is kept |
| `Log.Log.Update` | log.c:210-230 | what a system call does to a block, from bread to brelse: the cache shows the new bytes for that block and no other change, the disk is as it was, the block is logged and pinned, and what commit relies on is kept; each way it can fail has its condition |
| `Log.Log.EndOp` | log.c:142-171 | the last operation to end starts the commit; what commit relies on is kept |
| `Log.Log.CommitDone` | log.c:166-169 | after the commit operations are admitted again |
| `Log.Log.WriteLog` | log.c:174-187 | from whichever block it is to go on at, the writes are the next of the logged blocks into the log slots, all of them when it ends; it sleeps only if a reader holds a block it needs, in a state from which it can go on, and otherwise fails exactly when no buffer is spare |
| `Log.Log.WriteHead` | log.c:100-112 | one write, of the header block with the list stored in it, or none; sleep and panic exactly as bget has it |
| `Log.Log.InstallTrans` | log.c:68-81 | from whichever block it is to go on at, the writes are the next of the log slots to their home blocks, in order, all of them when it ends; it sleeps and fails as write_log does |
| `Log.Log.ReadHead` | log.c:84-95 | the in-memory list is the list on disk |
| `Log.Log.CommitLogged` | log.c:189-193 | the log and then the header are written, as a prefix of the crash theorem's list, from wherever it slept |
| `Log.Log.CommitInstalled` | log.c:194-197 | the blocks go to their homes and the header is emptied, continuing that list, from wherever it slept |
| `Log.Log.Resume` | log.c:189-199 | a commit that slept goes on with the same list: it ends with all of it written, or sleeps again further on, or panics exactly when it needs a buffer and none is spare |
| `Log.Log.Commit` | log.c:189-199 | in every state that the other operations leave, with any buffers held by readers, the writes are the first of exactly the list that the crash theorem is about, all of them when it ends, and then nothing is pinned; it sleeps only if a reader holds a block it needs, ready to be resumed, and otherwise panics exactly when something is logged and no buffer is spare |
| `Log.Log.Reader` | bio.c:99-142 | a reader taking or giving back a buffer while commit sleeps leaves commit able to go on |
| `Log.Log.CommitBeside` | log.c:189-199 | commit beside readers that act as any script says, however often it sleeps: its writes are a prefix of the one list, and all of it when it ends |
| `Log.Log.RecoverFromLog` | log.c:114-121 | recovery writes exactly the recovery list of the crash theorem, leaves an empty log, and what commit relies on holds |
| `Durable.CrashedGood` | log.c:53-199 | in every state of a run, a crash now and any crashes during recovery leave every home block as it was saved |
| `Durable.StepGood` | log.c:124-230 | operations beginning, logging and ending, each single write of commit, its end, and a crash with recovery each keep what the crash theorem needs |
| `Durable.EveryRun` | log.c:53-230 | durability: after every run from boot, whatever the operations logged and however often the machine crashed, a reboot gives every home block as the cache showed it at the last header write |
| `AtomicDisk.StepRefines` | log.c:124-230 | each step of the log, single disk writes and crashes included, is a step of a disk without a log, which shows every update and keeps those made when a commit passed its header write |
| `AtomicDisk.Atomic` | log.c:53-230 | after every run from boot the cache shows each home block as its updates say, and a reboot gives it as they said at the last header write, both read off the events of the run alone |
| `Malloc.RequestExact` | umalloc.c:46-69 | the unit count and the sbrk argument are right for a request exactly up to 0x7FFFFFF0 bytes |
| `Malloc.RequestTight` | umalloc.c:69 | a request takes one unit for the header and the fewest that hold its bytes |
| `Malloc.FreedCoalesced` | umalloc.c:24-44 | freeing a block gives an address-ordered list with no two adjacent blocks touching |
| `Malloc.FreedUnits` | umalloc.c:24-44 | the free units become the old ones and the block's, and no others |
| `Malloc.JoinLinked` | umalloc.c:33-42 | the header writes of free link up exactly that list, for each way of joining the neighbours |
| `Malloc.StopsAtSlot` | umalloc.c:30-32 | free's search condition holds exactly at the block's place in address order, the wrap-around included |
| `Malloc.FreeHeap` | umalloc.c:24-44 | free keeps the heap: free and live blocks partition what sbrk gave |
| `Malloc.TakeExact` | umalloc.c:75-77 | allocating a block that fits exactly keeps the heap |
| `Malloc.TakeSplit` | umalloc.c:78-82 | allocating the tail of a larger block keeps the heap |
| `Malloc.Canonical` | umalloc.c:24-90 | the free list is determined by which units are free: no other coalesced list has the same units |
| `Malloc.Allocator.FindPrevious` | umalloc.c:30-32 | the search of free ends, at the node after which the block belongs |
| `Malloc.Allocator.FreeBlock` | umalloc.c:24-44 | the block is live no more, and its units lie in one free block |
| `Malloc.Allocator.Free` | umalloc.c:24-44 | free of what malloc returned removes that block and no other |
| `Malloc.Allocator.Morecore` | umalloc.c:46-60 | the units from sbrk join the heap, in a free block that is large enough even when it was merged into its predecessor |
| `Malloc.Allocator.Refill` | umalloc.c:86-88 | after morecore some block is large enough, and the search comes to it before it is back at freep |
| `Malloc.Allocator.Alloc` | umalloc.c:63-90 | malloc ends; it takes more memory exactly when no free block has the units asked for, and then exactly that much; it returns 0, with no block changed, exactly when sbrk then fails; otherwise its result is a new live block of the fewest units for nbytes that overlaps no other, the end of the first block that has them on the way round from freep |
| `Malloc.Allocator.Take` | umalloc.c:75-85 | the block found gives up exactly the units asked for, from its end, and freep is the block before it |
| `Inodes.BitMoved` | fs.c:53-93 | two blocks never share a bitmap bit |
| `Inodes.AllocatedOwned` | fs.c:53-75 | an allocated block belonged to no slot, and marking and zeroing it moves no pointer |
| `Inodes.ReleasedOwned` | fs.c:78-93 | an owned block's bit is set when it is freed |
| `Inodes.Filled` | fs.c:356-384 | a pointer filled with a fresh block keeps every block in at most one slot and the bitmap equal to what is owned |
| `Inodes.Cleared` | fs.c:391-419 | clearing pointers gives up exactly their blocks |
| `Inodes.Room` | fs.c:53-93 | every data block is free or owned and never both: the free bits and the owned blocks add up |
| `FileData.SpliceConcat` | fs.c:474-483 | two consecutive writes are one write of the concatenation |
| `FileData.SpliceAt` | fs.c:479-485 | a write byte by byte: the new bytes where they were written, the old ones elsewhere |
| `FileData.MappedExtent` | fs.c:356-384 | mapping the block at the end of a file extends it without a hole |
| `FileData.MappedData` | fs.c:356-384 | mapping a block changes no file's bytes |
| `FileData.MissingIs` | fs.c:356-384 | what bmap has to allocate for a write at the end of a file is the growth of the blocks a file of that size holds |
| `FileData.WriteRound` | fs.c:474-483 | one round of writei is a splice of the file's bytes |
| `FileData.LoggedCount` | fs.c:462-492 | no two of the blocks that a write logs are the same: the data blocks it touches, the bitmap blocks of those allocated, and the indirect block exactly when it gets an entry |
| `FileSystem.Fs.Balloc` | fs.c:53-75 | the lowest free block: its bit is set and no other, its bytes are zero, and no other block changes; failing exactly when the bitmap is full |
| `FileSystem.Fs.Bfree` | fs.c:78-93 | the block's bit is cleared and no other, and no other block changes; the panic happens exactly when it was clear |
| `FileSystem.SlotIs` | fs.c:356-384 | block bn of a file is direct pointer bn, or word bn - 12 of the indirect block |
| `FileSystem.Fs.Bmap` | fs.c:356-384 | bmap returns the block's slot, filling it and at most the indirect pointer, keeping ownership; a mapped block changes nothing; it fails exactly for want of a free block |
| `FileSystem.Fs.Writei` | fs.c:462-492 | writei splices the bytes into the file, grows its size, updates the inode on disk whenever it changed, and leaves every other file alone; it panics exactly when fewer blocks are free than the grown file holds more, and otherwise uses up exactly those; and how many blocks it logs |
| `FileSystem.Fs.Readi` | fs.c:434-459 | readi returns the clipped slice of the file's bytes and allocates nothing |
| `FileSystem.Fs.Itrunc` | fs.c:391-419 | exactly the inode's blocks are freed, and "freeing free block" cannot happen |
| `FileSystem.Fs.TruncDirect` | fs.c:397-402 | the direct blocks are freed |
| `FileSystem.Fs.TruncIndirect` | fs.c:404-415 | the entries of the indirect block and the block itself are freed |
| `OpenFile.AcceptedIs` | file.c:127-151 | how many bytes of a write get in: all exactly when it fits under the maximum file size, otherwise every whole chunk that fits |
| `OpenFile.ChunkedIsWhole` | file.c:116-155 | filewrite in chunks gives the result of one unchunked writei exactly when all of it fits or its first chunk does not |
| `OpenFile.FullChunk` | file.c:132 | a full chunk touches 13 blocks, or 14 when it is not aligned |
| `OpenFile.SafeChunk` | param.h:10 | with one bitmap block a write of up to 3073 bytes logs at most MAXOPBLOCKS blocks |
| `OpenFile.File.Read` | file.c:95-113 | fileread returns the bytes at the offset and advances it by as many, or -1 exactly when it is not readable or readi refuses |
| `OpenFile.File.Transact` | file.c:139-143 | one transaction is one writei and moves the offset by what it wrote; how many blocks it logs, which is more than MAXOPBLOCKS for every full chunk |
| `OpenFile.File.Write` | file.c:116-155 | filewrite is the chunked splice: the offset moves by the bytes that got in, and the result is their number if that is all of them and -1 otherwise; past the end of the file it is -1 and nothing changes; it panics exactly when the chunks that fit need more blocks than are free |
| `Directory.KeyIs` | fs.c:497-501 | the name that an entry stands for is its longest beginning without a NUL, of at most 14 characters |
| `Directory.Namecmp` | fs.c:497-501 | names are equal exactly when they agree up to 14 characters or a NUL |
| `Directory.PaddedKey` | fs.c:553 | the stored name compares like the name given |
| `Directory.AsMapIs` | fs.c:505-528 | the directory as a map: the names in use, each with its inode number |
| `Directory.Dirlookup` | fs.c:505-528 | dirlookup is lookup in that map |
| `Directory.Dirlink` | fs.c:532-559 | dirlink adds the name exactly when it is new, in the first free entry or past the last, leaves every other entry, and keeps the names distinct |
| `Directory.LinkedMap` | fs.c:532-559 | adding an entry is an update of the map |
| `Directory.ClearMap` | sysfile.c:215-217 | clearing an entry removes its name from the map |
| `Paths.Skipelem` | fs.c:576-600 | skipelem passes slashes, takes the characters up to the next slash or the end, keeps 14 of them, and passes the slashes after; there is an element exactly when there is a character that is no slash, and it is the next of the elements of the path |
| `Paths.LookupLast` | fs.c:640-651 | namei is nameiparent followed by dirlookup |
| `Paths.Icache.Follow` | fs.c:624-630 | one step of the walk moves the single reference along, or drops it |
| `Paths.Icache.Namex` | fs.c:605-638 | namex is the fold of lookup over the elements of the path, with one new reference on success and none on failure |
| `Links.InvCreate` | sysfile.c:238-281 | create keeps every link count right, in a removed directory too |
| `Links.TidyCreate` | sysfile.c:238-281 | it leaves removed directories empty exactly when the count of the directory is not zero |
| `Links.InvUnlink` | sysfile.c:181-235 | unlink keeps every link count right |
| `Links.InvCounted` | sysfile.c:137-160 | raising or lowering a count for a link in progress keeps the account of pending links |
| `Links.InvEntered` | sysfile.c:141-148 | entering a pending link settles it, in a removed directory too |
| `Links.TidyEntered` | sysfile.c:141-148 | it leaves removed directories empty exactly when the count of the directory is not zero |
| `Links.InvFree` | fs.c:317-336 | freeing an inode with no links leaves every other count right exactly when it has no entries |
| `Links.FreeNames` | fs.c:317-336 | a directory with no links names files only, and each is left with a count above its names when it is freed |
| `Links.StepExactly` | sysfile.c:115-281 | each step of create, unlink, link and iput keeps every link count right exactly when it does not free a directory that has an entry |
| `Links.TidyExactly` | sysfile.c:115-281 | while removed directories are empty every step keeps the counts right, and leaves them empty exactly when it does not enter a name in a directory whose count is zero |
| `Links.RightAlways` | sysfile.c:115-281 | over every run in which no name is entered in a removed directory every link count stays right |
| `Links.RemovedReachable` | sysfile.c:181-235 | from every file system in which a directory can be made, mkdir and unlink leave a removed directory that is still there |
| `Links.RemovedFile` | sysfile.c:238-281 | a file created in a directory whose count is zero has a count of one and no name once that is freed |
| `Links.RemovedDir` | sysfile.c:238-281 | a directory created there holds its parent only until it is unlinked; a file created beside it then has a count of one and no name once the parent is freed |
| `Links.RemovedLink` | sysfile.c:141-148 | a file linked into such a directory has a count above its names once that is freed, by one if it was empty |
| `Links.WrongCount` | sysfile.c:115-281 | from every file system with right counts in which a directory can be made, a run of mkdir, unlink, create and the last close leads to a wrong one |
| `Links.Namespace.IsDirEmpty` | sysfile.c:165-178 | isdirempty is true exactly of a directory with nothing but its dots |
| `Links.Namespace.Create` | sysfile.c:238-281 | create returns the existing file, or makes the inode with a count of one and, for a directory, its dots, and enters it in the directory, whose count grows by one for a directory, or fails; nothing else changes, the counts stay right, and removed directories empty exactly when nothing was made or the directory was linked |
| `Links.Namespace.Unlink` | sysfile.c:181-235 | unlink succeeds exactly on a name that is not a dot, exists and is not a non-empty directory; then the name is gone, the count of what it named is one less, that of the directory is one less for a directory, and nothing else changes |
| `Links.Namespace.LinkBegin` | sysfile.c:124-139 | link raises the count of a file by one and refuses a directory |
| `Links.Namespace.LinkEnd` | sysfile.c:141-162 | link enters the name for the inode, or lowers the count again when the name is taken or there is no parent; the counts stay right, and removed directories empty exactly when it failed or the directory was linked |
| `Links.Namespace.LinkUndone` | sysfile.c:154-161 | the count raised for a link that failed is lowered again, and every count stays right |
| `Links.Namespace.FreeInode` | fs.c:317-336 | the last reference to an inode with no links frees it, and the counts stay right exactly when it had no entries |
| `Parents.RootedStep` | sysfile.c:263-271 | each step keeps "." naming the directory itself and ".." the directory that names it |
| `Parents.RootedAlways` | sysfile.c:115-281 | so they do over every run in which no name is entered in a removed directory |
| `Parents.UpIsBack` | fs.c:605-638 | looking up ".." in a directory leads back to the directory that names it, and "." to itself |
| `Frames.EntryParts` | vm.c:83 | a page table entry gives back its frame and flags |
| `Frames.ContentsChanged` | kalloc.c:59-78 | changing frames that are not page tables changes no mapping |
| `Frames.AddTable` | vm.c:54-62 | a new zeroed page table maps nothing and every frame keeps exactly one role |
| `Frames.AddPage` | vm.c:79-84 | mapping a page gives its frame one role and changes no other entry of any address space |
| `Frames.DropPage` | vm.c:264-271 | clearing an entry gives up exactly its frame |
| `Frames.AddDirectory` | vm.c:128-136 | a zeroed frame becomes an empty address space |
| `Frames.DropSpace` | vm.c:277-292 | an address space with no user pages can be given up: its directory and tables are no one else's |
| `Sweep.SweepExact` | vm.c:258-263 | a mapped page is reached unless the sweep starts inside a 4MB region with no table, no region up to the page's has one, and the page comes before the start's place in its region |
| `Sweep.SweepWhole` | vm.c:258-263 | a sweep that starts on a 4MB boundary or where a table is misses no mapped page of any image |
| `Sweep.HoleMissed` | vm.c:261-263 | a well-formed machine in which a sweep misses a mapped page |
| `Sweep.SweptBack` | vm.c:235 | the rollback of allocuvm gives the image as it was |
| `Sweep.SweptClean` | vm.c:277-284 | freevm's sweep gives up every page of any image, holes or not |
| `Sweep.SweptContiguous` | vm.c:258-272 | in an image whose mapped pages are the first n exactly the pages beyond the new size are given up |
| `Budget.NeedNext` | vm.c:230-241 | a page takes one frame, or two exactly when it is the first to need a table that is missing |
| `Budget.StopExactly` | vm.c:230-241 | if the frames run out at a page, one is lost exactly when that page got its frame, and the loss goes unnoticed exactly when the page is the last |
| `Budget.LastLostCase` | vm.c:230-242 | a machine with one free frame in which growing an empty image by a page loses the frame and reports success |
| `Budget.CopyLoss` | vm.c:319-336 | copying loses a frame exactly when the frames left for the pages and their tables are 1 modulo 1025 |
| `Vm.Up` | mmu.h:129 | the first page boundary at or after the byte, less than a page away |
| `Vm.Machine.Kalloc` | kalloc.c:82-95 | the first frame of the free list, or 0 exactly when it is empty |
| `Vm.Machine.Kfree` | kalloc.c:59-78 | the frame heads the free list; its first word is the address of the frame that did, or 0, and every other word is junk |
| `Vm.Machine.Walk` | vm.c:45-64 | the table is the one there, or a new zeroed one, entered as present, writeable and for the user, exactly when one is asked for, missing and affordable |
| `Vm.Machine.MapPage` | vm.c:70-90 | one page is mapped with its flags and no other user page of any address space changes; it fails exactly when a table is missing and no frame is left |
| `Vm.Machine.Deallocuvm` | vm.c:249-273 | the mapped pages that its loop reaches, and only their frames, are given back; in bytes, with no hole for the skip to miss, no page that starts at or beyond newsz and below oldsz is mapped, and every other page is as it was |
| `Vm.Machine.GrowPage` | vm.c:231-240 | one round of allocuvm: mapped, out of frames, or a frame lost because mappages failed |
| `Vm.Machine.Allocuvm` | vm.c:220-243 | with enough free frames for the pages and the missing tables the pages that start from oldsz to newsz, and only they, are mapped to fresh zeroed frames, so every byte below newsz is in a mapped page if every byte below oldsz was, and exactly those frames are used; with fewer, success is reported with the last page unmapped and one frame lost exactly when the last page found no table, and otherwise the image is rolled back with one frame lost exactly when some page found no table |
| `Vm.Machine.FreeTables` | vm.c:284-291 | each page table and the directory are freed once |
| `Vm.Machine.Freevm` | vm.c:277-292 | whatever the image, everything the address space held is free again and no other address space changes |
| `Vm.Machine.NewSpace` | vm.c:133-136 | a zeroed directory maps nothing; there is none exactly when no frame is free |
| `Vm.Machine.Setupkvm` | vm.c:128-146 | a new address space with no user pages, made of free frames, exactly when there are frames enough for the directory and the kernel's tables; otherwise every frame that was free is lost |
| `Vm.Machine.CopyPage` | vm.c:319-330 | one page copied to a fresh frame with the same flags |
| `Vm.Machine.Copyuvm` | vm.c:309-337 | it succeeds exactly when there are frames enough for the directory, the tables and the pages; then the pages of the child are those that start below sz, each with the bytes and flags of the parent on a frame of its own; on failure the child is gone, and one frame, or none, or after setupkvm fails every one, is lost, each exactly when it should; the parent and everyone else are unchanged |
| `Pipe.StepFifo` | pipe.c:76-120 | each read and write keeps the bytes read plus the bytes in the pipe equal to the bytes stored |
| `Pipe.FifoAlways` | pipe.c:58-120 | over every interleaving the bytes read are a prefix of the bytes stored |
| `Pipe.RunBytes` | pipe.c:76-120 | over every run the bytes stored grow by what its writes stored and the bytes read by what its reads returned, in order |
| `Pipe.InOrder` | pipe.c:76-120 | over every run from a new pipe, what the reads returned followed by what is in the pipe is what the writes stored |
| `Pipe.AwakeExactly` | pipe.c:84-92 | a step leaves a reader or writer asleep without reason exactly when a killed writer fills the pipe over sleeping readers |
| `Pipe.AwakeAlways` | pipe.c:58-120 | over every run without killed writers a sleeping reader means empty and open for writing, a sleeping writer full and open for reading, and never both |
| `Pipe.LostWakeup` | pipe.c:85-87 | with a killed writer a reader can sleep on a full pipe |
| `Pipe.RingPush` | pipe.c:93 | storing at nwrite appends to the queue that the ring holds |
| `Pipe.RingPop` | pipe.c:115 | reading at nread takes the first byte of the queue, also when the 32-bit counter wraps |
| `Pipe.Buffer.constructor` | pipe.c:32-36 | a new pipe is empty and open at both ends |
| `Pipe.Buffer.Write` | pipe.c:77-97 | pipewrite up to its next sleep or return stores as many of the bytes as there is room for, in order, after those in the pipe; it is finished exactly when that is all, fails exactly when more are left and the reader is gone or the writer killed, and sleeps otherwise; readers are woken unless it fails |
| `Pipe.Buffer.Read` | pipe.c:99-120 | piperead up to its next sleep or return: it returns the first bytes in the pipe, as many as asked for and there, and leaves the rest; with none and the pipe open for writing it fails if killed and sleeps otherwise; writers are woken when it returns |
| `Pipe.Buffer.Close` | pipe.c:58-74 | closing an end marks it closed and wakes the other side |
| `Processes.GentleStep` | proc.c:632-726 | scheduling, sleep, wakeup, kill and the tick change no family and no exit status |
| `Processes.ForkBeginInv` | proc.c:157-176 | allocproc keeps pids distinct and parents live |
| `Processes.ForkMiddleInv` | proc.c:282-357 | the rest of fork, or its failure, does so too |
| `Processes.ExitInv` | proc.c:363-413 | exit hands its children to a live init, wakes the parent, and records its status once |
| `Processes.ExitWaits` | proc.c:386-397 | after an exit no process still asleep in wait has a zombie child |
| `Processes.WaitInv` | proc.c:423-474 | wait reaps or sleeps keeping all of this |
| `Processes.EveryRun` | proc.c:282-474 | in every run from boot nobody sleeps in wait over a zombie child, every parent is live, and the exits are the zombies plus the reaped, each with its own status |
| `Processes.ReapedOnce` | proc.c:437-460 | wait reports an exit that was not reported before, with its pid and status |
| `Processes.TimesExactly` | proc.c:704-727 | a step keeps stime + retime + rutime equal to a process's age, or a zombie's lifetime, exactly when it is not a kill of a zombie at a later tick |
| `Processes.KilledZombie` | proc.c:703-727 | from every table at boot a run of fork, exit, tick and kill breaks it, and only its last step does |
| `Processes.TimesAlways` | proc.c:132-149 | over every run from boot without such kills the counters of a live process add up to its age and those of a zombie to its lifetime |
| `Lives.StatusReported` | proc.c:363-460 | over every run from boot, a status that wait reports for a pid is the argument of an earlier exit by the process that had the pid |
| `Lives.Accounts` | proc.c:132-149 | over every run from boot, from its fork on the rutime, stime and retime of a process are the numbers of ticks at which it was running, sleeping and runnable |
| `Lives.InitAccounts` | proc.c:132-149 | and those of init the numbers since boot |
| `Lives.KilledExactly` | proc.c:703-727 | over every run from boot, a slot is marked killed exactly when a kill found it since its last process was reaped |
| `Lives.AsleepExactly` | proc.c:632-689 | over every run from boot, a process is asleep on a channel, other than in wait, exactly when it went to sleep there and neither was the channel woken nor the process killed since |
| `Lives.RunningExactly` | proc.c:515-606 | over every run from boot, a process is running exactly when it was scheduled and has not yielded, slept, exited or waited for a child since |
| `ProcTable.Table.Wakeup1` | proc.c:671-689 | every process asleep on the channel becomes runnable, and nothing else changes |
| `ProcTable.Table.UpdatePerformanceFields` | proc.c:132-149 | a running process gets one more rutime, a sleeping one stime, a runnable one retime, and nothing else changes |
| `ProcTable.Table.TimerTick` | trap.c:141-148 | one tick: each process is charged for the state it was in, and then those asleep on the ticks become runnable |
| `ProcTable.Table.Kill` | proc.c:703-727 | kill returns -1 and changes nothing exactly when no slot has the pid; otherwise the first slot that has it is marked killed, gets the time, and is runnable if it was asleep, and no other slot changes |
| `ProcTable.Table.Allocproc` | proc.c:157-176 | the first unused slot becomes an embryo with the next pid and no other slot changes; none exactly when no slot is unused |
| `ProcTable.Table.Fork` | proc.c:282-357 | fork is a run of the steps of the protocol; the child is runnable in a slot that was unused, with a new pid, the caller as its parent, the time and zero accounts, and its pid is returned; with -1 no slot changes its state, and in no case does a process that was there |
| `ProcTable.Table.Begin` | proc.c:300-357 | the embryo gets its parent and then runs: two steps of the protocol |
| `ProcTable.Table.Abandon` | proc.c:392-399 | exit's loop hands every child to init, which is woken if one is a zombie |
| `ProcTable.Table.Exit` | proc.c:363-413 | the process is a zombie with its argument as status and the time; its children have init for a parent, which is woken if one is a zombie, its parent is woken if it waits, and nothing else changes |
| `ProcTable.Table.Wait` | proc.c:741-791 | one scan of wait or wait_stat: the first zombie child is reported with its pid, status and times and its slot is unused again, or there are no children, or the caller sleeps on itself, each exactly when it should; what is reported adds up to the lifetime whenever the accounts do |
| `Signals.ClearBit` | trap.c:76-86 | clearing bit i removes exactly signal i |
| `Signals.RaiseBit` | proc.c:102 | setting bit i adds exactly signal i |
| `Signals.LowestIs` | trap.c:76-86 | the loop finds the lowest pending signal |
| `Signals.OneHandler` | trap.c:58-102 | in every run at most one handler is active, and its frame is the one saved |
| `Signals.DeliverLowest` | trap.c:58-102 | a delivery consumes the lowest pending signal and no other |
| `Signals.DeliverEnters` | trap.c:90-100 | a delivery to a handler leaves the program counter at the handler of the lowest pending signal, the return address at the new stack pointer and the signal above it, and every other register and word as it was |
| `Signals.WhileHandling` | trap.c:66-74 | while a handler runs nothing is delivered and what is sent stays pending |
| `Signals.RoundTrip` | proc.c:113-121 | whatever happens between a delivery and its sigreturn, the trap frame comes back whole but for eax, which is 0, and what was sent meanwhile is pending |
| `Signals.Drains` | trap.c:58-102 | delivery and sigreturn alternating with nothing new sent deliver the pending signals once each in ascending order, and none is left |
| `Signals.DrainsAlways` | trap.c:58-102 | in every run with nothing new sent, whatever else happens, what is delivered is pending signals, once each, in ascending order, and together with those still pending they are all there were |
| `Signals.DrainsIn32` | trap.c:76-86 | such a run makes at most 32 deliveries, and the pending word is empty exactly when it has made as many as there were signals |
| `Signals.Process.SaveTf` | trap.c:19-47 | all 25 fields are saved |
| `Signals.Process.RestoreTf` | proc.c:31-59 | all 25 fields are restored |
| `Signals.Process.DoSignal` | trap.c:58-102 | do_signal does nothing unless it returns to user mode with a signal pending and no handler running; then the lowest pending signal is consumed and, unless its handling is the default, the frame is saved and replaced by one that enters the handler on the stack 8 bytes lower, with the return address and the signal there |
| `Signals.Process.Enter` | trap.c:95-100 | the frame is saved; the program counter is the handler, the stack pointer 8 lower, and the two words there are the return address and the signal |
| `Signals.Process.SigSend` | proc.c:91-109 | the signal is pending with those that were, or -1 and no change for a number out of range |
| `Signals.Process.Signal` | proc.c:76-87 | the handler is replaced and the old one returned |
| `Signals.Process.SigReturn` | syscall.c:138-146 | the saved frame is back but for eax, which is 0, no handler is running, and nothing else changes |
| `Shell.ArgsWords` | sh.c:430-446 | the argument loop collects the words, failing exactly at the tenth |
| `Shell.RoundTrip` | sh.c:345-447 | parsing the tokens of a parenthesised printing gives back the command exactly when no command in it has more than nine arguments |
| `Shell.AppendIsOut` | sh.c:383-394 | every line parses as it does with each >> replaced by > |
| `ShellItems.SimpleItems` | sh.c:416-447 | a simple command whose redirections stand anywhere among its arguments is read as all the arguments in order inside all the redirections in order, exactly when it has no more than nine |
| `ShellItems.CommandItems` | sh.c:328-343 | so is a line that is one simple command |
| `ShellGrammar.ScriptRead` | sh.c:345-447 | the tokens of every tree of simple commands, parenthesised scripts with redirections, pipes, & and ; are read as what the tree means, exactly when no simple command in it has more than nine arguments |
| `ShellGrammar.ScriptWritten` | sh.c:345-447 | whatever is read was written by such a tree that means what was read, up to the tokens left |
| `ShellGrammar.Language` | sh.c:328-343 | the parser accepts a line as a command exactly when some tree that means the command writes the line |
| `ShellGrammar.Unopened` | sh.c:336-340 | what follows a closing parenthesis too many is left over |
| `ShellGrammar.Unclosed` | sh.c:409-410 | a parenthesis that is never closed is reported missing |
| `ShellGrammar.BadNext` | sh.c:383-436 | a first command that is followed by a redirection without a file, or by a symbol that cannot follow, fails with that error |
| `ShellLines.TokensPrint` | sh.c:266-309 | the tokens of a printed line are the tokens of the command |
| `ShellLines.TextPlaced` | sh.c:266-309 | the spans of a printed command hold its words |
| `ShellLines.ParsePrint` | sh.c:328-343 | parsing the printing of a command with valid words gives the same command back, exactly when it has no more than nine arguments anywhere |
| `ShellLines.TokensAreWords` | sh.c:266-309 | every word token is a maximal run of word characters |
| `ShellLines.Spelling` | sh.c:266-309 | the tokens spell the line: every character but white space is in one of them, in order |
| `ShellLines.TokensAppend` | sh.c:289-295 | two > signs together are one token |
| `ShellLines.Reparse` | sh.c:328-343 | whatever line is accepted, printing what was read and reading it again gives the same command |
| `ShellParser.Parser.Peek` | sh.c:311-321 | peek tells the next token's kind and moves over white space only |
| `ShellParser.Parser.Scan` | sh.c:278-303 | gettoken's switch recognises the token at the cursor |
| `ShellParser.Parser.GetToken` | sh.c:266-309 | gettoken takes the first of the tokens left, and moves the cursor |
| `ShellParser.Parser.ParseRedirs` | sh.c:375-398 | the redirections, or the missing file |
| `ShellParser.Parser.ParseLine` | sh.c:345-360 | parseline reads the grammar's line and ends |
| `ShellParser.Parser.ParsePipe` | sh.c:362-373 | parsepipe reads the grammar's pipeline |
| `ShellParser.Parser.ParseBlock` | sh.c:400-414 | parseblock reads a parenthesised line, or reports the missing parenthesis |
| `ShellParser.Parser.ParseExec` | sh.c:416-447 | parseexec reads a block or a simple command as the grammar does, whose simple commands `ShellItems.SimpleItems` gives without it, or reports too many arguments |
| `ShellParser.NulTerminate` | sh.c:450-494 | a NUL is written after each word of the command and nowhere else |
| `ShellParser.CutReads` | sh.c:450-494 | after nulterminate every argument and file name reads as its original token |
| `ShellParser.ParseCmd` | sh.c:328-343 | parsecmd gives what the grammar gives, with its panics, that is exactly the lines and meanings of `ShellGrammar.Language`, and every word of the command reads back as it was in the line |
| `Regex.ItemsExactly` | grep.c:84-95 | a pattern is read as the one list of items that is written so, in which a character before a star repeats and a final $ is the end |
| `Regex.HereStar` | grep.c:98-106 | c* matches any number of accepted characters |
| `Regex.HereSplit` | grep.c:84-95 | a match cuts the text into a word for the first item and a match of the rest |
| `Regex.Match` | grep.c:72-82 | match is true exactly when some suffix of the text, or the whole text under ^, can be cut into words for the pattern's items |
| `Regex.MatchHere` | grep.c:84-95 | matchhere is true exactly when the items match at the beginning of the text |
| `Regex.MatchStar` | grep.c:98-106 | matchstar is true exactly when the repetition and the rest match |

## Left out

- Hardware, boot and assembly: device registers and instructions have no semantics here; a disk write is one atomic block write, as in memide.c.
- Spinlocks: a critical section under one lock is one atomic step, and sleep releases the lock and blocks in one step.
- The lottery and its tickets: after the first dispatch the scheduler's loop goes on through the table, so proportional share is not what it does; a schedule step may run any runnable process, and policy 3 is not modelled.
- mkfs and exec: the file system starts from any consistent image.
- User-pointer fetching, printing, device inodes, the console's input ring and the IDE request queue.
- copyout, loaduvm, inituvm and clearpteu in vm.c.
- 32-bit wrap-around of pids, ticks and link counts; pipe counters, sizes, offsets and the trap frame's stack pointer do wrap.
- The encoding of inodes and directory entries as bytes: they are records, updated in memory and on disk by separate assignments.
- A write into user memory at an address that is not mapped, in signal delivery.
- BufferCache.Cache.Bget: a process that finds the buffer busy gets the outcome Sleep; the retry after its wakeup is a new call.
- BufferCache.Cache.Brelse: a changed buffer is taken to have been logged or written before its release, which every caller in fs.c and log.c does.
- Log.Log.Commit: readers take and give back buffers only while it sleeps, not between any two of its steps.
- Calls of balloc, bmap and writei by different processes are taken one after another; the buffer locks that order their steps are not modelled.
- Log.Log.LogWrite: the block is taken not to be one of the log's own, and the operation to log at most MAXOPBLOCKS new blocks, which filewrite does not always keep to; `Durable.EveryRun` does without the second.
- FileSystem.Fs.Writei: a full disk is the outcome not ok, where balloc panics; of the state at that panic only that the bitmap is full is said.
- Malloc.Allocator.Alloc: stated for requests up to 0x7FFFFFF0 bytes; `Malloc.RequestExact` says that no larger one is computed right.
- Paths.Icache.Follow: iput's freeing of an unlinked inode is not modelled.
- Paths.Icache.Namex: iput's freeing of an unlinked inode during the walk is not modelled.
- Vm.Machine.Setupkvm: the kernel's page tables are allocated and zero; the kernel mappings written into them are not modelled.
- Vm.Machine.MapPage: mappages for one page, as allocuvm and copyuvm call it; the multi-page ranges of setupkvm are its page tables only.
- Vm.Machine.Allocuvm: the pages beyond the old size are taken to be unmapped, where mappages would panic.
- Vm.Machine.Copyuvm: the pages below the size are taken to be mapped, where copyuvm would panic.
- ShellParser.Parser.ParseExec: the argument array that the redirections point into while it is being filled is a sequence wrapped at the end.
- Links.Namespace.FreeInode: that the last reference is being dropped is the caller's knowledge; the counts of `Paths.Icache` are kept apart from the link counts.
- ProcTable.Table.Fork: whether the copy of the address space succeeds is a parameter; the open files and the working directory are not modelled.
- Signals.Process.SigSend: the search of the process table for the pid is not modelled.
