# A verified model of SoulOS

SoulOS is a small 32-bit x86 kernel. This project models the parts of it that are
state machines - virtual memory, tasks, heap, file system, block devices, locks,
lists, console and number formatting - and proves what they keep, over every input,
every run and every interleaving.

Each part comes twice. A *specification* gives the state as a value and every kernel
operation as a function on it, with the source's branches, constants and asserts; the
invariants and theorems are lemmas about these functions. A *class* writes the same
operation as the source does, with arrays, fields and loops that are updated in place;
each method is proved to compute the function of its name. A failing `assert` or a
`panic` stops the kernel, so an operation answers `Halt(reason)` and has no state
afterwards; `WouldSleep` is the one reason that is not an end: the caller sleeps.

| part | specification and theorems | class |
|---|---|---|
| paging, copy-on-write | `Paging`, `PagingInvariant`, `ForkExit`, `CopyOnWrite`, `MemoryNeeds`, `KernelAccess` | `MemoryManager` |
| kernel heap | `Heap`, over `Bitmap` | `KernelHeap`, `BitmapT` |
| tasks | `Scheduler`, `SchedulerInvariant`, `Lifecycle` | `TaskTable` |
| block cache, inodes | `BufferCache`, `BlockStore`, `InodeTable` | `BlockCache`, `InodeCache` |
| file blocks | `BlockMap`, `BlockMapping`, `FullVolume` | `FileBlocks` |
| disk requests | `Elevator`, `HeadTravel` | `BlockDevice`, over `LinkedList.List` |
| locks | `ReentrantLock` | `KernelLock`, over `LinkedList.List` |
| lists | `LinkedList`, `Lists` | `LinkedList.List` |
| console, numbers | `Console`, `NumberFormat`, `NumberParse` | `Console.Console` |

The main results:

* **Copy-on-write is invisible.** Any run of loads, stores, faults, brk, fork and exit
  answers exactly like a machine without frames in which fork copies every page at once.
* **Reference counts are exact.** In every reachable state the count of a user frame is
  the number of entries that name it, summed over all processes, and the free page
  counter differs from the number of free frames by a constant.
* **Memory is out exactly when it is out.** A request stops the kernel if and only if it is
  illegal or fewer frames are free than the tables say it needs.
* **Fork, exit and wait undo each other** across page counts, heap blocks, kernel pages
  and the process tree.
* **In every interleaving of fork, exit, wait, sleep and clock ticks** one task runs, no
  waiting parent is forgotten, and it is known exactly when a sleeper that is due is woken.
* **The block cache is invisible.** Any run of reads, writes and releases, with all the
  evictions it causes, answers like a map from blocks to contents; a buffer that an
  inode in use sits in is never recycled.
* **bmap gives a block a zone of its own and moves nothing else** - exactly when there are
  as many free zones as it needs and the index blocks it takes into use happen to read as
  zeros, because it does not clear them.
* **No disk request is lost or left asleep**, and pending requests are served in one
  sweep and at most one sweep back.
* **The lock excludes**, `repeat` is the nesting depth and no wake-up is lost, under all
  interleavings of its single steps; of all sleepers the first one is woken first.
* **Every byte string keeps the console in video memory**; plain text looks as on a plain
  grid, and a control sequence takes effect with its parameters as written exactly if there
  are at most sixteen of them.

Things the proofs found, stated as lemmas with the exact condition or a concrete input:

* a kmalloc of almost 4 GB is granted with one page (`Heap.LargeEnough`);
* the sleep list is sorted by signed ticks and compared by unsigned ones: a sleeper that
  is due is left asleep exactly if one stands in front of it whose tick is past 2^31 and
  not yet due (`SchedulerInvariant.WakeupExact`). It cannot happen in the first
  1717986919 ticks (`ExactWhileYoung`), and a run of sleeps and clock ticks from boot leads
  to it at tick 2^31 - 5 (`HiddenSleeperIsReached`);
* a sleep that crosses the wrap of the clock ends at once (`SchedulerInvariant.DueAtOnce`);
* what the kernel itself stores into a page that fork has shared is seen by the other
  process, because CR0.WP is not set (`KernelAccess.SeenExactlyWhenShared`);
* a fresh index block is used with its old contents (`BlockMapping.SoundExactlyWhenClean`);
* with eight bitmap blocks a create that runs out of zones goes on with the EOF of balloc
  as zone 65535, exactly if there are fewer free zones than it needs
  (`FullVolume.FullVolumeMapsEof`);
* sectors from 2^31 on sort in front of all others: the queue is in sector order exactly if
  all its sectors lie on one side of 2^31, and otherwise the head may travel further than
  twice the span (`HeadTravel.SectorOrder`, `TravelIsBounded`, `FarSideTravels`). Such a
  sector does get there: neither bread nor deviceRequest compares it with the size of the
  disk, the start of a partition is any 32 bits that stand in the boot record
  (`src/kernel/ide.cpp:445`), and only the driver drops the four highest bits
  (`src/kernel/ide.cpp:204-211`);
* deleting a console line leaves that line where it is (`Console.Console.DeleteLine`);
* cursor motions that wrap around 2^32 go the other way (`Console.UpAndDown`);
* the blink parameter, 5, has no effect: it is compared with 128 (`Console.BlinkHasNoEffect`);
* atoi takes blanks and a plus sign for digits; exactly when a printed number is read back
  all the same is `NumberParse.AtoiUndoesNumber`;
* the last iput of the root inode fails an assert (`InodeTable.IputKeeps`).

Three more are outside the model and only noted here: the data pointer of the buffer
pool moves up from the top of its region (`src/kernel/buffer.cpp:97`), `deviceRequest`
assigns the device type where it means to compare it (`src/kernel/device.cpp:172`), and
the `freePages` counter that brk consults counts frames below 16 MB that are in use
(`src/kernel/memory.cpp:248-250`).

Check everything with `dafny verify dfyconfig.toml`.

## Model

| member | source | states |
|---|---|---|
| PagingInvariant.LinkPageKeeps | src/kernel/memory.cpp:349-374 | linking a page inside the limits can only fail for want of frames (so its asserts never fire), keeps the whole invariant, makes exactly that page present and writable with the frame's old contents, and moves no other page of any process |
| PagingInvariant.UnlinkPageKeeps | src/kernel/memory.cpp:377-404 | unlinking makes exactly that page absent, keeps the invariant and every page of every other process; past the 32768 pages of vmap it fails an assert, below it fails only for want of a frame for the table |
| PagingInvariant.EnsureTableKeeps | src/kernel/memory.cpp:270-288 | creating a missing page table takes a free frame, counts it and leaves every mapping as it was |
| PagingInvariant.WriteFault | src/kernel/memory.cpp:545-566 | a write fault on a shared frame ends with a private writable copy of the same contents, on an unshared one with the write bit, and in both cases keeps the invariant |
| PagingInvariant.TouchKeeps | src/kernel/memory.cpp:530-575 | after one run of the fault handler the access is allowed; all other pages show the same; it halts for a page inside the limits only when memory is full |
| PagingInvariant.GetPageFresh | src/kernel/memory.cpp:159-177 | a frame that is handed out was named by no entry of any process |
| PagingInvariant.PutPageWorks | src/kernel/memory.cpp:179-205 | giving back a frame that an entry names never fails its asserts |
| ForkExit.SharersBounded | src/kernel/memory.cpp:421-461 | a data frame has at most one user per process, so the 8-bit count cannot overflow and fork's assert on 255 never fires |
| ForkExit.CopyTableKeeps | src/kernel/memory.cpp:429-456 | copying one page table shares all its frames read-only, counts them and leaves both processes seeing the same pages |
| ForkExit.ForkKeeps | src/kernel/memory.cpp:421-461 | fork fails only for want of frames, keeps the invariant, and the child's entries are the parent's without write bits |
| ForkExit.ForkedSees | src/kernel/memory.cpp:421-461 | after fork the child sees exactly what the parent saw, and everybody else what they saw |
| ForkExit.FreeTableKeeps | src/kernel/memory.cpp:464-499 | freeing one table gives up exactly its own references |
| ForkExit.ExitKeeps | src/kernel/memory.cpp:464-499 | exit never fails, keeps the invariant for all that remain, and takes away exactly one address space |
| ForkExit.ExitUndoesFork | src/kernel/memory.cpp:421-499 | fork followed by the child's exit restores every count, the free counter and every page of every process; only write bits of the parent may be gone |
| ForkExit.UnlinkRangeKeeps | src/kernel/memory.cpp:515-521 | the unlinking loop of brk removes exactly the pages of its range |
| ForkExit.BrkKeeps | src/kernel/memory.cpp:501-528 | brk keeps the invariant, removes exactly the pages above the new limit, and refuses only when more pages are asked for than freePages counts |
| CopyOnWrite.WriteIsPrivate | src/kernel/memory.cpp:545-566 | a store to a page that may be written is seen by no other process |
| CopyOnWrite.StepSimulates | src/kernel/memory.cpp:349-575 | each step of the kernel's machine is a step of the machine that copies eagerly, with the same answer |
| CopyOnWrite.CopyOnWriteInvisible | src/kernel/memory.cpp:349-575 | for every run, each process observes what it would observe if fork copied every page |
| CopyOnWrite.BootInv | src/kernel/memory.cpp:127-157 | the invariant holds after boot, with the constant difference between freePages and the free frames |
| KernelAccess.SeenExactlyWhenShared | src/kernel/task.cpp:424 | a store in kernel mode keeps all counts, is seen by its process, and is seen by another one exactly if the frame was shared and the byte changes |
| CopyOnWrite.ReachableStates | src/kernel/memory.cpp:159-499 | counts, bitmap and limits agree in every state reachable from boot |
| CopyOnWrite.HaltsExactlyWhenIllegal | src/kernel/memory.cpp:349-575 | an illegal request always stops the kernel, a legal one only for want of frames |
| MemoryNeeds.HaltsExactlyWhen | src/kernel/memory.cpp:349-575 | any load, store, brk, fork or exit stops the kernel if and only if it is illegal or fewer frames are free than it needs, told from the tables before it |
| MemoryNeeds.GetPageExactly | src/kernel/memory.cpp:159-177 | a frame is refused exactly if none from startPage on is free; otherwise the first free one is taken |
| MemoryNeeds.EnsureHalts | src/kernel/memory.cpp:270-288 | a page table needs one frame if it is missing, and stops the kernel exactly without it |
| MemoryNeeds.LinkHalts | src/kernel/memory.cpp:349-374 | linking a page stops exactly if fewer frames are free than it needs: none for a present page, else one and one more for a missing table |
| MemoryNeeds.UnlinkHalts | src/kernel/memory.cpp:377-404 | unlinking stops exactly without a frame for a missing table, and otherwise gives the frame back exactly if nobody shares it |
| MemoryNeeds.TouchHalts | src/kernel/memory.cpp:530-575 | an access needs 0, 1 or 2 frames: one for a copy of a shared page, one for a missing page and one for its table; it stops exactly if fewer are free |
| MemoryNeeds.ForkHalts | src/kernel/memory.cpp:421-461 | fork needs a frame for each present table of user pages, and stops exactly if fewer are free |
| MemoryNeeds.BrkExactly | src/kernel/memory.cpp:501-528 | brk answers -1 if and only if more pages are asked for than freePages counts, and stops exactly if a table that shrinking has to make finds no frame, those given back on the way counted |
| MemoryManager.MemoryManager.GetPage | src/kernel/memory.cpp:159-177 | the search through memoryMap is refused exactly if no frame from startPage on is free, and otherwise takes the first free one |
| MemoryManager.MemoryManager.PutPage | src/kernel/memory.cpp:179-205 | the in-place release is the specified one, asserts included |
| MemoryManager.MemoryManager.GetPte | src/kernel/memory.cpp:270-288 | the table lookup in place: with create a missing table is entered, without it it is asserted against |
| MemoryManager.MemoryManager.LinkPage | src/kernel/memory.cpp:349-374 | the in-place linkPage is the specified one |
| MemoryManager.MemoryManager.UnlinkPage | src/kernel/memory.cpp:377-404 | the in-place unlinkPage is the specified one |
| MemoryManager.MemoryManager.CopyPage | src/kernel/memory.cpp:407-418 | a fresh frame gets the contents of the old one |
| MemoryManager.MemoryManager.SysBrk | src/kernel/memory.cpp:501-528 | the loop of brk is the specified range |
| MemoryManager.MemoryManager.PageFault | src/kernel/memory.cpp:530-575 | the in-place fault handler is the specified one |
| MemoryManager.MemoryManager.ShareTable | src/kernel/memory.cpp:438-452 | the inner loop of copyPde counts and write-protects every present entry |
| MemoryManager.MemoryManager.Fork | src/kernel/memory.cpp:421-461 | the loops of copyPde are the specified fork |
| MemoryManager.MemoryManager.Exit | src/kernel/memory.cpp:464-499 | the loops of freePde are the specified exit |
| Bitmap.BitOps | src/lib/bitmap.cpp:21-66 | setting or clearing one bit of a byte changes that bit and no other |
| Bitmap.SetFlags | src/lib/bitmap.cpp:41-66 | the byte update is an update of one flag of the whole map |
| Bitmap.FirstFitIs | src/lib/bitmap.cpp:69-116 | the search ends at the lowest start of a run of clear bits |
| Bitmap.ResetUndoesScan | src/kernel/memory.cpp:290-317 | clearing the run that a search has marked restores the map |
| Bitmap.BitmapT.Test | src/lib/bitmap.cpp:21-38 | reads the flag |
| Bitmap.BitmapT.Set | src/lib/bitmap.cpp:41-66 | writes that flag and no other |
| Bitmap.BitmapT.Scan | src/lib/bitmap.cpp:69-116 | marks the lowest run of clear bits and returns its index, or returns EOF and leaves the map alone exactly when there is none |
| Bitmap.BitmapT.Reset | src/kernel/memory.cpp:305-317 | clears a run that is fully marked, and says so exactly then |
| Heap.LiveBlocksDisjoint | src/kernel/arena.cpp:27-98 | live blocks overlap neither each other nor any arena header |
| Heap.KmallocKeeps | src/kernel/arena.cpp:40-98 | kmalloc hands out a block that was not live, of at least its class size, and disturbs no other; counts match free lists and no page stays allocated with all blocks free |
| Heap.LargeEnough | src/kernel/arena.cpp:47-51 | a large block is as large as asked for if and only if the 32-bit sums do not wrap, and then a page less would not do |
| Heap.HugeRequestWraps | src/kernel/arena.cpp:47-51 | one byte less than 4 GB is rounded to a single page |
| Heap.KmallocHalts | src/kernel/arena.cpp:40-98 | kmalloc stops the kernel exactly if: for a large request nowhere so many pages in a row are free, or its page count is 0; for a small one its class has no free block and no page is free |
| Heap.AllocKpageExactly | src/kernel/memory.cpp:290-325 | allocKpage is out of memory exactly if there is no free run of that many pages, and otherwise marks the first one and nothing else |
| Heap.ArenaFilled | src/kernel/arena.cpp:12-25 | each class has blocks twice the size of the one before, from 16 to 1024, and as many of them in a page as fit |
| Heap.KfreeKeeps | src/kernel/arena.cpp:100-130 | kfree of any live block finds its header, never fails, removes exactly that block, and returns the page with its last block |
| Heap.KfreeUndoesKmalloc | src/kernel/arena.cpp:40-130 | kfree of the block just handed out restores the heap exactly, lists in order |
| KernelHeap.KernelHeap.Kmalloc | src/kernel/arena.cpp:40-98 | the loops and list updates of kmalloc are the specified function |
| KernelHeap.KernelHeap.Carve | src/kernel/arena.cpp:69-89 | a new page is cut into blocks, pushed one by one |
| KernelHeap.KernelHeap.Dismantle | src/kernel/arena.cpp:119-128 | the last block's loop takes exactly the page's blocks off the list |
| KernelHeap.KernelHeap.Kfree | src/kernel/arena.cpp:100-130 | the in-place kfree is the specified one |
| Lifecycle.ForkExitWaitRestores | src/kernel/task.cpp:327-428 | fork, the child's exit and the parent's wait restore the frame counts, freePages, the kernel page bitmap with every task page, and every heap block; only the parent's write bits may differ |
| SchedulerInvariant.ScheduleKeeps | src/kernel/task.cpp:202-227 | schedule ends with exactly one running task |
| SchedulerInvariant.ScheduleChooses | src/kernel/task.cpp:66-92 | schedule picks the last in the chain of leaders, each the first ready task behind the one before that has more ticks or an older time stamp; the idle task only if no other is ready; with equal stamps that is the first with most ticks, with equal ticks the first of the oldest |
| SchedulerInvariant.BlockKeeps | src/kernel/task.cpp:100-123 | a task that blocks is the first on the list it names and on no other, all other lists and tasks are as before, and another task runs |
| SchedulerInvariant.UnblockKeeps | src/kernel/task.cpp:125-135 | a task that is woken is on no list any more, and the others keep their places |
| SchedulerInvariant.SleepKeeps | src/kernel/task.cpp:137-155 | a sleeper is woken after the full ticks in its milliseconds, at least one, and goes to its place in the order of signed ticks, for every uint32 of milliseconds and every clock value; the only disorder, from a tick 0 that schedule overwrites, is among ticks that are due |
| SchedulerInvariant.WakeupKeeps | src/kernel/task.cpp:157-178 | waking sleepers keeps lists and states in agreement |
| SchedulerInvariant.WakeupExact | src/kernel/task.cpp:157-178 | taskWakeup wakes exactly the sleepers that are due if and only if no sleeper past tick 2^31 that is not due stands beside one below it that is |
| SchedulerInvariant.ExactWhileYoung | src/kernel/task.cpp:137-178 | for the first 2^31 - 429496729 ticks it always does |
| SchedulerInvariant.DueAtOnce | src/kernel/task.cpp:137-155 | a sleep is due at once exactly if it crosses the wrap of the clock, or ends on it with a priority below the clock |
| SchedulerInvariant.HiddenSleeperIsReached | src/kernel/task.cpp:146-169 | a run from boot ends at tick 2^31 - 5 with a sleeper due then behind one that sleeps until 2^31 + 5 |
| SchedulerInvariant.TickKeeps | src/kernel/clock.cpp:40-60 | a clock tick keeps the invariant |
| SchedulerInvariant.TickMeans | src/kernel/clock.cpp:40-60 | a tick sets the clock forward by one modulo 2^32 and takes one tick from the running task, which goes on unless none is left; then it gets its priority as ticks and another ready task runs |
| SchedulerInvariant.ForkKeeps | src/kernel/task.cpp:327-361 | fork takes the first free slot, fails exactly when there is none, and changes no other task; the child has the user, priority, waitpid, status and time stamp of its parent, a full round of ticks and a serial of its own |
| SchedulerInvariant.ExitKeeps | src/kernel/task.cpp:363-397 | exit leaves the task dead with its status, gives its children to its parent, makes a parent that waits for it ready and changes no other state; it keeps the process tree, and stops the kernel exactly for kernel tasks |
| SchedulerInvariant.WaitpidMeans | src/kernel/task.cpp:399-442 | waitpid returns the first dead matching child, once, to its current parent; answers -1 exactly without matching child; and waits exactly if all matching children live |
| SchedulerInvariant.ForkExitWaitTree | src/kernel/task.cpp:327-442 | whatever happens in between, the forked child of a user's task may exit, and once it has and its parent has waited for it the tasks, their parents and who is dead are as before the fork, and the parent has the status |
| SchedulerInvariant.StepKeeps | src/kernel/task.cpp:32-442 | no possible step breaks the invariant or fires an assert |
| SchedulerInvariant.RunKeeps | src/kernel/task.cpp:32-442 | in every interleaving: one task runs, a waiting parent has a living child to wait for and no dead one, parents exist and have not died, every dead child is reaped at most once, lists and states agree |
| SchedulerInvariant.BootInv | src/kernel/task.cpp:451-476 | the invariant holds after boot, with the idle task, init and a second user task, and init running |
| TaskTable.TaskTable.TaskSearch | src/kernel/task.cpp:66-92 | the search picks the ready task that the source's rule picks |
| TaskTable.TaskTable.Schedule | src/kernel/task.cpp:202-227 | the in-place schedule is the specified one |
| TaskTable.TaskTable.TaskBlock | src/kernel/task.cpp:100-123 | the in-place block is the specified one |
| TaskTable.TaskTable.TaskUnblock | src/kernel/task.cpp:125-135 | the in-place unblock is the specified one |
| TaskTable.TaskTable.TaskSleep | src/kernel/task.cpp:137-155 | the sorted insertion and the switch are the specified sleep |
| TaskTable.TaskTable.TaskWakeup | src/kernel/task.cpp:157-178 | the loop over the sleep list is the specified one |
| TaskTable.TaskTable.TaskFork | src/kernel/task.cpp:327-361 | the slot search and the copy are the specified fork |
| TaskTable.TaskTable.TaskExit | src/kernel/task.cpp:363-397 | the loops of exit are the specified one |
| TaskTable.TaskTable.TaskWaitpid | src/kernel/task.cpp:399-442 | the loop of waitpid is the specified one |
| BufferCache.LookupFinds | src/kernel/buffer.cpp:26-60 | the search in one hash bucket finds what a search through all buffers finds |
| BufferCache.BreadKeeps | src/kernel/buffer.cpp:131-167 | bread's asserts never fail; it waits exactly if every buffer is in use and none has the block; otherwise the block is in the buffer, pinned once more, no content changes and no buffer in use is touched |
| BufferCache.EvictsLeastRecentlyReleased | src/kernel/buffer.cpp:105-128 | the buffer that is recycled was released longest ago |
| BufferCache.EvictsOnlyForNeed | src/kernel/buffer.cpp:104-128 | a block loses its buffer only to a block that has none, and only when the pool has no new buffer; all others keep theirs |
| BufferCache.BwriteKeeps | src/kernel/buffer.cpp:170-178 | write-back puts the content on the disk and changes none |
| BufferCache.BrelseKeeps | src/kernel/buffer.cpp:181-204 | a buffer can be released exactly if it is in use; the last release leaves its content on the disk and the buffer at the head of the free list |
| BufferCache.ModifyKeeps | src/kernel/buffer.cpp:181-189 | writing into a buffer in use changes that block and no other |
| BlockStore.StepSimulates | src/kernel/buffer.cpp:131-204 | each operation of the cache is one of a plain block map, with the same answer |
| BlockStore.StopsExactlyWhen | src/kernel/buffer.cpp:105-189 | when an operation waits or is refused, in terms of what is held |
| BlockStore.CacheIsInvisible | src/kernel/buffer.cpp:26-204 | for every run, every read answers with what was last written, and a handle names its block until its last release |
| BlockStore.RunsFromBoot | src/kernel/buffer.cpp:26-220 | the same from an empty pool; once nothing is held the disk alone has everything |
| BlockCache.BlockCache.GetFromHashTable | src/kernel/buffer.cpp:32-60 | the loop over a bucket is the specified search, and a hit leaves the free list |
| BlockCache.BlockCache.GetFreeBuffer | src/kernel/buffer.cpp:105-128 | a new buffer, or the last of the free list, unhashed |
| BlockCache.BlockCache.Getblk | src/kernel/buffer.cpp:131-149 | the in-place getblk is the specified one |
| BlockCache.BlockCache.Bread | src/kernel/buffer.cpp:152-167 | the in-place bread is the specified one; if it has to wait it has changed nothing |
| BlockCache.BlockCache.Bwrite | src/kernel/buffer.cpp:170-178 | the in-place bwrite is the specified one |
| BlockCache.BlockCache.Brelse | src/kernel/buffer.cpp:181-204 | the in-place brelse is the specified one |
| InodeTable.IgetAgain | src/fs/inode.cpp:70-79 | an inode in use is counted once more and nothing else changes |
| InodeTable.IgetEnters | src/fs/inode.cpp:81-106 | another inode is entered in the first free slot; its descriptor is entry (nr - 1) % 32 of block 2 + imapBlocks + zmapBlocks + (nr - 1) / 32, which is pinned; the asserts that can fail are exactly those on the number and the table size |
| InodeTable.DescriptorsBehindBitmaps | src/fs/super.cpp:60-91 | the descriptors start in the block behind the last one that readSuper reads, and no descriptor is in the boot block, the super block or a bitmap block |
| InodeTable.DescriptorsApart | src/fs/inode.cpp:44-100 | every inode in use has its descriptor where its number says, in a pinned buffer, and no two share one |
| InodeTable.IputKeeps | src/fs/inode.cpp:109-129 | the last iput unpins the block and empties the slot; it fails exactly for slot 0 |
| InodeTable.IputUndoesIget | src/fs/inode.cpp:70-129 | iput after iget leaves the same inodes in use, with the same counts, pins and contents |
| InodeTable.ReadKeepsInodes | src/kernel/buffer.cpp:152-167 | whoever reads a block, with whatever eviction, descriptors of inodes in use stay where they are |
| InodeTable.StepKeepsInodes | src/fs/inode.cpp:52-129 | each step keeps inode counts and buffer counts in agreement |
| InodeTable.DescriptorStays | src/fs/inode.cpp:52-129 | over any run the buffer of an inode that stays in use is the same one, pinned, and holds the block of its descriptor at the same entry |
| InodeCache.InodeCache.FindInode | src/fs/inode.cpp:52-67 | the loop over the list is the specified search |
| InodeCache.InodeCache.Iget | src/fs/inode.cpp:70-106 | the in-place iget, over the cache's class, is the specified one |
| InodeCache.InodeCache.Iput | src/fs/inode.cpp:109-129 | the in-place iput is the specified one |
| BlockMap.PathsAreInjective | src/fs/bmap.cpp:136-176 | two blocks of a file never share a slot of the index tree |
| BlockMap.PathsCoverLeaves | src/fs/bmap.cpp:136-176 | every data slot of the tree belongs to a block below TOTAL_BLOCK |
| BlockMap.LookupFollowsPath | src/fs/bmap.cpp:133-205 | a lookup never fails below TOTAL_BLOCK, never divides by the divider 0 it ends with, changes nothing, returns every buffer it took, and answers with the slot of the block, whatever is in the tree |
| BlockMap.BallocTakesLowest | src/fs/bmap.cpp:10-39 | balloc marks the free zone with the lowest number and no other; without one it answers EOF exactly if there are eight bitmap blocks, and stops exactly if there are fewer or that zone is beyond the volume |
| BlockMap.FilledVal | src/fs/bmap.cpp:182-186 | filling an empty slot with a free zone changes that slot and no other |
| BlockMap.GrowCreates | src/fs/bmap.cpp:179-202 | filling the slots on the way to a block keeps all zones of the tree distinct and marked and takes exactly the missing zones |
| BlockMap.BmapGrows | src/fs/bmap.cpp:133-205 | the loop, started with the inode's buffer held, fills exactly those slots and returns every buffer |
| BlockMapping.CreateMaps | src/fs/bmap.cpp:133-205 | create maps the block to a zone of its own, leaves every other block, file and pin as it was, and is idempotent |
| BlockMapping.CreateStops | src/fs/bmap.cpp:19-37 | with fewer than eight bitmap blocks create stops exactly if there are fewer free zones than it needs |
| FullVolume.FullVolumeMapsEof | src/fs/bmap.cpp:10-39 | with eight bitmap blocks create never stops; it puts zone 65535 into the tree if and only if there are fewer free zones than it needs, after using them all, and answers 65535 if the block's own slot is the first without |
| FullVolume.FullWalk | src/fs/bmap.cpp:178-204 | on a full volume, whatever is in the tree, the loop ends with a zone number that is not 0, has changed empty entries only, to 65535, and returned every buffer |
| BlockMapping.SoundExactlyWhenClean | src/fs/bmap.cpp:182-201 | create changes only the slots it should if and only if there are enough free zones and the index blocks it takes into use read as zeros |
| BlockMapping.MappedStays | src/fs/bmap.cpp:179-194 | a mapped block is answered without any change, with and without create |
| FileBlocks.FlatSet | src/fs/bmap.cpp:24-33 | setting a bit of one bitmap block sets the bit of the whole bitmap |
| FileBlocks.FirstClear | src/fs/bmap.cpp:19-36 | the first clear bit of the first block that has one is the first of all |
| FileBlocks.FileBlocks.Search | src/fs/bmap.cpp:19-36 | the loop over the bitmap blocks takes the first clear bit, or ends in EOF or a missing block |
| FileBlocks.FileBlocks.Balloc | src/fs/bmap.cpp:10-39 | the in-place balloc is the specified one |
| FileBlocks.FileBlocks.Reckon | src/fs/bmap.cpp:178-204 | the loop at `reckon` is the specified walk |
| FileBlocks.FileBlocks.Bmap | src/fs/bmap.cpp:133-205 | the in-place bmap is the specified one |
| Elevator.InsertAt | src/lib/list.cpp:114-134 | a request goes behind all with the same or a smaller key and in front of the others |
| Elevator.FinishHandsOver | src/kernel/device.cpp:205-215 | whoever finishes wakes exactly one waiter, whose owner is recorded and asleep; none only if the list becomes empty |
| Elevator.StepKeeps | src/kernel/device.cpp:168-216 | a step is possible exactly when its task may take it, and keeps the protocol |
| Elevator.RunKeeps | src/kernel/device.cpp:168-216 | in every run: one pending request is being served, all others sleep with their owner recorded, and every request was served once or is pending once |
| Elevator.SweepUp | src/kernel/device.cpp:138-166 | from position i upwards: all behind i in order, then all before it in reverse |
| Elevator.SweepDown | src/kernel/device.cpp:138-166 | the mirror image downwards |
| Elevator.DrainsInOrder | src/kernel/device.cpp:138-216 | without new arrivals n pending requests are served in n steps in that order, and then nobody sleeps |
| HeadTravel.SectorOrder | src/lib/list.cpp:114-134 | the sorted queue is in the order of its sectors if and only if they lie on one side of 2^31 |
| HeadTravel.TravelIsBounded | src/kernel/device.cpp:138-166 | the pending requests are served in one sweep and at most one back, monotone over sectors on one side of 2^31; the head travels at most twice the span of the sectors if and only if they do, or it starts in a place where the second sweep is short |
| HeadTravel.FarSideTravels | src/lib/list.cpp:118-121 | with 2^31, 2^31 + 100, 2^31 + 101 and 0 pending the head goes from the third to 0 and then back over the others |
| BlockDevice.BlockDevice.Enqueue | src/lib/list.cpp:114-134 | linking a request into the list by its sector is the specified insertion, and no other node loses its request |
| BlockDevice.BlockDevice.Dequeue | src/kernel/device.cpp:208 | unlinking a node takes exactly its request out of the queue |
| BlockDevice.BlockDevice.Submit | src/kernel/device.cpp:180-203 | deviceRequest up to the transfer, on the pointers of the list, is the specified arrival |
| BlockDevice.BlockDevice.RequestNextreq | src/kernel/device.cpp:138-166 | the choice by next and prev, and the turn at either sentinel, are the specified one |
| BlockDevice.BlockDevice.Complete | src/kernel/device.cpp:205-215 | deviceRequest after the transfer, on the pointers of the list, is the specified hand-over |
| ReentrantLock.MutexLockKeeps | src/kernel/mutex.cpp:13-35 | an attempt takes the mutex exactly if it is free; otherwise the caller is asleep at the head of the list, with a number above those of all sleepers |
| ReentrantLock.ReleaseKeeps | src/kernel/mutex.cpp:90-105 | lockRelease stops the kernel exactly for a caller that has not acquired the lock |
| ReentrantLock.WithinKeeps | src/kernel/mutex.cpp:73-105 | every test and assignment of a task that has the mutex passes its assert and keeps holder and repeat right |
| ReentrantLock.MutexUnlockKeeps | src/kernel/mutex.cpp:38-62 | unlocking frees the mutex and wakes of all sleepers the one that went to sleep first; the others keep their order, and no other task is touched |
| ReentrantLock.StepKeeps | src/kernel/mutex.cpp:13-105 | no assert can fail whatever other tasks do between two tests or assignments |
| ReentrantLock.RunKeeps | src/kernel/mutex.cpp:13-105 | the invariant holds in every interleaving |
| ReentrantLock.MutualExclusion | src/kernel/mutex.cpp:13-105 | at most one task is between lockAcquire and its lockRelease, holder and repeat are that task and its depth, and a free mutex with sleepers has a woken task about to retry |
| KernelLock.KernelLock.LockAcquire | src/kernel/mutex.cpp:73-87 | the test at its start is the specified step |
| KernelLock.KernelLock.MutexLock | src/kernel/mutex.cpp:13-35 | one round of the loop, which links the task's own node into the list of waiters, is the specified step |
| KernelLock.KernelLock.LockRelease | src/kernel/mutex.cpp:90-105 | the assert at its start is the specified step |
| KernelLock.KernelLock.MutexUnlock | src/kernel/mutex.cpp:38-62 | taking the node in front of the tail off the list and waking its task is the specified step |
| LinkedList.SortPointKeeps | src/lib/list.cpp:114-134 | insertion in front of the first larger key keeps a sorted list sorted and is stable |
| LinkedList.List.InsertBefore | src/lib/list.cpp:14-21 | the four pointer writes insert the node there and keep the chain linked both ways |
| LinkedList.List.InsertAfter | src/lib/list.cpp:24-31 | the same on the other side |
| LinkedList.List.Push | src/lib/list.cpp:34-38 | puts the node in front, or fails exactly if it is in the list |
| LinkedList.List.Pop | src/lib/list.cpp:41-49 | takes the first node, unlinked, or fails exactly on the empty list |
| LinkedList.List.Pushback | src/lib/list.cpp:52-56 | puts the node behind, or fails exactly if it is in the list |
| LinkedList.List.Popback | src/lib/list.cpp:59-67 | takes the last node, unlinked, or fails exactly on the empty list |
| LinkedList.List.Search | src/lib/list.cpp:70-80 | true exactly for nodes of the list |
| LinkedList.List.Remove | src/lib/list.cpp:83-92 | takes the node out, the rest keeps its order; fails exactly for an unlinked node |
| LinkedList.List.Empty | src/lib/list.cpp:95-98 | true exactly for the empty list |
| LinkedList.List.Size | src/lib/list.cpp:101-111 | the length of the list |
| LinkedList.List.InsertSort | src/lib/list.cpp:114-134 | inserts in front of the first larger key; fails exactly for a linked node |
| Console.FeedsScroll | src/kernel/console.cpp:49-87 | n line feeds at the bottom drop n rows and append n empty ones |
| Console.TextRunsOn | src/kernel/console.cpp:127-139 | text that fits runs on from the cursor, over the ends of rows, with the current style, and changes nothing else |
| Console.BackUndoesType | src/kernel/console.cpp:111-139 | a backspace takes back a character that did not wrap, and leaves an empty cell |
| Console.TabStops | src/kernel/console.cpp:97-108 | tabs stop at the multiples of eight; behind the last one of a row the next row begins |
| Console.SequenceWrites | src/kernel/console.cpp:514-552 | from the normal state ESC [ p1 ; ... ; pn and a final byte, n at most 16, with or without a question mark that is skipped, end in the normal state with cursor, cells and style as the final byte says for the parameters p1 to pn in 32 bits, zeros behind |
| Console.ParametersWrite | src/kernel/console.cpp:215-232 | decimal digits and semicolons put the values into the parameters in order |
| Console.SeventeenthSwallowsAll | src/kernel/console.cpp:215-218 | with more than sixteen parameters the sequence has no effect, and neither has anything that is written afterwards |
| Console.ClearScreen | src/kernel/console.cpp:244-247 | ESC [ 2 J leaves 2000 empty cells and the cursor where it is |
| Console.ColourWritten | src/kernel/console.cpp:398-422 | ESC [ 1 ; 31 m sets bright and foreground 1, and touches no cell |
| Console.Foreground | src/kernel/console.cpp:415-416 | parameters 30 to 37 set the foreground and leave the other five bits |
| Console.Background | src/kernel/console.cpp:418-419 | parameters 40 to 47 set the background and leave the other five bits |
| Console.ReverseTwice | src/kernel/console.cpp:412-413 | reverse exchanges the halves of the style, and twice does nothing |
| Console.BlinkHasNoEffect | src/kernel/console.cpp:398-422 | a parameter 5 may be left out of any control sequence without changing the style |
| Console.UpAndDown | src/kernel/console.cpp:436-446 | vertical motions past an edge are refused; counts that wrap go the other way |
| Console.LeftAndRight | src/kernel/console.cpp:447-457 | the same horizontally |
| Console.Addressed | src/kernel/console.cpp:431-480 | H, f, d, G and the backquote count rows and columns from 1, take 0 for 1, and ignore an address outside as a whole |
| Console.NextAndPreviousLine | src/kernel/console.cpp:458-467 | E and F go to the start of the row that many rows on or back, or nowhere |
| Console.Console.ScrollUp | src/kernel/console.cpp:49-64 | the window moves one row through video memory, or back to its start, and shows the grid scrolled by one row |
| Console.Console.Chr | src/kernel/console.cpp:127-139 | a character is typed as on a plain grid, wrapping at the end of the row |
| Console.Console.Tabulate | src/kernel/console.cpp:97-108 | the cursor goes to the next multiple of eight, wrapping at the end of the row |
| Console.Console.Bs | src/kernel/console.cpp:111-118 | the cursor goes back and erases, except at the start of a row |
| Console.Console.StateArg | src/kernel/console.cpp:215-232 | never more than sixteen parameters; after that every byte is swallowed |
| Console.Console.CsiJ | src/kernel/console.cpp:235-258 | erases exactly the named part of the screen |
| Console.Console.CsiK | src/kernel/console.cpp:261-284 | erases exactly the named part of the row |
| Console.Console.InsertLine | src/kernel/console.cpp:287-299 | an empty row appears at the cursor and the rows from there move down |
| Console.Console.CsiL | src/kernel/console.cpp:302-313 | as many empty rows as the first parameter says, at least one and at most 25, appear at the cursor |
| Console.Console.DeleteLine | src/kernel/console.cpp:316-328 | the cursor's row and those above stay; below, every second row shows the one that followed it |
| Console.Console.CsiM | src/kernel/console.cpp:331-342 | as many lines as the first parameter says, at least one and at most 25, are deleted one after the other |
| Console.DeletedWindow | src/kernel/console.cpp:316-328 | on the screen a deleted line leaves all rows down to the cursor alone, and every second row below shows the one that followed it |
| Console.Console.DeleteChar | src/kernel/console.cpp:345-355 | the rest of the row moves left |
| Console.Console.InsertChar | src/kernel/console.cpp:372-381 | the rest of the row moves right and the cursor's character is cleared |
| Console.Console.Characters | src/kernel/console.cpp:358-395 | as many characters as the first parameter says are deleted or inserted at the cursor, exactly as on a plain grid |
| Console.DeleteUndoesInsert | src/kernel/console.cpp:345-381 | deleting a character where one was inserted restores the row but for its last cell |
| Console.Console.CsiStyle | src/kernel/console.cpp:398-422 | the style is that of the parameters in turn |
| Console.Console.StateCsi | src/kernel/console.cpp:425-511 | what each final byte makes of cursor, saved cursor, cells and style, and that it ends the sequence |
| Console.Console.Feed | src/kernel/console.cpp:524-548 | what one byte does in each of the states Normal, Escape, Query and Arguments |
| Console.Console.FeedArgument | src/kernel/console.cpp:537-544 | a byte among the parameters is stored, separates, or is the final one and takes effect at once |
| Console.Console.ConsoleWrite | src/kernel/console.cpp:514-552 | for every byte string all stores are in video memory and cursor, window and parameter count stay in range; each byte in turn does what the state it finds says (`Writes`); for plain text the screen is that of a plain grid |
| NumberFormat.DigitsDecode | src/lib/stdio.cpp:115-123 | the digits stand for the number, in every base |
| NumberFormat.RoomInTmp | src/lib/stdio.cpp:38-123 | a 32-bit number has at most 32 digits, so tmp is never overrun |
| NumberFormat.PrintedReadsBack | src/lib/stdio.cpp:38-123 | in every base from 2 to 36 and either case the printed digits read as the number |
| NumberFormat.CharIs | src/lib/stdio.cpp:39-46 | the digits are 0 to 9 and then the letters in order, in the case that the flags name |
| NumberFormat.SignedReading | src/lib/stdio.cpp:66-73 | sign and magnitude stand for the number, as an int32 if the conversion is signed |
| NumberFormat.FormattedShape | src/lib/stdio.cpp:125-177 | the text is blanks, sign, prefix, zeros, digits, blanks in this order, with blanks on one side only as the flags say |
| NumberFormat.FormattedLength | src/lib/stdio.cpp:125-177 | the length is the larger of the width and sign, prefix and digits extended to the precision |
| NumberFormat.Convert | src/lib/stdio.cpp:111-123 | the loop leaves the digits in tmp |
| NumberFormat.Number | src/lib/stdio.cpp:36-178 | the printed text is padding, sign, prefix, zeros and digits as the flags say, or nothing for a base outside 2..36 |
| NumberParse.SkipAtoi | src/lib/stdio.cpp:21-27 | reads the longest run of digits and leaves the rest |
| NumberParse.Atoi | src/lib/stdlib.cpp:53-69 | the loop computes the value of the text up to a NUL in 32 bits, with signed characters |
| NumberParse.AtoiUndoesNumber | src/lib/stdlib.cpp:53-69 | a number printed in base 10 is read back as the same 32 bits if and only if: there is no blank and no plus sign (-2147483648 included); or a plus sign and at least 32 digits; or blanks in front without sign and at least 28 digits; or, in the other cases, an equation modulo 2^32 holds between magnitude, digits and blanks |
| NumberParse.BlankIsRead | src/lib/stdlib.cpp:59-68 | with a blank in front 5 is read as -155 |

## Left out

- CR3 and the TLB: a page access is a walk of the tables; `copyPage`'s temporary mapping of
  address 0 without a flush is not modelled.
- Kernel-mode stores are a single step of their own (`KernelAccess.KernelStore`) and not one
  of the runs that `CopyOnWrite` speaks of, where they would break the theorem.
- Access below 16 MB: user programs are taken to use addresses from 16 MB on, as the
  fault handler asserts.
- Contents of a frame that linkPage hands out: the source does not clear it, so they are
  a parameter.
- The physical address of kernel pages, of task stacks and the stack frames that fork
  builds.
- Fairness: the choice rule of `taskSearch` is not a consistent order
  (`SchedulerInvariant.ScheduleChooses` says whom it takes), and a sleeper is woken with no
  ticks left, so nothing is claimed about how long a ready task waits.
- The idle and the init loop: they are tasks that only give up the processor.
- Sleeping inside bread (`src/kernel/buffer.cpp:126`) and two readers of one block at a
  time: bread, brelse, iget and iput are single steps.
- The number of buffers that fit the pool and their addresses: a parameter.
- Overflow of the 32-bit reference counts of buffers.
- ialloc, ifree and bfree: their bitmap lengths and routing bounds do not match, so the
  intended inverses are false.
- BlockMap.BmapGrows: stated over the contents that the block cache stands for, with the
  zone bitmap and the inode's nine zones as parts of their own; the areas on disk do not
  overlap.
- readSuper and mounting: the mounted file systems are given.
- The transfer itself, IDE registers, partitions' offsets: the disk is a map from block to
  contents, and a request is an arrival and an end.
- BlockDevice.BlockDevice.Submit: the sector offset of a partition is added by the caller.
- Interrupt states inside the lock functions other than on and off, and the 32 bits of `repeat`;
  `repeat++` and `repeat--` are single steps, as nobody but the holder writes it.
- A task's node is on the list of this mutex or on none: other lists it may be on are not part of
  the lock's state.
- LinkedList.List.Remove: the list is given, as the source's assertion needs no list.
- The hardware cursor and window registers, and the bell.
- Console.SequenceWrites: for a final M the last row may show a row of video memory from behind
  the window, which is not part of the screen; `Console.Console.DeleteLine` says which.
- The floating-point branch of `number`, the argument walk of vsprintf, and int overflow of
  width and precision.
- Keyboard queue, RTC and calendar (`src/kernel/time.cpp`), logging, string helpers, system
  call dispatch and boot code: they would only add easy members or are assembly.
