# Pintos, modelled in Dafny

This project models the hardest parts of the Pintos kernel in Dafny and proves what they
promise. `dafny verify dfyconfig.toml` checks all of it. Code that changes things step by
step is a class or a method with loops; each method is proved against a specification, and
the main results are about every input, every run or every interleaving.

| part | files |
|---|---|
| indexed files over a write-back cache | `Sectors`, `Bitmap`, `FreeMap`, `Cache`, `BlockTree`, `Inode`, `InodeRollback`, `GrowthExample`, `FileBytes`, `Files`, `FileDelete`, `FileSystem` |
| the cache under any interleaving of threads | `CacheThreads`, `CacheUse` |
| the fair reader/writer lock | `RwLock` |
| locks with priority donation | `Donation`, `PriorityLocks`, `LockEffects`, `LongChain`, `LockKernel` |
| 64-bit division from 32-bit division | `Division` |
| natural merge sort on linked lists | `ListSort`, `Lists` |
| the pairing heap and the alarm clock | `Heap`, `Timer` |
| demand paging, swap and the clock sweep | `Clock`, `Swap`, `PageStates`, `PageRuns`, `Paging` |
| the feedback queue scheduler's fixed-point statistics | `Mlfqs` |
| the resizing hash table | `Bits`, `Hash` |
| the arena allocator on the page bitmap | `Malloc`, `Allocator` |
| ustar archive headers | `Octal`, `Ustar` |

Shared helpers are in `Arithmetic`, `Options` and `Sequences`.

Some of what one would expect does not hold of the code. The model follows the code, shows
an input where the property fails, and proves exactly when it holds.

- A growth that fails does not always leave the file as it was. It does if and only if the
  file has at most ten data sectors or one more sector could have been had
  (`InodeRollback.Grow`, `GrowthExample.ElevenThenOneMore`). Otherwise the live index blocks
  at the top are released: the sectors below them stay marked as used, the inode on the disk
  still names a block that is free now, and every other file keeps its bytes
  (`FileSystems.FileSystem.WriteAt`, `FileBytes.Broken`).
- Donation stops after nine edges. It keeps every donation in place if and only if the chain
  is that short or the tenth edge already carries the priority
  (`PriorityLocks.AcquireBusyExact`). A run from boot leads to a state where it does not
  (`LongChain.TenthEdgeReached`).
- `umod64` and `smod64` return 32 bits, so they give the remainder for every dividend if and
  only if the divisor is at most 2^32, or at most 2^31 in size (`Division.UmodExact`,
  `Division.SmodExact`); `sdiv64` truncates except for the one quotient that does not fit
  (`Division.Sdiv64`).
- The size of a big `malloc` request is rounded up in 32 bits. The block is large enough if
  and only if the request is at most 2^32 - 12 (`Allocator.PageCountFits`); a request for
  2^32 - 1 bytes gets 4084 (`Allocator.AlmostEverything`).
- A ustar header for a regular file of negative size is refused when it is parsed
  (`Ustar.RoundTrip`).

Where the comments in the code and the code disagree, the code is followed: `swap_in` says
that it returns false for a slot number out of range, but its bitmap refuses such a number.

## Model

| member | source | states |
|---|---|---|
| Sectors.UnpackPack | src/filesys/inode.c:19-40 | words written to a sector as little-endian bytes read back as the same words |
| Sectors.PackUnpack | src/filesys/inode.c:19-40 | the bytes of a sector are determined by the words they spell |
| Bitmaps.Bitmap.Contains | src/lib/kernel/bitmap.c:250-263 | true exactly when the range is not a run of the opposite value |
| Bitmaps.Bitmap.SetMultiple | src/lib/kernel/bitmap.c:217-228 | the range takes the value and no other bit changes |
| Bitmaps.Bitmap.Scan | src/lib/kernel/bitmap.c:295-310 | the first run of the asked length at or after the start, or the error value exactly when there is none |
| Bitmaps.Bitmap.ScanAndFlip | src/lib/kernel/bitmap.c:319-326 | that first run is flipped; nothing changes on error |
| Bitmaps.ZerosNone | src/lib/kernel/bitmap.c:232-246 | no clear bit is left exactly when the count of clear bits is zero |
| FreeMaps.FreeMap.Allocate | src/filesys/free-map.c:27-40 | takes the first free run; if the map cannot be written back the bits are as before |
| FreeMaps.FreeMap.Release | src/filesys/free-map.c:43-49 | frees exactly the sectors named, which must all be in use |
| Cache.TouchByRecency | src/filesys/cache.c:60-77 | moving the used slot to the back keeps the list ordered by last use, for every history |
| Cache.BufferCache.Find | src/filesys/cache.c:60-77 | finds the slot of a sector, or none exactly when no valid slot holds it |
| Cache.BufferCache.Evict | src/filesys/cache.c:78-98 | reuses the least recently used slot; dirty data reaches the disk and the flat disk does not change |
| Cache.BufferCache.Locate | src/filesys/cache.c:60-98 | the slot that holds the sector, or the least recently used one with the sector read into it; no other slot changes |
| Cache.BufferCache.Read | src/filesys/cache.c:52-106 | copies the bytes of the flat disk and keeps the cache coherent; a hit is served from the slot that holds the sector and a miss from the least recently used one, that slot becomes the most recently used and the others keep their order; the device changes only by the write-back of a dirty victim |
| Cache.BufferCache.Write | src/filesys/cache.c:110-165 | the flat disk changes in exactly those bytes of that sector; the same of slots, order and device, and the slot is dirty |
| Cache.BufferCache.Flush | src/filesys/cache.c:168-185 | afterwards the device equals the flat disk, and the slots hold the same, clean |
| Cache.BufferCache.Free | src/filesys/cache.c:202-221 | drops the slot of one sector, without writing it back; every other slot and sector is unchanged |
| CacheThreads.NextKeeps | src/filesys/cache.c:52-221 | every step of every thread keeps the invariant over slots, slot locks, the cache lock and what each thread has found so far |
| CacheThreads.CacheIsFlatDisk | src/filesys/cache.c:52-165 | in every interleaving no two valid slots hold one sector and each read returns what the writes before it stored (linearised at the copy) |
| CacheThreads.FlushReachesDisk | src/filesys/cache.c:168-185 | in every interleaving, when a thread's flush ends the device equals the flat disk |
| CacheUse.EvictsLeastRecent | src/filesys/cache.c:60-98 | in every interleaving a thread that gets a slot gets the one that holds its sector, or if there is none the least recently used; nobody else holds that slot |
| CacheUse.EveryUseCounts | src/filesys/cache.c:60-98 | every step that gives a thread a slot counts as a use of it, and no other step does |
| CacheUse.EveryAccessTakesEffect | src/filesys/cache.c:52-221 | every access and every cache_free takes effect exactly once, when it ends, with what was asked for |
| CacheUse.NeverStuck | src/filesys/cache.c:52-221 | in every interleaving, while some thread is inside an operation one that is can go on: no deadlock |
| BlockTree.GrownBack | src/filesys/inode.c:291-393 | a growth taken back to its old size has the old pointers, the old free map and the old contents of every sector in use |
| BlockTree.AddDataTree | src/filesys/inode.c:188-201 | one more data sector keeps every pointer used, unique and reached once |
| BlockTree.DropDataTree | src/filesys/inode.c:304-345 | so does one data sector less |
| BlockTree.DropIndexTree | src/filesys/inode.c:297-382 | and one index block less |
| BlockTree.CutIsDamaged | src/filesys/inode.c:346-380 | releasing the top index blocks of a tree that got no data sector frees, of what was in use, exactly those blocks; all they led to stays marked, and no other sector changes |
| Inodes.Volume.AppendData | src/filesys/inode.c:188-201 | a fresh zeroed sector is added at the end, or nothing changes |
| Inodes.Volume.AppendIndex | src/filesys/inode.c:164-175 | a fresh index block full of empty pointers is added, or nothing changes |
| Inodes.Volume.GrowDirect | src/filesys/inode.c:187-203 | grows within the direct pointers; stops early only when the disk is full or they are used up |
| Inodes.Volume.GrowIndirect | src/filesys/inode.c:205-236 | the same within the indirect block |
| Inodes.Volume.GrowDoubly | src/filesys/inode.c:238-288 | the same within the doubly indirect block and its blocks |
| InodeRollback.UndoDoubly | src/filesys/inode.c:292-350 | undoes the doubly indirect part of a failed growth; with no data sector obtained it releases exactly the doubly indirect block, whatever that holds |
| InodeRollback.UndoIndirect | src/filesys/inode.c:352-382 | undoes the indirect part; with no data sector obtained it releases exactly the indirect block, whatever that holds |
| InodeRollback.UndoDirect | src/filesys/inode.c:384-391 | undoes the direct part |
| InodeRollback.Undo | src/filesys/inode.c:291-393 | a failed growth is undone exactly, pointers and free map, if it obtained a data sector or the file has at most ten; otherwise the file is damaged: cut to ten data sectors, with exactly the top index blocks released |
| InodeRollback.Accounting | src/filesys/inode.c:179-288 | how far a growth gets follows from the number of free sectors: data sectors plus the index blocks they need |
| InodeRollback.Grow | src/filesys/inode.c:179-394 | succeeds exactly when the size limit and the free sectors allow; when it fails the file is as before if and only if it has at most ten data sectors or one more would have fitted, and is damaged otherwise |
| GrowthExample.ElevenThenOneMore | src/filesys/inode.c:346-380 | a concrete failed growth that damages the file: eleven data sectors become ten and the index block is released |
| FileBytes.WriteChunk | src/filesys/inode.c:702-727 | writing part of one mapped sector overwrites exactly those bytes of the file |
| FileBytes.ReadChunk | src/filesys/inode.c:622-660 | part of one mapped sector is that part of the file |
| FileBytes.GrowContents | src/filesys/inode.c:687-700 | growing a file whose tail is zero appends zeros |
| FileBytes.OthersKept | src/filesys/inode.c:669-731 | a step on one file changes no byte of another |
| FileBytes.AllHealthyStep | src/filesys/inode.c:401-731 | after a step on one file all files are stored correctly and share no sector |
| FileBytes.AllHealthyRemove | src/filesys/inode.c:534-594 | the same after a file is removed |
| FileBytes.HealthyGrown | src/filesys/inode.c:179-288 | a grown file is stored correctly and ends in zeros |
| FileBytes.DamagedIsBroken | src/filesys/inode.c:346-380 | the inode sector of a damaged file is unchanged, so it names an index block that is not in use any more |
| FileBytes.DamagedStep | src/filesys/inode.c:346-380 | damage changes no sector in use but the damaged file's own |
| Files.IndirectLookup | src/filesys/inode.c:104-117 | the pointer that the tree has at that position |
| Files.DoublyIndirectLookup | src/filesys/inode.c:120-133 | the same through two levels, or none where a block is missing |
| Files.ByteToSector | src/filesys/inode.c:139-161 | the data sector of a byte offset, or none exactly beyond the last one |
| Files.Chunk | src/filesys/inode.c:629-637 | a round copies at least one byte exactly when bytes are wanted and the file has more, and stays in sector and file |
| Files.ReadAt | src/filesys/inode.c:610-664 | reads exactly the bytes of the file up to its end; the rest of the buffer is untouched |
| Files.WriteBytes | src/filesys/inode.c:702-727 | overwrites exactly the range, which lies in the file |
| Files.Extend | src/filesys/inode.c:687-700 | lengthens the file with zeros and keeps its kind, count and parent, or reports failure with the exact reason; a failure changes nothing, or damages this file and no sector of another |
| Files.CreateInode | src/filesys/inode.c:401-435 | a file of zeros of that kind and parent; on failure nothing in use changed; succeeds exactly when it fits |
| Files.WriteBeyond | src/filesys/inode.c:687-731 | past the end of the file: extends, then writes, and keeps kind, count and parent; the same outcomes |
| Files.WriteFile | src/filesys/inode.c:669-731 | the file is overwritten at the offset, with zeros in any gap, and keeps its kind, count and parent; says exactly when it fails and when failing damages the file, and no sector of another file changes even then |
| FileDelete.IndirectClose | src/filesys/inode.c:513-529 | releases the block and the data sectors that it maps, each once |
| FileDelete.CloseRemoved | src/filesys/inode.c:544-585 | releases exactly the sectors that the file owns, each while it is still in use |
| FileSystems.FileSystem.Create | src/filesys/inode.c:401-435 | adds a file of zeros of that kind and parent, and changes no other file |
| FileSystems.FileSystem.Open | src/filesys/inode.c:440-475 | the inode sector on the disk describes the whole file again |
| FileSystems.FileSystem.ReadAt | src/filesys/inode.c:610-664 | returns exactly the last bytes written, over any history of operations |
| FileSystems.FileSystem.WriteAt | src/filesys/inode.c:669-731 | overwrites one file, growing it as needed, keeps what else its inode says, and changes no other file; a failed write changes nothing unless it is the damaging case, which has an exact condition and after which all other files are stored correctly and keep their bytes |
| FileSystems.FileSystem.Delete | src/filesys/inode.c:534-594 | frees exactly the sectors of that file and changes no other file |
| RwLocks.DrainSafe | src/threads/synch.c:533-561 | waiters are admitted in order and for as long as they can enter, and only so long |
| RwLocks.LeaveSafe | src/threads/synch.c:521-563 | a release keeps the lock safe and the order of requests |
| RwLocks.NobodyOvertaken | src/threads/synch.c:466-563 | in every run: no reader with a writer, no two writers, waiters imply a holder, a waiting head with readers is a writer, and admitted requests followed by waiting ones are the arrivals in order |
| RwLocks.Exclusive | src/threads/synch.c:466-563 | in every run, of the last requests admitted, as many as were not released, a writer is the only one; and the lock counts a writer exactly then |
| RwLocks.WriterAlone | src/threads/synch.c:466-563 | in every run in which only holders release, in whatever order: a writer that holds the lock holds it alone, and the counters are the numbers of readers and writers that hold it |
| RwLocks.AdmittedInTime | src/threads/synch.c:466-563 | a request with k unreleased requests ahead is admitted by the k-th following release |
| RwLocks.RwLock.AcquireReader | src/threads/synch.c:466-487 | enters at once exactly when nobody waits and no writer is active, else queues; the lock's state is that of the run of calls so far |
| RwLocks.RwLock.AcquireWriter | src/threads/synch.c:495-517 | enters at once exactly when nobody waits and nobody is active, else queues; the same of its state |
| RwLocks.RwLock.HandOver | src/threads/synch.c:533-561 | the loop admits the longest admissible front of the queue, in order |
| RwLocks.RwLock.Release | src/threads/synch.c:521-563 | leaves, and the last holder hands over to the longest admissible front of the queue; the lock's state is that of the run of calls so far |
| Donation.RaiseEdges | src/threads/synch.c:308-316 | raising one parent restores its edge and can break only the next |
| Donation.DonateExact | src/threads/synch.c:308-316 | donation restores every edge of a chain if and only if the chain has at most nine edges or the tenth already carries the priority |
| PriorityLocks.AcquireFreeKeeps | src/threads/synch.c:207-224 | taking a free lock keeps the invariant |
| PriorityLocks.AcquireBusyExact | src/threads/synch.c:207-224 | blocking on a held lock keeps the invariant if and only if donation reaches far enough |
| PriorityLocks.RetryKeeps | src/threads/synch.c:68-84 | a woken waiter that gets the lock or queues again keeps the invariant |
| PriorityLocks.LetGoEdges | src/threads/synch.c:260-290 | what the holder keeps on a release is at least the priority of everyone whose parent it still is |
| PriorityLocks.WakeKeeps | src/threads/synch.c:116-136 | waking one waiter keeps the invariant |
| PriorityLocks.ReleaseKeeps | src/threads/synch.c:260-294 | so does a whole release |
| PriorityLocks.SetPriorityKeeps | src/threads/thread.c:352-367 | so does a change of one's own priority |
| PriorityLocks.StepKeeps | src/threads/synch.c:207-316 | every operation keeps: a thread with a parent waits for a lock that the parent holds, and the parent's donated priority is at least the child's effective one |
| PriorityLocks.NoInversion | src/threads/synch.c:207-316 | in every state of every run with chains of at most nine edges, effective priority never falls along a chain |
| LockEffects.DonateIs | src/threads/synch.c:308-316 | a donation raises exactly the threads up to nine edges above the donor, each to the donor's effective priority |
| LockEffects.BlockLends | src/threads/synch.c:207-224 | a thread that waits lends its effective priority to the holder and the threads that that one waits for, nine edges up, and to nobody else |
| LockEffects.ReleaseOwed | src/threads/synch.c:276-288 | after a release the holder is left with exactly the greatest effective priority of those who wait for a lock that it still holds, or with none |
| LockEffects.ReleaseMeans | src/threads/synch.c:260-294 | field by field: the lock is free, its waiters have no parent, the first waiter of greatest priority leaves the list and will try again, the others keep their order, and nothing else changes |
| LockEffects.NothingUndeserved | src/threads/synch.c:207-316 | in every state of every run a donated priority is at most that of somebody who waits for a lock that the thread holds; right after a release it is exactly the greatest of those |
| LongChain.TenEdgesFail | src/threads/synch.c:40-41 | for every chain of ten or more a state where one more waiter leaves a donation missing |
| LongChain.LineReached | src/threads/synch.c:207-224 | a line of up to ten threads that each hold a lock the one before waits for is reached by a run from boot |
| LongChain.TenthEdgeReached | src/threads/synch.c:40-41 | so a run leads to a state where a blocking acquire leaves a donation missing |
| LockKernel.Kernel.DonateUp | src/threads/synch.c:308-316 | the recursion stops after nine edges or at the end of the chain, having raised each parent to its child |
| LockKernel.Kernel.ListMax | src/threads/thread.c:704-713 | the first among the waiters with the greatest effective priority |
| LockKernel.Kernel.Acquire | src/threads/synch.c:207-224 | takes a free lock, or records the parent, donates exactly what is due and waits at the end of the list; keeps the invariant |
| LockKernel.Kernel.TryAgain | src/threads/synch.c:68-84 | a woken waiter takes the lock if it is free and queues again at the end if not; keeps the invariant |
| LockKernel.Kernel.ClearParents | src/threads/synch.c:268-274 | exactly the waiters of the lock lose their parent |
| LockKernel.Kernel.Recompute | src/threads/synch.c:276-288 | the donated priority becomes the greatest among the waiters on the remaining locks, or zero |
| LockKernel.Kernel.SemaUp | src/threads/synch.c:116-136 | wakes the first waiter with the greatest effective priority |
| LockKernel.Kernel.ReleaseLock | src/threads/synch.c:260-294 | the whole release: gives back the donations that came through the lock, wakes the first greatest waiter, and keeps the invariant |
| LockKernel.Kernel.SetPriority | src/threads/thread.c:352-367 | changes one base priority and nothing else; keeps the invariant |
| Division.Nlz | src/lib/arithmetic.c:39-71 | the number of leading zero bits of a nonzero word |
| Division.SmallDivisor | src/lib/arithmetic.c:78-110 | dividing by 32 bits in two steps gives the quotient, and the second step's fits 32 bits |
| Division.Estimate | src/lib/arithmetic.c:111-124 | the shifted estimate is the quotient or one more |
| Division.Shifted | src/lib/arithmetic.c:115-122 | the shifted division never asks for a quotient of 2^32 or more |
| Division.Udiv64 | src/lib/arithmetic.c:75-125 | the exact quotient for all 64-bit operands with a nonzero divisor |
| Division.Umod64 | src/lib/arithmetic.c:129-133 | the low 32 bits of the remainder |
| Division.UmodExact | src/lib/arithmetic.c:129-133 | those are the remainder for every dividend if and only if the divisor is at most 2^32 |
| Division.Sdiv64 | src/lib/arithmetic.c:137-144 | truncates toward zero except for -2^63 / -1, which wraps |
| Division.Smod64 | src/lib/arithmetic.c:148-152 | the low 32 bits of the signed remainder, which is smaller than the divisor in size |
| Division.SmodExact | src/lib/arithmetic.c:148-152 | those are the remainder for every dividend if and only if the divisor is at most 2^31 in size |
| ListSorting.MergeSorted | src/lib/kernel/list.c:379-398 | merging two sorted runs gives a sorted run, for every strict weak order |
| ListSorting.MergeStable | src/lib/kernel/list.c:379-398 | and keeps equal elements in order |
| ListSorting.PassStable | src/lib/kernel/list.c:413-435 | a pass is a stable rearrangement |
| ListSorting.PassHalves | src/lib/kernel/list.c:403-439 | a pass at least halves, rounding up, the number of natural runs |
| ListSorting.OneRunSorted | src/lib/kernel/list.c:403-439 | a list with one run is sorted |
| Lists.List.Splice | src/lib/kernel/list.c:183-204 | relinking moves exactly the range in front of the given element, to the front or to the back |
| Lists.List.FindEndOfRun | src/lib/kernel/list.c:357-372 | the end of the natural run at that position, within the given range |
| Lists.List.InplaceMerge | src/lib/kernel/list.c:379-398 | relinks two adjacent runs into their merge |
| Lists.List.SortPass | src/lib/kernel/list.c:413-435 | relinks the list into one pass of merges and counts the runs left |
| Lists.List.Sort | src/lib/kernel/list.c:403-439 | terminates with the links in a sorted, stable rearrangement of the elements |
| Heaps.MeldOrdered | src/lib/kernel/heap.c:20-32 | melding two heaps gives a heap |
| Heaps.MeldAllOrdered | src/lib/kernel/heap.c:35-44 | so does merging a list of siblings |
| Heaps.RootGreatest | src/lib/kernel/heap.c:79-84 | nothing in a heap is greater than its root |
| Heaps.MeldElems | src/lib/kernel/heap.c:20-32 | relinks two heaps in place into their meld |
| Heaps.MeldSiblings | src/lib/kernel/heap.c:35-44 | relinks a list of siblings in place into one heap |
| Heaps.Heap.Push | src/lib/kernel/heap.c:56-63 | adds exactly the element and keeps heap order |
| Heaps.Heap.Top | src/lib/kernel/heap.c:79-84 | a greatest element |
| Heaps.Heap.Pop | src/lib/kernel/heap.c:66-76 | removes exactly a greatest element and keeps heap order |
| AlarmClock.Timer.Sleep | src/devices/timer.c:97-110 | adds exactly the sleeper with its wake-up tick |
| AlarmClock.Timer.WakeUp | src/devices/timer.c:280-292 | wakes exactly the sleepers that are due, in order of wake-up tick; the rest are due later |
| AlarmClock.Timer.Interrupt | src/devices/timer.c:183-188 | the same at the next tick |
| AlarmClock.WokenOnTime | src/devices/timer.c:97-292 | for every sequence of sleeps and ticks a thread sleeps until exactly its tick, or the first tick if that has passed |
| AlarmClock.Timer.OnTime | src/devices/timer.c:97-292 | in every run of the timer object a sleeper is in its queue until exactly then |
| Clock.TwoLaps | src/vm/frame.c:186-214 | two laps pass every frame over exactly when every frame is pinned |
| Clock.SecondChance | src/vm/frame.c:186-214 | the victim is the first unpinned frame that no owner accessed, and only if there is none the first unpinned frame; every unpinned frame passed had been accessed |
| Clock.ClearedIs | src/vm/frame.c:186-214 | the accessed bits that a sweep clears are those of the owners of the unpinned frames that it passes |
| Clock.FrameTable.Sweep | src/vm/frame.c:176-217 | terminates, finds a victim exactly when some frame is unpinned, and clears exactly the accessed bits of the unpinned frames it passes, so none without a victim |
| Swapping.SwapDevice.SwapOut | src/vm/swap.c:38-51 | the page goes to a free slot and no other slot changes; fails exactly when all are taken |
| Swapping.SwapDevice.SwapIn | src/vm/swap.c:58-79 | gives back the bytes of a taken slot and frees it |
| PageStates.EvictCleanKeeps | src/vm/frame.c:219-277 | forgetting a clean page keeps every page's bytes recoverable |
| PageStates.EvictDirtyKeeps | src/vm/frame.c:219-277 | so does moving a dirty page to a slot, which it then owns alone |
| PageStates.LoadFirstKeeps | src/vm/page.c:90-135 | so does loading from the file and zeros |
| PageStates.LoadBackKeeps | src/vm/page.c:136-158 | so does reloading from swap, after which the page counts as dirty |
| PageStates.StoreKeeps | src/vm/page.c:148-163 | so does a store by the process |
| PageRuns.MovedKeeps | src/vm/frame.c:176-308 | every move of the paging state machine keeps its invariant |
| PageRuns.PagingInvisible | src/vm/page.c:79-169 | in every run a resident page shows the bytes of memory without paging, and an absent one would be loaded with them; a swap slot in use has one owner |
| Paging.Vm.Evict | src/vm/frame.c:176-277 | gives up the frame that the second-chance sweep chooses, its page to a free swap slot exactly if dirty, and no process sees a difference; afterwards the hand is on the frame that followed; none is given up only if every frame is pinned; fails only when swap is full or the hand is on no frame |
| Paging.Vm.FreeFrame | src/vm/frame.c:112-145 | the page goes back to the pool; the hand stays on its frame, or moves to the next one if its frame is the one freed |
| Paging.Vm.AllocFrame | src/vm/frame.c:41-71 | the first free page of the pool, after an eviction exactly if there is none; the frame goes in right before the hand, which stays on its frame; fails only when every frame is pinned, swap is full, or the hand is on no frame or goes with the only one |
| Paging.Vm.FullLoad | src/vm/page.c:79-169 | the page becomes resident in an unpinned frame before the hand, dirty exactly if it came from swap; at most one other page loses its frame, and no process sees a difference |
| Paging.Vm.Read | src/vm/page.c:79-169 | a load through a page fault if needed returns the byte of flat memory |
| Paging.Vm.Write | src/vm/page.c:79-169 | a store changes flat memory in exactly that byte and marks the page dirty and accessed |
| Paging.Vm.LazyLoad | src/vm/page.c:33-63 | the new page reads as the file bytes followed by zeros |
| Paging.Vm.LoadStack | src/vm/page.c:214-258 | the new page reads as zeros; fails only for the reasons that no frame can be had |
| Paging.Vm.Free | src/vm/page.c:171-210 | the page goes with its frame or its swap slot, and no other page changes; the hand stays on its frame, or moves on if that went |
| Mlfqs.LoadAvgBound | src/threads/thread.c:747-755 | load_avg stays between 0 and the number of threads, and nothing wraps |
| Mlfqs.LoadAvgClose | src/threads/thread.c:747-755 | load_avg is 59/60 of the old value plus 1/60 of the ready threads, short by less than (n + 1) / 2^14 |
| Mlfqs.DecayBound | src/threads/thread.c:739-741 | the truncated decay factor is at most 2n / (2n + 1) |
| Mlfqs.RecentCpuBound | src/threads/thread.c:736-744 | the per-second update brings recent_cpu back within its base bounds, and nothing wraps |
| Mlfqs.RecentCpuClose | src/threads/thread.c:736-744 | recent_cpu is (2 load_avg) / (2 load_avg + 1) of the old value plus nice, within (1 + the size of the old value) / 2^14 |
| Mlfqs.ChargedOk | src/threads/thread.c:151-155 | a tick adds exactly one unit, and nothing wraps |
| Mlfqs.Priority | src/threads/thread.c:720-733 | the priority stays between 0 and 63 |
| Mlfqs.PriorityIs | src/threads/thread.c:720-733 | 63 less a quarter of recent_cpu, rounded toward zero, less twice nice, clamped to 0 and 63 |
| Mlfqs.RunBounded | src/devices/timer.c:183-196 | in every run with at most n <= 545 threads ready or running: 0 <= load_avg <= n and -(40n + 20) <= recent_cpu <= 240n + 120, within 32 bits |
| Mlfqs.TickMeans | src/devices/timer.c:183-196 | one unit for the running thread; once a second load_avg, then recent_cpu of every thread with it; new priorities for all whose figures change, except the idle thread |
| Mlfqs.Scheduler.RecalculateAll | src/threads/thread.c:336-349 | every thread's recent_cpu and priority are recalculated with the same load_avg |
| Mlfqs.Scheduler.Interrupt | src/devices/timer.c:183-196 | does that, and keeps the bounds |
| Mlfqs.Scheduler.Renice | src/threads/thread.c:378-393 | changes one nice value and that thread's priority, unless it is the idle thread; keeps the bounds |
| Mlfqs.Scheduler.CreateThread | src/threads/thread.c:488-515 | a new thread inherits nice and recent_cpu and starts at the greatest priority; keeps the bounds |
| Bits.ClearLowZero | src/lib/kernel/hash.c:328-340 | clearing the lowest bit gives zero exactly for powers of two |
| Bits.ClearLowTop | src/lib/kernel/hash.c:328-333 | clearing the lowest of several bits keeps the largest power of two below |
| Bits.AndMask | src/lib/kernel/hash.c:305-310 | masking with a power of two less one is the remainder |
| Hash.BucketIsRemainder | src/lib/kernel/hash.c:305-310 | the bucket of an element is its hash modulo the number of buckets |
| Hash.TableInsert | src/lib/kernel/hash.c:416-421 | putting a new key at the front of its bucket adds it to the map |
| Hash.TableRemove | src/lib/kernel/hash.c:424-429 | taking an element out of its bucket takes its key out of the map |
| Hash.IdealCount | src/lib/kernel/hash.c:360-372 | the largest power of two not above half the number of elements, and at least four |
| Hash.HashTable.FindElem | src/lib/kernel/hash.c:314-326 | finds the equal element exactly when the map has its key |
| Hash.HashTable.Redistribute | src/lib/kernel/hash.c:391-410 | the new buckets hold the same map |
| Hash.HashTable.Rehash | src/lib/kernel/hash.c:351-413 | the map is unchanged and the table valid; afterwards the number of buckets is the ideal one, or the buckets are as before if memory is refused |
| Hash.HashTable.Insert | src/lib/kernel/hash.c:98-110 | adds the element unless its key is there, and returns the one that is; the number of buckets follows the number of elements |
| Hash.HashTable.Replace | src/lib/kernel/hash.c:114-127 | sets the key to the element and returns the one it replaces; the number of buckets follows |
| Hash.HashTable.Find | src/lib/kernel/hash.c:131-135 | looks the key up in the map |
| Hash.HashTable.Delete | src/lib/kernel/hash.c:144-154 | removes the key and returns its element; the number of buckets follows |
| Arenas.Inside | src/threads/malloc.c:267-293 | a live block lies behind the header and inside the pages of its arena |
| Arenas.Disjoint | src/threads/malloc.c:267-293 | two live blocks share no byte |
| Arenas.TakeKeeps | src/threads/malloc.c:148-153 | handing out the first free block keeps the invariant |
| Arenas.GiveKeeps | src/threads/malloc.c:238-241 | so does putting a block back |
| Arenas.GrowKeeps | src/threads/malloc.c:126-145 | so does cutting a new page into blocks |
| Arenas.DropKeeps | src/threads/malloc.c:244-254 | so does giving an idle arena's page back |
| Arenas.IdleIff | src/threads/malloc.c:242-247 | the header counts all blocks free exactly when none of the arena is live |
| Allocator.PageCountFits | src/threads/malloc.c:108-112 | the pages for a big request hold it if and only if the request is at most 2^32 - 12 |
| Allocator.PageCountWraps | src/threads/malloc.c:108-112 | a request for 2^32 - 1 bytes asks for one page |
| Allocator.AlmostEverything | src/threads/malloc.c:106-121 | such a request on a pool with one free page succeeds, with a block of 4084 bytes |
| Allocator.InitDescs | src/threads/malloc.c:71-85 | seven descriptors of 16 to 1024 bytes and how many blocks each fits in a page |
| Allocator.FindDesc | src/threads/malloc.c:100-104 | the smallest descriptor that is large enough |
| Allocator.AddressSplit | src/threads/malloc.c:267-282 | an address gives back its arena and its block |
| Allocator.Heap.Malloc | src/threads/malloc.c:89-154 | a new block clear of all live ones, which stay put: the first of the free list for the smallest size that serves, or of the first free page if the list is empty; large enough exactly when the size sum does not wrap into a small one; less than twice as large for small requests of more than 15 bytes; null only when the list is empty and no page is free, no run of pages is free, the count of pages wraps to zero or the size is zero |
| Allocator.Heap.Free | src/threads/malloc.c:218-264 | exactly that block goes, to the front of its free list; the arena's pages return to the pool, and its blocks leave the list, if and only if it was the last live one |
| Allocator.Heap.GetPages | src/threads/palloc.c:70-101 | the first run of free pages, or none exactly when there is none |
| Octal.ParseDigits | src/lib/ustar.c:127-160 | a field of octal digits and a terminator reads as the number printed there |
| Octal.ParseExact | src/lib/ustar.c:127-160 | a field is read as a number exactly if it starts with the octal digits of that number and a terminator, and the number fits 32 bits |
| Octal.ParseField | src/lib/ustar.c:127-160 | the loop with its overflow test computes the field's value or fails |
| Octal.Format | src/lib/stdio.c:475-553 | the zero-padded octal digits of any number, at least the field's width of them |
| Ustar.StripSafe | src/lib/ustar.c:64-71 | a stripped name does not start with a slash, "./" or "../", and is neither empty nor ".." |
| Ustar.StripSuffix | src/lib/ustar.c:64-71 | it is the end of the name, or "." |
| Ustar.StripIdempotent | src/lib/ustar.c:64-71 | stripping twice is stripping once |
| Ustar.StripIs | src/lib/ustar.c:64-71 | stripping drops exactly the "/", "./" and "../" at the front and keeps the rest as it is, or "." if that is empty or ".." |
| Ustar.MadeOfSteps | src/lib/ustar.c:64-71 | every name is such steps and a rest |
| Ustar.StripPrefixes | src/lib/ustar.c:64-71 | the loop terminates with the stripped name |
| Ustar.SumIgnoresField | src/lib/ustar.c:35-53 | the checksum does not depend on its own field |
| Ustar.SumZero | src/lib/ustar.c:35-53 | the checksum of a zero header is that of eight spaces |
| Ustar.SumChange | src/lib/ustar.c:35-53 | it changes with each byte outside its field by as much as the byte |
| Ustar.HeaderLayout | src/lib/ustar.c:9-33 | a made header has every field at its offset, numbers in octal, the rest zero |
| Ustar.FirstComplaint | src/lib/ustar.c:179-225 | a header is refused for the first of the eight checks that it fails, and taken exactly if it fails none |
| Ustar.RoundTrip | src/lib/ustar.c:80-225 | parsing a made header gives back the stripped name, the type and the size (0 for a directory); the one exception is a regular file of negative size |
| Ustar.Checksum | src/lib/ustar.c:35-53 | the sum of the header with spaces for its own field |
| Ustar.ParseHeader | src/lib/ustar.c:179-225 | the checks in their order, each with its own error |
| Ustar.MakeHeader | src/lib/ustar.c:80-116 | the header for the stripped name, laid out as the format says; fails exactly when that name is longer than 99 characters |

## Left out

- Device drivers, port input and output, interrupts and the boot path: the disk is a
  sequence of sectors, and a timer interrupt is a step.
- Page faults inside the cache's copies and the re-entrant locking for them: buffers are
  kernel memory.
- Read-ahead and the periodic flush as threads of their own: they are further reads and
  flushes, which the interleaving theorems cover.
- The file operations run one at a time; the reader/writer lock that orders them is modelled
  by itself, and the cache below them under any interleaving.
- FreeMaps.FreeMap.Allocate: writing the map back to its file has an arbitrary outcome; the
  sectors of that file are not modelled.
- FreeMaps.FreeMap.Release: the same write-back is left out.
- Files.WriteFile: an end offset beyond the largest off_t, and negative offsets and sizes,
  are not modelled.
- FileSystems.FileSystem.WriteAt: the same. What later operations find in a damaged file is
  not modelled; the file is then no longer one of those that the model follows.
- FileSystems.FileSystem.Open: the list of open inodes, which lets all openers of a file share
  one inode in memory, is not modelled.
- FileSystems.FileSystem.Delete: the reference counts that decide which close is the last
  are not modelled.
- Contents of a sector after it is dropped from the cache: left unspecified until the next
  write of the whole sector.
- Directories, paths and the failure path of creating a file above the inode layer.
- Lists.List.Splice: only within one list, as the sort uses it.
- list_unique, list_reverse and the other list operations: they would only add easy members.
- lock_try_acquire and condition variables.
- PriorityLocks.StepKeeps: recording the parent, donating and queueing are one step, and so
  are a release and its wake-up; the code does not disable interrupts between them. Claims
  are about threads whose parent is recorded, which waiters left over by a release are not.
  Taking the lock's semaphore and becoming its holder are one step too, though another
  thread may run between them and find the lock taken but without a holder.
- LockKernel.Kernel.SetPriority: the yield is left out; which ready thread runs next is not
  modelled.
- Division.Nlz: zero is excluded, as its comment demands; the divl instruction is a function
  with a precondition.
- AlarmClock.Timer.Sleep: ticks are unbounded, so overflow of the 64-bit wake-up tick is not
  modelled.
- Heaps.Heap.Push: the element belongs to no heap yet, as the code leaves to its callers.
- Paging.Vm.Evict: one eviction is one step. The hand starts at the end of the frame list,
  where the code reads the list's end as if it were a frame; the model goes on if that reads
  as pinned and otherwise reports failure. When the last frame is freed with the hand on it,
  the code keeps a hand on freed memory; in the model every later request for a frame fails.
- Swapping.SwapDevice.SwapIn: a slot number out of range, on which the code panics, is
  excluded.
- Paging.Vm.FullLoad: a short file read and a page directory without memory are left out, and
  so is sharing of read-only file pages, which matches pages by process name; the file behind
  a page does not change.
- Memory-mapped files and their write-back, which depend on other writers of the file.
- Paging.Vm.LoadStack: made of the two steps that together do the same.
- Mlfqs.RunBounded: which thread runs and how many are ready are inputs of each tick; the
  readings multiplied by 100 for user programs are left out.
- Hash.HashTable.Insert: the answer to a request for memory is an argument; elements are values
  and a bucket is a sequence; links inside elements are not modelled. Iteration and the byte
  hashes are left out.
- Allocator.Heap.Malloc: addresses count from the base of the kernel pool, other users of the
  pool may hold any pages, and locks are left out. Filling freed memory is left out.
- realloc, calloc and the second pool of the page allocator.
- Octal.Format: only the conversion that the headers use; other flags of printf are left out.
- Ustar.MakeHeader: a name is a byte string without a null byte.
- Processes, system calls, program loading, tests, examples and utilities.
