# A verified model of the Pintos kernel

Pintos is a small teaching kernel in C; this tree of it has user processes on top of
threads, a simple file system and a kernel library. The project models its core in Dafny
and proves what the code is for: no wakeup is lost, no page or sector has two owners, the
file system is a map from names to byte strings, sorting is stable, division is exact, a
process starts with its own arguments and its parent learns how it ended.

Code that works step by step on state is a class or a method on arrays with loops, proved
against functions and invariants on values. Concurrent code is a system of atomic steps
(the regions with interrupts off, or single bit operations), with an invariant over every
run of every interleaving and theorems drawn from it. `dafny verify dfyconfig.toml` covers
all files.

| files | what they model |
|---|---|
| `Containers`, `Numbers`, `Bits`, `Bytes` | shared facts: options, powers of two, bit operations on numbers, byte strings |
| `Arithmetic` | 64-bit division from a 64-by-32 divide instruction |
| `Bitmaps`, `PagePools`, `Pools` | bitmaps on words; the page allocator alone and in every interleaving with lock-free frees |
| `Malloc` | descriptors, arenas and blocks; malloc, free, calloc, realloc |
| `Threads`, `Monitors` | scheduler and semaphores; locks and condition variables |
| `MergeSorting`, `Lists` | the linked list with splice, reverse and the natural merge sort |
| `HeapSorting`, `Hashing` | heap sort and binary search; the chained hash table |
| `Devices`, `Directories` | inode reads and writes through sectors; directory slots |
| `Volumes`, `FreeMaps`, `FileTables`, `FileStates`, `Formatting`, `FileSystems`, `FileRuns` | the file system from sectors to names, and whole runs of it |
| `Processes` | exec, load, wait and exit |
| `PageTables`, `Loading` | two-level page tables and ELF segments |
| `Tokens`, `UserStacks` | the command line and the first stack frame |
| `Octal`, `Archives` | octal fields and ustar headers |

Modelling decisions:

- Integers are unbounded; 32- and 64-bit wrap-around is written out where the code depends
  on it (division, malloc's page count, segment checks, octal parsing, file sizes).
- Pointers are numbers or ids into maps; following one that is not allocated is a fault of
  its own where that is the point (`Processes`), and elsewhere ruled out by preconditions.
- The divide instruction, atomic bit operations and the context switch are primitives.
- The block device is a flat array of bytes read and written by whole 512-byte sectors.
  In the file system, calls run one at a time and memory allocation succeeds.
- Where words and code differ, the model follows the code: the largest malloc descriptor is
  1 kB, not 2 kB as a comment says; `filesys_create` does not give the data sectors back
  when the name cannot be added; the branch of `inode_write_at` that starts from a zeroed
  buffer is unreachable; the rollback in `free_map_allocate` is never needed, since the map
  fits its file and nothing denies writes to it.
- Some properties hold only under a condition, which is proved exact: a malloc block is big
  enough if and only if size plus header does not wrap; realloc's copy stays inside the new
  block if and only if the size does not wrap or the old block is no longer than the new one;
  calloc's test misses an overflow if and only if the 32-bit product is no less than either
  factor; the minimum divided by -1 is the one signed division that does not truncate to the
  true quotient; a regular file's header is read back if and only if its size is not negative.

## Model

| member | source | states |
|---|---|---|
| Arithmetic.Nlz | lib/arithmetic.c:39-72 | The step-by-step count is the number of leading zero bits of every nonzero word, proved against a recursive definition. |
| Arithmetic.NarrowIsFloor | lib/arithmetic.c:76-98 | For a 32-bit divisor, two divide instructions give the floor of n/d and neither traps. |
| Arithmetic.WideEstimate | lib/arithmetic.c:99-125 | For a wide divisor the divide instruction does not trap, and the estimate before the correction is the true quotient or one more. |
| Arithmetic.CorrectIsFloor | lib/arithmetic.c:99-125 | The test on the wrapped 64-bit remainder turns either estimate into the exact quotient. |
| Arithmetic.UdivIsFloor | lib/arithmetic.c:74-127 | udiv64 is the floor of n/d for all 64-bit n and d, and traps if and only if d is 0. |
| Arithmetic.UmodIsRemainder | lib/arithmetic.c:129-135 | umod64 is n mod d reduced modulo 2^32, so it is n mod d exactly when that fits 32 bits. |
| Arithmetic.SdivTruncates | lib/arithmetic.c:137-147 | sdiv64 truncates toward zero for all signed operands; the one exception, the minimum divided by -1, is shown to give the minimum. |
| Arithmetic.SmodIsRemainder | lib/arithmetic.c:149-154 | smod64 is the remainder of truncating division taken to a signed 32-bit value, exact when it fits. |
| Bitmaps.MarkBit | lib/kernel/bitmap.c:156-165 | Or-ing the mask into a word sets that bit of the word and no other. |
| Bitmaps.ResetBit | lib/kernel/bitmap.c:169-178 | And-ing the complemented mask clears that bit of the word and no other. |
| Bitmaps.TestBit | lib/kernel/bitmap.c:197-202 | The masked word is nonzero if and only if the bit is set. |
| Bitmaps.Bitmap.Mark | lib/kernel/bitmap.c:156-165 | The array of bits the words stand for changes at idx alone, to true. |
| Bitmaps.Bitmap.Reset | lib/kernel/bitmap.c:169-178 | The array of bits changes at idx alone, to false. |
| Bitmaps.Bitmap.Test | lib/kernel/bitmap.c:197-202 | Returns the bit of the array the words stand for. |
| Bitmaps.Bitmap.SetMultiple | lib/kernel/bitmap.c:217-228 | Exactly the bits of the range take the value. |
| Bitmaps.Bitmap.Contains | lib/kernel/bitmap.c:250-263 | True if and only if some bit of the range has the value. |
| Bitmaps.Bitmap.Scan | lib/kernel/bitmap.c:295-312 | Finds the first group of cnt equal bits at or after start, and none only when there is none. |
| Bitmaps.Bitmap.ScanAndFlip | lib/kernel/bitmap.c:314-326 | Flips exactly the first-fit group, or nothing when no group fits. |
| PagePools.PagePool.GetMultiple | threads/palloc.c:70-101 | Hands out the first run of free pages and marks just those; fails only when no run is long enough (or for zero pages). |
| PagePools.PagePool.FreeMultiple | threads/palloc.c:117-142 | Clears exactly the bits of pages that were handed out. |
| Pools.StepKeepsInv | threads/palloc.c:70-142 | Every atomic bit operation of one locked scan-and-set and any number of lock-free frees keeps the ownership invariant. |
| Pools.RunKeepsInv | threads/palloc.c:70-142 | The ownership invariant holds in every state of every interleaving. |
| Pools.NoPageHasTwoOwners | threads/palloc.c:70-142 | In every interleaving a page has at most one holder (client, allocation or free in progress), and its bit is set exactly while it has one. |
| Pools.FreedPagesAreUsed | threads/palloc.c:117-142 | The assertion in palloc_free_multiple holds in every interleaving: a free finds all its bits set. |
| Pools.SetterFindsBitsClear | lib/kernel/bitmap.c:217-228 | The bits the lock holder saw clear are still clear when it sets them, although frees take no lock. |
| Pools.AllocationIsFresh | threads/palloc.c:70-101 | The pages marked by an allocation go to its client when it ends; no other client holds any of them, and none loses a page. |
| Pools.RequestServed | threads/palloc.c:70-101 | Over the whole run of a request, with frees in between: when it ends with its last mark the client holds exactly the n pages it asked for, in a row, that nobody else held, and at every earlier place some page was in use while it looked. |
| Pools.RequestFails | threads/palloc.c:70-101 | A request that ends without pages asked for more than there are, or at every place some page was in use at a moment of its scan. |
| Pools.FreeReturns | threads/palloc.c:117-142 | A free takes exactly its pages from the client, and by the time it is over it has cleared the bit of each of them, found set; other clients keep theirs. |
| Pools.CanGoOn | threads/palloc.c:70-142 | In every interleaving the allocation under way and every free have a next step, and an idle pool takes any request. |
| Malloc.TakeKeepsInv | threads/malloc.c:124-150 | Taking the first listed block keeps every heap property: free counts, lists, live blocks, arenas. |
| Malloc.AddArenaKeepsInv | threads/malloc.c:128-143 | Cutting a fresh page into blocks keeps every heap property except that this one arena has no live block yet. |
| Malloc.GiveBackKeepsInv | threads/malloc.c:218-236 | Pushing a freed block keeps every heap property except, when it was the last, that its arena has a live block. |
| Malloc.DropArenaKeepsInv | threads/malloc.c:238-251 | Unlisting all blocks of an unused arena and dropping its page restores every heap property. |
| Malloc.AddBigKeepsInv | threads/malloc.c:107-122 | A page run of its own keeps every heap property. |
| Malloc.DropBigKeepsInv | threads/malloc.c:254-261 | Dropping the page run of a big block keeps every heap property. |
| Malloc.LiveBlocksDisjoint | threads/malloc.c:88-154 | In every heap the operations reach, no address lies in two live blocks. |
| Malloc.LiveBlockIsBigEnough | threads/malloc.c:88-154 | A live block has at least the requested size whenever size plus the arena header does not wrap. |
| Malloc.WrappedRequestIsShort | threads/malloc.c:107-113 | The page count for a big request covers it if and only if size plus 12 stays within 32 bits; the largest size gets a single page. |
| Malloc.CopyStaysInside | threads/malloc.c:204-212 | realloc's copy into pages of its own ends inside them if and only if the new size did not wrap or the old block is no longer than the new one. |
| Malloc.WrappedCopyOverruns | threads/malloc.c:204-212 | An input where it does not: a two-page block resized to the largest size is copied past the single page obtained. |
| Malloc.OverflowTest | threads/malloc.c:164-167 | calloc's test turns down a product that fits 32 bits only when it is zero with one factor not zero, and one that does not fit exactly when its 32-bit remainder is below the larger factor. |
| Malloc.OverflowMissed | threads/malloc.c:164-167 | An overflow the test misses: 65537 times 65537 passes, as 131073 bytes. |
| Malloc.SmallArenaHasLiveBlock | threads/malloc.c:218-261 | Between calls every small-block arena has a live block. |
| Malloc.ArenaIffLive | threads/malloc.c:218-261 | A page belongs to an arena exactly when a live block lies in that arena. |
| Malloc.InitialHeap | threads/malloc.c:71-86 | The descriptors that malloc_init sets up form a heap with no blocks that has every heap property. |
| Malloc.CopyKeepsInv | threads/malloc.c:194-212 | Writing within a live block disturbs nothing else. |
| Malloc.Allocator.constructor | threads/malloc.c:71-86 | Seven descriptors of 16, 32, ... 1024 bytes, no arenas, no live blocks, every heap property. |
| Malloc.Allocator.InitDescs | threads/malloc.c:71-86 | The loop makes exactly the descriptors 16 * 2^i for i below 7. |
| Malloc.Allocator.FindDesc | threads/malloc.c:99-105 | The smallest descriptor that is big enough, or the end when none is. |
| Malloc.Allocator.ListArena | threads/malloc.c:136-143 | The loop lists exactly the blocks of the page, in order. |
| Malloc.Allocator.Malloc | threads/malloc.c:88-154 | A new live block, of at least the size if and only if the size does not wrap; the pool gives up exactly the first-fit run for its arena if the arena is new, and nothing otherwise. Or heap and pool are unchanged, because nothing is listed and the pool has no run of pages. |
| Malloc.Allocator.Free | threads/malloc.c:216-263 | Only that block stops being live, and exactly when no live block is left in its arena the arena goes and the pool gets exactly its pages back. |
| Malloc.Allocator.Realloc | threads/malloc.c:192-214 | For every size: the new block starts with the common prefix of the old one, every other block keeps its contents, the pool changes by the pages taken and returned, and failure changes nothing; the copy overruns the block if and only if the size wrapped and the old block is longer than the pages obtained. |
| Malloc.Allocator.Calloc | threads/malloc.c:156-175 | A block whose first bytes, as many as the 32-bit product, are zero, with room for the true product if and only if that does not wrap; zeroing overruns it if and only if the 32-bit product plus the header wraps. |
| Threads.StepKeepsInv | threads/synch.c:60-121 | Every interrupts-off region (yield, block, unblock, create, exit, a turn of sema_down, try_down, up) keeps the scheduler and semaphore invariant. |
| Threads.RunKeepsInv | threads/thread.c:238-346 | In every state of every run exactly one thread runs, the ready list holds exactly the READY non-idle threads once each, wait lists hold exactly the threads blocked in that sema_down, a semaphore with waiters has a value no greater than the number of threads woken from it that have not rechecked, and freed threads are exactly the dead ones. |
| Threads.ListsAreDisjoint | threads/thread.h:78-83 | No thread is ever on two wait lists, or on a wait list and the ready list. |
| Threads.ValueIsConserved | threads/synch.c:60-121 | In every run a semaphore's value is its initial value plus ups minus completed downs. |
| Threads.NoLostWakeup | threads/synch.c:60-121 | If threads wait while the value is positive, then despite barging a thread woken from this semaphore rechecks within as many scheduling decisions as the ready list is long. |
| Threads.WaitersAreFifo | threads/synch.c:108-121 | The thread at position p of a wait list is woken by the (p+1)-th up. |
| Threads.RoundRobin | threads/thread.c:519-595 | A thread at ready position p is running within p+1 scheduling decisions. |
| Threads.InDownIsStable | threads/synch.c:60-76 | A thread inside sema_down that does not get the processor stays inside, on the same semaphore. |
| Threads.DownOrSleep | threads/synch.c:60-76 | In every run a turn of sema_down takes one from a positive count and leaves; at 0 the thread is blocked, inside, and last in that semaphore's line, and the next ready thread runs. |
| Threads.DownTakesOnce | threads/synch.c:60-76 | From the call of sema_down to the first moment its thread is outside, that thread took exactly one from that semaphore, and took it in the last step. |
| Threads.TryAndUp | threads/synch.c:83-121 | In every run sema_try_down takes one if there is one and sema_up adds one and makes just the first waiter ready; the running thread runs on and no other semaphore changes. |
| Threads.YieldGoesLast | threads/thread.c:332-346 | In every run a thread that yields is last in the ready list, or runs on because nobody else was ready; nobody else's state and no semaphore changes. |
| Threads.YielderRunsAgain | threads/thread.c:332-346 | A thread that yields runs again within as many scheduling decisions as threads were ready before it. |
| Threads.BlockSleeps | threads/thread.c:238-245 | In every run a thread that blocks is blocked and on no list, and the first ready thread, or the idle thread, runs. |
| Threads.SleepsUntilWoken | threads/thread.c:238-268 | A blocked thread does not run until somebody unblocks it or raises the semaphore whose line it is first in. |
| Threads.ReadiesLast | threads/thread.c:173-268 | In every run a thread that is unblocked or created is last in the ready list, the running thread runs on and nothing else changes. |
| Threads.ExitGoes | threads/thread.c:305-322 | In every run a thread that exits is dead and on no list, and the first ready thread, or the idle thread, runs. |
| Threads.CanGoOn | threads/synch.c:60-121 | In every reachable state the thread on the processor has a next step. |
| Threads.ExitFreesOnce | threads/thread.c:305-322 | A thread that exits is freed in that step, once and not before, after another thread has the processor; the initial thread is not freed. |
| Threads.FreedStaysDead | threads/thread.c:544-573 | A freed thread never runs and is never freed again. |
| Threads.Machine.constructor | threads/thread.c:90-126 | The start state: the initial thread runs, the idle thread is blocked or was preempted, nothing is listed, semaphores have their initial values. |
| Threads.Machine.Switch | threads/thread.c:581-595 | Picks the front of the ready list or the idle thread and frees a dying predecessor, as the step system's scheduling function says. |
| Threads.Machine.ThreadYield | threads/thread.c:332-346 | In place, exactly the yield step: the caller goes to the end of the ready list and the first of it runs. |
| Threads.Machine.ThreadBlock | threads/thread.c:238-245 | In place, exactly the block step: the caller is on no list and the next ready thread runs. |
| Threads.Machine.ThreadUnblock | threads/thread.c:256-268 | In place, exactly the unblock step. |
| Threads.Machine.ThreadCreate | threads/thread.c:173-229 | In place, exactly the create step; the tid is new. |
| Threads.Machine.ThreadExit | threads/thread.c:305-322 | In place, exactly the exit step. |
| Threads.Machine.SemaDownTurn | threads/synch.c:60-76 | In place, exactly one turn of sema_down's loop: returns true having taken one, or the caller is blocked and last in line. |
| Threads.Machine.SemaTryDown | threads/synch.c:83-100 | In place, exactly the try_down step; true if and only if the count was taken. |
| Threads.Machine.SemaRaise | threads/synch.c:108-121 | In place, exactly the up step. |
| Monitors.StepKeepsInv | threads/synch.c:192-338 | Every step of acquire, try_acquire, release, cond_wait, cond_signal and cond_broadcast keeps the monitor invariant. |
| Monitors.RunKeepsInv | threads/synch.c:192-338 | The monitor invariant holds in every state of every interleaving. |
| Monitors.MutualExclusion | threads/synch.c:192-238 | A lock's value is 0 or 1, and is 1 exactly when no thread is between its down and its up; two threads never are. |
| Monitors.HolderIsInside | threads/synch.c:192-247 | The holder field names a thread exactly when that thread is between its down and its up and past its write of holder. |
| Monitors.PopsAreCounted | threads/synch.c:287-338 | In every run the pops recorded for a waiter are exactly the signals and broadcast turns that took it off a list. |
| Monitors.CondWaitReturns | threads/synch.c:287-302 | In every interleaving a call of cond_wait puts a waiter of its own at the end of the line, and returns holding the lock after exactly one signal or broadcast took that waiter off. |
| Monitors.AcquireReturns | threads/synch.c:192-201 | In every interleaving a call of lock_acquire returns with the lock held. |
| Monitors.TryAcquireReturns | threads/synch.c:209-221 | A call of lock_try_acquire returns true if and only if the semaphore was up, and if and only if it returns with the lock held. |
| Monitors.ReleaseReturns | threads/synch.c:228-236 | In every interleaving a call of lock_release returns with the caller outside the lock and not its holder; its last step raises the lock's semaphore to 1, and the first thread asleep on it leaves the line and is awake. |
| Monitors.ReleaseWakesFirst | threads/synch.c:108-121 | Every step that gives a lock up, in lock_release or in cond_wait, raises its semaphore to 1 and takes just the first sleeper off the line, awake. |
| Monitors.DoorTurn | threads/synch.c:192-201 | A turn of the sema_down in lock_acquire takes a free lock, and otherwise the thread is asleep, last in line. |
| Monitors.WaitTurn | threads/synch.c:287-302 | A turn of the sema_down in cond_wait goes on to acquire the lock if the waiter was posted, and otherwise the thread is asleep. |
| Monitors.NoLockWakeupLost | threads/synch.c:192-236 | In every state of every interleaving, while a lock is free and threads are asleep on it, a thread that is awake is about to take it. |
| Monitors.SignalReturns | threads/synch.c:311-322 | A call of cond_signal takes the first in line off and raises its semaphore, and nobody else joins or leaves the line meanwhile. |
| Monitors.SignalIsNotLost | threads/synch.c:311-324 | A waiter on its way to its down is popped at most once; once popped, its semaphore is up or its popper is about to raise it. |
| Monitors.PostedFrameIsAlive | threads/synch.c:311-324 | A waiter that is about to be posted still belongs to a thread inside cond_wait. |
| Monitors.BroadcastReachesAll | threads/synch.c:330-338 | In every interleaving, when a broadcast returns the list is empty, and everyone who was in line when it started was taken off once or more during it and has had its semaphore raised. |
| Monitors.BroadcastProgress | threads/synch.c:330-338 | From its start to its return, what is left of the line is always a suffix of the line at the start: nobody joins meanwhile. |
| Monitors.AwakeCanContinue | threads/synch.c:192-338 | No operation gets stuck halfway: a thread inside one that is not asleep on a semaphore can take its next step. |
| MergeSorting.StableSortIsUnique | lib/kernel/list.c:405-440 | For a strict weak order there is only one stable sort of a sequence, so the contract of Sort fixes its result. |
| MergeSorting.MergeSorts | lib/kernel/list.c:379-401 | Merging two adjoining sorted runs leaves one sorted run. |
| MergeSorting.MergeKeepsOrder | lib/kernel/list.c:379-401 | Merging never reorders elements of which neither is less. |
| MergeSorting.RunIsMaximal | lib/kernel/list.c:357-371 | A run is sorted, and the element after it is less than its last. |
| MergeSorting.MergeLosesDescent | lib/kernel/list.c:379-401 | Merging two runs removes at least one descent of the whole sequence. |
| MergeSorting.PassMakesProgress | lib/kernel/list.c:405-440 | A pass is a permutation, never adds a descent, and removes one if it outputs more than one run. |
| MergeSorting.PassKeepsOrder | lib/kernel/list.c:405-440 | A pass keeps the order of equivalent elements. |
| MergeSorting.OneRunIsSorted | lib/kernel/list.c:405-440 | A pass that outputs one run leaves a sorted sequence. |
| MergeSorting.PassIsStable | lib/kernel/list.c:405-440 | The sorting state is kept by a pass and the number of descents falls, which is why the sort ends. |
| Lists.List.Insert | lib/kernel/list.c:168-178 | On the linked cells: a well-formed list with the element just before the given place. |
| Lists.List.Remove | lib/kernel/list.c:248-255 | On the linked cells: a well-formed list without the element, whose successor is returned. |
| Lists.List.Splice | lib/kernel/list.c:183-204 | On the linked cells: the segment is moved as a whole to any place outside it, everything else keeps its order. |
| Lists.List.SpliceFrom | lib/kernel/list.c:183-204 | The same from one list to another: both stay well formed and share no cell. |
| Lists.List.FindEndOfRun | lib/kernel/list.c:357-371 | Stops at the end of the maximal run. |
| Lists.List.InplaceMerge | lib/kernel/list.c:379-401 | The cells are relinked exactly as the merge of the two runs. |
| Lists.List.SortPass | lib/kernel/list.c:413-437 | One pass over the cells is the pass on sequences, with its number of output runs. |
| Lists.List.Sort | lib/kernel/list.c:404-440 | The list stays well formed and becomes the stable sort of its elements, for every strict weak order and every length; it ends. |
| Lists.List.Reverse | lib/kernel/list.c:325-338 | Swapping the links of every cell leaves a well-formed list of the reversed elements. |
| HeapSorting.SiftMakesHeap | lib/stdlib.c:96-123 | Sifting down below a hole restores the 1-based heap order. |
| HeapSorting.SiftPermutes | lib/stdlib.c:96-123 | Sifting permutes the first cnt elements and leaves the rest. |
| HeapSorting.RootIsMax | lib/stdlib.c:131-154 | The root of a heap is not smaller than any element of it. |
| HeapSorting.HeapSortSorts | lib/stdlib.c:131-154 | Building and extracting gives a sorted permutation for every total preorder and length. |
| HeapSorting.Heapify | lib/stdlib.c:96-123 | In place, exactly the sift function. |
| HeapSorting.Sort | lib/stdlib.c:131-154 | In place, a sorted permutation of the array. |
| HeapSorting.BinarySearch | lib/stdlib.c:184-207 | On a sorted array, returns a matching element if and only if there is one. |
| Hashing.MaskIsRemainder | lib/kernel/hash.c:305-309 | Masking with one less than the bucket count is the remainder, since the count is a power of two. |
| Hashing.AbsentEverywhere | lib/kernel/hash.c:311-327 | If an element's bucket holds no equal element, the whole table holds none. |
| Hashing.AddKeepsTable | lib/kernel/hash.c:412-419 | Adding an element with no equal keeps the table: power-of-two bucket count of at least 4, every element in its bucket, no two equal, exact size. |
| Hashing.RemoveKeepsTable | lib/kernel/hash.c:421-427 | Removing an element keeps the table. |
| Hashing.BagIsSet | lib/kernel/hash.c:245-250 | Without equal elements the contents are a set and their count is its size. |
| Hashing.HashTable.constructor | lib/kernel/hash.c:24-43 | An empty valid table of four buckets. |
| Hashing.HashTable.Size | lib/kernel/hash.c:245-250 | The stored count is the size of the set of elements. |
| Hashing.HashTable.Find | lib/kernel/hash.c:135-139 | Returns an equal element of the table, and none if and only if there is none. |
| Hashing.HashTable.Insert | lib/kernel/hash.c:94-111 | The contents gain the element exactly when no equal one was there; otherwise that one is returned; with memory the bucket count is then the ideal one. |
| Hashing.HashTable.Replace | lib/kernel/hash.c:113-130 | The contents lose the equal element, which is returned, and gain the new one; with memory the bucket count is then the ideal one. |
| Hashing.HashTable.Delete | lib/kernel/hash.c:141-159 | The contents lose exactly the equal element, which is returned; with memory the bucket count is then the ideal one, and if there was none nothing changes. |
| Hashing.HashTable.IdealCount | lib/kernel/hash.c:361-374 | Turning off low bits yields the largest power of two not above the wanted count, and at least 4. |
| Hashing.HashTable.Rehash | lib/kernel/hash.c:347-410 | The contents never change, with or without memory; with memory the bucket count becomes the ideal one, and without it the buckets stay. |
| Hashing.IdealLoad | lib/kernel/hash.c:341-374 | The ideal count is a power of two, at least 4, that gives less than five elements a bucket, and at least two when there are eight or more. |
| Hashing.Walk.Next | lib/kernel/hash.c:215-235 | Yields the elements still ahead one by one and ends exactly when none is left. |
| Hashing.VisitAll | lib/kernel/hash.c:183-235 | A walk to the end visits each element exactly once. |
| Devices.ReadAt | filesys/inode.c:200-250 | The count is max(0, min(size, length - offset)), exactly those bytes of the flat file reach the buffer, and the rest of the buffer stays. |
| Devices.WriteAt | filesys/inode.c:257-318 | The count is max(0, min(size, length - offset)), or 0 when denied; exactly those bytes of the whole device change, so the tail of a partial sector and every other file stay. |
| Devices.WriteSector | filesys/inode.c:284-308 | A partly written sector is put back with only the chunk changed; starting from a zeroed buffer never happens. |
| Devices.SectorOfByte | filesys/inode.c:46-54 | The sector computed for a byte of the file holds that byte and lies on the device. |
| Devices.SectorsForIsLeast | filesys/inode.c:22-29 | The sectors computed for a length are the fewest that hold so many bytes. |
| Directories.FilledReads | filesys/directory.c:171-175 | A slot filled in over old bytes reads back as in use, with that name and sector. |
| Directories.FillAdds | filesys/directory.c:141-179 | Filling a free slot under an absent name adds just that entry to the map from names to sectors, and names stay distinct. |
| Directories.FreeRemoves | filesys/directory.c:204-207 | Clearing a slot takes just its entry out of the map. |
| Directories.SlotPatched | filesys/directory.c:171-175 | Rewriting 20 bytes changes one row of the table and no other. |
| Directories.Lookup | filesys/directory.c:91-112 | Finds the slot in use under the name, and none only when the name is absent. |
| Directories.Add | filesys/directory.c:141-179 | Fails, changing no byte, exactly for an empty, over-long or present name, a full table or denied writes; otherwise adds just that entry, within the directory's bytes. |
| Directories.Erase | filesys/directory.c:204-207 | Removes just that entry, within the directory's bytes. |
| Directories.ReadDir | filesys/directory.c:221-236 | Yields the next name in use and advances past it; none only when no name is left. |
| Directories.ReadAll | filesys/directory.c:221-236 | A full scan yields every name exactly once. |
| Volumes.WriteData | filesys/inode.c:257-318 | Changing the bytes of one live file changes no other live inode or data, and keeps the layout disjoint and marked. |
| Volumes.WriteSpare | filesys/inode.c:72-106 | Writing to sectors that no live inode owns changes no live file. |
| Volumes.JoinLive | filesys/inode.c:72-106 | A marked inode on spare sectors may join the live ones without overlap. |
| Volumes.SpareOnceDropped | filesys/inode.c:177-182 | What an inode owned belongs to no live inode once it is dropped. |
| FreeMaps.RawWord | filesys/free-map.c:52-61 | The words saved to the free map's file read back as the words in memory. |
| Bitmaps.Bitmap.Load | lib/kernel/bitmap.c:341-351 | The bits become those of the words read; words whose leftover bits are clear are kept as they are. |
| FreeMaps.ReadMap | filesys/free-map.c:52-61 | The map read from its file is the map that was saved. |
| FreeMaps.WriteMap | filesys/free-map.c:44-50 | The map is written whole to its own file and nothing else live changes. |
| FreeMaps.Allocate | filesys/free-map.c:27-41 | First fit of unmarked sectors, marked and saved; fails, changing nothing, only when no run is long enough. |
| FreeMaps.Release | filesys/free-map.c:44-50 | Clears exactly those sectors and saves the map; the bits were all set, as the assertion demands. |
| FreeMaps.CreateInode | filesys/inode.c:72-106 | Writes an inode that reads back, on zeroed spare sectors; fails, changing nothing, only for lack of room; no live file changes. |
| FreeMaps.NodeRoundTrip | filesys/inode.c:15-21 | An inode written to a sector is the one read from it. |
| Formatting.MakeMapFile | filesys/free-map.c:72-85 | The free map's file is laid out right after the system sectors, and fits if and only if the device has room. |
| Formatting.MakeRoot | filesys/filesys.c:98-99 | The root directory is laid out after it, empty, with the layout sound and the map saved. |
| FileTables.VolLinked | filesys/directory.c:171-175 | Naming a ready inode makes it live and keeps the whole volume consistent. |
| FileTables.VolUnlinked | filesys/directory.c:204-211 | Dropping the name of an open inode leaves it live, now as a removed one. |
| FileTables.VolClosed | filesys/inode.c:170-174 | Closing keeps a named file live; a removed file stops being live. |
| FileTables.DenyChanges | filesys/inode.c:322-338 | Denying counts one more denying file and never exceeds the open count; allowing finds the count positive. |
| FileStates.OpenedKeeps | filesys/inode.c:111-142 | Reading an inode in keeps every file system property, with one in-memory inode per sector. |
| FileStates.ClosedKeeps | filesys/inode.c:163-186 | Giving a reference up keeps every property; only the last reference to a removed file ends its life. |
| FileStates.DeniedKeeps | filesys/file.c:118-141 | Starting or stopping to deny keeps every property, and the assertions on the counts hold. |
| FileSystems.FileSystem.constructor | filesys/filesys.c:17-31 | Mounting any device whose saved map and directory are sound, with the map read from its file, establishes every property. |
| FileSystems.ClosedIsMountable | filesys/filesys.c:33-39 | When no file is open but the map's, the device a file system leaves behind can be mounted. |
| FileSystems.Remount | filesys/filesys.c:17-39 | Shutting down and mounting again gives back the same files with the same contents and the same free map. |
| FileSystems.Format | filesys/filesys.c:92-102 | A formatted device has an empty root directory and every property; the precondition is that the device has room for the two system files. |
| FileSystems.FileSystem.InodeOpen | filesys/inode.c:111-142 | One more reference to the in-memory inode of that sector, or the inode read in when there is none. |
| FileSystems.FileSystem.InodeReopen | filesys/inode.c:145-151 | One more reference, and nothing else. |
| FileSystems.FileSystem.InodeClose | filesys/inode.c:163-186 | The sectors are released when, and only when, this was the last reference to a removed inode. |
| FileSystems.FileSystem.ReleaseFile | filesys/inode.c:177-182 | Exactly the inode sector and the data sectors are released; both assertions that they were marked hold. |
| FileSystems.FileSystem.FileOpen | filesys/file.c:17-34 | A new handle at position 0 takes the reference over. |
| FileSystems.FileSystem.FileReopen | filesys/file.c:38-42 | A second handle at position 0 on the same inode. |
| FileSystems.FileSystem.FileClose | filesys/file.c:45-54 | The handle and its denial go; a removed file is released at its last close and not before; no other live file changes. |
| FileSystems.FileSystem.FileDenyWrite | filesys/file.c:118-127 | Counts once per handle, within the open count. |
| FileSystems.FileSystem.FileAllowWrite | filesys/file.c:132-141 | Undoes this handle's denial only. |
| FileSystems.FileSystem.FileReadAt | filesys/file.c:81-85 | Exactly the bytes of the file that the handle is open on. |
| FileSystems.FileSystem.FileWriteAt | filesys/file.c:109-114 | The file changes as a flat byte array, nothing when some handle denies writes, and no other live file changes. |
| FileSystems.FileSystem.FileRead | filesys/file.c:68-74 | Reads at the position and advances it by the count. |
| FileSystems.FileSystem.FileWrite | filesys/file.c:94-100 | Writes at the position and advances it by the count. |
| FileSystems.FileSystem.MakeFile | filesys/filesys.c:49-54 | Succeeds exactly when the name can be added and first fit finds room, and then marks exactly the inode sector and the data sectors first fit finds; on failure for the name alone the data sectors stay marked, and that is the only change to the map. |
| FileSystems.FileSystem.Create | filesys/filesys.c:44-58 | The same, with the root directory opened and closed around it: tables and handles are as before. |
| FileSystems.FileSystem.Open | filesys/filesys.c:65-76 | A handle on the inode the name leads to, if and only if the name exists. |
| FileSystems.FileSystem.Remove | filesys/filesys.c:82-90 | The name goes, if and only if it existed; an open file stays live with its sectors, any other is released whole. |
| FileSystems.LiveFilesAreDisjoint | filesys/inode.c:72-195 | In every state the sectors of live files (inode and data) are marked and belong to one file only. |
| FileSystems.CountsAreExact | filesys/inode.c:111-195 | Each sector has at most one in-memory inode, open_cnt is the number of its handles and deny_write_cnt the number of denying ones. |
| FileSystems.RemovedStaysWhileOpen | filesys/inode.c:160-195 | The sectors of a file with an open handle stay marked, removed or not. |
| FileSystems.CreateRefines | filesys/filesys.c:44-58 | Seen as a map from names to byte strings, creation adds a string of zeros under a new name, or changes nothing. |
| FileSystems.RemoveRefines | filesys/filesys.c:82-90 | Seen as that map, removal takes just the name away. |
| FileSystems.OpenRefines | filesys/filesys.c:65-76 | Seen as that map, opening changes nothing and gives the bytes under the name. |
| FileSystems.WriteRefines | filesys/file.c:109-114 | Seen as that map, a write changes the bytes of one file as a flat array and no others. |
| FileRuns.SeenIsView | filesys/filesys.c:44-90 | What a model state shows under each name is the bytes that the refinement lemmas speak of. |
| FileRuns.LastHandle | filesys/inode.c:163-186 | The count that makes close release a removed file is 1 exactly when no other handle is on the file. |
| FileRuns.DeniedIff | filesys/file.c:118-141 | The denial count is positive exactly while some open handle denies writes. |
| FileRuns.Perform | filesys/filesys.c:44-90 | Each call, from create to remount, does to the model of names, bytes and handles, and returns, what a file system without a disk would (a remount goes on with a new object over the same disk); only room for a new file and the numbers of new files and handles are open. |
| FileRuns.Run | filesys/filesys.c:17-90 | After any sequence of calls on a formatted device, with shutdowns and mounts in between, names, bytes and handles are what the same calls make of the empty model. |
| Processes.StepKeepsInv | userprog/process.c:63-254 | Every step of exec, load, wait and exit keeps the handshake invariant. |
| Processes.RunKeepsInv | userprog/process.c:63-254 | The handshake invariant holds in every state of every interleaving of any number of parents and children. |
| Processes.NeverCrashes | userprog/process.c:63-254 | In no interleaving is a child record, its load semaphore or its exit semaphore used before it is set or after it is freed. |
| Processes.SemasDieWithFrames | userprog/process.c:107-119 | In every state of every interleaving a load semaphore is there only while the exec whose stack frame holds it has not returned, so the fault above covers its use after that. |
| Processes.ChildFindsItsRecord | userprog/process.c:524-545 | A child that is about to use child_data finds its own record with load_status set, because the parent holds the lock until then. |
| Processes.ExecReportsLoad | userprog/process.c:107-119 | When exec is about to return, it reports failure exactly when the child's load failed. |
| Processes.ExecWaitsForReport | userprog/process.c:113-116 | The parent's down on the load semaphore can go on exactly when the child has finished loading and said so. |
| Processes.WaitReturnsStatus | userprog/process.c:206-217 | When a wait for pid is about to return, the record it is about to free is that pid's and holds the status of an exit call pid made earlier in the run, or -1 if pid's load failed. |
| Processes.ExitedCanBeWaited | userprog/process.c:206-208 | A wait on a listed child can go on exactly when the child has exited. |
| Processes.WaitFindsChildren | userprog/syscall.c:511-526 | The list search finds a pid if and only if the caller created that process and has not waited for it. |
| Processes.WaitResult | userprog/process.c:190-221 | In every interleaving a call of wait(pid) returns, if pid was created by the caller and not waited for before, the status of the exit call pid made (or -1 if its load failed), and pid has ended; otherwise it returns -1. |
| Processes.ExecResult | userprog/process.c:63-123 | In every interleaving a call of exec has created a new child of the caller, and returns its id if that child took the step that ends its load well, and -1 if it took one that ends it badly. |
| Processes.ReapedWasWaited | userprog/process.c:210-215 | A process counts as waited for only after a wait for it by the process that created it. |
| Processes.LaterWaitsFail | userprog/process.c:190-221 | The first wait for a child returns the status of the exit call the child made (or -1 if its load failed), and every later wait for it, by whomever, returns -1. |
| Processes.StatusWasPassed | userprog/process.c:225-254 | In every run the status remembered for a process is one it passed to exit earlier, or -1 after its load failed. |
| Processes.ExitIsFinal | userprog/process.c:225-254 | A process that calls exit(status) never runs user code again, and that status is the one remembered for it in every later state. |
| Processes.ExitStatusIsOne | userprog/process.c:125-254 | A process has one exit status: it calls exit once, and one whose load failed never calls it with anything but -1. |
| Processes.OutcomeWasTaken | userprog/process.c:125-153 | How a load is remembered to have ended is a step its process took. |
| Processes.LoadEndsOnce | userprog/process.c:125-153 | The way a load ended stands for the rest of the run; a process whose load failed never gets to user code and exits with -1. |
| Processes.LoadEndIsOne | userprog/process.c:125-153 | No process ends its load both ways. |
| Processes.CanGoOn | userprog/process.c:63-254 | In every reachable state a process that has not ended can take a step, unless it waits for the lock (and its holder can go on), for its new child's load, or for its child to end. |
| PageTables.TableAdded | userprog/pagedir.c:69-82 | A new zeroed page table changes the entry of no page, user or kernel. |
| PageTables.EntrySet | userprog/pagedir.c:111-116 | Writing one page table entry changes the entry of exactly that page. |
| PageTables.AddressSpace.constructor | userprog/pagedir.c:16-23 | A new directory maps no user page. |
| PageTables.AddressSpace.LookupPage | userprog/pagedir.c:56-86 | Finds or makes the table of a page, changing no mapping and losing no frame; fails only when a table is needed and there is no frame. |
| PageTables.AddressSpace.GetPage | userprog/pagedir.c:125-137 | The frame the page is mapped to, or none. |
| PageTables.AddressSpace.SetPage | userprog/pagedir.c:98-119 | Maps exactly that page, user-accessible and writable as asked; fails exactly when a table is needed and there is no frame. |
| PageTables.AddressSpace.InstallPage | userprog/process.c:769-778 | Maps the page exactly when it was unmapped and a table was there or could be made; otherwise nothing changes. |
| Loading.ValidIsInside | userprog/process.c:552-593 | A segment that passes the checks lies in user space above page 0, and no 32-bit sum computed for it wraps. |
| Loading.ValidateIsExact | userprog/process.c:552-593 | The checks, with their wrapping sums, accept exactly the segments that meet the rules in unbounded arithmetic. |
| Loading.PreservedBytes | userprog/process.c:609-652 | What was mapped before gives the same bytes after. |
| Loading.LoadPage | userprog/process.c:618-650 | One new page with the bytes of the file and then zeros, and no other mapping changed; failure gives the frame back and leaves memory exactly as it was; no frame is lost. |
| Loading.LoadSegment | userprog/process.c:609-652 | All pages of the segment are new and hold the file's bytes and then zeros; fails only for lack of memory or file or for a mapped page. Either way earlier mappings stay, outside the segment every page, user or kernel, is mapped as before, and every frame is still a table, a page or free. |
| Loading.SegmentBytes | userprog/process.c:476-510 | Translated through both levels, byte p_vaddr + i is file byte p_offset + i below p_filesz and zero from there to p_memsz. |
| Loading.LoadHeader | userprog/process.c:476-510 | A PT_LOAD header that loads has its whole memory image in place on pages that were unmapped and are now writable exactly if the header says so; loaded or not, earlier mappings stay and only pages of the segment, all above page 0 and below the kernel, are newly mapped. |
| Tokens.SplitJoin | lib/string.c:234-275 | Splitting words that were joined with spaces gives back the words. |
| Tokens.WordsAreWords | lib/string.c:234-275 | Tokens are non-empty and without separators. |
| Tokens.WordsCoverLine | lib/string.c:234-275 | The words one after another are the line without its spaces: no character is lost, repeated or moved. |
| Tokens.WordsAreWhole | lib/string.c:234-275 | Every word stands in the line between separators or its ends. |
| Tokens.NextToken | lib/string.c:234-275 | The next word stands null-terminated where the result points, and the rest of the line is untouched from save_ptr on. |
| Tokens.ParseCommand | userprog/process.c:37-57 | argv points to exactly the words of the line, in order, and a null pointer follows. |
| UserStacks.PushStrings | userprog/process.c:699-711 | Every word stands on the page with its null where its pointer says. |
| UserStacks.PushPointers | userprog/process.c:722-735 | The pointers lie in argv order below a null, and the strings stay. |
| UserStacks.FrameIsTight | userprog/process.c:699-751 | The frame is a whole number of words: the strings with a null each, argv, and four words, with less than a word of padding. |
| UserStacks.LayOut | userprog/process.c:685-751 | Fails exactly when the frame is larger than the page; otherwise argc and argv read back. |
| UserStacks.SetupStack | userprog/process.c:673-758 | For every line of at most 99 words whose frame fits, reading argc and argv back from the stack pointer gives exactly its words, argv[argc] and the return slot are null and the pointer is 4-byte aligned. |
| Octal.ValueOfDigits | lib/stdio.c:501-547 | Reading the digits printed for a number gives the number. |
| Octal.PaddedIsDigits | lib/stdio.c:501-547 | Collecting digits backwards, padding and putting them out in reverse is the zero-padded number. |
| Octal.FormatOctal | lib/stdio.c:469-547 | The conversion prints the number in at least the given width. |
| Octal.Print | lib/stdio.c:25-52 | Output is cut to the buffer less one, and a null always follows. |
| Octal.ParseOctal | lib/ustar.c:129-162 | Accepts exactly a nonempty run of octal digits ended by a space or null whose value fits 32 bits, and gives that value. |
| Octal.FieldIsExact | lib/ustar.c:129-162 | A field has a value exactly when it is one or more octal digits up to a space or null that stand for a 32-bit word, and it is that word. |
| Octal.FieldRoundTrip | lib/ustar.c:106-115 | A number that fits its field is read back from it. |
| Archives.StripIsIdempotent | lib/ustar.c:65-73 | Stripping leaves a non-empty name with nothing to strip. |
| Archives.StripIsExact | lib/ustar.c:65-73 | What is dropped is the longest prefix made of empty, "." and ".." components each with its slash; the rest stays as it is, but nothing or ".." becomes ".". |
| Archives.StripPrefixes | lib/ustar.c:65-73 | The loop over slashes drops the same prefix. |
| Archives.SumIgnoresField | lib/ustar.c:36-54 | Headers that differ only in the checksum field have the same checksum. |
| Archives.CalculateChksum | lib/ustar.c:36-54 | The loop sums all bytes with the checksum field taken as spaces. |
| Archives.SummedFields | lib/ustar.c:114-115 | The checksum that was filled in is the one the reader computes, and the other fields stay. |
| Archives.MakeHeader | lib/ustar.c:82-118 | Fails exactly when the stripped name has more than 99 bytes; otherwise writes the header in place. |
| Archives.ParseHeader | lib/ustar.c:181-227 | Every header gets the error, end mark or entry of the reading rules, in their order. |
| Archives.ParsedIsExact | lib/ustar.c:181-227 | Accepted are exactly the headers with the magic, the version, their own checksum in octal, a name that ends in its field, no prefix and a known type, and for a file a size that is an octal number up to INT_MAX; the name, type and size returned are those. The end mark is exactly the block of zeros. |
| Archives.RefusalIsTrue | lib/ustar.c:181-227 | Each error message names a fault that the header has. |
| Archives.CorruptionIsFound | lib/ustar.c:36-54 | A header that was accepted is refused after a change of any one byte outside its checksum field. |
| Archives.ReadThenMade | lib/ustar.c:82-227 | An entry that was read can be made into a header, which reads as the same entry. |
| Archives.ModeAndTimeAre | lib/ustar.c:97-106 | The mode is 0644 for files and 0755 for directories, and the time is the fixed one, read back as octal numbers. |
| Archives.OwnerIs | lib/ustar.c:97-112 | User and group are 0 and root. |
| Archives.RoundTrip | lib/ustar.c:82-227 | A header that was made is accepted and gives the stripped name, the type and the size (0 for directories); for a regular file this holds exactly when the size is not negative. |

## Left out

- Hardware drivers, partitions, interrupt tables, the system call handler and user-memory
  probes: port I/O, assembly and dispatch.
- Malloc.Allocator.Realloc: the model stops before a copy that overruns the new block, as
  `Malloc.Allocator.Calloc` does before zeroing that does; what such a write destroys is not
  modelled.
- Monitors.StepKeepsInv: locks and conditions are steps on values rather than a class with
  fields updated in place; the semaphores under them are in place in `Threads.Machine`.
- Processes.StepKeepsInv: a process calls exit only once every child was waited for, thread
  creation and record allocation succeed, and the step that frees the records of unwaited
  children is not modelled.
- Pools.StepKeepsInv: one pool; the kernel and user pools are two independent copies of it.
- list_insert_ordered, list_unique, list_max and list_min: single scans over the same cells.
- hash_clear, hash_destroy, hash_apply and the string hashes: one loop each over the buckets
  or bytes.
- FileRuns.Run: calls run one after another; file growth and subdirectories do not exist in
  this tree.
- FreeMaps.CreateInode: file sizes within 511 bytes of 2^31 round up to sectors without the overflow
  of the C sum; only a device of 2 GB or more has room for such a file.
- pagedir_clear_page, pagedir_destroy, dirty and accessed bits, and the translation buffer.
- ELF file headers and the kinds of program header other than PT_LOAD.
- The form of parse_command_string that sets only the first word.
- UserStacks.SetupStack: lines of 100 words or more are not covered, because argv has room
  for 99 words and a null pointer.
- UserStacks.LayOut: a frame that does not fit on the stack page is reported and not written;
  what a write below the page would hit depends on what is mapped there.
- Archives.MakeHeader: the message printed for a long name is not modelled.
- Priorities and the advanced scheduler: these functions are stubs.
