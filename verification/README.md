# Pintos, verified

This project models the hard core of a Pintos kernel in Dafny and proves what its code, its
comments and its design promise. Each file is one module and follows one part of the system:

- **Containers and algorithms.** `IntrusiveList` and `ListSort`: the doubly linked list and its
  in-place natural merge sort. `Hash`: the chained hash table that rehashes itself. `HeapSort`:
  heapsort and binary search over elements of any size. `Arithmetic`: 64-bit division from a
  64/32-bit divide.
- **Allocators.** `Bitmap`, `Palloc` and `Malloc`: three layers that must agree on which pages
  and blocks are in use, over every sequence of calls.
- **Concurrency.** `Semaphore`, `Monitor` (locks and condition variables), `ReadersWriters` (the
  protocol on inodes), `Scheduler`, `SleepQueue`, and `Relation` with `Awaiting` and `Handshake`
  (the exit protocol between parents and children). Each is a machine over any number of threads;
  a step is a region that runs with interrupts off, or one access to shared data. Theorems are
  about every run.
- **File system.** `Inode`: sector-wise reads and writes against a flat sequence of bytes.
  `FileSys`: free map, directory and table of open inodes as one machine of atomic calls.
- **Address spaces and programs.** `PageDir`: the two-level page table against a map. `ElfLoad`:
  the segment loader, from the sectors of the disk to the page tables. `CmdLine`: the command
  line, strtok_r and the initial stack.
- **Printing.** `Printf`: the integer conversions of printf, with atoi as their inverse.

`Bits`, `Bytes`, `Machine`, `Orders`, `Products`, `Sequences` and `Wrappers` hold what several modules share.

What the kernel cannot know becomes a parameter: whether an allocation succeeds, which address it
returns, what uninitialised memory holds, whether the free map reaches its file. Code that updates
objects or arrays in place is modelled by classes and arrays. Where such code is also a protocol
(`FileSys`, `Scheduler`, `SleepQueue`), the object records its history in ghost fields, so that each method
shows that it takes one step of the machine whose runs the lemmas speak about.

Some promises turn out not to hold for all inputs. The model then keeps the code's behaviour and
states exactly when the promise holds:

- `umod64` and `smod64` return 32 bits: exact if and only if the divisor is at most 2^32, or at
  most 2^31 in absolute value.
- A big block of `malloc` is large enough if and only if adding the arena header to the request
  does not wrap around.
- `pagedir_destroy` frees no page twice if and only if no frame is mapped twice and no mapped
  frame is one of the tables.
- A `filesys_create` that fails because the directory refuses the name gives back all it took if
  and only if the file was to be empty.
- The program name is the first word of the command line if and only if the line does not start
  with a space; argc is the number of words if and only if there is one.
- The output of printf is as wide as the field unless a zero flag meets a negative `*` width
  (and there is neither a minus flag nor a precision).
- Every `process_wait` that blocks finds its child's record if and only if the record was there
  before, or no semaphore credit was left over or on its way when the wait began.

Where comments and code disagree, the model follows the code: the small block sizes of `malloc` end
at 1 kB, not 2 kB; `bitmap_scan` for an empty group returns `start`, not 0; the loop of
`process_execute` that should remove trailing spaces never finds one, so one may remain; the branch
of `inode_write_at` that would clear a sector instead of reading it cannot be reached.

## Model

| member | source | states |
|---|---|---|
| `IntrusiveList.List.Insert` | linuxpintos/src/lib/kernel/list.c:174-184 | list_insert keeps the list well formed in both directions and puts the element just before the given one, all others in order |
| `IntrusiveList.List.Remove` | linuxpintos/src/lib/kernel/list.c:262-269 | list_remove takes out exactly the element, returns the one behind it, and leaves the removed element's own links as they were |
| `IntrusiveList.List.Next` | linuxpintos/src/lib/kernel/list.c:87-92 | list_next of a well-formed list is the successor in the sequence of elements |
| `IntrusiveList.List.Prev` | linuxpintos/src/lib/kernel/list.c:118-123 | list_prev is the predecessor in the sequence of elements |
| `IntrusiveList.List.Cut` | linuxpintos/src/lib/kernel/list.c:201-203 | the first half of list_splice leaves a well-formed list without the range, and the range as one linked chain |
| `IntrusiveList.List.Paste` | linuxpintos/src/lib/kernel/list.c:205-209 | the second half links a chain in before any element, and the list is well formed again |
| `IntrusiveList.MovedIsCutThenPaste` | linuxpintos/src/lib/kernel/list.c:189-210 | moving a range, given as a map on indices, is cutting it out and pasting it |
| `IntrusiveList.Splice` | linuxpintos/src/lib/kernel/list.c:189-210 | list_splice within a list moves the range in front of the element and keeps the set of elements |
| `IntrusiveList.SpliceAcross` | linuxpintos/src/lib/kernel/list.c:189-210 | list_splice between two lists takes the range out of one and puts it into the other; both stay well formed and disjoint |
| `ListSort.FindEndOfRun` | linuxpintos/src/lib/kernel/list.c:371-386 | find_end_of_run returns the end of the maximal nondecreasing run |
| `ListSort.RunEndIsDescent` | linuxpintos/src/lib/kernel/list.c:371-386 | a run ends only at the end of the range or where the next element is less than the last one |
| `ListSort.RunIsSorted` | linuxpintos/src/lib/kernel/list.c:371-386 | such a run is sorted as a whole, for every strict weak order |
| `ListSort.MergeStep` | linuxpintos/src/lib/kernel/list.c:405-412 | one round of inplace_merge rewires the links and leaves the merge still to be done unchanged |
| `ListSort.InplaceMerge` | linuxpintos/src/lib/kernel/list.c:393-413 | inplace_merge rewires the list into the merge of the two runs, with the same elements |
| `ListSort.MergedIsMerge` | linuxpintos/src/lib/kernel/list.c:393-413 | that merge is sorted, a permutation, stable, and changes nothing outside the two runs |
| `ListSort.SortPass` | linuxpintos/src/lib/kernel/list.c:434-449 | the inner loop of list_sort makes exactly one pass over the runs and counts its output runs |
| `ListSort.PassHalvesRuns` | linuxpintos/src/lib/kernel/list.c:434-449 | every pass permutes stably and outputs at most half of the runs, rounded up |
| `ListSort.PassProgress` | linuxpintos/src/lib/kernel/list.c:428-451 | so a pass either leaves one sorted run or strictly fewer runs, and the outer loop ends |
| `ListSort.Sort` | linuxpintos/src/lib/kernel/list.c:418-454 | list_sort ends for every strict weak order with a well-formed list of the same elements, sorted and stable |
| `SleepQueue.Kernel.ThreadTick` | linuxpintos/src/threads/thread.c:208-226 | thread_tick wakes exactly the sleepers that are due, in order, and keeps the others in order |
| `SleepQueue.Kernel.constructor` | linuxpintos/src/threads/thread.c:721-730 | a new kernel has an empty sleep list of its own that agrees with the empty run |
| `SleepQueue.Kernel.TimerSleep` | linuxpintos/src/devices/timer.c:97-113 | timer_sleep adds the count to the present tick, with interrupts on, which is one step of the machine; a negative count returns at once |
| `SleepQueue.Kernel.AddToWaiting` | linuxpintos/src/threads/thread.c:721-730 | thread_add_to_waiting appends the thread to the linked list, the machine takes the same step, and the two still agree |
| `SleepQueue.Kernel.TimerInterrupt` | linuxpintos/src/devices/timer.c:145-150 | so does a timer interrupt: after every run the list holds the machine's sleepers in order and the ready list holds the threads it has woken, in order |
| `SleepQueue.Kernel.Sweep` | linuxpintos/src/threads/thread.c:214-224 | the loop, which goes on from the stale link of an element it has removed, leaves and wakes what its definition on sequences says |
| `SleepQueue.TickConserves` | linuxpintos/src/threads/thread.c:208-226 | a tick neither loses nor repeats a sleeper |
| `SleepQueue.TickRefines` | linuxpintos/src/threads/thread.c:208-226 | the rewired list and the queue of the machine agree after a tick |
| `SleepQueue.StepKeepsInv` | linuxpintos/src/devices/timer.c:96-150 | every step of timer_sleep and every timer interrupt keeps the invariant of sleepers and wakes |
| `SleepQueue.SleepersWakeOnTime` | linuxpintos/src/devices/timer.c:96-150 | over every run no thread wakes early, each wakes once, at the first tick after it was queued that is not before its wake tick, and after a tick all remaining sleepers lie ahead |
| `SleepQueue.SleepsAsLongAsAsked` | linuxpintos/src/devices/timer.c:97-150 | over every run, a thread that calls timer_sleep(n) at tick a and is queued at tick b sleeps until tick max(a + n, b + 1) and has been woken from then on, at just that tick |
| `SleepQueue.AsleepOrWoken` | linuxpintos/src/threads/thread.c:208-226 | every thread ever queued is in the queue before its time and has been woken after it |
| `SleepQueue.TicksCountInterrupts` | linuxpintos/src/devices/timer.c:145-150 | the tick count is the number of timer interrupts |
| `Arithmetic.Divl` | linuxpintos/src/lib/arithmetic.c:25-37 | divl gives the quotient provided that it fits in 32 bits, which every caller must show |
| `Arithmetic.Nlz` | linuxpintos/src/lib/arithmetic.c:41-73 | nlz is the shift count that brings the top bit of the word to the top |
| `Arithmetic.EstimateAtMostOneTooBig` | linuxpintos/src/lib/arithmetic.c:121-123 | the estimate from the divisor's top word is the quotient or one more |
| `Arithmetic.Correction` | linuxpintos/src/lib/arithmetic.c:124 | the final comparison picks the right one of the two |
| `Arithmetic.UdivShort` | linuxpintos/src/lib/arithmetic.c:80-112 | for divisors below 2^32 two divl steps give the quotient and never trap |
| `Arithmetic.UdivLong` | linuxpintos/src/lib/arithmetic.c:113-126 | for larger divisors the normalised estimate and its correction give the quotient and never trap |
| `Arithmetic.Udiv64` | linuxpintos/src/lib/arithmetic.c:77-127 | udiv64 is floor division for all 64-bit operands with a nonzero divisor |
| `Arithmetic.Umod64` | linuxpintos/src/lib/arithmetic.c:131-135 | umod64 is the remainder reduced to 32 bits |
| `Arithmetic.UmodExactIff` | linuxpintos/src/lib/arithmetic.c:131-135 | it is the remainder for every dividend if and only if the divisor is at most 2^32 |
| `Arithmetic.TruncDivMod` | linuxpintos/src/lib/arithmetic.c:139-154 | truncating quotient and remainder, as in section 6.5.5 of C99, recombine to the dividend |
| `Arithmetic.Sdiv64` | linuxpintos/src/lib/arithmetic.c:139-146 | sdiv64 truncates toward zero, up to wrap-around |
| `Arithmetic.SdivExactIff` | linuxpintos/src/lib/arithmetic.c:139-146 | it wraps only for INT64_MIN / -1 |
| `Arithmetic.Smod64` | linuxpintos/src/lib/arithmetic.c:150-154 | smod64 is the truncating remainder reduced to a signed 32-bit value, also where the quotient wraps |
| `Arithmetic.SmodExactIff` | linuxpintos/src/lib/arithmetic.c:150-154 | it is the remainder for every dividend if and only if the divisor is at most 2^31 in absolute value |
| `Semaphore.DownKeepsInv` | linuxpintos/src/threads/synch.c:60-76 | a test of sema_down, first or repeated, keeps: queued threads are distinct, not woken, and no more units are free than threads are on their way |
| `Semaphore.UpKeepsInv` | linuxpintos/src/threads/synch.c:108-123 | sema_up keeps it, waking the oldest waiter |
| `Semaphore.TryDownKeepsInv` | linuxpintos/src/threads/synch.c:83-102 | so does sema_try_down |
| `Semaphore.SemaphoreIsSafe` | linuxpintos/src/threads/synch.c:60-123 | over every interleaving value + completed downs = initial value + ups, and a free unit with queued threads implies a woken thread that will get it |
| `Semaphore.DownIffAvailable` | linuxpintos/src/threads/synch.c:60-102 | every test of sema_down and sema_try_down takes a unit if and only if there is one; sema_try_down never queues |
| `Semaphore.WokenInTurn` | linuxpintos/src/threads/synch.c:60-123 | over every interleaving waiters are woken in the order in which they were queued |
| `Monitor.StepKeepsInv` | linuxpintos/src/threads/synch.c:194-324 | every step of lock_acquire, lock_try_acquire, lock_release, cond_wait and cond_signal, its list_pop_front and its sema_up apart, keeps the invariant of owner, queues and private semaphores |
| `Monitor.LockIsExclusive` | linuxpintos/src/threads/synch.c:194-238 | in every reachable state at most one thread owns the lock, the holder field is right, and a free lock with blocked threads has a woken one that gets it |
| `Monitor.TryAcquireIffFree` | linuxpintos/src/threads/synch.c:211-224 | lock_try_acquire gets the lock if and only if nobody owns it |
| `Monitor.AcquireQueues` | linuxpintos/src/threads/synch.c:194-203 | lock_acquire gets a free lock at once and otherwise goes to the end of the queue |
| `Monitor.ReleaseWakesOldest` | linuxpintos/src/threads/synch.c:228-238 | lock_release wakes the first of the queue, and it alone |
| `Monitor.LockWokenInTurn` | linuxpintos/src/threads/synch.c:194-238 | over every run the threads that wait for a lock are woken in the order in which they came |
| `Monitor.SignalReachesOldest` | linuxpintos/src/threads/synch.c:313-324 | cond_signal takes the longest queued waiter off the list, and its later sema_up makes that waiter pending, whatever other threads do in between |
| `Monitor.WaitQueues` | linuxpintos/src/threads/synch.c:289-305 | cond_wait goes to the end of the condition's queue |
| `Monitor.SignalledInTurn` | linuxpintos/src/threads/synch.c:289-324 | over every run threads are signalled in the order in which they called cond_wait |
| `Monitor.RaiseReaches` | linuxpintos/src/threads/synch.c:313-324 | that sema_up reaches its waiter wherever it stands in cond_wait, and nobody else |
| `Monitor.BroadcastReachesAll` | linuxpintos/src/threads/synch.c:332-340 | as many signals as there were waiters, given under the lock as cond_broadcast does, leave the queue empty and have made every waiter pending, whatever other threads do meanwhile |
| `Monitor.PendingIsKept` | linuxpintos/src/threads/synch.c:289-324 | a pending waiter stays pending until it passes, and passes at its next test |
| `ReadersWriters.StepKeepsQueue` | linuxpintos/src/filesys/inode.c:255-384 | every step of readers and writers keeps both semaphores' queues in agreement with where the threads stand |
| `ReadersWriters.StepKeepsTokens` | linuxpintos/src/filesys/inode.c:255-384 | and keeps the count of tokens: who holds r_sema, whether the readers as a group or one writer hold w_sema, and n_readers |
| `ReadersWriters.RunKeepsInv` | linuxpintos/src/filesys/inode.c:247-386 | so they hold over every interleaving of any number of readers and writers |
| `ReadersWriters.NoOverlap` | linuxpintos/src/filesys/inode.c:255-384 | no writer overlaps a reader or another writer, and n_readers is the number of counted readers |
| `ReadersWriters.StuckMeansIdle` | linuxpintos/src/filesys/inode.c:255-384 | if every thread inside is blocked then nobody is inside |
| `ReadersWriters.NoDeadlock` | linuxpintos/src/filesys/inode.c:255-384 | in every reachable state with a thread inside the protocol some thread inside it can step |
| `ReadersWriters.ReadersShare` | linuxpintos/src/filesys/inode.c:255-270 | while one thread reads, another that finds r_sema free reads too after its four steps of entry |
| `ReadersWriters.WaitsForUse` | linuxpintos/src/filesys/inode.c:255-384 | a reader is held up at w_sema only by a writer at work or by a woken thread about to take it, a writer also by readers |
| `ReadersWriters.WaitsForHolder` | linuxpintos/src/filesys/inode.c:255-384 | and at r_sema only by the thread that holds it or by a woken one about to |
| `Bits.BitAnd` | linuxpintos/src/lib/kernel/bitmap.c:170-204 | bit k of a bitwise and is set exactly when it is set in both words |
| `Bits.BitOr` | linuxpintos/src/lib/kernel/bitmap.c:157-167 | bit k of a bitwise or is set exactly when it is set in one of the words |
| `Bits.MaskTest` | linuxpintos/src/lib/kernel/bitmap.c:198-204 | a word has bit k exactly when masking it with 2^k is not zero |
| `Bitmap.Bitmap.Test` | linuxpintos/src/lib/kernel/bitmap.c:198-204 | bitmap_test reads the bit of the sequence that the words stand for |
| `Bitmap.Bitmap.Mark` | linuxpintos/src/lib/kernel/bitmap.c:157-167 | bitmap_mark sets that bit and no other |
| `Bitmap.Bitmap.Reset` | linuxpintos/src/lib/kernel/bitmap.c:170-180 | bitmap_reset clears that bit and no other |
| `Bitmap.Bitmap.SetMultiple` | linuxpintos/src/lib/kernel/bitmap.c:218-229 | bitmap_set_multiple sets exactly the range |
| `Bitmap.Bitmap.Contains` | linuxpintos/src/lib/kernel/bitmap.c:251-264 | bitmap_contains is true if and only if some bit of the range has the value |
| `Bitmap.Bitmap.Scan` | linuxpintos/src/lib/kernel/bitmap.c:296-311 | bitmap_scan returns the lowest group at or after start, or none if and only if there is none |
| `Bitmap.Bitmap.ScanAndFlip` | linuxpintos/src/lib/kernel/bitmap.c:320-327 | bitmap_scan_and_flip flips exactly that group |
| `Palloc.FreeRunIsGroup` | linuxpintos/src/threads/palloc.c:77-108 | runs of free pages are the groups of false bits, in both directions |
| `Palloc.NoLowerRun` | linuxpintos/src/threads/palloc.c:77-108 | if there is no group below a bit there is no free run below its page |
| `Palloc.Pool.Get` | linuxpintos/src/threads/palloc.c:77-108 | palloc_get_multiple marks the lowest free run of pages and fails only when there is none |
| `Palloc.Pool.Free` | linuxpintos/src/threads/palloc.c:124-149 | palloc_free_multiple gives back exactly the pages |
| `Malloc.MallocInit` | linuxpintos/src/threads/malloc.c:71-85 | malloc_init makes seven descriptors, of 16 to 1024 bytes, with as many blocks as fit behind an arena header |
| `Malloc.AddArenaKeeps` | linuxpintos/src/threads/malloc.c:129-146 | a new page becomes an arena all of whose blocks are on the free list |
| `Malloc.PopKeeps` | linuxpintos/src/threads/malloc.c:148-151 | handing out the first free block keeps: the free list is exactly the free blocks of the arenas and every free_cnt counts them |
| `Malloc.PushKeeps` | linuxpintos/src/threads/malloc.c:238-242 | putting a block back keeps it |
| `Malloc.DropKeeps` | linuxpintos/src/threads/malloc.c:241-253 | unlinking and releasing a wholly free arena restores it |
| `Malloc.LiveBlocksDisjoint` | linuxpintos/src/threads/malloc.c:89-154 | allocated blocks never overlap |
| `Malloc.InsideArena` | linuxpintos/src/threads/malloc.c:285-294 | an allocated block lies inside its arena, behind the header |
| `Malloc.AddrDecodes` | linuxpintos/src/threads/malloc.c:267-282 | rounding an address down to a page gives its arena, and the offset behind the header is a whole number of blocks |
| `Malloc.BigPageCntFits` | linuxpintos/src/threads/malloc.c:105-120 | the pages of a big block hold the request if and only if the sum with the header does not wrap |
| `Malloc.BigPageCntIsLeast` | linuxpintos/src/threads/malloc.c:105-110 | the page count of a big request is the least that holds it with its header, or what a wrapped sum leaves of it; it is zero exactly in the last page below 2^32 |
| `Malloc.BigRequestWraps` | linuxpintos/src/threads/malloc.c:109 | an instance: a request of 2^32 - 1 bytes gets a single page |
| `Malloc.Allocator.Malloc` | linuxpintos/src/threads/malloc.c:89-154 | malloc fails if and only if the request is empty, or there is neither a free block of the smallest fitting size nor a free page, or for a big request the page count has wrapped to zero or no run of that many pages is free; on success the block was not allocated, has the smallest fitting size, is big enough if and only if the request is at most 2^32 - 12, and every other block stays where it was; all three layers agree throughout |
| `Malloc.Allocator.MallocSmall` | linuxpintos/src/threads/malloc.c:122-153 | the same for a request served from a descriptor, refilled from the page pool if empty; it fails if and only if the list is empty and no page is free |
| `Malloc.Allocator.MallocBig` | linuxpintos/src/threads/malloc.c:105-120 | the same for a request served from whole pages; it fails if and only if the count is zero or no such run is free |
| `Malloc.Allocator.Free` | linuxpintos/src/threads/malloc.c:218-264 | free of an allocated block makes just that block free, leaves every other block where it was and keeps the layers in agreement; free of a null pointer does nothing |
| `Malloc.Allocator.FreeSmall` | linuxpintos/src/threads/malloc.c:227-256 | the same for small blocks, also where the last one of an arena releases the page |
| `Malloc.Allocator.FreeBig` | linuxpintos/src/threads/malloc.c:257-262 | the same for big blocks |
| `Malloc.NothingLiveNothingHeld` | linuxpintos/src/threads/malloc.c:241-253 | once nothing is allocated there is no arena and every free list is empty |
| `Malloc.FreeingAllRestoresPool` | linuxpintos/src/threads/malloc.c:218-264 | then the used pages are those that were used by others: freeing everything restores the pool |
| `Hash.TurnOffKeepsTop` | linuxpintos/src/lib/kernel/hash.c:329-333 | turning off the lowest bit keeps the top one unless the number is a power of two |
| `Hash.BestBucketCnt` | linuxpintos/src/lib/kernel/hash.c:364-372 | the bucket count that rehash aims at is a power of two, at least 4, with fewer than 4 elements for each bucket, and at least 2 unless it is 4 |
| `Hash.SlotIsRemainder` | linuxpintos/src/lib/kernel/hash.c:305-310 | the mask of find_bucket is the remainder of the hash value |
| `Hash.PlacedElems` | linuxpintos/src/lib/kernel/hash.c:314-326 | in a well-placed table an element is present if and only if it is in its own bucket, and equal elements are identical |
| `Hash.Table.Find` | linuxpintos/src/lib/kernel/hash.c:131-135 | hash_find returns an equal element if and only if there is one |
| `Hash.Table.Insert` | linuxpintos/src/lib/kernel/hash.c:98-110 | hash_insert adds the element unless an equal one is there, which it returns |
| `Hash.Table.Replace` | linuxpintos/src/lib/kernel/hash.c:114-127 | hash_replace puts the element in the place of an equal one, which it returns |
| `Hash.Table.Delete` | linuxpintos/src/lib/kernel/hash.c:144-154 | hash_delete removes and returns the equal element if there is one |
| `Hash.Table.Rehash` | linuxpintos/src/lib/kernel/hash.c:351-413 | rehash never changes the elements; with memory it leaves a power-of-two bucket count of at least 4 with elem_cnt < 4 * bucket_cnt, without memory it changes nothing |
| `Hash.Table.MoveAll` | linuxpintos/src/lib/kernel/hash.c:387-410 | moving all elements to new buckets places each where its hash selects and loses none |
| `Hash.Next` | linuxpintos/src/lib/kernel/hash.c:218-235 | hash_next returns the first remaining element, and null if and only if none is left |
| `Hash.IterationIsComplete` | linuxpintos/src/lib/kernel/hash.c:199-235 | an iteration visits exactly the elements of the table |
| `Hash.IterationRepeatsNothing` | linuxpintos/src/lib/kernel/hash.c:199-235 | and no two equal ones |
| `HeapSort.FloatRepairs` | linuxpintos/src/lib/stdlib.c:96-123 | heapify restores the heap below a single flaw |
| `HeapSort.FloatPermutes` | linuxpintos/src/lib/stdlib.c:96-123 | it permutes the heap and leaves the elements behind it alone |
| `HeapSort.RootIsMax` | linuxpintos/src/lib/stdlib.c:96-123 | the root of a heap is its maximum |
| `HeapSort.DoSwap` | linuxpintos/src/lib/stdlib.c:66-79 | do_swap exchanges two elements byte by byte |
| `HeapSort.Heapify` | linuxpintos/src/lib/stdlib.c:96-123 | heapify on the bytes is the sift-down on elements |
| `HeapSort.BuildHeap` | linuxpintos/src/lib/stdlib.c:142-144 | the first loop of sort makes a heap of the same elements |
| `HeapSort.Drain` | linuxpintos/src/lib/stdlib.c:146-151 | the second loop turns a heap into a sorted array of the same elements |
| `HeapSort.Sort` | linuxpintos/src/lib/stdlib.c:131-152 | sort yields a sorted permutation for every array, element size and total preorder |
| `HeapSort.BinarySearch` | linuxpintos/src/lib/stdlib.c:184-207 | binary_search on a sorted array returns a matching element if and only if there is one |
| `HeapSort.MatchSurvives` | linuxpintos/src/lib/stdlib.c:131-207 | a match exists after sorting if and only if one existed before |
| `Inode.ReachChunk` | linuxpintos/src/filesys/inode.c:263-302 | the chunk loop on the rest of a request reaches the rest of the bytes |
| `Inode.ReachWithoutMemory` | linuxpintos/src/filesys/inode.c:263-302 | without a bounce buffer a request reaches all the whole sectors it has if it starts at a sector, and otherwise nothing |
| `Inode.BytesToSectorsIsLeast` | linuxpintos/src/filesys/inode.c:28-32 | a file has as many sectors as its bytes need and no more |
| `Inode.ChunkBytes` | linuxpintos/src/filesys/inode.c:55-67 | a chunk of a sector is the same chunk of the flat contents |
| `Inode.ChunkOverwrites` | linuxpintos/src/filesys/inode.c:351-375 | writing a chunk into its sector overwrites just these bytes of the flat contents |
| `Inode.OtherFileSame` | linuxpintos/src/filesys/inode.c:320-386 | a write to one file's sectors is not seen through a file with other sectors |
| `Inode.DecodeEncode` | linuxpintos/src/filesys/inode.c:100-108 | an inode reads back as it was written |
| `Inode.Disk.Create` | linuxpintos/src/filesys/inode.c:86-124 | inode_create makes a file that reads as zeros and touches no sector but its own |
| `Inode.Disk.ReadAt` | linuxpintos/src/filesys/inode.c:247-313 | inode_read_at copies the slice of the flat contents, max(0, min(size, length - offset)) bytes of it given a bounce buffer, and nothing else of the buffer changes |
| `Inode.Disk.WriteAt` | linuxpintos/src/filesys/inode.c:320-386 | inode_write_at overwrites that slice and nothing else, and returns its length, or 0 while writes are denied |
| `FileSys.EnteredKeeps` | linuxpintos/src/filesys/filesys.c:51-67 | a successful create adds one live inode with sectors nobody owned |
| `FileSys.LeakedKeeps` | linuxpintos/src/filesys/filesys.c:61-62 | a create that fails in dir_add keeps the invariant, its data sectors marked and owned by nobody |
| `FileSys.LeakedIffNotEmpty` | linuxpintos/src/filesys/filesys.c:61-62 | it leaves the free map as it was if and only if the file was to be empty |
| `FileSys.CreateCanLeak` | linuxpintos/src/filesys/filesys.c:51-67 | an instance on every freshly formatted disk: creating a file with an empty name on any free run fails and leaves the run marked |
| `FileSys.OpenedByKeeps` | linuxpintos/src/filesys/inode.c:129-176 | inode_open keeps one in-memory inode for each open sector, counting its openers |
| `FileSys.ErasedKeeps` | linuxpintos/src/filesys/directory.c:184-216 | dir_remove erases the entry and marks the inode removed |
| `FileSys.ClosedByKeeps` | linuxpintos/src/filesys/inode.c:204-230 | inode_close keeps the invariant, by one of several openers or by the last |
| `FileSys.StepKeeps` | linuxpintos/src/filesys/filesys.c:51-103 | every create, open, remove and close keeps names distinct, sectors of live inodes disjoint and marked, none of them the system's, and one in-memory inode for each open sector |
| `FileSys.RunKeeps` | linuxpintos/src/filesys/filesys.c:51-103 | so does every run of calls |
| `FileSys.WritesStayApart` | linuxpintos/src/filesys/inode.c:320-386 | in every state of every run, a write through an open inode changes no sector of the system, no inode sector of a live inode and no byte of another live file |
| `FileSys.FreedAtDeath` | linuxpintos/src/filesys/inode.c:204-230 | the sectors of an inode are given back in the very call in which it ceases to be listed or open, in no other, and no others with them |
| `FileSys.FreeMap.constructor` | linuxpintos/src/filesys/free-map.c:15-28 | free_map_init marks the sectors of the free map and the root directory and no others |
| `FileSys.FreeMap.Allocate` | linuxpintos/src/filesys/free-map.c:34-52 | free_map_allocate marks the lowest free run if and only if there is one and the map reaches its file, and otherwise changes nothing |
| `FileSys.FreeMap.Release` | linuxpintos/src/filesys/free-map.c:55-65 | free_map_release clears exactly the run |
| `FileSys.FileSystem.Lookup` | linuxpintos/src/filesys/directory.c:91-112 | lookup finds the entry of a name if and only if there is one |
| `FileSys.FileSystem.InodeOpen` | linuxpintos/src/filesys/inode.c:129-176 | inode_open is one open step, and fails if and only if the inode is not open and there is no memory for it |
| `FileSys.FileSystem.InodeClose` | linuxpintos/src/filesys/inode.c:204-230 | inode_close is one close step |
| `FileSys.FileSystem.InodeCreate` | linuxpintos/src/filesys/inode.c:86-124 | inode_create writes the inode and marks its run if and only if there is memory, a free run that is long enough and the map reaches its file, and otherwise changes nothing |
| `FileSys.FileSystem.DirAdd` | linuxpintos/src/filesys/directory.c:141-179 | dir_add enters the name in a vacant slot if and only if its length is right, it is not there yet and a slot is vacant |
| `FileSys.FileSystem.Create` | linuxpintos/src/filesys/filesys.c:51-67 | filesys_create is one step of the machine; it makes the inode if and only if all allocations and writes go well, a sector is free and with the lowest one taken a run is free for the data, and succeeds if and only if moreover the directory accepts the name |
| `FileSys.FileSystem.Open` | linuxpintos/src/filesys/filesys.c:74-87 | filesys_open is one step; it yields the inode of the entry if and only if there is an entry whose inode is open or finds memory |
| `FileSys.FileSystem.Remove` | linuxpintos/src/filesys/filesys.c:93-103 | filesys_remove is one step; it erases the entry if and only if there is one whose inode is open or finds memory |
| `FileSys.FileSystem.RemoveFile` | linuxpintos/src/filesys/directory.c:184-216 | dir_remove opens, erases, marks and closes, in this order, if and only if the inode can be opened |
| `FileSys.FileSystem.Close` | linuxpintos/src/filesys/file.c:45-54 | file_close is one step of the machine and gives up one handle |
| `PageDir.AddressFields` | linuxpintos/src/threads/pte.h:32-39 | pd_no, pt_no and the page offset are the digits of the address |
| `PageDir.EntryFields` | linuxpintos/src/threads/pte.h:78-104 | the masks of an entry select its frame and its flags |
| `PageDir.PdeRoundTrip` | linuxpintos/src/threads/pte.h:71-81 | a directory entry gives back the page table put into it |
| `PageDir.PteRoundTrip` | linuxpintos/src/threads/pte.h:87-104 | a page table entry gives back the page and the writable flag put into it |
| `PageDir.AddTable` | linuxpintos/src/userprog/pagedir.c:66-81 | a new zeroed page table maps nothing and unmaps nothing |
| `PageDir.WriteEntry` | linuxpintos/src/userprog/pagedir.c:109-115 | writing one entry changes the mapping of its page only |
| `PageDir.PageDirectory.constructor` | linuxpintos/src/userprog/pagedir.c:16-23 | pagedir_create makes a directory without user mappings and with the kernel entries of the base directory |
| `PageDir.PageDirectory.LookupPage` | linuxpintos/src/userprog/pagedir.c:56-86 | lookup_page finds the table of the entry, making it if asked to, and changes no mapping; it fails if and only if there is no table and none can be made |
| `PageDir.PageDirectory.SetPage` | linuxpintos/src/userprog/pagedir.c:98-119 | pagedir_set_page maps the page and no other, keeps the kernel entries, and fails if and only if a page table is missing and there is no memory for it |
| `PageDir.PageDirectory.StoreEntry` | linuxpintos/src/userprog/pagedir.c:109-115 | writing an entry of a page table changes the entry of that page only and makes no table |
| `PageDir.PageDirectory.GetPage` | linuxpintos/src/userprog/pagedir.c:125-137 | pagedir_get_page returns the mapped frame plus the offset, or null if and only if the page is not mapped |
| `PageDir.PageDirectory.ClearPage` | linuxpintos/src/userprog/pagedir.c:143-157 | pagedir_clear_page unmaps the page and no other, and keeps the other bits of the entry |
| `PageDir.Destroy` | linuxpintos/src/userprog/pagedir.c:27-48 | pagedir_destroy frees, in order, the frames and page tables of the directory and the directory |
| `PageDir.ReadMapped` | linuxpintos/src/userprog/pagedir.c:27-48 | the directory that the loops of pagedir_destroy walk maps every user page as the page tables in memory do |
| `PageDir.ReadApart` | linuxpintos/src/userprog/pagedir.c:27-48 | its page tables are distinct pages and none is the directory |
| `PageDir.DestroyFrees` | linuxpintos/src/userprog/pagedir.c:27-48 | each page is freed once for every user page mapped to it, once if it is a page table and once if it is the directory |
| `PageDir.FreedOnceIff` | linuxpintos/src/userprog/pagedir.c:27-48 | no page is freed twice if and only if the mapping is injective and avoids the tables |
| `PageDir.MapTwice` | linuxpintos/src/userprog/pagedir.c:27-48 | an instance: two calls of pagedir_set_page with one frame, and it is freed twice |
| `Scheduler.ScheduleRestores` | linuxpintos/src/threads/thread.c:645-697 | schedule always finds a thread, never frees the running one, and leaves exactly one running |
| `Scheduler.WakeKeeps` | linuxpintos/src/threads/thread.c:382-394 | waking a waiter moves it from its one queue to the end of the ready list |
| `Scheduler.CreateKeeps` | linuxpintos/src/threads/thread.c:252-356 | a new thread has a new tid and is ready |
| `Scheduler.StepKeeps` | linuxpintos/src/threads/thread.c:364-466 | every block, unblock, yield, exit and create keeps: one running thread, the ready list without duplicates and equal to the ready non-idle threads, the blocked non-idle threads exactly those on a wait queue, none on two, every thread alive or freed once; and never gets stuck |
| `Scheduler.RunKeeps` | linuxpintos/src/threads/thread.c:364-697 | so does every run from the start |
| `Scheduler.BlockedCanBeWoken` | linuxpintos/src/threads/thread.c:364-394 | over every run each blocked thread but the idle one is on a list from which a step can wake it, and is then the last of the ready threads |
| `Scheduler.MovesUp` | linuxpintos/src/threads/thread.c:620-627 | each call of schedule moves every ready thread up by one place |
| `Scheduler.RunsInTurn` | linuxpintos/src/threads/thread.c:620-697 | the thread at place k of the ready list runs after exactly k + 1 calls of schedule |
| `Scheduler.FreedBySuccessor` | linuxpintos/src/threads/thread.c:645-673 | a thread that exits is freed at once by its successor unless it is the initial one, and nothing else is freed |
| `Scheduler.Threads.Reschedule` | linuxpintos/src/threads/thread.c:620-697 | schedule, with next_thread_to_run and schedule_tail, is the schedule step of the machine |
| `Scheduler.Threads.Create` | linuxpintos/src/threads/thread.c:252-356 | thread_create is one step of the machine and returns the new tid, or without memory fails and changes nothing |
| `Scheduler.Threads.Wait` | linuxpintos/src/threads/thread.c:364-372 | putting oneself at the end of a queue and thread_block are one step, and the first ready thread runs next, or else the idle thread |
| `Scheduler.Threads.StartIdle` | linuxpintos/src/threads/thread.c:522-527 | the idle thread announces itself before it first blocks |
| `Scheduler.Threads.Idle` | linuxpintos/src/threads/thread.c:522-549 | the idle thread blocks without being queued |
| `Scheduler.Threads.Signal` | linuxpintos/src/threads/thread.c:382-394 | taking a waiter off a queue and thread_unblock, which puts it at the end of the ready list, are one step |
| `Scheduler.Threads.GiveWay` | linuxpintos/src/threads/thread.c:452-466 | thread_yield is one step; the thread goes to the end of the ready list unless it is the idle thread, and the first one runs |
| `Scheduler.Threads.Die` | linuxpintos/src/threads/thread.c:431-448 | thread_exit is one step; the next thread runs, and the page of the one that exits is freed unless it is the initial thread |
| `CmdLine.SqueezeKeepsWords` | linuxpintos/src/userprog/process.c:85-110 | squeezing spaces keeps the list of words |
| `CmdLine.SqueezeIsTidy` | linuxpintos/src/userprog/process.c:85-110 | the squeezed line has no leading and no double spaces |
| `CmdLine.SqueezeInPlace` | linuxpintos/src/userprog/process.c:81-121 | the two loops end and leave the squeezed line, padded with zeros, in the buffer |
| `CmdLine.TrimEnd` | linuxpintos/src/userprog/process.c:111-121 | the second loop, which starts at the last byte, changes nothing if that is no space |
| `CmdLine.NameIsFirstWordIff` | linuxpintos/src/userprog/process.c:123-126 | the program name is the first word if and only if the command line does not start with a space |
| `CmdLine.NameCanBeSpace` | linuxpintos/src/userprog/process.c:123-126 | an instance: for a space followed by a letter the name is the space |
| `CmdLine.StrtokR` | linuxpintos/src/lib/string.c:234-275 | strtok_r cuts off the first word in place and leaves a string with the remaining words, and returns null if and only if there is none |
| `CmdLine.StartsAreWords` | linuxpintos/src/userprog/process.c:566-576 | the words of a line are its places where a word starts |
| `CmdLine.CountArgs` | linuxpintos/src/userprog/process.c:566-576 | the counting loop returns one more than the number of words that start behind a space |
| `CmdLine.CountIsRightIff` | linuxpintos/src/userprog/process.c:566-576 | for a squeezed line that is the number of words if and only if there is a word |
| `CmdLine.EmptyLineCounts` | linuxpintos/src/userprog/process.c:566-576 | an instance: an empty line counts as one word |
| `CmdLine.StoreTokens` | linuxpintos/src/userprog/process.c:582-591 | the token loop stores, for every word in order, the address of a zero-terminated copy of it |
| `CmdLine.BuildStack` | linuxpintos/src/userprog/process.c:557-601 | the stack has argc, argv, pointers to the words in order, a null pointer behind them, and is aligned, for every squeezed line that fits the page |
| `CmdLine.PassArguments` | linuxpintos/src/userprog/process.c:81-601 | process_execute and load together: whatever the spaces in the original line, argv holds exactly its words and argc is their number if there is one |
| `ElfLoad.ValidateMeans` | linuxpintos/src/userprog/process.c:741-782 | validate_segment accepts exactly the non-empty segments between the first page and the kernel that agree with the file modulo the page size |
| `ElfLoad.PlanFits` | linuxpintos/src/userprog/process.c:690-719 | the page-wise plan of an accepted header covers the segment, stays in user memory, and no sum or difference in it wraps |
| `ElfLoad.FillPage` | linuxpintos/src/userprog/process.c:820-826 | file_read from the sectors of the disk and memset give a page its bytes of the file, then zeros, if and only if the file is long enough and there is memory for a bounce buffer or whole sectors are read |
| `ElfLoad.Process.LoadSegment` | linuxpintos/src/userprog/process.c:798-841 | load_segment on the disk and the page tables succeeds if and only if frames, page tables, bounce buffers, unmapped pages and the file suffice; in any case it maps a prefix of the pages, each with the bytes of the file followed by zeros, and owns exactly the frames it has mapped |
| `ElfLoad.Process.constructor` | linuxpintos/src/userprog/process.c:798-841 | a process starts on a page directory without user pages and owns no frame |
| `ElfLoad.Process.InstallPage` | linuxpintos/src/userprog/process.c:874-883 | install_page maps the frame in the page tables if and only if nothing is mapped there and a page table is there or can be made; no other mapping changes |
| `ElfLoad.Process.AddFrame` | linuxpintos/src/userprog/process.c:828-833 | a frame that install_page refuses is given back; the frames of the process remain exactly those it has mapped, each once, and none is a page table |
| `ElfLoad.Process.SetupStack` | linuxpintos/src/userprog/process.c:845-863 | setup_stack maps a zeroed page just below the kernel if and only if there is memory and nothing is there, and otherwise gives its frame back |
| `ElfLoad.Process.LoadPage` | linuxpintos/src/userprog/process.c:812-833 | one round of the loop maps one page with bytes of the file, or changes neither memory nor frames |
| `ElfLoad.OwnedFreedOnce` | linuxpintos/src/userprog/pagedir.c:27-48 | so whatever has been loaded, wholly or in part, pagedir_destroy frees each frame of the process exactly once and no page twice |
| `ElfLoad.Process.LoadHeader` | linuxpintos/src/userprog/process.c:690-719 | a successful PT_LOAD leaves the segment's bytes, then zeros, at its addresses; in any case no page outside user memory is mapped and no mapped page changes |
| `ElfLoad.ImageIsSegment` | linuxpintos/src/userprog/process.c:690-719 | the page-aligned image contains the segment at its own address |
| `Printf.LengthIff` | linuxpintos/src/lib/stdio.c:469-547 | the output is as long as the larger of width and content if and only if the padding is not put out on both sides |
| `Printf.FieldWidthIff` | linuxpintos/src/lib/stdio.c:339-547 | in terms of the format, exactly the zero flag with a negative width argument, no minus flag and no precision goes wrong |
| `Printf.TooWide` | linuxpintos/src/lib/stdio.c:339-547 | an instance: width -5 and the zero flag make eight characters of 42 |
| `Printf.FormatRenders` | linuxpintos/src/lib/stdio.c:469-547 | the output, place by place: spaces on the left unless there is a minus or zero flag; '-' for a negative signed number, else '+' or a space as asked; 0x or 0X for a nonzero hexadecimal number with '#'; zeros for the zero flag; the number; spaces on the right for a minus flag |
| `Printf.BufferPlaces` | linuxpintos/src/lib/stdio.c:501-524 | the number, counted from the right: a comma before every full group of three digits, in hexadecimal four, each digit of the value in the right case, zeros up to the precision, one by default and 63 at most, and a zero in front for octal with '#' |
| `Printf.DigitCountIsLeast` | linuxpintos/src/lib/stdio.c:501-513 | a number has as many digits as it needs and no leading zero |
| `Printf.ZeroExample` | linuxpintos/src/lib/stdio.c:517-524 | an instance: %d puts out 0 for zero |
| `Printf.GroupExample` | linuxpintos/src/lib/stdio.c:501-513 | an instance: -12345 with grouping is -12,345 |
| `Printf.HexExample` | linuxpintos/src/lib/stdio.c:469-547 | an instance: 255 as %#08X is 0X0000FF |
| `Printf.BufferMeans` | linuxpintos/src/lib/stdio.c:501-524 | in every base, upper or lower case, with or without grouping, zeros and precision, the digit buffer stands for the value |
| `Printf.ReadBuffer` | linuxpintos/src/lib/stdio.c:501-524 | read as atoi reads, the decimal digits give the value back |
| `Printf.RoundTrip` | linuxpintos/src/lib/stdio.c:185-226 | atoi undoes %d for every integer and every flag but grouping, width and precision |
| `Printf.AtoiReads` | linuxpintos/src/lib/stdlib.c:9-41 | atoi skips white space, takes one sign, reads the digits as a decimal number and stops at the first character that is none |
| `Printf.AtMost22Digits` | linuxpintos/src/lib/stdio.c:501-513 | a 64-bit value has at most 22 digits, so digits and commas fit the buffer |
| `Printf.FillBuffer` | linuxpintos/src/lib/stdio.c:501-524 | the buffer loops write inside the 64 bytes and leave the number that BufferPlaces describes, lowest digit first |
| `Printf.FormatInteger` | linuxpintos/src/lib/stdio.c:469-547 | format_integer, buffer loops and output loops together, puts out the text that FormatRenders describes character by character |
| `Printf.OutputDup` | linuxpintos/src/lib/stdio.c:550-555 | output_dup appends the character so many times |
| `Printf.Atoi` | linuxpintos/src/lib/stdlib.c:9-41 | atoi returns the number that its argument starts with; no intermediate value leaves the range of int |
| `Printf.Vsnprintf` | linuxpintos/src/lib/stdio.c:25-52 | vsnprintf stores what fits and a terminating zero, writes nothing behind it, and returns the full length |
| `Relation.HoldersChange` | linuxpintos/src/userprog/process.c:384-417 | how one process's change of phase changes the number of holders of a relation |
| `Awaiting.StepKeeps` | linuxpintos/src/userprog/process.c:268-417 | every access to a relation by process_execute, start_process, process_wait and process_exit keeps the tree, the counts and what the waits rely on |
| `Handshake.RunKeeps` | linuxpintos/src/userprog/process.c:268-417 | so does every run over every process tree |
| `Relation.NotFreedWhenTouched` | linuxpintos/src/userprog/process.c:354-417 | no step accesses a relation that was freed |
| `Handshake.FreedOnceByTheLast` | linuxpintos/src/userprog/process.c:384-417 | over every run alive_count is the number of holders: the parent while it has not left, and its started children while they have not departed; the relation is freed once, exactly when it has no holder, and never accessed then |
| `Handshake.NoLostWakeup` | linuxpintos/src/userprog/process.c:305-345 | a parent about to sema_down for a child that has exited finds a credit |
| `Handshake.ExitGoesOn` | linuxpintos/src/userprog/process.c:354-417 | an exiting process is never held up on its way to giving it |
| `Handshake.CleanWaitFinds` | linuxpintos/src/userprog/process.c:305-345 | a wait that began without leftover credit ends with the child's record in the list |
| `Handshake.UncleanWaitMisses` | linuxpintos/src/userprog/process.c:305-345 | with leftover credit, or one on its way, some wait for a child still running ends without its record |
| `Handshake.UncleanIsReachable` | linuxpintos/src/userprog/process.c:305-383 | a run from the start reaches such a state: the parent scans between the record of one child and its test of awaited_tid |
| `Handshake.WaitCanMiss` | linuxpintos/src/userprog/process.c:305-383 | so a run from the start contains a wait that returns without the record of a child still running |
| `Handshake.WaitFindsIff` | linuxpintos/src/userprog/process.c:305-345 | in every state of every run from the start, the waits that block all find the record if and only if it was there or no credit was left or on its way |
| `Handshake.ChildIffLoaded` | linuxpintos/src/userprog/process.c:176-260 | process_execute yields a child to wait for if and only if its program could be loaded |
| `Handshake.WaitsOnce` | linuxpintos/src/userprog/process.c:268-303 | over every run nobody waits twice for the same child |
| `Handshake.RecordHoldsStatus` | linuxpintos/src/userprog/process.c:362-383 | over every run the record that a wait finds holds the status its child has exited with, -1 if its program could not be loaded |

## Left out

- Device drivers, port I/O, assembly, the GDT and the TSS: hardware; the disk is a sequence of sectors and a context switch is one step.
- System calls and the table of file descriptors: they check user pointers and look up open files in a fixed table.
- Other list operations (`list_reverse`, `list_unique`, `list_insert_ordered`, `list_max`, `list_min`), `hash_clear`, `hash_destroy`, `hash_apply` and the FNV hash functions: they go once over a list, the buckets or a string of bytes.
- `calloc`, `realloc`, and the choice between the user and the kernel pool in `palloc_get_multiple`.
- `bitmap_flip`, `bitmap_count` and the reading and writing of bitmap files.
- `dir_readdir`; `file_open`, and the position of a file outside the loader; `strchr` and the rest of lib/string.c.
- Accessed and dirty bits of page tables, and the TLB.
- The ELF header checks, the loop over program headers, and the overlap of segments (a second mapping of a page makes the load fail).
- Conversions of printf for strings, characters and pointers, and a width argument of INT_MIN, whose negation overflows.
- Priority scheduling, the multi-level feedback queue, statistics, preemption by time slice (a yield may come at any step).
- Kernel threads that were not made by `process_execute`, and the exit of the initial thread, in the handshake of parents and children.
- The contents of the free map's own file, and interleaved calls of the file system: its calls are taken as atomic; the readers and writers of one inode are modelled separately, step by step.
- The order of the open-inode list, which only decides which search comes first.
- Arithmetic near the limits of the machine in places where it is not the point: tick counts, semaphore values and thread identifiers are unbounded, file sizes stay 511 bytes below 2^31, heap indices below 2^31.
- Awaiting.StepKeeps: models the relations on values and not as objects changed in place, because steps of several processes interleave inside each function; updates of alive_count are atomic, although start_process increments it without the lock.
- Handshake.WaitFindsIff: speaks of the record being in the list; what process_wait returns when it finds none is not modelled, nor its -1 for a process that is not a child.
- Monitor.StepKeepsInv: models locks and condition variables on values for the same reason; one lock and one condition variable are shared by any number of threads.
- Semaphore.SemaphoreIsSafe: models the semaphore on values, one interrupts-off region at a time.
- ReadersWriters.RunKeepsInv: models the protocol on values; the bytes read and written are those of module Inode.
- FileSys.StepKeeps: keeps used sectors marked, not the converse, because a failed create leaves marked sectors that nobody owns.
- Malloc.Allocator.Free: demands an allocated block, as the source's assertions do; it does not model the bytes of blocks.
- Bitmap.Bitmap.Scan: an empty group is found at start, as in the code and not as in its comment.
- CmdLine.BuildStack: demands that the line fits the stack page, which the source does not check.
- CmdLine.PassArguments: the same.
- Printf.Atoi: demands that the number fits an int; C99 leaves other cases undefined.
- Inode.Disk.Create: takes the allocated run as a parameter; its allocation is in module FileSys.
- IntrusiveList.Splice: moves a range within one list; SpliceAcross is the case of two lists.
- Palloc.Pool.Get: models one pool; PAL_ZERO, which clears the pages, and PAL_ASSERT, which panics, are not modelled.
- Palloc.Pool.Free: models the pool that owns the pages; finding that pool is not modelled.
- PageDir.PageDirectory.constructor: takes the page as given; without one pagedir_create returns null and nothing exists.
- Scheduler.CreateKeeps: the stack frames of a new thread are not modelled, and its relation with its parent is in module Relation.
- Scheduler.Threads.Create: the same.
- FileSys.FileSystem.Lookup: reads of directory slots find memory for their bounce buffers; the source takes a read cut short for the end of the directory, as its comment in dir_add says.
- FileSys.FileSystem.DirAdd: the same for its reads and its write; a read cut short would make it reuse the slot there.
- FileSys.FileSystem.Create: the same, through dir_add.
- FileSys.FileSystem.Open: the same, through lookup.
- FileSys.FileSystem.Remove: the same, through dir_remove.
- FileSys.FileSystem.RemoveFile: reads and writes of directory slots find memory for their bounce buffers; when they do not, the source fails without erasing the entry.
- CmdLine.TrimEnd: stops at the start of the buffer, which the source's loop does not check; neither gets there, because the buffer ends in a zero byte.
- ElfLoad.Process.LoadSegment: takes the free pages on offer as a parameter, which must differ from one another and from those in use, as those of module Palloc do.
- Handshake.ExitGoesOn: the locks and the allocation of a record on the way of an exit are not steps of the machine, so it holds by construction; a run of module Monitor shows what a lock promises.
