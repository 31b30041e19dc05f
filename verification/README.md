# The RT-Thread kernel: allocators, scheduler, IPC and timers

This project models the single-core kernel of RT-Thread 4.0.2 and proves what its data
structures keep through every operation: three allocators, the ready queues and their
bitmaps, the wait lists with mutex, mailbox, message queue and event, the timer skip list,
and the register arithmetic of the PWM driver.

A section of the C code that runs with interrupts disabled, or under the heap semaphore, is
one method; a call of several sections that is one method has nothing in between, as said
below. Everything that can happen between two sections, such as other senders, stealing
receivers, timeouts and resets, is then another method call, and an invariant that every
method keeps holds in every state that is reachable under the assumptions below.

| module | models |
|---|---|
| `Ring`, `RtList`, `Arithmetic` | distinct sequences and doubly linked rings; the intrusive lists of rtservice.h on real nodes |
| `Blocks`, `BlockData` | a pool that is tiled by blocks, and the data bytes of the blocks, shared by the two heaps |
| `MemHeap` | memheap.c; headers are maps from pool offsets, and storing a new header destroys every header whose bytes it overlaps and the bytes that were there |
| `RawMemory`, `SmallMem` | mem.c; one byte array holds headers (little endian) and data, so that isolation is a statement about bytes |
| `PageHeap`, `Slab` | slab.c; the page runs, and the zones of equal chunks above them |
| `TimerRows`, `Timers` | timer.c; the skip list with any number of rows against one sorted list of unbounded deadlines |
| `Bitmap`, `Scheduler` | `__rt_ffs`, the two ready bitmaps, scheduler.c, thread.c and the time slice of clock.c |
| `Ipc`, `Mutexes`, `MessageQueues`, `Mailboxes`, `Events` | the wait lists and the IPC objects of ipc.c |
| `MessageRuns` | runs of the message queue, as runs of a machine that has a plain list of messages |
| `Pwm` | drv_pwm.c |

The list heads and nodes of the C code are sequences everywhere but in `RtList`, which shows
on node objects that the list functions do to the ring what the sequences say.

## What the code is taken to be

- Requests to an allocator are small enough for their rounding not to wrap (`MAX_REQUEST`),
  pools and heaps lie in a 32-bit address space, and the small memory heap has room for one
  block of the minimum size (rt-thread/src/mem.c:204-257 checks only that it has room for two
  headers), and a memheap pool for its two headers, which is not checked.
- A realloc that moves a block takes the semaphore for the new block and again for the old
  one, and copies in between. `MemHeap.Heap.Realloc` and `SmallMem.Heap.Realloc` have nothing
  in between; `SmallMem.Heap.MoveAmid` shows for mem.c that whatever other threads allocate
  and release there, the new block gets the old data.
- A timer's callback leaves the timers alone (rt-thread/src/timer.c:524); all deadlines lie
  in a window below half the tick range, as the assertion on the initial tick intends.
- `rt_timer_start` enables interrupts between taking a timer out and linking it again. Ticks,
  checks and calls for other timers may come in between (`Timers.TimerList.StartTake`,
  `StartRead`, `StartLink`), but nobody else starts the same timer there: it would be linked
  twice. The start that `rt_timer_check` makes has nothing in between, as interrupts are off.
- `rt_timer_stop` tests the flag before its section and clears it afterwards, with interrupts
  enabled (rt-thread/src/timer.c:430-444). Nobody starts the timer in between
  (`Timers.TimerList.StopClear` says that this is needed).
- The idle thread never blocks, and a RUNNING thread that is suspended is the current one, as
  `rt_thread_suspend` asserts.
- The callers of a message queue or mailbox keep to the C control flow: a call takes its
  sections in order, and a thread that waits, or was woken and has not run yet, does nothing else.
- The priority of a thread that waits for a mutex, or owns it, changes from outside only in
  the ways that `Mutexes.Mutex.ChangeWaiter` and `ChangeOwner` show to be harmless: a waiter
  still fits its place in the list, and the owner stays as urgent as every waiter.
  `rt_thread_control` does not move a waiter in the list (rt-thread/src/thread.c:655-667), also
  when it inherits a priority through another mutex; and an owner that releases another mutex
  may lose what it inherited through this one (see below).

## What holds only in part

- `lfree` is called the lowest free block (rt-thread/src/mem.c:131). This survives malloc and
  free. A shrinking realloc keeps it exactly if, before the call, `lfree` is below the block,
  or is the free block right behind it (`SmallMem.Heap.Shrink`); `SmallMem.HoleBelowLfree` is a
  run after which it is lost. `heap_end` is called always unused (rt-thread/src/mem.c:119) and
  is marked used.
- The heap's malloc overlooks an exact fit of the block that ends at the sentinel:
  `SmallMem.FitsUnlessExactAtEnd` says exactly which free blocks it considers, and
  `SmallMem.OverlooksExactFit` shows that a fresh heap never grants all of its bytes.
- All power-of-two allocations of the slab allocator are said to be aligned to their size
  (rt-thread/src/slab.c:152-153). A request of a power of two that succeeds is aligned exactly
  if it is at most a page, or the first page of the zone or run that serves it, which the
  state before the call determines, is (`Slab.MallocPower`). `Slab.FirstMalloc`: in a fresh
  heap of 64 pages on an even page, the first request for 8 KiB is not.
- A mutex hand-off with the FIFO flag leaves the new owner at least as urgent as the waiters
  exactly if it was the most urgent of them. The last release always restores the priority of
  the first take, which is an inherited one when the thread held another mutex then
  (`Mutexes.TwoMutexes`). Conversely, releasing a second mutex takes away the priority that
  the thread has inherited through the first: the first stays sound exactly if the priority at
  the time of taking the second is as urgent as every waiter of the first
  (`Mutexes.ReleaseOther`), and `Mutexes.InheritanceLost` is a run in which it is not.
- The count `hold` of a mutex has 8 bits. After 256 nested takes it is zero although there is
  an owner, and a thread keeps the mutex until its last release exactly if it has taken it at
  most 256 times (`Mutexes.NestsUpTo`); after 257 takes the first release hands it over.
- `rt_timer_check` leaves its loop exactly if no linked timer that is due is periodic with
  period zero: then `Timers.TimerList.Check` ends, and otherwise every round is followed by
  another (`Timers.TimerList.Rounds`).
- A start that comes between the section of `rt_timer_stop` and the clearing of the flag
  leaves the timer linked without its flag (`Timers.TimerList.StopDuringStart`).
- A timer is due its initial tick after the first section of `rt_timer_start`, not after it
  is linked; ticks in between shorten its time (`Timers.TimerList.StartDelayed`).
- `rt_timer_next_timeout_tick` answers RT_TICK_MAX for an empty list, and also when the
  earliest deadline has that tick value.
- `rt_thread_yield` does not set the YIELD bit, so equal threads change over at the end of a
  time slice only. A priority change does not schedule. `rt_enter_critical` counts in 16 bits
  with a sign, not up to RT_UINT16_MAX as its comment says (rt-thread/src/scheduler.c:885):
  the scheduler stays locked until the last exit exactly if at most 32768 sections are nested
  (`Scheduler.NestsUpTo`).

## Model

| member | source | states |
|---|---|---|
| RtList.Node.constructor | rt-thread/include/rtservice.h:47-50 | an initialised head is a ring of itself |
| RtList.BothWays | rt-thread/include/rtservice.h:47-92 | from every node of a sound ring the forward link leads to the next one, and its back link leads back |
| RtList.InsertAfter | rt-thread/include/rtservice.h:58-65 | the ring read from `l` has the node second, every link and back link intact |
| RtList.InsertBefore | rt-thread/include/rtservice.h:73-80 | the node becomes the last of the ring read from `l`, which is how queues append |
| RtList.InsertInside | rt-thread/src/ipc.c:98-111 | linking a thread in before another one puts it in that place of the list read from the head, with every link and back link intact |
| RtList.Remove | rt-thread/include/rtservice.h:86-92 | the others stay a ring in their order, the node is a ring of its own, and removing a lone node changes nothing |
| RtList.IsEmpty | rt-thread/include/rtservice.h:98-101 | true exactly if the head is alone |
| RtList.Len | rt-thread/include/rtservice.h:107-118 | the number of nodes besides the head |
| Ring.Inserted | rt-thread/src/memheap.c:209-213 | linking an item in between two neighbours keeps `prev` the inverse of `next` around the whole circle |
| Ring.Removed | rt-thread/src/memheap.c:549-551 | unlinking one item keeps `prev` the inverse of `next` around the whole circle |
| Ring.Inverse | rt-thread/src/memheap.c:209-213 | on a sound ring the forward links lead round in order and each back link undoes a forward one |
| Ring.WithoutIndex | rt-thread/include/rtservice.h:86-92 | taking a member out of a list leaves any two others in their order |
| Blocks.TilingUnique | rt-thread/src/mem.c:546-609 | two tilings without neighbouring free blocks and with the same live blocks are the same tiling |
| Blocks.SameTiling | rt-thread/src/mem.c:546-609 | equal live blocks mean equal block lists and equal sums of free and used bytes |
| Blocks.Merged | rt-thread/src/memheap.c:540-557 | joining two free neighbours keeps the tiling, adds one header to the free bytes and leaves the live blocks alone |
| Blocks.Cut | rt-thread/src/mem.c:471-493 | giving the tail of a live block to a new free block shrinks that block only and accounts for every byte |
| Blocks.Absorbed | rt-thread/src/memheap.c:340-363 | a live block that swallows the free block behind it grows by exactly that block, header included |
| MemHeap.Heap.constructor | rt-thread/src/memheap.c:50-121 | the new pool satisfies all invariants with one free block and nothing live; the two headers count as used at once |
| MemHeap.Heap.Alloc | rt-thread/src/memheap.c:138-281 | the first free-list item that fits is handed out, split exactly when a smallest block would remain; all lists, the tiling and the books stay sound; NULL exactly when the space or every item is too small; no byte of a live block changes |
| MemHeap.PartTaken | rt-thread/src/memheap.c:190-236 | splitting a free item keeps tiling, free list and available size in agreement and adds exactly the requested block to the live ones |
| MemHeap.NoFit | rt-thread/src/memheap.c:169-180 | the search reaches the end of the free list exactly when no item of it is large enough |
| MemHeap.Heap.Free | rt-thread/src/memheap.c:495-595 | only the freed block leaves the live ones; merging left and right restores that no two free items touch; the free list keeps its order with the freed item first, unless that joined a free item on its left, and without a free item that was on its right |
| MemHeap.FreeOrder | rt-thread/src/memheap.c:540-595 | the free list after a release, case by case: the block comes first if the one below is in use; if the one below is free, no block is added, and a free one behind leaves the list |
| MemHeap.Heap.MergeLeft | rt-thread/src/memheap.c:540-557 | the item joins a free left neighbour, or is left to be inserted exactly when that neighbour is used |
| MemHeap.Heap.MergeRight | rt-thread/src/memheap.c:559-578 | a free right neighbour leaves both lists and its bytes go to the item |
| MemHeap.Heap.Replant | rt-thread/src/memheap.c:357-393 | growing in place rebuilds the neighbour's header further up although that may overwrite the old one; both lists stay sound and no byte of a live block changes |
| MemHeap.Heap.HeaderMisses | rt-thread/src/memheap.c:190-213 | the header of any item lies outside the data of every live block, so that storing it harms none |
| MemHeap.Heap.Grow | rt-thread/src/memheap.c:318-402 | in-place growth changes the size of that block only and keeps every invariant and the running maximum |
| MemHeap.Heap.Shrink | rt-thread/src/memheap.c:432-491 | shrinking keeps the block at its place with the new size and returns the tail, merged with a free successor |
| MemHeap.Heap.Realloc | rt-thread/src/memheap.c:284-492 | never less than the request; the block stays exactly when it need not grow or the free item behind it makes room; NULL exactly when a new block is needed and none fits, and then nothing changes; all other live blocks are kept; the maximum counts a moved block in both its places; the block has the first min(old, new) bytes, and no byte of another live block changes |
| MemHeap.GrowsWhen | rt-thread/src/memheap.c:328-350 | the free item behind makes room exactly when it is unused and its data and the block's together exceed the request by more than 12 bytes |
| MemHeap.GrowsInPlace | rt-thread/src/memheap.c:315-393 | a run in which a block grows in place although no free item could hold the request |
| MemHeap.Heap.Move | rt-thread/src/memheap.c:405-415 | a moved block has the old data up to the smaller size, the old place is free, and a failed move changes nothing |
| BlockData.MovedByte | rt-thread/src/memheap.c:405-415 | each byte of a moved block is the byte of the same place in the old one |
| BlockData.LiveByte | rt-thread/src/memheap.c:284-595 | each byte of a live block that is left alone is what it was |
| MemHeap.LiveDisjoint | rt-thread/src/memheap.c:138-281 | live blocks are aligned, inside the pool and disjoint, headers included |
| MemHeap.AllocThenFree | rt-thread/src/memheap.c:138-595 | freeing what was just allocated restores the block list, the live blocks and the available size |
| SmallMem.Heap.constructor | rt-thread/src/mem.c:204-257 | the bytes written form one free block and the used sentinel, between aligned addresses |
| SmallMem.Heap.PlugHoles | rt-thread/src/mem.c:156-194 | a free block joined with its free neighbours leaves no two free blocks side by side, moves `lfree` only off a block that vanished, and touches header bytes only |
| SmallMem.Heap.Malloc | rt-thread/src/mem.c:272-410 | the lowest fitting block at or above `lfree`, NULL exactly when there is none; used bytes and peak follow; no byte of a live block changes |
| SmallMem.Heap.Free | rt-thread/src/mem.c:546-609 | the block leaves the live ones, `lfree` is no higher than it and stays lowest if it was, and no byte of another live block changes |
| SmallMem.Heap.Shrink | rt-thread/src/mem.c:471-498 | the block keeps its place and data, and `lfree` stays the lowest free block exactly if it was that and, before the call, lay below the block or was the free block behind it |
| SmallMem.LowestWithHole | rt-thread/src/mem.c:471-493 | a new hole that has swallowed a free successor keeps `lfree` lowest exactly if it was lowest and lay below the hole or was that successor |
| SmallMem.HoleBelowLfree | rt-thread/src/mem.c:471-493 | in any heap of 1024 bytes or more, making the first of two blocks smaller leaves a free block below `lfree` |
| SmallMem.Heap.Move | rt-thread/src/mem.c:501-509 | a moved block has the old data up to the smaller size, the old place is free, and a failed move changes nothing |
| SmallMem.Heap.MoveAmid | rt-thread/src/mem.c:499-509 | whatever other threads allocate and release between the allocation, the copy and the release, the new block has the old data up to the smaller size |
| SmallMem.Heap.Realloc | rt-thread/src/mem.c:421-510 | whether it stays, splits or moves, the block holds the request and the first min(old, new) bytes; it stays exactly when its size is the same or the rest makes a block; otherwise NULL exactly when no block fits or the request exceeds the heap; no byte of another live block changes; `lfree` stays lowest but for a hole left below it, and the peak counts a moved block in both its places |
| SmallMem.StaysWhen | rt-thread/src/mem.c:462-498 | a block stays exactly when it has the rounded size already or that leaves more than 24 bytes of it; otherwise it moves to a new place that holds the request |
| SmallMem.FitsUnlessExactAtEnd | rt-thread/src/mem.c:305-314 | with `lfree` lowest, malloc considers every free block that is large enough except one that the request would fill up to the sentinel |
| SmallMem.OverlooksExactFit | rt-thread/src/mem.c:305-314 | a fresh heap of any size refuses a request for all of its bytes, although its one free block has them |
| SmallMem.Heap.LiveDisjoint | rt-thread/src/mem.c:272-410 | live blocks are aligned, inside the heap and disjoint, headers included |
| SmallMem.HeadersMissData | rt-thread/src/mem.c:331-348 | writing headers at block starts changes no byte of a live block's data |
| SmallMem.MallocThenFree | rt-thread/src/mem.c:272-609 | free right after malloc restores the tiling, the live blocks, `lfree` and the used count |
| RawMemory.HeaderKept | rt-thread/src/mem.c:103-114 | writing one header leaves any header it does not overlap readable as before |
| RawMemory.WriteHeader | rt-thread/src/mem.c:331-343 | the twelve bytes read back as the header, and no other byte changes |
| PageHeap.MaximalUnique | rt-thread/src/slab.c:236-322 | a set of free pages has exactly one sorted list of maximal runs |
| PageHeap.PageHeap.Alloc | rt-thread/src/slab.c:236-270 | the pages come from the first run that is large enough and are no longer free; nothing else changes; NULL exactly when no run is large enough |
| PageHeap.PageHeap.Free | rt-thread/src/slab.c:272-322 | exactly the given pages become free, and the list is again sorted with no two runs touching |
| PageHeap.PageHeap.JoinBelow | rt-thread/src/slab.c:285-303 | a run that ends at the freed pages takes them in, and the next run too when the gap closes |
| PageHeap.AllocThenFree | rt-thread/src/slab.c:236-322 | freeing a just-allocated run restores exactly the previous list |
| Slab.ZoneIndex | rt-thread/src/slab.c:401-459 | the class of a request is the smallest whose chunks hold it, and the size written back is that chunk size |
| Slab.Chunking | rt-thread/src/slab.c:133-141 | the chunk size is the request rounded up to the unit that the table of zones names for it |
| Slab.TwoChunks | rt-thread/src/slab.c:625-643 | every zone holds at least two chunks behind its header, whatever the class |
| Slab.SlabHeap.constructor | rt-thread/src/slab.c:344-395 | the fresh heap has no zone and no live block; the pages behind its usage table are free; zones have 8, 16 or 32 pages by the size of the heap |
| Slab.SlabHeap.Malloc | rt-thread/src/slab.c:478-667 | a small request gets a chunk of its class that was not live, a large one whole pages, and nothing else becomes live; a small request fails exactly when its class has no zone with a free chunk, no spare zone is left and no page run holds one; the zone or run that serves a request is determined by the state before; the pages it takes were free, and no other page changes; no page is ever lost: each is free or in one run that is held |
| Slab.SlabHeap.ServedFrom | rt-thread/src/slab.c:493-605 | the first zone of the class serves a request, failing that the first spare zone, failing that the first run of enough pages; large requests take the first run of enough pages; refused exactly when there is none |
| Slab.SlabHeap.TakeChunk | rt-thread/src/slab.c:539-577 | the chunk comes from the free list or is the next untouched one, and a zone without free chunks leaves its class list |
| Slab.SlabHeap.ZoneFromPages | rt-thread/src/slab.c:596-623 | a new zone takes pages that were free, and the usage table leads from each of them back to it |
| Slab.SlabHeap.Free | rt-thread/src/slab.c:771-904 | only the freed chunk or block stops being live; the chunk is first on the free list of its zone; a zone goes out of service exactly when it is empty and its class has another zone with free chunks, and is then a spare one, or gives its pages back if there are two; all pages of a large block become free |
| Slab.LargeThenFree | rt-thread/src/slab.c:493-820 | freeing the large block that was just allocated restores the page runs |
| Slab.SlabHeap.Release | rt-thread/src/slab.c:876-900 | the spare list gives one zone back to the page allocator and exactly its pages become free |
| Slab.ZoneAccounts | rt-thread/src/slab.c:539-577 | live, free-list and untouched chunks make up a zone, `z_nfree` counts the last two, and the zone is listed exactly if that is not zero; the spare count is the length of its list and within the threshold |
| Slab.FreeCount | rt-thread/src/slab.c:640-646 | counting chunks instead of listing them loses nothing: `z_nfree` is zero exactly when all chunks are live |
| Slab.ChunksDisjoint | rt-thread/src/slab.c:478-667 | live chunks overlap neither each other, nor a zone header, nor a large block |
| Slab.AllByEight | rt-thread/src/slab.c:631-638 | every live chunk of any class, and every large block, is at a multiple of eight |
| Slab.AlignedLikeZone | rt-thread/src/slab.c:631-638 | a chunk of power-of-two size is aligned to its size exactly as its zone is |
| Slab.ChunkAligned | rt-thread/src/slab.c:631-638 | a chunk that serves a request of a power of two is aligned to the request exactly if that is at most a page or the zone's first page is aligned to it |
| Slab.MallocPower | rt-thread/src/slab.c:478-667 | a request of a power of two that is granted, from a zone or as whole pages, is aligned to its size exactly if that is at most a page or the page that serves it is aligned; it is refused exactly when nothing can serve it |
| Slab.FirstMalloc | rt-thread/src/slab.c:344-395 | in any fresh heap of at least 64 pages the first request for 8 KiB succeeds, and is aligned to 8 KiB exactly if the usage table ends at an even page, which it does not in one of 64 pages on an even page |
| TimerRows.InsertSplices | rt-thread/src/timer.c:343-380 | insertion behind every timer due no later is a splice at the point where the list splits |
| TimerRows.InsertOrdered | rt-thread/src/timer.c:343-380 | insertion keeps a list sorted and distinct and adds nothing but the timer |
| TimerRows.InsertFiltered | rt-thread/src/timer.c:376-391 | thinning out after insertion is inserting into the rows the timer is high enough for |
| TimerRows.WithoutFiltered | rt-thread/src/timer.c:121-129 | removing a timer from every row is removing it from the bottom row and thinning out |
| Timers.DiffOfDeadlines | rt-thread/src/timer.c:359-366 | for deadlines less than half the tick range apart, the wrapped difference tells which is later and whether they are equal |
| Timers.TimerList.Walk | rt-thread/src/timer.c:345-367 | the row head stops between the timers due no later and those due later |
| Timers.TimerList.Search | rt-thread/src/timer.c:342-370 | in every row the search finds the place that splits it at the new deadline, entering each row where the one above stopped |
| Timers.RowsLinked | rt-thread/src/timer.c:376-391 | splicing into the lowest rows is sorted insertion into the bottom row, each upper row again a thinned-out copy of it |
| Timers.HeightIs | rt-thread/src/timer.c:376-391 | a timer is linked into the lowest n rows exactly if the insertion counter is a multiple of the (n - 1)-th power of four |
| Timers.TimerList.StartTake | rt-thread/src/timer.c:309-315 | the timer is in no row and inactive, the others keep their order |
| Timers.TimerList.StartLink | rt-thread/src/timer.c:326-396 | whenever the second section comes, even after the deadline, the timer is linked behind every timer due no later, and all rows stay sound |
| Timers.TimerList.StartDelayed | rt-thread/src/timer.c:309-396 | with n ticks between the sections the timer is due its initial tick after the first one |
| Timers.TimerList.Start | rt-thread/src/timer.c:296-412 | a started timer is due its initial tick ahead, behind every timer due no later, whatever its state before, in as many rows as the counter's low bits say; all rows stay sound across tick wrap |
| Timers.TimerList.StopClear | rt-thread/src/timer.c:443-444 | clearing the flag keeps the timers sound exactly if the timer has not been linked again |
| Timers.TimerList.StopDuringStart | rt-thread/src/timer.c:422-447 | any timer that is started between the section and the clearing ends up linked without its flag |
| Timers.TimerList.Stop | rt-thread/src/timer.c:422-447 | refused exactly if the timer is not active; afterwards it is in no row |
| Timers.TimerList.NextTimeout | rt-thread/src/timer.c:108-119 | on a list that is not empty, the tick of the earliest of all unbounded deadlines |
| Timers.TimerList.FireHead | rt-thread/src/timer.c:516-543 | a fired periodic timer is linked again one period ahead, a one-shot timer is inactive and unlinked, it is due again at once exactly if it is periodic with period zero, and a timer with period zero that is due stays due whichever timer fires |
| Timers.TimerList.Rounds | rt-thread/src/timer.c:507-547 | while some linked timer that is due has period zero, any number of timers fire, one a round, and there is still one due |
| Timers.TimerList.Check | rt-thread/src/timer.c:494-553 | terminates whenever no due timer has period zero; fires exactly the timers whose deadline has arrived, in deadline order with ties first come first served; only later deadlines remain |
| Timers.FiredNext | rt-thread/src/timer.c:507-548 | although fired timers are linked again during the scan, a due head is always the next timer of the list as it was before |
| Timers.TimerList.TickAndCheck | rt-thread/src/clock.c:72-100 | with a check at every tick no deadline is ever in the past |
| Timers.TimerList.Run | rt-thread/src/timer.c:494-553 | over any number of ticks a periodic timer left alone fires exactly at its first deadline and every whole number of periods after it, a one-shot timer once, across tick wrap |
| Timers.NextTick | rt-thread/src/timer.c:494-553 | one more tick: a timer fires exactly if the tick is its first deadline or a whole number of periods after it |
| Bitmap.Ffs | rt-thread/src/kservice.c:1316-1330 | zero for zero, otherwise one more than the index of the lowest bit set |
| Bitmap.LowestBit | rt-thread/src/kservice.c:1286-1304 | the table names the lowest bit set of every byte |
| Bitmap.SetShows | rt-thread/src/scheduler.c:733-737 | in either layout, queueing a thread adds its priority to those the bits show and no other |
| Bitmap.ClearShows | rt-thread/src/scheduler.c:820-831 | in either layout, clearing the bits of an emptied queue removes its priority and no other |
| Bitmap.HighestIsLeast | rt-thread/src/scheduler.c:162-184 | in either layout the search finds the most urgent ready priority, and the group is zero exactly if nothing is ready |
| Bitmap.SameAnswer | rt-thread/src/scheduler.c:162-184 | the one-word and the two-level bitmap find the same priority |
| Scheduler.Scheduler.constructor | rt-thread/src/scheduler.c:191-239 | nothing is ready, no bit is set |
| Scheduler.Scheduler.Insert | rt-thread/src/scheduler.c:708-742 | the current thread runs again, any other is READY and last in the queue of its priority, and bits and queues agree |
| Scheduler.Scheduler.Remove | rt-thread/src/scheduler.c:805-835 | the thread is in no queue, the others keep their order, and bits and queues agree |
| Scheduler.Scheduler.HighestThread | rt-thread/src/scheduler.c:162-184 | the thread found is READY and no READY thread is more urgent |
| Scheduler.Scheduler.Schedule | rt-thread/src/scheduler.c:418-538 | the current thread changes exactly if the scheduler is unlocked and a READY thread outranks it; unlocked, the current thread is RUNNING afterwards and no READY thread is more urgent; a most urgent thread whose YIELD bit is set makes way to the next of its priority and is last in line, and one whose bit is clear goes on |
| Scheduler.Scheduler.Start | rt-thread/src/scheduler.c:246-270 | the first thread to run is the first of the most urgent queue |
| Scheduler.Scheduler.Startup | rt-thread/src/thread.c:289-321 | the thread gets its initial priority and is READY or RUNNING; the current thread changes exactly if the scheduler is unlocked and the new thread or another READY one outranks it |
| Scheduler.Scheduler.Suspend | rt-thread/src/thread.c:715-754 | exactly a READY or RUNNING thread is suspended, and it is in no queue |
| Scheduler.Scheduler.Resume | rt-thread/src/thread.c:764-798 | exactly a suspended thread is resumed: RUNNING if it is the current one, last in its queue otherwise |
| Scheduler.Scheduler.Timeout | rt-thread/src/thread.c:807-829 | the thread is no longer suspended and carries the timeout; the current thread changes exactly if the scheduler is unlocked and the woken thread or another READY one outranks it |
| Scheduler.Scheduler.ChangePriority | rt-thread/src/thread.c:620-673 | a READY thread moves to the end of its new queue, and every READY thread stays in the queue of its current priority |
| Scheduler.Scheduler.EnterCritical | rt-thread/src/scheduler.c:878-893 | the nesting count goes up, as a signed 16-bit number, and the scheduler is locked afterwards |
| Scheduler.Scheduler.ExitCritical | rt-thread/src/scheduler.c:940-965 | while the count is not zero nothing changes; with an exit that brings it to zero the current thread changes exactly if a READY thread outranks it, and one whose YIELD bit is set makes way to the next of its priority |
| Scheduler.NestsUpTo | rt-thread/src/scheduler.c:878-965 | any number of nested sections keeps the scheduler locked until the last exit exactly if there are no more than 32768 |
| Scheduler.Scheduler.Yield | rt-thread/src/thread.c:473-478 | a yield hands over exactly to a thread that outranks the caller, and never from a most urgent one whose YIELD bit is clear |
| Scheduler.Scheduler.TickSlice | rt-thread/src/clock.c:84-96 | before the slice ends nothing but the count changes; at its end the first equal thread runs and the caller is last in line; while the scheduler is locked its YIELD bit is set and nothing else changes |
| Scheduler.Scheduler.SliceThenExits | rt-thread/src/scheduler.c:940-965 | a slice that ends inside any number of nested critical sections is not lost: with the last exit the next thread of the priority runs and the caller is last in line |
| Scheduler.Scheduler.EqualOutranks | rt-thread/src/scheduler.c:439-454 | at the end of a slice the threads that outrank the current one are those in its own queue |
| Scheduler.Scheduler.Turn | rt-thread/src/clock.c:72-100 | for as many ticks as the current thread has left nothing else runs, then the next in line does, and the line rotates by one |
| Scheduler.Scheduler.RunsAfter | rt-thread/src/clock.c:72-100 | round robin: the READY thread in place i of the current priority runs after exactly the ticks that those before it have left, and not before |
| Scheduler.Scheduler.RunsWithin | rt-thread/src/clock.c:72-100 | of m threads that share the top priority with at most Q ticks left each, every one runs within (m - 1) * Q ticks |
| Scheduler.WaitBound | rt-thread/src/clock.c:72-100 | the ticks that some threads have left are at most one full slice for each |
| Scheduler.OrderKept | rt-thread/src/scheduler.c:708-835 | between any two states, two threads of one queue that have not come to it again since stand in the same order, that of their arrival |
| Ipc.ListSuspend | rt-thread/src/ipc.c:80-123 | at the end with the FIFO flag, behind everyone at least as urgent with the priority flag |
| Ipc.EnqueuedBefore | rt-thread/src/ipc.c:93-118 | with the priority flag a thread goes in front of the first one that is less urgent |
| Ipc.EnqueuedRanked | rt-thread/src/ipc.c:93-118 | the list stays sorted by urgency with equal threads in order of arrival |
| Ipc.ChangePriority | rt-thread/src/thread.c:655-667 | a change of a waiter's priority leaves the list ranked exactly if the two neighbours leave it room |
| Ipc.WithoutRanked | rt-thread/src/thread.c:807-829 | a thread that leaves in the middle keeps the others ranked |
| Ipc.ResumeAll | rt-thread/src/ipc.c:157-185 | the list is empty and every thread of it carries the error |
| Mutexes.Mutex.Take | rt-thread/src/ipc.c:654-779 | who gets the mutex, who is refused and who waits; the owner takes over the priority of a more urgent waiter; every invariant is kept |
| Mutexes.Mutex.Release | rt-thread/src/ipc.c:790-881 | only the owner releases; the release that brings the count to zero restores the priority of its first take and hands over to the first waiter, who is as urgent as the others exactly if it was the most urgent |
| Mutexes.Mutex.HandOff | rt-thread/src/ipc.c:841-861 | the new owner holds the mutex once and its own priority is what it will get back |
| Mutexes.Mutex.Timeout | rt-thread/src/thread.c:807-829 | a waiter that times out leaves the others ranked and the owner at least as urgent as them |
| Mutexes.Mutex.ChangeWaiter | rt-thread/src/thread.c:655-667 | a change of a waiter's priority keeps the mutex sound exactly if the waiter still fits its place and is not more urgent than the owner |
| Mutexes.Mutex.ChangeOwner | rt-thread/src/thread.c:635-667 | a change of the owner's priority keeps the mutex sound exactly if the owner stays as urgent as every waiter |
| Mutexes.Mutex.HoldTells | rt-thread/src/ipc.c:831-834 | the count is zero exactly without an owner, unless the takes are a multiple of 256 |
| Mutexes.NestsUpTo | rt-thread/src/ipc.c:654-881 | after any number of takes, all of them have to be released before the mutex is free exactly if they are no more than 256 |
| Mutexes.ReleaseOther | rt-thread/src/ipc.c:831-839 | the owner of two mutexes that releases one keeps the other sound exactly if the priority it falls back to is as urgent as every waiter of the other |
| Mutexes.InheritanceLost | rt-thread/src/ipc.c:831-839 | any thread that takes two mutexes, inherits through the first and releases the second is then less urgent than the waiter of the first |
| Mutexes.FifoHandOff | rt-thread/src/ipc.c:841-861 | a FIFO mutex whose owner is less urgent than a waiter |
| Mutexes.TwoMutexes | rt-thread/src/ipc.c:831-839 | any thread that takes a second mutex while it has inherited a priority and releases the first one first keeps the inherited priority for good |
| MessageQueues.MessageQueue.constructor | rt-thread/src/ipc.c:1781-1831 | as many blocks as the pool has room for, all of them free, the last one first; messages of aligned size; nothing is stored |
| MessageQueues.MessageQueue.SendTake | rt-thread/src/ipc.c:1975-2083 | a free block goes to the call, or the error or the wait that the code documents; no message moves and no wake-up is lost; a thread that waits carries no error |
| MessageQueues.MessageQueue.SendBack | rt-thread/src/ipc.c:2059-2077 | a sender that a receive has woken looks for a block again and is never refused for an old error; only one whose wait ended with an error is |
| MessageQueues.MessageQueue.UrgentTake | rt-thread/src/ipc.c:2155-2189 | an urgent send takes a free block or fails at once |
| MessageQueues.MessageQueue.Fill | rt-thread/src/ipc.c:2085-2088 | the message is in the block of its own call and every other stored message is untouched |
| MessageQueues.MessageQueue.Link | rt-thread/src/ipc.c:2090-2125 | the message is last, or first if urgent; the first waiting receiver is woken; head, tail, count and pool partition stay sound and no wake-up is lost |
| MessageQueues.MessageQueue.RecvTake | rt-thread/src/ipc.c:2240-2352 | the first message leaves the queue and its block goes to the call, or the error or the wait; no wake-up is lost, also when another thread took the message; a thread that waits carries no error |
| MessageQueues.MessageQueue.RecvBack | rt-thread/src/ipc.c:2319-2337 | a receiver that a send has woken looks for a message again and is never refused for an old error; only one whose wait ended with an error is |
| MessageQueues.MessageQueue.Copy | rt-thread/src/ipc.c:2354-2355 | the receiver gets the message as it was sent, up to the shorter of the two lengths |
| MessageQueues.MessageQueue.Free | rt-thread/src/ipc.c:2357-2384 | the block is free again, the first waiting sender is woken and no wake-up is lost |
| MessageQueues.MessageQueue.Timeout | rt-thread/src/thread.c:807-829 | a waiter that times out costs no other waiter its wake-up |
| MessageQueues.MessageQueue.NobodyWaitsInVain | rt-thread/src/ipc.c:1975-2384 | once every woken thread has run, a receiver waits only on an empty queue, and a sender only while every block is stored or held by a call |
| MessageQueues.MessageQueue.Reset | rt-thread/src/ipc.c:2397-2445 | no message is left, their blocks are free, calls under way keep theirs, and everyone waiting carries the error |
| MessageQueues.Repart | rt-thread/src/ipc.c:1975-2445 | when one block changes its place, every block is still free, queued or held by exactly one call |
| MessageQueues.Pushed | rt-thread/src/ipc.c:2359-2361 | putting a block in front of one list leaves that list and the other one well linked |
| MessageQueues.ChainExtended | rt-thread/src/ipc.c:2092-2104 | putting a block behind the tail extends the list that is followed from the head |
| MessageRuns.Do | rt-thread/src/ipc.c:1975-2445 | whatever section comes next, its answer, the bytes it hands out, whom it wakes and the messages after it are those of the machine with a plain list |
| MessageRuns.Run | rt-thread/src/ipc.c:1975-2445 | every interleaving of senders, urgent senders, receivers, timeouts and resets is a run of that machine |
| MessageRuns.StaysWoken | rt-thread/src/ipc.c:1975-2445 | in any run, a thread that was woken stays so until it looks at the queue itself, whatever times out or is reset meanwhile |
| MessageRuns.OnlySent | rt-thread/src/ipc.c:1975-2230 | after any run, whatever is stored or in the hands of a call is a message that a sender handed over |
| MessageRuns.DeliveredWasSent | rt-thread/src/ipc.c:2240-2390 | in any run, the bytes a receiver gets agree with the message that its call took from the front, and a sender handed that message over before |
| MessageRuns.JoinsOnce | rt-thread/src/ipc.c:1975-2230 | in any run, the messages accepted for a call join the queue once each, in order, but for the one in its hands |
| MessageRuns.Conserved | rt-thread/src/ipc.c:1975-2445 | in any run, each message that joined the queue was received once, or dropped by a reset, or is still there |
| MessageRuns.OrdinaryInOrder | rt-thread/src/ipc.c:1975-2445 | in any run, whatever urgent sends and resets it has, the ordinary messages leave the queue in the order in which they joined it |
| MessageRuns.UrgentFirst | rt-thread/src/ipc.c:2195-2230 | in any run, an urgent message goes in front of everything then stored |
| MessageRuns.FirstInFirstOut | rt-thread/src/ipc.c:1975-2390 | without urgent sends and resets, messages are received in the order in which they joined |
| Mailboxes.Mailbox.constructor | rt-thread/src/ipc.c:1294-1322 | an empty ring |
| Mailboxes.Mailbox.Send | rt-thread/src/ipc.c:1442-1561 | the mail is last, or the error or the wait; no wake-up is lost, whoever comes first after a wake-up; a thread that waits carries no error |
| Mailboxes.Mailbox.SendBack | rt-thread/src/ipc.c:1515-1533 | a sender that a receive has woken looks for a slot again and is never refused for an old error |
| Mailboxes.Mailbox.Recv | rt-thread/src/ipc.c:1590-1714 | the first mail leaves, or the error or the wait; no wake-up is lost, also when another thread took the mail; a thread that waits carries no error |
| Mailboxes.Mailbox.RecvBack | rt-thread/src/ipc.c:1663-1681 | a receiver that a send has woken looks for a mail again and is never refused for an old error |
| Mailboxes.Mailbox.Timeout | rt-thread/src/thread.c:807-829 | a waiter that times out costs no other waiter its wake-up |
| Mailboxes.Mailbox.Reset | rt-thread/src/ipc.c:1726-1758 | the ring is empty and everyone waiting carries the error |
| Mailboxes.Mailbox.NobodyWaitsInVain | rt-thread/src/ipc.c:1442-1714 | once every woken thread has run, a receiver waits only on an empty and a sender only on a full mailbox |
| Mailboxes.SlotIsRemainder | rt-thread/src/ipc.c:1535-1542 | the offsets that wrap by comparison are the remainders of a ring |
| Events.Event.Send | rt-thread/src/ipc.c:1029-1111 | the waiters are woken as one pass in list order says, with the flags it leaves, and nobody who still waits is satisfied; those woken carry no error and keep what they were given until they run |
| Events.Event.Recv | rt-thread/src/ipc.c:1127-1237 | a satisfied wish is answered and cleared if asked, any other is refused or waits, and no waiter becomes satisfied by it; a thread that waits carries no error |
| Events.Event.RecvBack | rt-thread/src/ipc.c:1217-1236 | a woken receiver gets what it was given when it was woken, whatever has happened to the flags since; one whose wait ended with an error gets that error |
| Events.SleepersUnmet | rt-thread/src/ipc.c:1056-1100 | whoever the pass leaves asleep is not satisfied by the flags that are left, although later wake-ups cleared flags |
| Events.WokenMet | rt-thread/src/ipc.c:1063-1095 | a waiter is woken exactly if the flags at its turn have all, or any, of those it wants; it is given all it wants, or what there is of it, and takes away exactly that, or nothing |
| Events.FlagsKept | rt-thread/src/ipc.c:1090-1092 | a flag that no woken thread with the CLEAR option asked for is left as it was |
| Events.FlagsGone | rt-thread/src/ipc.c:1090-1092 | the flags given to a thread with the CLEAR option are gone after the pass |
| Events.FewerFlags | rt-thread/src/ipc.c:1091-1092 | clearing flags satisfies nobody |
| Events.Event.Timeout | rt-thread/src/thread.c:807-829 | a waiter that times out leaves the others unsatisfied and in order |
| Events.Event.Reset | rt-thread/src/ipc.c:1249-1277 | no flag is left, nobody waits, and everyone who did carries the error |
| Pwm.Timer.Set | drivers/drv_pwm.c:229-286 | compare never passes reload, both fit 16 bits, and the prescaler fits exactly if the period stays below 65535 * 65536 cycles; a pulse of at least the period, if that has three cycles, gives a compare equal to reload, and one of less than two cycles the least compare |
| Pwm.StepsFit | drivers/drv_pwm.c:259-268 | the divided period is below 65535 whatever was asked for |
| Pwm.LeastDivisor | drivers/drv_pwm.c:259-262 | the prescaler is the least that leaves fewer than 65535 steps |
| Pwm.Timer.SlowerClock | drivers/drv_pwm.c:212-222 | the clock that is read back with is slower by the clock division |
| Pwm.SetThenGet | drivers/drv_pwm.c:185-286 | reading back never yields more than was set and loses less than one step of the divided clock and one nanosecond, for period and pulse |
| Pwm.Lost | drivers/drv_pwm.c:223-224 | a truncated count of steps converts back to within one step and one nanosecond |

## Left out

- SMP branches, `cpu.c`, `signal.c` and the EINTR retry in `rt_mutex_take`: not part of this configuration.
- Context switching, stacks, hooks, debug output, object containers and names: plumbing around the state changes.
- `rt_thread_exit`, `rt_thread_detach`, `rt_thread_delete` and the defunct list: they remove a thread for good, as `Suspend` does for a while.
- `rt_thread_sleep`, `rt_thread_delay_until` and `rt_tick_from_millisecond`: combinations of the operations here, or a single product.
- Semaphores, `mempool.c`, `idle.c`, `irq.c`, `device.c`, string functions: easy beside the rest.
- The soft-timer thread and `rt_soft_timer_check`: callbacks run unlocked there and may change the timers.
- `rt_timer_control`: changes only what the next start uses; the two settings of a timer are fixed here.
- `rt_calloc`, the statistics calls, and the multi-heap `rt_malloc` at the end of memheap.c: thin layers over the operations here.
- The other drivers and `applications/`: wrappers over a hardware library that is not part of this model.
- MemHeap.Heap.Realloc: the moving branch has nothing between its sections; what may come there is shown for mem.c in `SmallMem.Heap.MoveAmid`.
- MemHeap.Heap.constructor: requires room for the two headers; a smaller pool, which the code does not refuse, is not modelled.
- MemHeap.Heap.Free: does not model the checks of `magic` and `pool_ptr`, which guard against pointers that no allocation returned.
- SmallMem.Heap.constructor: requires room for a smallest block between the headers; the message and early return on too small a range are not modelled.
- Slab.SlabHeap.Malloc: does not model the byte statistics, and treats each call as atomic although the heap lock is let go around the page allocator.
- Slab.SlabHeap.Free: `rt_realloc` of the slab allocator is not modelled; it is malloc, copy and free unless the chunk size stays the same.
- Scheduler.Scheduler.RunsAfter: the timers are taken to wake nobody during the run, as the bound needs.
- Scheduler.Scheduler.Suspend: does not model the thread's timer and its node in a wait list; `Ipc` and the IPC modules keep those.
- Mutexes.Mutex.Take: a change of the owner's priority is a field update here; its effect on the ready queues is `Scheduler.Scheduler.ChangePriority`.
- MessageQueues.MessageQueue.Fill: the copy is one step, since only the call that holds the block touches it.
- Mailboxes.Mailbox.Send: the rest of the waiting time after a wake-up comes from the caller instead of the tick counter.
