# RT-Thread kernel model

A Dafny model of the RT-Thread kernel that the smart watch firmware is built on (`SmartWatch_V_1/rt-thread`),
with proofs about its allocators, its inter-thread communication, its scheduler and its formatted output.
`dafny verify dfyconfig.toml` checks the whole project.

Each kernel object whose fields are updated in place is a class with those fields and the loops of the source.
Its methods are proved against functions on values, in the `Layout` and `Spec` modules, and the laws are lemmas about
these functions: what every step keeps, and what therefore holds over every run.

- **Small-memory heap** (`HeapLayout`, `HeapStore`, `SmallHeap`): the first-fit heap of `mem.c`. A layout is the
  sequence of blocks in address order; `HeapStore` says how the chained headers lie in the arena; the class
  works on the arena. A header field is kept in the cell of its first byte, the other bytes of the field hold 0.
- **memheap** (`Rings`, `MemHeapLayout`, `MemHeapLive`, `MemHeap`): the two interlinked rings of `memheap.c`, as maps
  from header addresses to links, and what each call does to the live blocks.
- **Intrusive lists** (`RtList`) and **wait lists** (`WaitList`, `Blocking`): a doubly linked list holds a sequence;
  the kernel objects then use sequences.
- **Semaphore, mutex, event, mailbox, message queue** (`Semaphore`, `Mutex`, `EventSpec`, `Event`, `MailboxSpec`,
  `Mailbox`, `MessageQueueSpec`, `MessageQueue`): a step is one region that the source runs with interrupts
  disabled. A call that blocks ends at its suspension and comes back with a retry step, so all interleavings
  are runs of steps. A message queue opens its regions while it copies: its nodes can be in flight, and every
  copied byte is a step of its own.
- **Memory pool** (`MemPoolSpec`, `MemPool`): the embedded free list, where the pointer in front of a block names
  the next free block or the pool.
- **Scheduler** (`FirstSet`, `SchedulerSpec`, `Scheduler`): 32 ready lists, the bit group, find-first-set, preemption,
  time slices and the calls of `thread.c` and `clock.c` that move threads between lists.
- **Shared**: `Deque`, the yardstick for the two kinds of queues; `Nodes` and `Arithmetic`, small facts.
- **Kernel services** (`FormatSpec`, `FormatLaws`, `Printf`, `Memory`): `rt_vsnprintf` against the text it would print
  with no bound, what that text means letter by letter, `rt_memmove`, `rt_memcpy`, and the arithmetic of `rt_malloc_align`.

The configuration is that of `rtconfig.h`: one core, 32-bit pointers and sizes, `RT_ALIGN_SIZE` 4, 32 priorities,
assertions compiled out. What an assertion demands of a caller is a precondition here or is proved. Interrupt
locking, context switches and hooks do not appear: a region with interrupts disabled is one method or one step.

Findings where the code and its comments differ, or where it does less than one may expect:

- `rt_malloc` never hands out a free block of exactly the requested size at the end of the heap
  (`SearchComplete`, `WholeHeapRefused`); `rt_memheap_alloc` refuses a request for all of its free bytes (`AllocComplete`).
- `rt_event_send` stops at a waiting thread that names neither AND nor OR, although it may already have resumed
  others, and misses satisfied threads behind it (`ScanOkIff`, `InvalidWaiterHidesOthers`); `rt_event_recv` lets such a thread wait.
- `rt_memheap_realloc` adds 12 to the adjusted size in 32 bits; from 2^32 - 12 on that wraps, a free successor always
  looks large enough, and the heap is broken (`WrappedGrowBreaks`). Nothing else breaks it (`ReallocKeeps`, `Heap.Realloc`).
- An inherited mutex priority stays when the waiter that caused it times out (`BoostOutlivesTimeout`); exactly when
  it is the inherited one is `TimeoutExactIff`, `RunExact`.
- A memory pool resumes the thread that began to wait last, not the first as for the other objects (`LastComesFirst`).
- Base 8 prints hexadecimal digits, right only below 8 (`OctalIsHex`), precision 0 prints no digits at all (`NumberWidth`),
  and a field width cuts a string that is longer (`StringWhole`).
- `skip_atoi` adds the character before it subtracts '0', and overflows 48 numbers early (`AtoiOverflowIff`).
- `rt_malloc_align` adds two aligned sizes in 32 bits; when the sum wraps it returns an address in a block that is too
  small (`AlignedPlace`).
- `rt_realloc` cuts a block in place only when 28 bytes or more come off; a block that gets a little smaller moves, and the
  call fails when there is no room to move to. A size that wraps frees the block (`ReallocGives`).
- Message sizes are kept in 16 bits: above 65532 bytes the queue's messages are shorter than asked for (`MsgSizeHolds`).
- `rt_memcpy` is right for overlapping areas only when the destination does not begin inside the source (`ForwardIsMove`).

## Model

| member | source | states |
|---|---|---|
| HeapLayout.AlignUp | SmartWatch_V_1/rt-thread/src/mem.c:289 | RT_ALIGN in 32 bits: the result is a multiple of 4 and is at least the request exactly when the addition does not wrap |
| HeapLayout.FirstFitFrom | SmartWatch_V_1/rt-thread/src/mem.c:305-311 | the block found is eligible and no earlier block in address order is: exact first fit |
| HeapLayout.SearchComplete | SmartWatch_V_1/rt-thread/src/mem.c:291-311 | a block is eligible exactly when it is free, large enough, and not of exactly the requested size at the end of the heap; the search finds one exactly when such a block exists |
| HeapLayout.WholeHeapRefused | SmartWatch_V_1/rt-thread/src/mem.c:305-311 | the strict bound at work: a heap that is one free block refuses a request for all of it |
| HeapLayout.CarveFacts | SmartWatch_V_1/rt-thread/src/mem.c:316-370 | handing out a block, split or whole, keeps the tiling, leaves no two free neighbours, adds one live block and adds its extent to the used bytes |
| HeapLayout.PlugFacts | SmartWatch_V_1/rt-thread/src/mem.c:156-194 | plug_holes keeps tiling, lowest free block, used bytes and live blocks, and leaves no two free neighbours |
| HeapLayout.ReleaseFacts | SmartWatch_V_1/rt-thread/src/mem.c:595-613 | freeing ends the life of exactly that block, subtracts its extent and leaves the heap well formed |
| HeapLayout.ShrinkFacts | SmartWatch_V_1/rt-thread/src/mem.c:471-504 | shrinking in place leaves a live block of exactly the new size, turns the rest into free space and leaves the heap well formed |
| HeapLayout.FreeUndoesMalloc | SmartWatch_V_1/rt-thread/src/mem.c:316-613 | releasing the block that was just carved gives back exactly the old layout |
| HeapLayout.LiveDisjoint | SmartWatch_V_1/rt-thread/src/mem.c:272-410 | two live blocks never overlap; payloads are aligned and inside the arena |
| HeapLayout.FreeApartFromLive | SmartWatch_V_1/rt-thread/src/mem.c:305-370 | what malloc hands out is cut from space that overlaps no live block |
| HeapLayout.LowestIff | SmartWatch_V_1/rt-thread/src/mem.c:380-387 | the lowest-free cursor is characterised independently: the first free block, or the end stub when none is free, and nothing else |
| HeapLayout.LowestAfterFree | SmartWatch_V_1/rt-thread/src/mem.c:595-606 | moving the cursor down when a lower block is freed makes it the lowest free block again |
| HeapLayout.ExtentsAddUp | SmartWatch_V_1/rt-thread/src/mem.c:349-369 | used and free extents always add up to the whole arena |
| HeapStore.PutSplitStored | SmartWatch_V_1/rt-thread/src/mem.c:329-348 | the header stores of a split leave every header in the arena as the new layout says: prev inverts next, and bytes of live payloads are untouched |
| HeapStore.PutAbsorbStored | SmartWatch_V_1/rt-thread/src/mem.c:178-193 | the two stores of a merge do the same for the merged layout |
| HeapStore.PutUsedStored | SmartWatch_V_1/rt-thread/src/mem.c:364 | setting or clearing the used field changes that block's header and nothing else |
| HeapStore.PayloadStore | SmartWatch_V_1/rt-thread/src/mem.c:507-513 | writing inside one live payload disturbs no header and no other live payload |
| HeapStore.InitialStored | SmartWatch_V_1/rt-thread/src/mem.c:233-248 | the headers written by the initialisation describe one free block and the end stub |
| SmallMem.SmallHeap.constructor | SmartWatch_V_1/rt-thread/src/mem.c:204-257 | one free block with its headers for every size that passes the check; it is a sound heap exactly when there is room for a minimal payload |
| SmallMem.BoundWraps | SmartWatch_V_1/rt-thread/src/mem.c:291-311 | the bound of the search, a 32-bit difference, is the true difference exactly when the heap has room for a minimal payload |
| SmallMem.SmallHeap.Search | SmartWatch_V_1/rt-thread/src/mem.c:305-311 | the loop over the headers returns the first eligible block, or runs past the bound exactly when there is none |
| SmallMem.SmallHeap.AdvanceLowest | SmartWatch_V_1/rt-thread/src/mem.c:380-387 | the walk past used blocks ends at the lowest free block |
| SmallMem.SmallHeap.Merge | SmartWatch_V_1/rt-thread/src/mem.c:174-192 | one merge in place, with the cursor moved when it stood on the swallowed block |
| SmallMem.SmallHeap.PlugHoles | SmartWatch_V_1/rt-thread/src/mem.c:156-194 | both merges in place produce the merged layout and keep every live byte |
| SmallMem.SmallHeap.TakeBlock | SmartWatch_V_1/rt-thread/src/mem.c:316-387 | split or use whole, statistics, cursor: the heap is valid, the layout is the carved one, max_mem is the maximum so far |
| SmallMem.RequestIsLeast | SmartWatch_V_1/rt-thread/src/mem.c:289-303 | the size searched for is the least multiple of 4 that is at least 12 and holds the size asked for; a size in the last three bytes below 2^32 wraps and is taken for 12 |
| SmallMem.MallocFinds | SmartWatch_V_1/rt-thread/src/mem.c:275-311 | a block is found exactly when the size is not 0 and some free block holds the size and 12 bytes and is not an exact fit at the end of the heap; it is the first such block in address order |
| SmallMem.MallocGives | SmartWatch_V_1/rt-thread/src/mem.c:305-345 | what is handed out starts where that block did and holds the size asked for exactly when the size does not wrap; it is cut to the least possible payload when the rest can hold a block, else handed out whole |
| SmallMem.SmallHeap.Allocate | SmartWatch_V_1/rt-thread/src/mem.c:272-410 | the search and the taking: first-fit block or RT_NULL with nothing changed; bytes of live blocks are kept |
| SmallMem.SmallHeap.Malloc | SmartWatch_V_1/rt-thread/src/mem.c:272-410 | the same for the caller, in terms of the size: RT_NULL with nothing changed when the size is 0 or no block serves it, else the address of a new live block that holds the size unless that wraps |
| SmallMem.SmallHeap.MarkFree | SmartWatch_V_1/rt-thread/src/mem.c:595-610 | the stores of rt_free before merging: block marked free, cursor and used_mem adjusted |
| SmallMem.SmallHeap.Free | SmartWatch_V_1/rt-thread/src/mem.c:552-615 | frees exactly the block at the given address, ignores NULL and addresses outside the arena, keeps the bytes of all other live blocks |
| SmallMem.SmallHeap.ShrinkBlock | SmartWatch_V_1/rt-thread/src/mem.c:471-504 | the in-place branch of rt_realloc keeps every byte that stays allocated |
| SmallMem.ReallocGives | SmartWatch_V_1/rt-thread/src/mem.c:421-516 | which way a size takes, without the aligned size: 0 and a size that wraps free the block; less than 4 bytes too much is left as it is; from 28 bytes on the block is cut in place; everything else moves to a block that serves the size, or changes nothing when there is none |
| SmallMem.SmallHeap.Realloc | SmartWatch_V_1/rt-thread/src/mem.c:421-516 | every branch: too large, zero, NULL, foreign, same size, shrink in place, move; a move keeps the first min(old, new) bytes, a failed one changes nothing; for the caller: RT_NULL with nothing changed, or the address of a live block that holds the size and starts with the old bytes |
| SmallMem.SmallHeap.MallocThenFree | SmartWatch_V_1/rt-thread/src/mem.c:272-615 | malloc followed by free of the result restores layout, lowest-free cursor, used_mem and all live bytes |
| SmallMem.MoveFacts | SmartWatch_V_1/rt-thread/src/mem.c:507-513 | in a moving realloc the old block is found again after the allocation, and afterwards the live blocks are the old ones with this block replaced by the new one |
| SmallMem.MovedBytes | SmartWatch_V_1/rt-thread/src/mem.c:507-513 | the bytes that arrive in the new block are those the old block held before the call |
| SmallMem.ApplyKeeps | SmartWatch_V_1/rt-thread/src/mem.c:272-615 | every call keeps the heap well formed, and every live block it was not given stays live |
| SmallMem.RunSpares | SmartWatch_V_1/rt-thread/src/mem.c:156-615 | over every run a live block that no call frees or resizes stays live, at the same place and size |
| SmallMem.RunKeeps | SmartWatch_V_1/rt-thread/src/mem.c:156-615 | every run of malloc, free and realloc keeps the heap well formed, and no live block without a payload byte appears |
| SmallMem.NoneEmptyKept | SmartWatch_V_1/rt-thread/src/mem.c:272-615 | no call makes a live block without a payload byte, so that every live block can be named by its address |
| SmallMem.SmallHeap.Perform | SmartWatch_V_1/rt-thread/src/mem.c:272-615 | one call of a run on the arena: the layout is the specified one, and every live block the call was not given keeps its bytes |
| SmallMem.SmallHeap.PerformAll | SmartWatch_V_1/rt-thread/src/mem.c:272-615 | a whole run on the arena: a live block that no call frees or resizes is still there, with every byte it held |
| MemHeapLayout.Request | SmartWatch_V_1/rt-thread/src/memheap.c:191-194 | the adjusted request is aligned, at least RT_MEMHEAP_MINIALLOC, and not below the size asked for unless the alignment wraps |
| MemHeapLayout.RequestIsLeast | SmartWatch_V_1/rt-thread/src/memheap.c:191-194 | it is the least such size, and 12 for a size that wraps |
| MemHeapLayout.FirstFit | SmartWatch_V_1/rt-thread/src/memheap.c:213-224 | the first block in free-ring order that is large enough |
| MemHeapLayout.TakeKeeps | SmartWatch_V_1/rt-thread/src/memheap.c:231-306 | taking a block, split or whole, keeps address order, free ring and byte accounting in step |
| MemHeapLayout.AllocKeeps | SmartWatch_V_1/rt-thread/src/memheap.c:182-336 | every allocation keeps the invariant and hands out a free block that is large enough |
| MemHeapLayout.AllocComplete | SmartWatch_V_1/rt-thread/src/memheap.c:199-227 | an allocation succeeds exactly when the request is strictly below the free bytes and some free block can hold it |
| MemHeapLayout.GrowKeeps | SmartWatch_V_1/rt-thread/src/memheap.c:389-463 | growing into a free successor keeps the invariant when the 32-bit sum of the comparison does not wrap |
| MemHeapLayout.WrappedGrowBreaks | SmartWatch_V_1/rt-thread/src/memheap.c:406-461 | for an adjusted size from 2^32 - 12 on the comparison passes for every free successor, the new header overlaps the header of the block itself, and the invariant is broken |
| MemHeapLayout.ShrinkKeeps | SmartWatch_V_1/rt-thread/src/memheap.c:492-549 | cutting off the end, and joining it with a free successor, keeps the invariant |
| MemHeapLayout.FreeKeeps | SmartWatch_V_1/rt-thread/src/memheap.c:559-667 | freeing with both merges keeps the invariant: tiling up to the tail, no two free neighbours, ring and free blocks equal as sets, available_size the sum of the free payloads |
| MemHeapLayout.FreeOnce | SmartWatch_V_1/rt-thread/src/memheap.c:603-659 | freeing in one step: the freed block and its free neighbours become one free block; without a free predecessor it is the new front of the free ring, and a free successor leaves the ring |
| MemHeapLayout.NewestFirst | SmartWatch_V_1/rt-thread/src/memheap.c:231-306 | the rest of a cut block is the first one the next search looks at; the others keep their order |
| MemHeapLayout.HighWater | SmartWatch_V_1/rt-thread/src/memheap.c:281-411 | max_used_size rises to what is in use after a block is handed out or grown, and never else |
| MemHeapLayout.FreeUndoesTake | SmartWatch_V_1/rt-thread/src/memheap.c:182-667 | freeing what was just allocated restores blocks and available bytes; in the free ring the block moves to the front |
| MemHeapLayout.ReallocKeeps | SmartWatch_V_1/rt-thread/src/memheap.c:339-556 | realloc keeps the invariant exactly when the size is 0, the sum of the comparison does not wrap, or the successor is in use |
| MemHeapLive.LiveApart | SmartWatch_V_1/rt-thread/src/memheap.c:182-336 | live blocks never overlap and lie inside the pool |
| MemHeapLive.AllocLive | SmartWatch_V_1/rt-thread/src/memheap.c:182-336 | an allocation adds one live block, at the free block's address, cut to exactly the adjusted size when the rest can hold a block, else all of it; otherwise nothing changes |
| MemHeapLive.FreeLive | SmartWatch_V_1/rt-thread/src/memheap.c:559-667 | freeing ends the life of exactly its block, whatever it merges with |
| MemHeapLive.ResizeLive | SmartWatch_V_1/rt-thread/src/memheap.c:389-549 | growing and shrinking in place keep the address and give the block exactly the new size; no other live block changes |
| MemHeapLive.ReallocGives | SmartWatch_V_1/rt-thread/src/memheap.c:366-556 | which way an adjusted size takes: a block less than 37 bytes too large stays as it is, a larger one is cut in place; a block too small grows into a free successor when more than 12 bytes of that are left, and moves else, when an allocation finds a place |
| MemHeapLive.ReallocLive | SmartWatch_V_1/rt-thread/src/memheap.c:339-556 | a realloc that meets the condition leaves everything as it was, or replaces the block by one live block that holds the request, in place or where an allocation would put it |
| MemHeapLive.WipeKept | SmartWatch_V_1/rt-thread/src/memheap.c:257-305 | writing a new header inside a block that is free, or given up, disturbs no payload byte of another live block |
| MemHeapLive.CopyKept | SmartWatch_V_1/rt-thread/src/memheap.c:466-470 | copying into a freshly allocated block disturbs no payload byte of another live block |
| MemHeapLive.ApplyLive | SmartWatch_V_1/rt-thread/src/memheap.c:182-667 | no call touches a live block it was not given |
| MemHeapLive.RunSpares | SmartWatch_V_1/rt-thread/src/memheap.c:90-667 | over every run a live block that no call frees or resizes stays live, at the same address and size |
| MemHeapLayout.RunKeeps | SmartWatch_V_1/rt-thread/src/memheap.c:90-667 | every run of alloc, free and realloc, the reallocs meeting that condition, keeps both rings and the accounting |
| MemHeapLayout.InitialInv | SmartWatch_V_1/rt-thread/src/memheap.c:90-165 | the initial pool satisfies the invariant exactly when it has room for a minimal block |
| MemHeap.CutLinks | SmartWatch_V_1/rt-thread/src/memheap.c:257-261 | linking a new header behind a block cuts that block in two in the address ring |
| MemHeap.MergeLinks | SmartWatch_V_1/rt-thread/src/memheap.c:617-641 | unlinking a header merges its block into the one before it |
| MemHeap.Heap.constructor | SmartWatch_V_1/rt-thread/src/memheap.c:90-165 | builds the two rings over the first block and the tail; the heap is sound exactly when there is room for a minimal block |
| MemHeap.Heap.Search | SmartWatch_V_1/rt-thread/src/memheap.c:213-227 | the walk over the free ring finds the first fit, or reaches the ring's head |
| MemHeap.Heap.TakeLinks | SmartWatch_V_1/rt-thread/src/memheap.c:231-306 | the link surgery of an allocation on both rings, and the statistics |
| MemHeap.Heap.TakeFound | SmartWatch_V_1/rt-thread/src/memheap.c:231-306 | the same with the header of the rest: the bytes of all live blocks are kept |
| MemHeap.Heap.Alloc | SmartWatch_V_1/rt-thread/src/memheap.c:182-336 | refines the layout operation; RT_NULL exactly when nothing fits; the bytes of all live blocks are kept |
| MemHeap.Heap.FreeBlock | SmartWatch_V_1/rt-thread/src/memheap.c:603-659 | marking, both merges and the insertion at the front of the free ring refine the layout operation |
| MemHeap.Heap.Free | SmartWatch_V_1/rt-thread/src/memheap.c:559-667 | refines the layout operation; NULL is ignored |
| MemHeap.Heap.GrowLinks | SmartWatch_V_1/rt-thread/src/memheap.c:406-461 | the in-place growth on both rings refines the layout operation, and the heap is sound afterwards exactly when the sum of the comparison did not wrap |
| MemHeap.Heap.GrowBlock | SmartWatch_V_1/rt-thread/src/memheap.c:406-461 | the same with the new header, whose place wraps in 32 bits |
| MemHeap.Heap.ShrinkLinks | SmartWatch_V_1/rt-thread/src/memheap.c:492-555 | the in-place shrinking on both rings refines the layout operation |
| MemHeap.Heap.ShrinkBlock | SmartWatch_V_1/rt-thread/src/memheap.c:492-555 | the same with the new header |
| MemHeap.InPlaceBytes | SmartWatch_V_1/rt-thread/src/memheap.c:389-549 | the ways that keep the block where it is keep its first min(old, new) bytes and all bytes of the other live blocks |
| MemHeap.MovedBytes | SmartWatch_V_1/rt-thread/src/memheap.c:466-470 | allocating, copying and freeing add up: the old bytes arrive in the new block, and the other live blocks keep theirs |
| MemHeap.Heap.MoveBlock | SmartWatch_V_1/rt-thread/src/memheap.c:466-477 | the moving way: what it returns, the layout it leaves, and the bytes that arrive |
| MemHeap.Heap.Resize | SmartWatch_V_1/rt-thread/src/memheap.c:366-556 | which of the ways a block takes for an adjusted size, what is returned, what bytes are kept, and that the heap is sound afterwards exactly under the condition |
| MemHeap.Heap.Realloc | SmartWatch_V_1/rt-thread/src/memheap.c:339-556 | which of the ways a request takes, what it returns and what it leaves, in all cases; the first min(old, new) bytes arrive; the heap is sound afterwards exactly when the size is 0, the sum of the comparison does not wrap, or the successor is in use |
| RtList.Lists.Init | SmartWatch_V_1/rt-thread/include/rtservice.h:47-50 | the node is an empty list |
| RtList.Lists.InsertAfter | SmartWatch_V_1/rt-thread/include/rtservice.h:58-65 | the node joins the list right behind the given place; nodes of other lists keep their links |
| RtList.Lists.InsertBefore | SmartWatch_V_1/rt-thread/include/rtservice.h:73-80 | the node joins the list right before the given place |
| RtList.Lists.Remove | SmartWatch_V_1/rt-thread/include/rtservice.h:86-92 | the node leaves its list, which keeps its order, and is an empty list itself |
| RtList.Lists.IsEmpty | SmartWatch_V_1/rt-thread/include/rtservice.h:98-101 | true exactly for the list without nodes |
| RtList.Lists.Len | SmartWatch_V_1/rt-thread/include/rtservice.h:107-118 | the walk ends and counts the nodes |
| RtList.OtherListKept | SmartWatch_V_1/rt-thread/include/rtservice.h:58-92 | link changes inside one list leave every list with other nodes as it was |
| WaitList.InsertPlace | SmartWatch_V_1/rt-thread/src/ipc.c:122-147 | a thread goes behind every thread at least as urgent up to the first less urgent one |
| WaitList.PlaceOf | SmartWatch_V_1/rt-thread/src/ipc.c:116-148 | FIFO appends; PRIO keeps a sorted list sorted, equals in arrival order |
| WaitList.EnqueueIds | SmartWatch_V_1/rt-thread/src/ipc.c:109-156 | suspending adds exactly this thread to the wait list |
| WaitList.Suspend | SmartWatch_V_1/rt-thread/src/ipc.c:109-156 | the search loop inserts at the specified place |
| Blocking.ResumedInOrder | SmartWatch_V_1/rt-thread/src/ipc.c:109-190 | with RT_IPC_FLAG_FIFO threads are resumed in the order in which they began to wait |
| Blocking.MostUrgentFirst | SmartWatch_V_1/rt-thread/src/ipc.c:109-190 | with RT_IPC_FLAG_PRIO the waiting threads stay sorted over every run of suspensions, resumptions and timeouts, so that the one that is resumed is at least as urgent as every other |
| SemaphoreSpec.StepKeeps | SmartWatch_V_1/rt-thread/src/ipc.c:464-634 | a step keeps the value in range, threads wait only at value 0, and value plus takes equals old value plus releases |
| SemaphoreSpec.PermitsConserved | SmartWatch_V_1/rt-thread/src/ipc.c:464-634 | over every run between resets permits are conserved, a hand-over counting as the waiter's take |
| SemaphoreSpec.TakeOutcome | SmartWatch_V_1/rt-thread/src/ipc.c:464-549 | a take succeeds exactly when there is a permit and takes one; without one it times out at once exactly when it may not wait, and else its thread joins the waiting ones at its place |
| SemaphoreSpec.ReleaseOutcome | SmartWatch_V_1/rt-thread/src/ipc.c:586-634 | a release goes to the thread that waits first; only if none waits the value rises, and only at 65535 the call fails |
| SemaphoreSpec.TimeoutOutcome | SmartWatch_V_1/rt-thread/src/ipc.c:464-549 | a timeout takes only its thread out of the wait list |
| SemaphoreSpec.RunSorted | SmartWatch_V_1/rt-thread/src/ipc.c:464-634 | over every run with RT_IPC_FLAG_PRIO the thread that waits first is at least as urgent as every other |
| Semaphore.Sem.constructor | SmartWatch_V_1/rt-thread/src/ipc.c:283-308 | starts with the low 16 bits of the value and no waiters |
| Semaphore.Sem.Take | SmartWatch_V_1/rt-thread/src/ipc.c:464-549 | take, time out or suspend, as the state machine says |
| Semaphore.Sem.Release | SmartWatch_V_1/rt-thread/src/ipc.c:586-634 | hand over to the first waiter, else raise the value, else report that it is full |
| Semaphore.Sem.Reset | SmartWatch_V_1/rt-thread/src/ipc.c:652-684 | all waiters leave and the value is set |
| MutexSpec.TakeKeeps | SmartWatch_V_1/rt-thread/src/ipc.c:893-1038 | taking, nested taking and waiting keep the mutex safe, with priority inheritance |
| MutexSpec.ReleaseKeeps | SmartWatch_V_1/rt-thread/src/ipc.c:1076-1184 | a release keeps it safe; the final one gives the thread its own priority back, and a hand-over goes to a most urgent waiter |
| MutexSpec.NetStep | SmartWatch_V_1/rt-thread/src/ipc.c:893-1184 | in one step hold changes by the owner's takes minus releases |
| MutexSpec.TakeOutcome | SmartWatch_V_1/rt-thread/src/ipc.c:893-1038 | when a take succeeds, is refused, times out and suspends: the owner takes up to 255 times, nobody else gets an owned mutex; a thread that waits queues at its place, and the owner becomes as urgent if it was less |
| MutexSpec.ReleaseOutcome | SmartWatch_V_1/rt-thread/src/ipc.c:1076-1184 | only the owner can release; with takes left it stays the owner, the last release goes to the thread that waits first, or frees the mutex, and gives the thread its own priority back |
| MutexSpec.TimeoutOutcome | SmartWatch_V_1/rt-thread/src/ipc.c:978-1021 | a timeout takes only its thread out of the wait list; owner and priorities stay |
| MutexSpec.RunKeeps | SmartWatch_V_1/rt-thread/src/ipc.c:893-1184 | over every run: free, unowned and unheld are one; waiters imply an owner at least as urgent as each of them; waiters stay sorted; hold is the owner's net number of takes |
| MutexSpec.TakeExact | SmartWatch_V_1/rt-thread/src/ipc.c:893-1038 | a take keeps the owner's priority exactly the inherited one: its own, or that of the first waiter where that is more urgent |
| MutexSpec.ReleaseExact | SmartWatch_V_1/rt-thread/src/ipc.c:1076-1184 | so does a release, hand-over included |
| MutexSpec.TimeoutExactIff | SmartWatch_V_1/rt-thread/src/ipc.c:978-1021 | a timeout keeps it exact if and only if it is not the first waiter that gives up, or that one was not more urgent than the owner itself, or the next waiter is just as urgent |
| MutexSpec.RunExact | SmartWatch_V_1/rt-thread/src/ipc.c:893-1184 | over every run whose timeouts meet that condition, and so over every run without timeouts, the owner's priority is exactly the inherited one |
| MutexSpec.BoostOutlivesTimeout | SmartWatch_V_1/rt-thread/src/ipc.c:978-1021 | the other case occurs: three steps from a free mutex leave a raised owner and no waiter; the final release still restores it |
| Mutex.Mutex.Take | SmartWatch_V_1/rt-thread/src/ipc.c:893-1038 | the whole new state and the result of a take; the branch that exceeds the hold maximum of a free mutex is dead |
| Mutex.Mutex.Release | SmartWatch_V_1/rt-thread/src/ipc.c:1076-1184 | the whole new state and the result of a release; the value overflow branch is dead |
| EventSpec.ScanLeavesNobody | SmartWatch_V_1/rt-thread/src/ipc.c:1452-1506 | a scan that reaches the end leaves no sleeping thread whose condition the remaining flags meet, although it consumes flags on the way |
| EventSpec.ScanShares | SmartWatch_V_1/rt-thread/src/ipc.c:1452-1506 | the scan shares the threads out in order; a woken AND thread has its whole set, a woken OR thread a non-empty subset of its request |
| EventSpec.ScanTakes | SmartWatch_V_1/rt-thread/src/ipc.c:1492-1500 | the flags left are the old ones minus those taken by CLEAR threads, and no flag goes to a later thread once it was taken |
| EventSpec.ScanOkIff | SmartWatch_V_1/rt-thread/src/ipc.c:1462-1487 | the scan fails exactly when some waiting thread names neither AND nor OR |
| EventSpec.SendWakesAll | SmartWatch_V_1/rt-thread/src/ipc.c:1427-1516 | rt_event_send succeeds exactly for a non-empty set and waiters that all name AND or OR, and then nobody it leaves asleep is satisfied |
| EventSpec.SatisfiedIff | SmartWatch_V_1/rt-thread/src/ipc.c:1584-1593 | flag by flag: an AND thread is satisfied when all flags it names are on, an OR thread when one is |
| EventSpec.RecvGives | SmartWatch_V_1/rt-thread/src/ipc.c:1552-1671 | a receive succeeds at once exactly when its condition is met; flag by flag, it returns those asked for and on, and CLEAR switches off exactly those asked for; else nothing changes, but for the thread that waits at its place if it may |
| EventSpec.NeitherNeverReceives | SmartWatch_V_1/rt-thread/src/ipc.c:1584-1598 | a receive with neither AND nor OR never succeeds |
| EventSpec.SendLeaves | SmartWatch_V_1/rt-thread/src/ipc.c:1440-1506 | flag by flag, what a send leaves: the flags that were on or are sent, but for those that a resumed CLEAR thread took; an empty set changes nothing |
| EventSpec.ScanDelivers | SmartWatch_V_1/rt-thread/src/ipc.c:1452-1506 | each resumed thread was satisfied by the flags left before it, and gets its whole set (AND) or exactly those of its flags that were left (OR) |
| EventSpec.ScanPasses | SmartWatch_V_1/rt-thread/src/ipc.c:1452-1506 | each thread that stays asleep was not satisfied by the flags left when the scan came to it |
| EventSpec.OtherOutcomes | SmartWatch_V_1/rt-thread/src/ipc.c:1689-1717 | a timeout takes only its thread out of the wait list and touches no flag; a reset switches all flags off and lets everybody go |
| EventSpec.StepKeeps | SmartWatch_V_1/rt-thread/src/ipc.c:1427-1671 | every call keeps the invariant that no sleeping thread is satisfied |
| EventSpec.NobodySleepsSatisfied | SmartWatch_V_1/rt-thread/src/ipc.c:1427-1671 | over every run of valid calls no thread sleeps while the flags it waits for are there |
| EventSpec.InvalidWaiterHidesOthers | SmartWatch_V_1/rt-thread/src/ipc.c:1481-1487 | the early return: behind a waiter without AND and OR a satisfied thread is missed, although an earlier one was already resumed |
| Event.Event.Serve | SmartWatch_V_1/rt-thread/src/ipc.c:1455-1501 | one thread of the scan: if its condition is met it takes its flags and leaves the list, otherwise nothing changes |
| Event.Event.SendAny | SmartWatch_V_1/rt-thread/src/ipc.c:1427-1516 | the loop over the wait list, which removes threads while it walks, computes the specified scan for any waiters |
| Event.Event.Send | SmartWatch_V_1/rt-thread/src/ipc.c:1427-1516 | with valid options a send always succeeds and leaves nobody satisfied asleep |
| Event.Event.RecvAny | SmartWatch_V_1/rt-thread/src/ipc.c:1552-1671 | the whole new state and the result of a receive up to the point of suspension, for any option |
| Event.Event.Recv | SmartWatch_V_1/rt-thread/src/ipc.c:1552-1671 | with a valid option, and a thread that does not wait already, the invariant is kept as well |
| Event.Event.Reset | SmartWatch_V_1/rt-thread/src/ipc.c:1689-1717 | all waiters leave and the flags are cleared |
| MailboxSpec.StepKeeps | SmartWatch_V_1/rt-thread/src/ipc.c:1977-2350 | every region keeps: each thread in one place, and no lost wake-up on either side |
| MailboxSpec.NoWakeupEverLost | SmartWatch_V_1/rt-thread/src/ipc.c:1977-2350 | over all interleavings: while receivers sleep the stored mails are at most the resumed receivers still to run, and symmetrically for senders and free slots |
| MailboxSpec.UrgentIsNext | SmartWatch_V_1/rt-thread/src/ipc.c:2148-2200 | an urgent mail is what the next receive returns, and the mails before it are then as they were; a full mailbox refuses it |
| MailboxSpec.SendOutcome | SmartWatch_V_1/rt-thread/src/ipc.c:1977-2104 | a send stores its mail exactly when there is room, fails at once exactly when there is none and it may not wait, and else joins the senders at its place; a stored mail resumes the receiver that waits first, and nothing else changes |
| MailboxSpec.UrgentOutcome | SmartWatch_V_1/rt-thread/src/ipc.c:2148-2200 | an urgent send stores its mail in front exactly when there is room, and never waits |
| MailboxSpec.RecvOutcome | SmartWatch_V_1/rt-thread/src/ipc.c:2222-2350 | a receive takes the first mail exactly when there is one, times out exactly when there is none and it may not wait, and else joins the receivers; a taken mail resumes the sender that waits first |
| MailboxSpec.OtherOutcomes | SmartWatch_V_1/rt-thread/src/ipc.c:1977-2400 | a retry does what the call does; a timeout takes only its thread out of the wait lists; a reset empties the mailbox and lets all sleepers go, but not the resumed threads that are still to run |
| MailboxSpec.RunIsDeque | SmartWatch_V_1/rt-thread/src/ipc.c:1977-2400 | over every run, urgent mails and resets included, the mails stored and the mails received in order are those of a deque bounded by the size, given by the calls alone: push back, push front, pop front and clear |
| MailboxSpec.FirstInFirstOut | SmartWatch_V_1/rt-thread/src/ipc.c:1977-2350 | so that without urgent sends and resets what was stored and sent is what was received and is stored, in order |
| Mailbox.PushBack | SmartWatch_V_1/rt-thread/src/ipc.c:2069-2080 | storing at the input offset appends to the ring's contents, wrap-around included |
| Mailbox.PushFront | SmartWatch_V_1/rt-thread/src/ipc.c:2167-2181 | stepping the output offset back and storing there puts the mail in front |
| Mailbox.PopFront | SmartWatch_V_1/rt-thread/src/ipc.c:2315-2327 | reading at the output offset takes the oldest mail |
| Mailbox.Mbox.constructor | SmartWatch_V_1/rt-thread/src/ipc.c:1769-1797 | an empty ring with no waiters; the size keeps 16 bits |
| Mailbox.Mbox.SendLook | SmartWatch_V_1/rt-thread/src/ipc.c:1997-2103 | one look of a sender: full and no wait, suspend, or store and resume a receiver; the entry overflow branch is dead |
| Mailbox.Mbox.Send | SmartWatch_V_1/rt-thread/src/ipc.c:1977-2104 | a first look keeps the invariant and is the specified step |
| Mailbox.Mbox.SendAgain | SmartWatch_V_1/rt-thread/src/ipc.c:2049-2104 | a resumed sender's look keeps the invariant and is the specified step |
| Mailbox.Mbox.Urgent | SmartWatch_V_1/rt-thread/src/ipc.c:2148-2200 | the mail goes to the front or the call reports a full mailbox |
| Mailbox.Mbox.Recv | SmartWatch_V_1/rt-thread/src/ipc.c:2222-2350 | a first look of a receiver is the specified step |
| Mailbox.Mbox.RecvAgain | SmartWatch_V_1/rt-thread/src/ipc.c:2295-2350 | a resumed receiver's look is the specified step |
| Mailbox.Mbox.Reset | SmartWatch_V_1/rt-thread/src/ipc.c:2368-2400 | all sleepers leave and the ring is empty |
| MessageQueueSpec.StepKeeps | SmartWatch_V_1/rt-thread/src/ipc.c:2721-3244 | every region and every copied byte keeps: nodes conserved, held nodes private, bytes in place, no lost wake-up |
| MessageQueueSpec.RunKeeps | SmartWatch_V_1/rt-thread/src/ipc.c:2721-3244 | over every interleaving the same, and the lists never outgrow the pool, so entry cannot overflow |
| MessageQueueSpec.NeverTooMany | SmartWatch_V_1/rt-thread/src/ipc.c:2851-2860 | while a node is held there is room for it on the list: the RT_MQ_ENTRY_MAX branches are unreachable |
| MessageQueueSpec.AcquireKeeps | SmartWatch_V_1/rt-thread/src/ipc.c:2748-2826 | popping a free node, or suspending, keeps the invariant |
| MessageQueueSpec.LinkKeeps | SmartWatch_V_1/rt-thread/src/ipc.c:2836-2879 | linking the filled node keeps the invariant |
| MessageQueueSpec.TakeKeeps | SmartWatch_V_1/rt-thread/src/ipc.c:3053-3143 | popping the first message, or suspending, keeps the invariant |
| MessageQueueSpec.ReleaseKeeps | SmartWatch_V_1/rt-thread/src/ipc.c:3151-3177 | giving the node back keeps the invariant |
| MessageQueueSpec.ResetConserves | SmartWatch_V_1/rt-thread/src/ipc.c:3205-3233 | reset moves every queued node to the free list and loses none, whatever is in flight |
| MessageQueueSpec.AcquireOutcome | SmartWatch_V_1/rt-thread/src/ipc.c:2721-2826 | a send gets a node exactly when the message is not too long and a node is free; without one it fails at once exactly when it is urgent or may not wait, and else joins the senders at its place |
| MessageQueueSpec.TakeOutcome | SmartWatch_V_1/rt-thread/src/ipc.c:3031-3143 | a receive gets the first message exactly when there is one, times out exactly when there is none and it may not wait, and else joins the receivers |
| MessageQueueSpec.OtherOutcomes | SmartWatch_V_1/rt-thread/src/ipc.c:2836-3244 | a linked message resumes the receiver that waits first, a freed node the sender; a timeout takes only its thread out of the wait lists; a reset leaves alone what is in flight and who is still to run |
| MessageQueueSpec.RunRemembers | SmartWatch_V_1/rt-thread/src/ipc.c:2721-3177 | over every run what is in flight belongs to the last call of its thread: a node that is filled gets the data of that call and goes to the front exactly for rt_mq_urgent; a receiver reads as many bytes as the call asked for, at most a whole message |
| MessageQueueSpec.RunDelivers | SmartWatch_V_1/rt-thread/src/ipc.c:3031-3177 | over every run what a receiver has at its second region is as long as its call asked for, or a whole message if that is shorter, and begins with the bytes the sender wrote |
| MessageQueueSpec.ReceivesFirst | SmartWatch_V_1/rt-thread/src/ipc.c:3031-3177 | from the call to its end, through any interleaving: a receive made while a message is queued ends with the first bytes of the message that was first, as many as were asked for |
| MessageQueueSpec.BytesArrive | SmartWatch_V_1/rt-thread/src/ipc.c:3148-3149 | the bytes a receiver has read are those of its message, up to the smaller of the two lengths |
| MessageQueueSpec.UrgentJumps | SmartWatch_V_1/rt-thread/src/ipc.c:2972-2984 | an urgent message is the one the next receive takes |
| MessageQueueSpec.RunIsDeque | SmartWatch_V_1/rt-thread/src/ipc.c:2836-3244 | over every run, urgent messages and resets included, the messages queued and the messages taken in order are those of a deque, given by the calls and by the order in which they link and take |
| MessageQueueSpec.FirstLinkedFirstTaken | SmartWatch_V_1/rt-thread/src/ipc.c:2836-3143 | so that without urgent messages and resets messages are taken in the order in which they were linked |
| MessageQueueSpec.InitialInv | SmartWatch_V_1/rt-thread/src/ipc.c:2490-2505 | the initial queue satisfies the invariant |
| MessageQueue.Queue.constructor | SmartWatch_V_1/rt-thread/src/ipc.c:2461-2511 | sizes, the free list built by the loop, empty message list |
| MessageQueue.MsgSizeHolds | SmartWatch_V_1/rt-thread/src/ipc.c:2487 | the stored message size is the least multiple of 4 that holds a message, exactly up to 65532 bytes; from there on the 16 bits make it smaller |
| MessageQueue.MaxMsgsFit | SmartWatch_V_1/rt-thread/src/ipc.c:2488 | the messages fit into the pool with their headers, and one more does exactly when the 16 bits cannot count them |
| MessageQueue.BackLinks | SmartWatch_V_1/rt-thread/src/ipc.c:2832-2849 | the stores that link a node behind the tail keep both lists, an empty list included |
| MessageQueue.Queue.AppendNode | SmartWatch_V_1/rt-thread/src/ipc.c:2832-2860 | the node is the new tail; the overflow branch is dead |
| MessageQueue.Queue.PrependNode | SmartWatch_V_1/rt-thread/src/ipc.c:2969-2989 | the node is the new head, and the tail too if the list was empty |
| MessageQueue.Queue.Send | SmartWatch_V_1/rt-thread/src/ipc.c:2721-2826 | a first look of a sender is the specified step on the linked lists |
| MessageQueue.Queue.SendAgain | SmartWatch_V_1/rt-thread/src/ipc.c:2805-2826 | a resumed sender's look is the specified step |
| MessageQueue.Queue.Urgent | SmartWatch_V_1/rt-thread/src/ipc.c:2930-2961 | an urgent send takes a node or reports a full queue |
| MessageQueue.Queue.CopyByteIn | SmartWatch_V_1/rt-thread/src/ipc.c:2833-2834 | one byte into the held node |
| MessageQueue.Queue.LinkBack | SmartWatch_V_1/rt-thread/src/ipc.c:2836-2878 | the second region of a send |
| MessageQueue.Queue.LinkFront | SmartWatch_V_1/rt-thread/src/ipc.c:2969-3007 | the second region of an urgent send |
| MessageQueue.Queue.Recv | SmartWatch_V_1/rt-thread/src/ipc.c:3031-3143 | a first look of a receiver is the specified step; head and tail are cleared together |
| MessageQueue.Queue.RecvAgain | SmartWatch_V_1/rt-thread/src/ipc.c:3110-3143 | a resumed receiver's look is the specified step |
| MessageQueue.Queue.CopyByteOut | SmartWatch_V_1/rt-thread/src/ipc.c:3148-3149 | one byte out of the held node |
| MessageQueue.Queue.Release | SmartWatch_V_1/rt-thread/src/ipc.c:3151-3177 | the second region of a receive |
| MessageQueue.Queue.Reset | SmartWatch_V_1/rt-thread/src/ipc.c:3196-3244 | the loop frees the queued nodes one by one |
| MessageQueue.Queue.HeadAndTail | SmartWatch_V_1/rt-thread/src/ipc.c:3133-3137 | head is NULL exactly when tail is, and both exactly when entry is 0 |
| MemPoolSpec.StepKeeps | SmartWatch_V_1/rt-thread/src/mempool.c:303-449 | every region keeps: each block on the free list once or handed out, and no lost wake-up |
| MemPoolSpec.RunKeeps | SmartWatch_V_1/rt-thread/src/mempool.c:303-449 | over every run; free and handed-out blocks add up to the pool, and when no resumed thread is left to run a thread sleeps only if every block is handed out |
| MemPoolSpec.AllocThenFree | SmartWatch_V_1/rt-thread/src/mempool.c:371-382 | an allocation hands out a block nobody has, exactly when one is free, and freeing it restores the free list |
| MemPoolSpec.AllocOutcome | SmartWatch_V_1/rt-thread/src/mempool.c:317-391 | an allocation gets the first free block exactly when there is one, fails at once exactly when there is none and it may not wait, and else its thread goes in front of those that wait |
| MemPoolSpec.OtherOutcomes | SmartWatch_V_1/rt-thread/src/mempool.c:399-449 | a free gives its block back and resumes the thread in front; a timeout takes only its thread out of the wait list; a retry does what an allocation does |
| MemPoolSpec.LastComesFirst | SmartWatch_V_1/rt-thread/src/mempool.c:336-436 | the thread that began to wait last is the one a free resumes; a first-in-first-out list would resume the same one exactly when nobody else waits |
| MemPoolSpec.InitialInv | SmartWatch_V_1/rt-thread/src/mempool.c:110-121 | the list that the initialisation builds satisfies the invariant |
| MemPool.BlocksFit | SmartWatch_V_1/rt-thread/src/mempool.c:96-104 | blocks lie inside the pool, aligned, apart from each other and from the pointers in front of them, and no further block fits |
| MemPool.StrideIsLeast | SmartWatch_V_1/rt-thread/src/mempool.c:100-104 | blocks are as close as the alignment allows |
| MemPool.TotalFits | SmartWatch_V_1/rt-thread/src/mempool.c:97-104 | the pool has as many blocks as fit, with their pointers, into the bytes it was given |
| MemPool.LastLink | SmartWatch_V_1/rt-thread/src/mempool.c:100-121 | the last store of the initialisation lies inside the pool exactly when the pool has room for a block |
| MemPool.MemPool.constructor | SmartWatch_V_1/rt-thread/src/mempool.c:77-124 | with such room the loop links all blocks in address order |
| MemPool.MemPool.AllocLook | SmartWatch_V_1/rt-thread/src/mempool.c:317-391 | one look at the pool: pop the list and mark the block with the pool, or fail, or suspend at the front of the wait list |
| MemPool.MemPool.Alloc | SmartWatch_V_1/rt-thread/src/mempool.c:303-391 | a first look; the block handed out was free and its header names this pool |
| MemPool.MemPool.AllocAgain | SmartWatch_V_1/rt-thread/src/mempool.c:358-391 | a resumed allocator's look |
| MemPool.MemPool.Put | SmartWatch_V_1/rt-thread/src/mempool.c:415-449 | the block goes to the front of the free list and the first sleeper is resumed |
| MemPool.Free | SmartWatch_V_1/rt-thread/src/mempool.c:399-449 | the header of a handed-out block leads back to the pool that handed it out; NULL is ignored |
| MemPool.FreeLeavesOthers | SmartWatch_V_1/rt-thread/src/mempool.c:399-449 | freeing into one pool leaves every other pool as it was |
| SchedulerSpec.HighestFacts | SmartWatch_V_1/rt-thread/src/scheduler.c:157-179 | the list that find-first-set selects is not empty, and no ready thread is more urgent |
| SchedulerSpec.NothingReady | SmartWatch_V_1/rt-thread/src/scheduler.c:426 | when no bit is set no thread is ready |
| SchedulerSpec.InsertKeeps | SmartWatch_V_1/rt-thread/src/scheduler.c:707-741 | inserting keeps bit p set exactly when list p is not empty, and every ready thread in exactly the list of its priority |
| SchedulerSpec.RemoveKeeps | SmartWatch_V_1/rt-thread/src/scheduler.c:804-834 | removing, with the mask cleared when the list becomes empty, keeps the same |
| SchedulerSpec.SwitchKeeps | SmartWatch_V_1/rt-thread/src/scheduler.c:450-465 | a switch keeps the invariant and the chosen thread runs |
| SchedulerSpec.SwitchEffect | SmartWatch_V_1/rt-thread/src/scheduler.c:450-465 | a thread that is switched away while running goes to the end of its list; the chosen one leaves its list; all else is as before |
| SchedulerSpec.ScheduleKeeps | SmartWatch_V_1/rt-thread/src/scheduler.c:412-535 | rt_schedule keeps the invariant; locked, or with nothing ready, it changes nothing |
| SchedulerSpec.ScheduleIsRight | SmartWatch_V_1/rt-thread/src/scheduler.c:412-535 | afterwards the running thread is at least as urgent as every ready one, and a running thread keeps the processor exactly when it is more urgent than all, or as urgent as the best and not yielding |
| SchedulerSpec.StepKeeps | SmartWatch_V_1/rt-thread/src/scheduler.c:412-535 | every call keeps the invariant |
| SchedulerSpec.RunKeeps | SmartWatch_V_1/rt-thread/src/scheduler.c:412-834 | every run keeps the invariant |
| SchedulerSpec.StepPlace | SmartWatch_V_1/rt-thread/src/scheduler.c:431-465 | a waiting thread is picked only as the first of its list, otherwise nobody comes in front of it; who goes from there runs now, or the call suspended it or changed its priority |
| SchedulerSpec.NeverMovedBack | SmartWatch_V_1/rt-thread/src/scheduler.c:431-465 | over every run the position of a waiting thread that is left alone never grows |
| SchedulerSpec.TurnComes | SmartWatch_V_1/rt-thread/src/scheduler.c:431-465 | over every run, before such a thread runs every thread in front of it has run, or some call suspended it or changed its priority |
| SchedulerSpec.InitialInv | SmartWatch_V_1/rt-thread/src/scheduler.c:186-225 | empty lists, an empty group and one running thread satisfy the invariant |
| Scheduler.Scheduler.constructor | SmartWatch_V_1/rt-thread/src/scheduler.c:186-225 | the loop empties all 32 lists |
| Scheduler.Scheduler.InsertThread | SmartWatch_V_1/rt-thread/src/scheduler.c:707-741 | the list, the bit and the state of the inserted thread; the current thread just runs |
| Scheduler.Scheduler.RemoveThread | SmartWatch_V_1/rt-thread/src/scheduler.c:804-834 | the list without the thread, the bit cleared when it was the last |
| Scheduler.Scheduler.SwitchTo | SmartWatch_V_1/rt-thread/src/scheduler.c:450-465 | the order of the stores yields the specified switch |
| Scheduler.Scheduler.Schedule | SmartWatch_V_1/rt-thread/src/scheduler.c:412-535 | refines the specified step and ends with the most urgent thread running |
| Scheduler.Scheduler.Stay | SmartWatch_V_1/rt-thread/src/scheduler.c:522-526 | removing a current thread that is in no list changes nothing but its yield flag |
| SchedulerSpec.LockIsDepth | SmartWatch_V_1/rt-thread/src/scheduler.c:880-969 | over every run the lock count is the nesting depth that the entries and exits alone give, whatever else happens |
| SchedulerSpec.NestedDepth | SmartWatch_V_1/rt-thread/src/scheduler.c:880-969 | n entries and k exits leave n - k sections open |
| SchedulerSpec.SectionsNest | SmartWatch_V_1/rt-thread/src/scheduler.c:880-969 | a run that closes what it opens does the same inside any other nesting |
| SchedulerSpec.LockedStays | SmartWatch_V_1/rt-thread/src/scheduler.c:412-969 | while a section is open nothing takes the processor away from the current thread, and only the calls that suspend, resume or change a thread touch the ready lists |
| SchedulerSpec.LastExitSchedules | SmartWatch_V_1/rt-thread/src/scheduler.c:944-969 | with n sections open the first n - 1 calls of rt_exit_critical only count, and the n-th one, and no earlier one, reschedules |
| Scheduler.Scheduler.EnterCritical | SmartWatch_V_1/rt-thread/src/scheduler.c:880-895 | one more lock level |
| Scheduler.Scheduler.LeaveCritical | SmartWatch_V_1/rt-thread/src/scheduler.c:948-955 | the region of the call: one level less, never below 0, and unlocked exactly when at most one level was left |
| Scheduler.Scheduler.ExitCritical | SmartWatch_V_1/rt-thread/src/scheduler.c:944-969 | with more than one level only the count changes; with the last one a schedule follows |
| SchedulerSpec.SliceLasts | SmartWatch_V_1/rt-thread/src/clock.c:69-83 | a slice lasts exactly as many ticks as are left of it: until then only the count changes, and the last tick renews the slice and marks the thread as yielding |
| SchedulerSpec.EmptySliceLasts | SmartWatch_V_1/rt-thread/src/clock.c:69-83 | a slice of 0 ticks wraps and lasts 2^32 of them |
| SchedulerSpec.GapKeeps | SmartWatch_V_1/rt-thread/src/clock.c:85-86 | whatever interrupts do between the last tick and its rt_schedule, short of rescheduling or naming the thread: it is still the current one, running and marked |
| SchedulerSpec.SliceExpires | SmartWatch_V_1/rt-thread/src/clock.c:78-89 | after any such gap rt_schedule, with a ready peer and nothing more urgent, lets the first peer run and puts the thread behind all of them, its flag cleared; without a gap with its whole new slice |
| SchedulerSpec.EveryPeerFirst | SmartWatch_V_1/rt-thread/src/clock.c:78-89 | round robin over every run after any such gap: the thread does not run again before every peer that is ready at the rt_schedule has run, or was suspended or had its priority changed by a call |
| SchedulerSpec.TickKeeps | SmartWatch_V_1/rt-thread/src/clock.c:69-83 | the region of a tick keeps the invariant |
| Scheduler.Scheduler.CountTick | SmartWatch_V_1/rt-thread/src/clock.c:69-83 | the region counts the slice down, with 32-bit wrap-around, renews it when it ends, and says whether it ended |
| Scheduler.Scheduler.TickIncrease | SmartWatch_V_1/rt-thread/src/clock.c:63-97 | the region, then a schedule exactly when the slice ended |
| SchedulerSpec.MarkedGivesWay | SmartWatch_V_1/rt-thread/src/thread.c:517-521 | a thread marked as yielding gives the processor to its first peer at the next rt_schedule and goes behind all of them |
| SchedulerSpec.YieldRotates | SmartWatch_V_1/rt-thread/src/thread.c:511-525 | yielding does so at once, with a new slice |
| SchedulerSpec.YieldKeeps | SmartWatch_V_1/rt-thread/src/thread.c:511-525 | yielding keeps the invariant |
| SchedulerSpec.SuspendEffect | SmartWatch_V_1/rt-thread/src/thread.c:782-820 | a suspended thread is in no list; order and state of all others are as before |
| SchedulerSpec.ResumeEffect | SmartWatch_V_1/rt-thread/src/thread.c:831-862 | a resumed thread waits behind everyone ready with its priority, in their order, and no waiting thread gets another in front of it; the current thread just runs on |
| SchedulerSpec.ChangeEffect | SmartWatch_V_1/rt-thread/src/thread.c:679-722 | a ready thread goes to the end of its new list, also when its priority stays the same; for others only the number changes |
| SchedulerSpec.SuspendKeeps | SmartWatch_V_1/rt-thread/src/thread.c:782-820 | suspending a ready or running thread keeps the invariant, any other is refused |
| SchedulerSpec.ResumeKeeps | SmartWatch_V_1/rt-thread/src/thread.c:831-862 | resuming a suspended thread keeps the invariant, any other is refused |
| SchedulerSpec.ChangeKeeps | SmartWatch_V_1/rt-thread/src/thread.c:679-722 | changing a priority keeps the invariant: a ready thread is requeued, others only store it |
| Scheduler.Scheduler.Yield | SmartWatch_V_1/rt-thread/src/thread.c:511-525 | a new slice, the yield flag, and a schedule |
| Scheduler.Scheduler.Suspend | SmartWatch_V_1/rt-thread/src/thread.c:782-820 | the whole new state, and -RT_ERROR exactly for threads neither ready nor running |
| Scheduler.Scheduler.Resume | SmartWatch_V_1/rt-thread/src/thread.c:831-862 | the whole new state, and -RT_ERROR exactly for threads that are not suspended |
| Scheduler.Scheduler.ChangePriority | SmartWatch_V_1/rt-thread/src/thread.c:679-722 | the whole new state |
| FirstSet.FfsIsLowest | SmartWatch_V_1/rt-thread/src/kservice.c:1290-1334 | for every 32-bit value the result is one plus the number of the lowest set bit, and 0 for 0 |
| FirstSet.ByteEntry | SmartWatch_V_1/rt-thread/src/kservice.c:1290-1308 | every entry of the table names the lowest set bit of its index |
| FormatSpec.NumberWidth | SmartWatch_V_1/rt-thread/src/kservice.c:651-782 | how wide a number prints: the field, or sign and digits or precision where they need more; with precision 0 the digits are missing |
| FormatSpec.NumberShape | SmartWatch_V_1/rt-thread/src/kservice.c:651-782 | the place of blanks, sign, zeros and digits for every combination of flags, width and precision |
| FormatSpec.PlainFormat | SmartWatch_V_1/rt-thread/src/kservice.c:818-826 | a format without directives prints itself |
| FormatLaws.NumberReads | SmartWatch_V_1/rt-thread/src/kservice.c:614-783 | what print_number prints: blanks, sign, zeros, digits and blanks that fill the field, the digits meaning the absolute or the unsigned value, in the right case and without leading zeros |
| FormatLaws.SignedLetter | SmartWatch_V_1/rt-thread/src/kservice.c:986-1032 | %d and %i: a '-' exactly when the argument, of 32 bits or with h of 16, is negative, and the digits of its absolute value in base 10; one argument |
| FormatLaws.UnsignedLetter | SmartWatch_V_1/rt-thread/src/kservice.c:976-1032 | %u, %x, %X and %o: the digits of the unsigned argument without a sign, in base 10 for %u and 16 for the others, in capitals for %X; one argument |
| FormatLaws.PointerLetter | SmartWatch_V_1/rt-thread/src/kservice.c:953-968 | %p: the digits of all 32 bits in base 16, in a field of eight zeros if no width is given; one argument |
| FormatLaws.CharLetter | SmartWatch_V_1/rt-thread/src/kservice.c:898-919 | %c: the character of the low 8 bits, and blanks on the other side; one argument |
| FormatLaws.StringLetter | SmartWatch_V_1/rt-thread/src/kservice.c:921-951 | %s: the string, or (NULL) for a null pointer, as many characters as width and precision allow, and blanks on the other side; one argument |
| FormatLaws.OtherLetter | SmartWatch_V_1/rt-thread/src/kservice.c:970-1005 | %% prints one percent sign, an unknown letter prints itself behind one; neither takes an argument, and every other letter takes one |
| FormatLaws.WrittenIsRead | SmartWatch_V_1/rt-thread/src/kservice.c:828-891 | round trip: a directive that is written down anywhere is read back as it is meant: each flag character sets exactly its flag, width and precision are the written numbers or the next arguments with their signs, the qualifier and the letter follow |
| FormatLaws.FormatPieces | SmartWatch_V_1/rt-thread/src/kservice.c:818-1032 | a format prints what its pieces print: plain text as it is, every directive as it is meant, the arguments in order |
| FormatLaws.TextDirectiveText | SmartWatch_V_1/rt-thread/src/kservice.c:818-1032 | text, one directive, text |
| FormatLaws.DecimalInText | SmartWatch_V_1/rt-thread/src/kservice.c:818-1032 | %d between two texts prints the first text, a '-' exactly for a negative argument, its digits, the second text |
| FormatLaws.LonePercent | SmartWatch_V_1/rt-thread/src/kservice.c:992-1004 | a percent sign that ends the format prints itself |
| FormatSpec.AtMostTenDigits | SmartWatch_V_1/rt-thread/src/kservice.c:642-691 | a 32-bit number has at most ten digits, so tmp[16] is never overrun |
| FormatSpec.DigitsMean | SmartWatch_V_1/rt-thread/src/kservice.c:684-691 | the digits mean the number they were printed from, in base 10 and 16, in either case |
| FormatSpec.PrintThenRead | SmartWatch_V_1/rt-thread/src/kservice.c:596-603 | what is printed in base 10, plain or zero padded, is read back: the number comes out and exactly the printed characters are consumed |
| FormatSpec.AtoiOverflowIff | SmartWatch_V_1/rt-thread/src/kservice.c:596-603 | reading a number stays within an int at every step exactly when the number plus the character '0' is below 2^31 |
| FormatSpec.OctalIsHex | SmartWatch_V_1/rt-thread/src/kservice.c:576-593 | base 8 prints hexadecimal digits, which are the octal ones exactly for numbers below 8 |
| FormatSpec.OctalMeans | SmartWatch_V_1/rt-thread/src/kservice.c:576-593 | the octal digits it is compared with mean the number |
| FormatSpec.CharWidth | SmartWatch_V_1/rt-thread/src/kservice.c:898-919 | %c fills its field, or prints one character |
| FormatSpec.StringShape | SmartWatch_V_1/rt-thread/src/kservice.c:921-951 | %s prints the first characters of the string, as many as neither the width nor a positive precision cuts off, and fills its field with blanks on the other side |
| FormatSpec.StringWhole | SmartWatch_V_1/rt-thread/src/kservice.c:921-951 | the whole string is printed exactly when neither the width nor a positive precision is shorter than it |
| Printf.EmitTwice | SmartWatch_V_1/rt-thread/src/kservice.c:614-783 | writing two texts one after the other is writing their concatenation, wherever the buffer ends |
| Printf.Divide | SmartWatch_V_1/rt-thread/src/kservice.c:576-593 | the lowest digit and the rest of the number taken as unsigned |
| Printf.StoreDigits | SmartWatch_V_1/rt-thread/src/kservice.c:684-691 | the digit loop leaves the digits of the number in tmp, lowest first, and never passes its end |
| Printf.PrintNumber | SmartWatch_V_1/rt-thread/src/kservice.c:614-783 | all padding loops together print the specified number and count every character |
| Printf.PrintChar | SmartWatch_V_1/rt-thread/src/kservice.c:898-919 | %c with padding on either side |
| Printf.PrintString | SmartWatch_V_1/rt-thread/src/kservice.c:921-951 | %s: the field width also cuts the string, precision 0 does not |
| Printf.SkipAtoi | SmartWatch_V_1/rt-thread/src/kservice.c:596-603 | the loop computes the specified value and position |
| Printf.ReadFlags | SmartWatch_V_1/rt-thread/src/kservice.c:828-841 | the flag loop |
| Printf.ReadDirective | SmartWatch_V_1/rt-thread/src/kservice.c:828-891 | flags, width, precision and qualifier, arguments taken by * included |
| Printf.PrintDirective | SmartWatch_V_1/rt-thread/src/kservice.c:893-1032 | every conversion letter prints what is specified and takes the right number of arguments |
| Printf.SizeLeft | SmartWatch_V_1/rt-thread/src/kservice.c:808-816 | the size that is worked with is the size asked for as long as the buffer ends below the top of the address space, else all that is left below the last address |
| Printf.Vsnprintf | SmartWatch_V_1/rt-thread/src/kservice.c:785-1048 | exact truncation, with the size that is left below the top of the address space: the buffer holds the unbounded output cut to one character less and a NUL, nothing behind the NUL changes, nothing at all for size 0, and the result is the length of the unbounded output |
| Printf.Vsprintf | SmartWatch_V_1/rt-thread/src/kservice.c:1078-1081 | with the largest size the output is whole, unless it ends right below the last address and loses its last character |
| Memory.ForwardIsMove | SmartWatch_V_1/rt-thread/src/kservice.c:272-273 | a copy from the low end is right for every contents exactly when the destination does not begin inside the source behind its first byte |
| Memory.MemMove | SmartWatch_V_1/rt-thread/src/kservice.c:296-315 | any two areas, overlapping or not: the bytes arrive as if through a buffer and nothing else changes |
| Memory.WordIsBytes | SmartWatch_V_1/rt-thread/src/kservice.c:250-265 | copying an aligned word is copying its four bytes |
| Memory.MemCpy | SmartWatch_V_1/rt-thread/src/kservice.c:211-281 | the word and byte loops together are a copy byte by byte from the low end |
| Memory.AlignedPlace | SmartWatch_V_1/rt-thread/src/kservice.c:1240-1267 | the returned address is the next aligned one behind the block's address, and the word stored in front of it lies inside the block; the caller's bytes do exactly when the 32-bit sum that is asked of rt_malloc does not wrap |

## Left out

- The branch of `rt_system_heap_init` that reports a range too small for two headers and leaves no heap: the model starts from aligned bounds that pass it.
- MemPool.MemPool.constructor: a pool without room for a block is excluded, because the initialisation then stores in front of the pool (`LastLink`).
- MemHeap.Heap.constructor: pools below 48 bytes are excluded, because the first header and that of the tail then overlap; for pools below 60 bytes the heap is built but is not sound.
- Calls on a heap too small for one minimal block: the initialisation is modelled and says that such a heap is not sound; the calls ask for a sound one.
- Block sizes of a memory pool within 3 bytes of 2^32, where alignment wraps. For the heaps and for aligned allocation the wrap is modelled.
- Locks of the heaps (`heap_sem`, the memheap's semaphore): a heap call is one atomic step; `rt_realloc` calls malloc and free in between without a lock of its own.
- `rt_calloc`, `rt_memset`, heap statistics and listing commands: simple uses of what is modelled.
- The list of several memheaps behind one `rt_malloc`. What a memheap does after a `rt_memheap_realloc` that has broken it: the rings are then not rings any more.
- Double free, foreign pointers into the arena and stores beyond a payload: excluded by preconditions, as the source assumes.
- The magic numbers in the headers of `mem.c`: they are compared only in assertions that are compiled out and for a printed complaint. In `memheap.c` the magic is modelled as far as it says used or free.
- Timers: a timeout is a step that may happen to any waiting thread at any time; recomputing the remaining time is a free choice of the retry step.
- Detaching, deleting and creating objects, the object registry, and try variants that only pass a zero timeout.
- Mutexes held together: restoring a priority per mutex does not keep the single-mutex invariant when several are nested.
- Priorities that change while a thread waits on another object: a wait list keeps the priority with which the thread was queued.
- Wait and ready lists inside the kernel objects are sequences; that the linked list of `rtservice.h` behaves as a sequence is proved once, in RtList.
- `rt_thread_timeout`, `rt_thread_startup` and `rt_thread_sleep` as calls of their own: each is a resume or a suspension followed by a schedule, and runs contain these steps.
- Other users of a thread's list node, signals, and the SMP variants of the scheduler.
- Stack switching, interrupt nesting and `rt_current_priority`, which no other code reads.
- `rt_tick` itself and the conversion of milliseconds to ticks.
- Critical sections nested deeper than an rt_int16_t counts.
- Printf.Vsnprintf: outputs that run past the top of the address space are excluded; widths too large for an int (`AtoiOverflowIff`) are read as unbounded numbers.
- Memory.MemCpy: for unaligned counts from 2^31 on the source decrements an int below its least value; the model takes that to wrap, which the C language leaves open.
- Long long arguments and the "0x" prefix: compiled out.
- Memory.AlignedPlace: covers the addresses; that `& (align - 1)` is a remainder presumes an alignment that is a power of two.
- Device layer, board and driver code, console, shell commands, display and sensor applications.
