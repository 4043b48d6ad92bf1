# RT-Thread kernel and FreeModbus RTU: a verified model

A Dafny model of the three parts of the repository that carry its hardest promises: the RT-Thread
memory allocators, the RT-Thread kernel core, and the FreeModbus RTU stack with its master mode.
`dafny verify dfyconfig.toml` checks the whole project.

Code that changes state in place is modelled by classes whose methods do the same stores, loops and
branches, and each method is proved to do what a pure specification says; what the code is for is then
proved about the specification, over every input or every reachable state of every run.

**Allocators.** `Tiling` (block lists, their byte totals, and the edits all heaps are made of),
`Payload` (the callers' bytes), `SmallHeapSpec`/`SmallHeap` (`mem.c`: headers at offsets inside the
heap array), `MemHeapSpec`/`MemHeap` (`memheap.c`: a ring of blocks and a circular free list, both
inside the pool), `Extents`, `SmallHeapExact` and `MemHeapExact` (what each call does to the used blocks,
exactly), `PageHeapSpec`/`PageHeap` (the page allocator of `slab.c`).

**Kernel.** `RtList` (the doubly linked rings), `TimerSpec`/`TimerRows`/`Timers` (the skip list over
wrapping ticks, refining an unbounded clock), `MessageQueueSpec`/`MessageQueue`,
`EventSpec`/`EventObject`, `MutexSpec`/`MutexObject` (each interrupts-disabled region is one atomic step,
and all interleavings are runs), `FindFirstSet`, `SchedulerSpec`/`Scheduler`, `SchedulerOrder` (who runs next).

**Modbus RTU.** `Crc`, `RtuFrame`, `RtuTiming` (what the timers are set to), `MasterSpec`/`RtuMaster` (framing
machines, timer modes, poll, event and resource port of the master), `MasterEarly` (requests before the master is established),
`MasterResult` (whose result a client gets), `RtuSlaveSpec`/`RtuSlave`, `RtuLine` (both directions end to
end), `CoilBits`/`CoilTable` (bit-packed coils), `MirrorSpec`/`MirrorTables`/`MirrorExchange`/
`MirrorHandlers` (functions 1, 3, 5, 6, 15, 16, 23 on both sides), `MirrorAnswers` (what each side accepts and
answers, in terms of the request) and `MirrorRows` (the master's mirror of
all sixteen slaves, its coil rows one behind the other in one array).
`Wrappers` holds an option type.

## What the code does not promise

Each of these is kept as the code has it; the lemmas named say exactly when the property fails, or show a case.

- `rt_malloc` stops its search below `mem_size_aligned - size`, so a last block that fits exactly is
  refused (`SmallHeapSpec.WholeHeapRefused`); `MallocFirstFit` states the bound.
- A shrinking `rt_realloc` does not lower `lfree`: it stays the lowest free block if and only if it lay
  below the block or the successor was free (`ShrinkLowestIff`); otherwise memory becomes invisible to
  `rt_malloc` until a free (`ShrinkHidesFreeBlock`).
- On a heap smaller than `MIN_SIZE_ALIGNED` the loop bound wraps around and the search never ends
  (`SmallHeap.TinyHeapSearchNeverEnds`).
- `RT_MEMHEAP_MINIALLOC` (12) is not a multiple of the alignment (8): an allocation or an in-place realloc
  leaves headers off alignment exactly when it splits with an unaligned size, which a request gives exactly
  up to 8 bytes or when its rounding wraps (`MemHeapSpec.AllocAlignedIff`, `GrowAlignedIff`,
  `CutAlignedIff`, `ClampAlignedIff`; with larger requests only, `RunAligned`).
- The master's T3.5 timer is rounded down to whole ticks, so a pause of less than three and a half characters
  can end a frame; the slave's is rounded up (`RtuTiming.SilenceRounding`, `FixedSilence`).
- Both RTU receivers accept 256 bytes but assert fewer when the frame is read: the assertion fails for
  exactly those frames (`ReceiveAssertionIff` in `MasterSpec` and `RtuSlaveSpec`).
- The poll ignores the result of a send, and its switch knows one event at a time. A request ends on every
  path if and only if the poll has fetched READY when it is posted (`MasterEarly.EarlyRequestEndsIff`);
  before the start-up expiry it can leave the master stuck (`EarlyRequestSticks`), between the expiry and the
  fetch it is lost together with READY (`EarlyRequestConfuses`).
- Finish bits are shared: a client can be handed the verdict of an earlier request. Every client gets its own
  if and only if nobody still waits when the resource is taken (`MasterResult.OwnResultIff`); a client already
  suspended in `rt_event_recv` is served at the post, so the failure needs one that has not called it yet
  (`StaleBit`, `StaleFromTheStart`).
- `rt_timer_start` reads the tick and links the timer in two interrupts-disabled regions. The kernel's callers
  disable interrupts around it; `porttimer_m.c` does not, and there a timer fires on its deadline if and only if
  it is linked before that tick, otherwise on the first tick behind the link (`TimerSpec.LinkedFires`).
- A timer with zero ticks fires one tick late (`TimerSpec.FiresOnDeadline`). The check loop ends if and only
  if no due periodic timer has zero ticks (`CheckEndsIff`), so the runs require a period of at least 1.
- With the FIFO flag a mutex hand-off can leave the owner worse than a waiter (`MutexSpec.HandOffIff`,
  `FifoInversion`).
- The last partial byte of a coil write or-s in the data bits beyond the count; coils outside the range
  stay as they were if and only if those bits meet coils already set (`CoilTable.WriteExactIff`).
- The master's coil rows have no gap, so such stray bits at the end of a row land in the next slave's row, and
  of the last row behind the array. All rows keep agreeing with their slaves if and only if every stray bit
  meets a coil already set (`MirrorRows.WriteCoilsAllIff`, `BroadcastCoilsAllIff`; a case that fails:
  `BroadcastDamages`); zero padding suffices (`PaddedMeetsAll`).
- The coil helpers touch the byte behind the addressed one; exactly when that lies behind the table is
  `CoilTable.WritePastIff`, `ReadPastIff` and `MirrorRows.RowTouchesNextIff`. The tables here have two spare
  bytes for it.
- Function 1 serves fewer than 2000 coils where the MODBUS Application Protocol Specification V1.1b3,
  section 6.1, allows 2000 (`MirrorExchange.CoilCountIff`). Function 23 writes before it checks the read
  range, so a request answered with an exception can have changed the slave, exactly when that check is the
  only one it fails (`ReadWriteChangesIff`), against section 6.17 of that specification.
- Functions 15, 16 and 23 compare the byte count with the number of values, not with the length of the frame: one
  that is cut short behind its byte count is accepted (`MirrorAnswers.WriteRegsAnswer`, for every length).

## Model

| member | source | states |
|---|---|---|
| `Tiling.BytesConserved` | RT-Thread-1.2.2/src/mem.c:504-558 | the lengths of the used and of the free blocks, headers included, always add up to the whole managed range |
| `Tiling.MarkBytes` | RT-Thread-1.2.2/src/mem.c:504-558 | what marking one block used or free does to the byte total and the count of either kind |
| `Tiling.SplitBytes` | RT-Thread-1.2.2/src/memheap.c:195-243 | what cutting a block does to both totals |
| `Tiling.JoinBytes` | RT-Thread-1.2.2/src/memheap.c:539-576 | joining two blocks of one kind moves no byte from one total to the other |
| `Payload.GivenCovers` | RT-Thread-1.2.2/src/mem.c:457-465 | giving out a free block takes no cell from the payload of any other used block |
| `Payload.MoveKeeps` | RT-Thread-1.2.2/src/mem.c:457-465 | allocate, copy, release: every other used block has its bytes, and the data stand at the new place |
| `Payload.CutKeeps` | RT-Thread-1.2.2/src/mem.c:430-454 | cutting a used block keeps every other block's bytes and the bytes in front of the cut |
| `Payload.CopyBytes` | RT-Thread-1.2.2/src/kservice.c:218-280 | the copy loop moves exactly the source range and changes nothing outside the destination |
| `SmallHeapSpec.PlugInv` | RT-Thread-1.2.2/src/mem.c:136-174 | plug_holes restores the full invariant around a freed block (tiling, no two neighbouring free blocks, lfree a free header or heap_end, used_mem exact) and keeps lfree the lowest free block |
| `SmallHeapSpec.FreeAtInv` | RT-Thread-1.2.2/src/mem.c:504-558 | rt_free keeps the invariant and keeps lfree lowest |
| `SmallHeapSpec.FirstFitLowest` | RT-Thread-1.2.2/src/mem.c:279-285 | the search finds a free block with room below mem_size_aligned - size, and no lower such block exists |
| `SmallHeapSpec.NextFreeLowest` | RT-Thread-1.2.2/src/mem.c:344-351 | after the lfree block is taken, lfree moves to the next free block or heap_end, and only used blocks are passed over |
| `SmallHeapSpec.CarveInv` | RT-Thread-1.2.2/src/mem.c:290-351 | giving out a block, split or whole, keeps the invariant and lowest lfree |
| `SmallHeapSpec.MallocInv` | RT-Thread-1.2.2/src/mem.c:246-374 | rt_malloc keeps the invariant and lowest lfree on every path, failures included |
| `SmallHeapSpec.MallocFirstFit` | RT-Thread-1.2.2/src/mem.c:279-371 | with lfree lowest, rt_malloc returns the lowest free block that starts below mem_size_aligned - size and has room; it returns NULL, changing nothing, only if every block that starts below the bound is used or too small |
| `SmallHeapSpec.RoundedIsEnough` | RT-Thread-1.2.2/src/mem.c:262-274 | the rounded size covers the request exactly when the alignment does not wrap around 32 bits, or the request is at most the minimum |
| `SmallHeapSpec.WholeHeapRefused` | RT-Thread-1.2.2/src/mem.c:279-285 | the strict loop bound refuses a request for the whole of a fresh heap although its one block fits |
| `SmallHeapSpec.ShrinkInv` | RT-Thread-1.2.2/src/mem.c:430-454 | cutting a block in rt_realloc keeps the invariant |
| `SmallHeapSpec.ShrinkLowestIff` | RT-Thread-1.2.2/src/mem.c:430-454 | after a shrink lfree is lowest if and only if it lay below the block or the block's successor was free: rt_realloc does not lower lfree |
| `SmallHeapSpec.ShrinkHidesFreeBlock` | RT-Thread-1.2.2/src/mem.c:430-454 | from a freshly initialised heap, one rt_malloc and one shrinking rt_realloc make a free block that the next rt_malloc overlooks |
| `SmallHeapSpec.MallocKeepsUsed` | RT-Thread-1.2.2/src/mem.c:246-374 | every used block is still there, used, after rt_malloc |
| `SmallHeapSpec.MoveInv` | RT-Thread-1.2.2/src/mem.c:457-465 | allocating and then freeing the old block keeps the invariant at both points, and the old block is found where it was |
| `SmallHeapSpec.ResizeInv` | RT-Thread-1.2.2/src/mem.c:418-466 | all three outcomes of rt_realloc on a block keep the invariant |
| `SmallHeapSpec.ReallocInv` | RT-Thread-1.2.2/src/mem.c:385-466 | rt_realloc keeps the invariant for every pointer and size, NULL and 0 included |
| `SmallHeapSpec.StepInv` | RT-Thread-1.2.2/src/mem.c:246-558 | every operation keeps the invariant; malloc and free keep lfree lowest |
| `SmallHeapSpec.StepAligned` | RT-Thread-1.2.2/src/mem.c:262-274 | every operation keeps every block header 8-byte aligned |
| `SmallHeapSpec.RunSafe` | RT-Thread-1.2.2/src/mem.c:246-558 | in every state of every run of malloc, free and realloc the invariant and the alignment hold, and lfree is lowest as long as no realloc occurred |
| `SmallHeapExact.FreeExact` | RT-Thread-1.2.2/src/mem.c:504-558 | rt_free makes exactly the given block free: every other used block lies where it lay |
| `SmallHeapExact.SearchMeans` | RT-Thread-1.2.2/src/mem.c:279-285 | the search from lfree ends at the lowest free block that starts at lfree or behind it, below mem_size_aligned - size, and has room, if there is one |
| `SmallHeapExact.MallocExact` | RT-Thread-1.2.2/src/mem.c:246-374 | rt_malloc fails, changing nothing, if and only if the size is zero or too large or no free block from lfree on and below the bound has room; otherwise the lowest such block, and its end given exactly, becomes one used block, and no other used block moves |
| `SmallHeapExact.ReallocNull` | RT-Thread-1.2.2/src/mem.c:404-406 | rt_realloc of NULL is rt_malloc |
| `SmallHeapExact.ReallocExact` | RT-Thread-1.2.2/src/mem.c:385-466 | rt_realloc of a live block fails, changing nothing, if and only if the size is too large or the block has to move and rt_malloc would fail; it returns the same pointer if and only if the rounded size is the old one or the cut leaves more than a header and MIN_SIZE; otherwise the block moves to the lowest free block with room; the old one is then used no longer, and no other used block moves |
| `SmallHeapExact.ReallocGives` | RT-Thread-1.2.2/src/mem.c:385-466 | what the caller relies on: a returned pointer is live and has room for the request, unless rounding wrapped; a pointer it does not get back is no longer live |
| `SmallHeapExact.ReallocLowestIff` | RT-Thread-1.2.2/src/mem.c:418-466 | after any rt_realloc lfree is the lowest free block if and only if the block was not cut, or lfree lay below it, or a free block lay behind it |
| `SmallHeapExact.BlocksDecided` | RT-Thread-1.2.2/src/mem.c:136-174 | two heap states with the same used blocks are the same list of blocks: nothing else is left to say about what a call does |
| `SmallHeapExact.HeldUntilPassedBack` | RT-Thread-1.2.2/src/mem.c:246-558 | in every run a block a client holds stays where it is and as long as it is until it is passed to rt_free or rt_realloc |
| `SmallHeap.TinyHeapSearchNeverEnds` | RT-Thread-1.2.2/src/mem.c:262-285 | on a heap smaller than MIN_SIZE_ALIGNED, for every request that passes the size guard, the search loop stays below its wrapped bound for any number of turns and never meets a fitting block |
| `SmallHeap.SmallMem.Create` | RT-Thread-1.2.2/src/mem.c:184-231 | the memory set up by rt_system_heap_init holds one free block |
| `SmallHeap.SmallMem.Init` | RT-Thread-1.2.2/src/mem.c:184-231 | rt_system_heap_init establishes the invariant with lfree lowest |
| `SmallHeap.SmallMem.JoinNext` | RT-Thread-1.2.2/src/mem.c:158-159 | the two stores that unlink a header are the join of the specification; no payload byte changes |
| `SmallHeap.SmallMem.PlugNext` | RT-Thread-1.2.2/src/mem.c:145-160 | the forward half of plug_holes, on memory, is the join of the specification; no payload byte changes |
| `SmallHeap.SmallMem.PlugPrev` | RT-Thread-1.2.2/src/mem.c:162-173 | the backward half, likewise |
| `SmallHeap.SmallMem.PlugHoles` | RT-Thread-1.2.2/src/mem.c:136-174 | plug_holes on memory re-establishes the invariant and changes no payload byte |
| `SmallHeap.SmallMem.UnmarkBlock` | RT-Thread-1.2.2/src/mem.c:541-543 | clearing the used flag changes no payload byte of the other blocks |
| `SmallHeap.SmallMem.Free` | RT-Thread-1.2.2/src/mem.c:504-558 | rt_free refines the specification; every other live block keeps its bytes; a foreign pointer changes nothing |
| `SmallHeap.SmallMem.AdvanceLfree` | RT-Thread-1.2.2/src/mem.c:344-351 | the loop over used blocks ends at the next free header or heap_end |
| `SmallHeap.SmallMem.MarkBlock` | RT-Thread-1.2.2/src/mem.c:334-342 | using a block whole changes no payload byte |
| `SmallHeap.SmallMem.SplitBlock` | RT-Thread-1.2.2/src/mem.c:290-318 | the stores that split a free block produce exactly the split block list and change no payload byte |
| `SmallHeap.SmallMem.GiveOut` | RT-Thread-1.2.2/src/mem.c:290-342 | the block found is cut or given out whole, as specified, and used_mem grows by its new length |
| `SmallHeap.SmallMem.TakeBlock` | RT-Thread-1.2.2/src/mem.c:290-351 | split or whole with the counter updates is the specified carve |
| `SmallHeap.SmallMem.Malloc` | RT-Thread-1.2.2/src/mem.c:246-374 | rt_malloc on memory refines the specification, terminates, and leaves every live payload as it was |
| `SmallHeap.SmallMem.Realloc` | RT-Thread-1.2.2/src/mem.c:385-466 | rt_realloc refines the specification, whose meaning is ReallocExact; all other live blocks keep their bytes and the first min(old, new) bytes arrive at the returned pointer; for NULL or a refused size all live blocks keep theirs; a foreign pointer is returned as it came and changes nothing |
| `SmallHeap.SmallMem.Rework` | RT-Thread-1.2.2/src/mem.c:418-466 | the same once the block is known |
| `SmallHeap.SmallMem.CutHeader` | RT-Thread-1.2.2/src/mem.c:437-447 | the header stores of the cut give the split list; no payload byte of it changes |
| `SmallHeap.SmallMem.CutInPlace` | RT-Thread-1.2.2/src/mem.c:430-454 | the in-place cut keeps the bytes in front of it and all other payloads |
| `SmallHeap.SmallMem.MoveAndFree` | RT-Thread-1.2.2/src/mem.c:457-465 | copy and free of the old block: the data are at the new place, the others untouched |
| `SmallHeap.SmallMem.FillBlock` | RT-Thread-1.2.2/src/mem.c:461 | filling a used block's payload disturbs no header |
| `MemHeapSpec.Conservation` | RT-Thread-1.2.2/src/memheap.c:146-593 | available_size + free headers + used blocks is exactly the pool size up to the tail, and available_size is never negative or too large |
| `MemHeapSpec.AllocInv` | RT-Thread-1.2.2/src/memheap.c:146-288 | rt_memheap_alloc keeps the invariant (the ring tiles the pool, no two neighbouring free blocks, the free list is exactly the unused blocks, available_size is the sum of free payloads) |
| `MemHeapSpec.AllocExact` | RT-Thread-1.2.2/src/memheap.c:146-288 | rt_memheap_alloc fails, changing nothing, if and only if the size is not below available_size or no unused block has room; otherwise it gives out the first block of the free list that has room |
| `MemHeapSpec.FreeInv` | RT-Thread-1.2.2/src/memheap.c:499-593 | rt_memheap_free keeps the invariant in all four neighbour cases |
| `MemHeapSpec.GrowInv` | RT-Thread-1.2.2/src/memheap.c:338-407 | growing in place into the free successor keeps the invariant |
| `MemHeapSpec.CutInv` | RT-Thread-1.2.2/src/memheap.c:424-495 | cutting a block, merging the rest with a free successor, keeps the invariant |
| `MemHeapSpec.AllocKeepsUsed` | RT-Thread-1.2.2/src/memheap.c:146-288 | every used block is still there, used, after an allocation |
| `MemHeapSpec.MoveInv` | RT-Thread-1.2.2/src/memheap.c:412-420 | allocate-then-free of the moving realloc keeps the invariant and finds the old block where it was |
| `MemHeapSpec.ResizeInv` | RT-Thread-1.2.2/src/memheap.c:291-496 | every outcome of rt_memheap_realloc on a block keeps the invariant |
| `MemHeapSpec.StepInv` | RT-Thread-1.2.2/src/memheap.c:146-593 | every operation keeps the invariant |
| `MemHeapSpec.RunSafe` | RT-Thread-1.2.2/src/memheap.c:146-593 | the invariant holds in every state of every run of alloc, free and realloc |
| `MemHeapSpec.SmallRequestMisaligns` | RT-Thread-1.2.2/src/memheap.c:155-157 | the smallest example: after one request of at most 8 bytes on a fresh aligned pool the next block starts 4 bytes off |
| `MemHeapSpec.ClampAlignedIff` | RT-Thread-1.2.2/src/memheap.c:155-157 | the size an operation works with is a multiple of 8 if and only if the request is above 8 bytes and its rounding does not wrap around 32 bits |
| `MemHeapSpec.AllocAlignedIff` | RT-Thread-1.2.2/src/memheap.c:195-262 | from any aligned pool rt_memheap_alloc leaves all headers aligned if and only if it fails, or gives the block it found out whole, or works with an aligned size |
| `MemHeapSpec.FreeAligned` | RT-Thread-1.2.2/src/memheap.c:499-593 | rt_memheap_free keeps all headers aligned |
| `MemHeapSpec.GrowAlignedIff` | RT-Thread-1.2.2/src/memheap.c:338-407 | growing in place keeps all headers aligned if and only if the new size is aligned |
| `MemHeapSpec.CutAlignedIff` | RT-Thread-1.2.2/src/memheap.c:444-495 | cutting in place keeps all headers aligned if and only if the new size is aligned |
| `MemHeapSpec.StepAligned` | RT-Thread-1.2.2/src/memheap.c:146-593 | every operation whose request is above 8 bytes keeps all headers aligned |
| `MemHeapSpec.RunAligned` | RT-Thread-1.2.2/src/memheap.c:146-593 | in every run of such requests every header stays aligned |
| `MemHeapExact.FreeExact` | RT-Thread-1.2.2/src/memheap.c:499-593 | rt_memheap_free makes exactly the given block free: every other used block lies where it lay |
| `MemHeapExact.FreedIsFirst` | RT-Thread-1.2.2/src/memheap.c:579-593 | a freed block that is not merged to the left goes to the front of the free list: the next request it has room for gets it |
| `MemHeapExact.AllocGives` | RT-Thread-1.2.2/src/memheap.c:146-288 | rt_memheap_alloc fails, changing nothing, if and only if the size is not below available_size or no unused block has room; otherwise the first listed block with room, with its end given exactly, becomes one used block, no other used block moves, and max_used_size follows |
| `MemHeapExact.ReallocExact` | RT-Thread-1.2.2/src/memheap.c:291-496 | rt_memheap_realloc of a live block: size zero frees it; otherwise it fails, changing nothing, if and only if the block has to move and rt_memheap_alloc would fail; it stays, grown or cut to a given end, if and only if it has room or the unused block behind it leaves more than a header and RT_MEMHEAP_MINIALLOC; otherwise it moves to where rt_memheap_alloc finds room and the old one is used no longer; no other used block moves |
| `MemHeapExact.ReallocNull` | RT-Thread-1.2.2/src/memheap.c:305-312 | rt_memheap_realloc of NULL is rt_memheap_alloc of the rounded size |
| `MemHeapExact.ReallocGives` | RT-Thread-1.2.2/src/memheap.c:291-496 | what the caller relies on: a returned pointer is live and has room for the request; a pointer it does not get back is no longer live |
| `MemHeapExact.PoolDecided` | RT-Thread-1.2.2/src/memheap.c:146-593 | two pool states with the same used blocks have the same ring, free list members and available_size |
| `MemHeapExact.HeldUntilPassedBack` | RT-Thread-1.2.2/src/memheap.c:146-593 | in every run a block a client holds stays where it is and as long as it is until it is passed to rt_memheap_free or rt_memheap_realloc |
| `MemHeap.GuardCut` | RT-Thread-1.2.2/src/memheap.c:210-220 | the stores that link a new header into the ring change no payload cell the header does not cover |
| `MemHeap.GuardUnlink` | RT-Thread-1.2.2/src/memheap.c:223-224 | taking a node off the free list changes no payload cell |
| `MemHeap.RepPayload` | RT-Thread-1.2.2/src/memheap.c:416 | writing the payload of a used block leaves ring and free list intact |
| `MemHeap.RtMemHeap.Init` | RT-Thread-1.2.2/src/memheap.c:60-131 | rt_memheap_init builds one free block, a one-element free list and the used tail, and the invariant holds |
| `MemHeap.BuildPool` | RT-Thread-1.2.2/src/memheap.c:77-128 | the stores of rt_memheap_init on raw memory build the ring of one free block and the tail, and the circular list of one node |
| `MemHeap.RtMemHeap.CutRing` | RT-Thread-1.2.2/src/memheap.c:199-220 | building a header and linking it into the ring is the specified split |
| `MemHeap.RtMemHeap.JoinRing` | RT-Thread-1.2.2/src/memheap.c:570-571 | unlinking a block from the ring is the specified join |
| `MemHeap.RtMemHeap.Unlink` | RT-Thread-1.2.2/src/memheap.c:223-224 | unlinking from the circular free list removes exactly that node |
| `MemHeap.RtMemHeap.ClearLinks` | RT-Thread-1.2.2/src/memheap.c:225-226 | clearing the link words of the taken block touches neither ring nor list |
| `MemHeap.RtMemHeap.Push` | RT-Thread-1.2.2/src/memheap.c:581-584 | inserting behind the list header puts the block first |
| `MemHeap.RtMemHeap.TakeBlock` | RT-Thread-1.2.2/src/memheap.c:195-265 | handing out a block, split or whole, refines the specification; no live payload byte changes |
| `MemHeap.RtMemHeap.SearchFree` | RT-Thread-1.2.2/src/memheap.c:176-187 | the walk along the free list stops at the first fitting node, or at the list header if there is none |
| `MemHeap.RtMemHeap.Alloc` | RT-Thread-1.2.2/src/memheap.c:146-288 | rt_memheap_alloc refines the specification, terminates, and leaves every live payload as it was |
| `MemHeap.RtMemHeap.MergeRight` | RT-Thread-1.2.2/src/memheap.c:558-576 | merging with a free successor, in ring and list |
| `MemHeap.RtMemHeap.SwallowNext` | RT-Thread-1.2.2/src/memheap.c:563-575 | a free successor leaves the ring and the free list |
| `MemHeap.RtMemHeap.Release` | RT-Thread-1.2.2/src/memheap.c:533-536 | the block is marked free and counted |
| `MemHeap.RtMemHeap.MergeFreed` | RT-Thread-1.2.2/src/memheap.c:538-576 | the merges with the predecessor and the successor, and whether the block has to be listed |
| `MemHeap.RtMemHeap.FreeBlock` | RT-Thread-1.2.2/src/memheap.c:499-593 | rt_memheap_free of a known block refines the specification and keeps all other payloads |
| `MemHeap.RtMemHeap.Free` | RT-Thread-1.2.2/src/memheap.c:499-593 | the same from the pointer |
| `MemHeap.RtMemHeap.GrowBlock` | RT-Thread-1.2.2/src/memheap.c:338-407 | growing in place refines the specification; all payloads, the grown block's included, keep their bytes |
| `MemHeap.RtMemHeap.MergeRest` | RT-Thread-1.2.2/src/memheap.c:458-477 | the rest of a cut block swallows a free successor, which leaves the count |
| `MemHeap.RtMemHeap.CutBlock` | RT-Thread-1.2.2/src/memheap.c:444-495 | cutting refines the specification; the bytes in front of the cut and all other payloads stay |
| `MemHeap.RtMemHeap.ResizeBlock` | RT-Thread-1.2.2/src/memheap.c:309-496 | all branches of rt_memheap_realloc: refinement, other payloads untouched, the first min(old, new) bytes at the returned pointer |
| `MemHeap.RtMemHeap.Enlarge` | RT-Thread-1.2.2/src/memheap.c:319-421 | the branch for a larger size: in place exactly when the successor has room, otherwise moved |
| `MemHeap.RtMemHeap.MoveBlock` | RT-Thread-1.2.2/src/memheap.c:412-420 | allocate, copy and free, or NULL with every other block as it was |
| `MemHeap.RtMemHeap.MoveAndFree` | RT-Thread-1.2.2/src/memheap.c:413-418 | the moving branch: the old block's bytes arrive in the new block, the others are untouched |
| `MemHeap.RtMemHeap.Realloc` | RT-Thread-1.2.2/src/memheap.c:291-496 | rt_memheap_realloc from the pointer and the requested size, NULL and 0 included; for NULL all live blocks keep their bytes |
| `PageHeapSpec.CanonicalUnique` | RT-Thread-1.2.2/src/slab.c:246-332 | two ordered lists of disjoint maximal runs with the same free pages are the same list |
| `PageHeapSpec.OneRun` | RT-Thread-1.2.2/src/slab.c:282-332 | consecutive free pages lie in a single run |
| `PageHeapSpec.AllocExact` | RT-Thread-1.2.2/src/slab.c:246-280 | rt_page_alloc takes exactly npages consecutive free pages out of the free set, or none, and keeps the list canonical |
| `PageHeapSpec.AllocFailsIff` | RT-Thread-1.2.2/src/slab.c:246-280 | it fails if and only if no npages consecutive pages are free |
| `PageHeapSpec.PageFreeExact` | RT-Thread-1.2.2/src/slab.c:282-332 | rt_page_free adds exactly the given pages and keeps the list canonical, merging on both sides |
| `PageHeapSpec.AllocFreeRestores` | RT-Thread-1.2.2/src/slab.c:246-332 | an alloc followed by its free restores the identical list |
| `PageHeapSpec.TraceCanonical` | RT-Thread-1.2.2/src/slab.c:246-332 | the list is canonical in every state of every run |
| `PageHeap.PageList.constructor` | RT-Thread-1.2.2/src/slab.c:337-344 | rt_page_init yields one run of all pages |
| `PageHeap.PageList.Alloc` | RT-Thread-1.2.2/src/slab.c:246-280 | the pointer-chasing loop refines the specification; 0 pages change nothing |
| `PageHeap.PageList.TakePart` | RT-Thread-1.2.2/src/slab.c:258-266 | taking the front of a longer run relinks the rest |
| `PageHeap.PageList.TakeWhole` | RT-Thread-1.2.2/src/slab.c:268-273 | taking a whole run unlinks it |
| `PageHeap.PageList.Free` | RT-Thread-1.2.2/src/slab.c:282-332 | the insertion loop with its merges refines the specification |
| `PageHeap.PageList.GrowRun` | RT-Thread-1.2.2/src/slab.c:301-310 | appending to the run in front, and the merge with the next one |
| `PageHeap.PageList.Prepend` | RT-Thread-1.2.2/src/slab.c:312-319 | prepending to the following run |
| `PageHeap.PageList.Insert` | RT-Thread-1.2.2/src/slab.c:321-327 | inserting a run of its own |
| `Crc.TablesAreRemainders` | FreeModbus/modbus/rtu/mbcrc.c:34-83 | both 256-entry tables hold, byte for byte, the eight-fold shift of their index under the reflected polynomial 0xA001 |
| `Crc.ShiftByTable` | FreeModbus/modbus/rtu/mbcrc.c:34-83 | eight bit shifts of any word are one table step |
| `Crc.TableStep` | FreeModbus/modbus/rtu/mbcrc.c:93-95 | one turn of the loop is the bitwise CRC step of MODBUS over Serial Line V1.02 section 6.2.2 |
| `Crc.UsMBCRC16` | FreeModbus/modbus/rtu/mbcrc.c:85-98 | the table-driven loop computes the bit-by-bit CRC of every message |
| `Crc.TwoBytesClear` | FreeModbus/modbus/rtu/mbcrc.c:85-98 | two bytes drive the CRC register to zero if and only if they are its low byte and then its high byte |
| `Crc.ResidueIff` | FreeModbus/modbus/rtu/mbcrc.c:85-98 | a message followed by two bytes has residue 0 if and only if they are its CRC, low byte first |
| `Crc.StaysDifferent` | FreeModbus/modbus/rtu/mbcrc.c:85-98 | registers that differ still differ after any common suffix |
| `Crc.PairsDiffer` | FreeModbus/modbus/rtu/mbcrc.c:85-98 | two different byte pairs never lead from one register to the same one |
| `Crc.BurstDetected` | FreeModbus/modbus/rtu/mbcrc.c:85-98 | two messages of equal length that differ only within two adjacent bytes have different CRCs |
| `RtuFrame.ParseIff` | FreeModbus/modbus/rtu/mbrtu_m.c:158-189 | the receiver's check accepts a byte string as (address, PDU) if and only if it is the frame the sender builds for them |
| `RtuFrame.DamagedFrameRejected` | FreeModbus/modbus/rtu/mbrtu_m.c:165-167 | a frame damaged within two adjacent bytes is never accepted |
| `RtuTiming.SilenceRounding` | FreeModbus/modbus/rtu/mbrtu_m.c:104-122 | at 12 to 19200 baud the slave's timer is set to more than three and a half characters, the master's to no more than that: it rounds down |
| `RtuTiming.FixedSilence` | FreeModbus/port/rtt/porttimer_m.c:55-66 | above 19200 baud the master's timer is set to 1.7 ms and the slave's to 1.8 ms, where 1.75 ms are due |
| `RtuTiming.UnitsCutIff` | FreeModbus/modbus/rtu/mbrtu.c:113-115 | the setting is cut to 16 bits with loss exactly below 12 baud |
| `MasterSpec.ExpiryResult` | FreeModbus/modbus/rtu/mbrtu_m.c:351-409 | an expiry on a reachable state leaves both machines idle, the timer off, and posts exactly the event and error the phase calls for |
| `MasterSpec.NextInv` | FreeModbus/modbus/rtu/mbrtu_m.c:233-409 | every byte, transmitter-empty, expiry, poll and request step keeps the phase invariant |
| `MasterSpec.RunInv` | FreeModbus/modbus/mb_m.c:269-391 | the phase invariant holds in every state of every run |
| `MasterSpec.EveryExpiryPostsOne` | FreeModbus/modbus/rtu/mbrtu_m.c:351-409 | each expiry posts exactly one event, one of the five poll bits, none being pending |
| `MasterSpec.AtMostOnePollBit` | FreeModbus/modbus/mb_m.c:290-389 | at most one poll bit is ever pending, so the exact-match switch always matches |
| `MasterSpec.ResourceConserved` | FreeModbus/port/rtt/portevent_m.c:97-112 | semaphore value plus outstanding requests is 1 in every state |
| `MasterSpec.CallbackAssertions` | FreeModbus/modbus/rtu/mbrtu_m.c:233-409 | the state assertions inside the byte, transmitter and timer callbacks hold whenever those run |
| `MasterSpec.ReceiveAssertionIff` | FreeModbus/modbus/rtu/mbrtu_m.c:163 | the assertion on the receive position fails for exactly the replies of 256 bytes, which the receiver accepts |
| `MasterSpec.VerdictPosted` | FreeModbus/modbus/mb_m.c:312-382 | when a request ends, exactly one finish bit is posted, the one its history deserves (success, timeout, receive error or execute error); it stays pending, or goes at once to the first client suspended in rt_event_recv |
| `MasterSpec.SendAccepted` | FreeModbus/modbus/mb_m.c:358-362 | the send for a posted request is never refused in such a run, and the right number of bytes goes out to the right address |
| `MasterSpec.RequestGoesOut` | FreeModbus/modbus/mb_m.c:358-362 | in every run the poll's first turn behind a request transmits it, to the address and with the length the client gave |
| `MasterSpec.SendsWholeFrame` | FreeModbus/modbus/rtu/mbrtu_m.c:308-341 | in every run a transmission ends exactly when the transmitter has run empty once for each byte of the frame and once more |
| `MasterSpec.LineHandedOver` | FreeModbus/modbus/rtu/mbrtu_m.c:302-336 | a transmitter call that finds nothing to send turns the receiver on and the transmitter off |
| `MasterSpec.HalfDuplex` | FreeModbus/modbus/rtu/mbrtu_m.c:194-336 | in every run the receiver is off exactly while a frame goes out |
| `MasterSpec.TimerCountsSilence` | FreeModbus/port/rtt/porttimer_m.c:55-95 | in every run, while the timer runs, it has left what it was set to less the ticks since the last byte or the end of the transmission: every byte starts it anew |
| `MasterSpec.ExpiresAfterSilence` | FreeModbus/modbus/rtu/mbrtu_m.c:318-341 | an expiry on the tick on which the timer is due comes after exactly T3.5 of silence at the start and in a reply, after exactly the respond timeout behind a request, and after exactly the convert delay behind a request to address 0 |
| `MasterSpec.DestinationStep` | FreeModbus/modbus/mb_m.c:312-349 | the destination changes in two ways only: a request sets its own, and the handlers of a broadcast leave the last slave's |
| `MasterSpec.SleepPlace` | RT-Thread-1.2.2/src/ipc.c:92-135 | a suspended client stands at its place in the list, the others keep theirs |
| `MasterSpec.InternalDecreases` | FreeModbus/modbus/mb_m.c:269-391 | every internal step of a request in service lowers a rank |
| `MasterSpec.NeverStuck` | FreeModbus/modbus/mb_m.c:269-391 | while a request is in service some internal step is possible |
| `MasterSpec.RequestEnds` | FreeModbus/modbus/mb_m.c:269-391 | hence a request in service ends: no path has more internal steps than the rank allows |
| `MasterEarly.EarlyRunInv` | FreeModbus/modbus/mb_m.c:294-296 | with the resource taken at any time and requests posted only once READY is fetched, an extended invariant holds in every run |
| `MasterEarly.EarlyRequestEndsIff` | FreeModbus/modbus/mb_m.c:290-362 | a request ends on every path, without a stuck or confused state, if and only if the poll has fetched READY when it is posted (established, or READY being served) |
| `MasterEarly.EarlyRequestSticks` | FreeModbus/modbus/mb_m.c:358-362 | posted while the start-up timer runs: from every such state a path leads to a master stuck with the resource taken |
| `MasterEarly.EarlyRequestConfuses` | FreeModbus/port/rtt/portevent_m.c:53-76 | posted between the expiry and the fetch: the poll finds two bits, clears both and serves neither |
| `MasterEarly.SticksFromTheStart` | FreeModbus/modbus/mb_m.c:358-362 | the first failure in a run from the start |
| `MasterEarly.ConfusesFromTheStart` | FreeModbus/port/rtt/portevent_m.c:53-76 | the second failure in a run from the start |
| `MasterEarly.StuckForever` | FreeModbus/modbus/mb_m.c:358-362 | once stuck, no step ever ends the request or frees the resource |
| `MasterResult.SoloRun` | FreeModbus/port/rtt/portevent_m.c:206-237 | what holds throughout runs in which the resource is taken only when no client waits for a result |
| `MasterResult.OwnResult` | FreeModbus/port/rtt/portevent_m.c:206-237 | in such runs whatever a client is handed, on calling rt_event_recv or suspended in it, is the verdict on its own request, which has ended |
| `MasterResult.OwnResultIff` | FreeModbus/port/rtt/portevent_m.c:206-237 | every client gets its own result on every such continuation if and only if no earlier client still waits when the resource is taken |
| `MasterResult.StaleBit` | RT-Thread-1.2.2/src/ipc.c:1017-1067 | a client that still waits while the resource is free has not called rt_event_recv yet: a suspended one would have been served at the post |
| `MasterResult.StaleResult` | FreeModbus/port/rtt/portevent_m.c:206-237 | the next client is then handed the earlier one's verdict before its own frame is sent |
| `MasterResult.StaleFromTheStart` | FreeModbus/port/rtt/portevent_m.c:206-237 | a whole run from the start in which that happens |
| `RtuMaster.MbMaster.constructor` | FreeModbus/modbus/rtu/mbrtu_m.c:133-146 | eMBMasterRTUStart sets up the initial control state |
| `RtuMaster.MbMaster.ReceiveFsm` | FreeModbus/modbus/rtu/mbrtu_m.c:233-297 | one received byte: control state as specified, and the buffer holds exactly the collected bytes |
| `RtuMaster.MbMaster.TransmitNextByte` | FreeModbus/modbus/rtu/mbrtu_m.c:315-343 | the transmitting state: the next byte, or the end of the frame |
| `RtuMaster.MbMaster.TransmitFsm` | FreeModbus/modbus/rtu/mbrtu_m.c:300-348 | one transmitter-empty call emits the next buffer byte, or ends the frame with the right timer |
| `RtuMaster.MbMaster.TimerFsm` | FreeModbus/modbus/rtu/mbrtu_m.c:351-409 | the expiry does what the specification says in every state and timer mode |
| `RtuMaster.MbMaster.TimerTick` | FreeModbus/port/rtt/porttimer_m.c:46-107 | a tick runs the one-shot timer down, and its expiry calls the callback |
| `RtuMaster.MbMaster.RtuReceive` | FreeModbus/modbus/rtu/mbrtu_m.c:158-189 | the frame check returns the address and PDU that the buffer parses to |
| `RtuMaster.MbMaster.StartSending` | FreeModbus/modbus/rtu/mbrtu_m.c:207-222 | the accepted send: the frame of the PDU is ready and the transmitter on |
| `RtuMaster.MbMaster.RtuSend` | FreeModbus/modbus/rtu/mbrtu_m.c:192-230 | the send is accepted if and only if the address is valid and the receiver idle; then the bytes to be sent are the frame of the PDU |
| `RtuMaster.MbMaster.BuildFrame` | FreeModbus/modbus/rtu/mbrtu_m.c:207-218 | address, PDU and CRC low byte first, in the send buffer |
| `RtuMaster.MbMaster.GetEvent` | FreeModbus/port/rtt/portevent_m.c:49-78 | the event receive clears the poll bits and selects the branch of the poll |
| `RtuMaster.MbMaster.PollReceived` | FreeModbus/modbus/mb_m.c:298-310 | the branch for a received frame: valid and from the addressed slave, or a receive error |
| `RtuMaster.MbMaster.PollExecute` | FreeModbus/modbus/mb_m.c:312-356 | the branch that runs the handler, with the broadcast loop's effect on the destination |
| `RtuMaster.MbMaster.PollSent` | FreeModbus/modbus/mb_m.c:358-362 | the branch that starts a transmission; the frame of the posted PDU is on the line |
| `RtuMaster.MbMaster.PollOther` | FreeModbus/modbus/mb_m.c:294-383 | ready and error branches |
| `RtuMaster.MbMaster.RunResRelease` | FreeModbus/port/rtt/portevent_m.c:108-112 | the release ends the service |
| `RtuMaster.MbMaster.RunResTake` | FreeModbus/port/rtt/portevent_m.c:97-101 | the take succeeds if and only if the resource is free |
| `RtuMaster.MbMaster.Request` | FreeModbus/modbus/functions/mbfuncholding_m.c:100-121 | a request stores destination and PDU and posts FRAME_SENT |
| `RtuMaster.MbMaster.Transmit` | FreeModbus/modbus/rtu/mbrtu_m.c:300-348 | calling the transmit machine until it stops emits exactly the frame |
| `RtuMaster.MbMaster.Listen` | FreeModbus/modbus/rtu/mbrtu_m.c:233-297 | a run of 1 to 256 bytes ends up in the receive buffer, as it came |
| `RtuSlaveSpec.Tracking` | FreeModbus/modbus/rtu/mbrtu.c:224-354 | after any possible stream of bytes and expiries the receiver's state is determined by the bytes since the last expiry |
| `RtuSlaveSpec.ExactlyTheRuns` | FreeModbus/modbus/rtu/mbrtu.c:224-354 | the frames posted are exactly the expiry-delimited runs of 1 to 256 bytes after the start-up gap, byte for byte; longer runs are dropped whole |
| `RtuSlaveSpec.FramesEndInSilence` | FreeModbus/modbus/rtu/mbrtu.c:224-354 | for every stream of bytes and ticks, frames are announced for exactly the runs of 1 to 256 bytes that end with one whole timer period of silence and have none inside: every byte starts the timer anew |
| `RtuSlaveSpec.TimerRuns` | FreeModbus/modbus/rtu/mbrtu.c:322-354 | the timer runs exactly when an expiry can come next |
| `RtuSlaveSpec.ReceiveAssertionIff` | FreeModbus/modbus/rtu/mbrtu.c:156 | the position assertion fails for exactly the 256-byte runs |
| `RtuSlave.MbSlave.constructor` | FreeModbus/modbus/rtu/mbrtu.c:126-139 | eMBRTUStart |
| `RtuSlave.MbSlave.ReceiveFsm` | FreeModbus/modbus/rtu/mbrtu.c:224-281 | one byte on the real buffer refines the specification |
| `RtuSlave.MbSlave.TimerT35Expired` | FreeModbus/modbus/rtu/mbrtu.c:322-354 | the expiry refines the specification and posts exactly the specified event |
| `RtuSlave.MbSlave.TimerTick` | FreeModbus/port/rtt/porttimer.c:35-63 | a tick runs the one-shot timer down, and its expiry calls the callback |
| `RtuSlave.MbSlave.RtuReceive` | FreeModbus/modbus/rtu/mbrtu.c:151-182 | the frame check returns what the collected bytes parse to |
| `RtuSlave.MbSlave.RtuSend` | FreeModbus/modbus/rtu/mbrtu.c:185-221 | accepted if and only if the receiver is idle; the bytes to be sent are the frame of the PDU in the shared buffer |
| `RtuSlave.MbSlave.TransmitFsm` | FreeModbus/modbus/rtu/mbrtu.c:284-319 | emits the next byte or reports the frame sent |
| `RtuSlave.MbSlave.Transmit` | FreeModbus/modbus/rtu/mbrtu.c:284-319 | the transmit machine emits exactly the frame and reports it sent once |
| `RtuSlave.MbSlave.Listen` | FreeModbus/modbus/rtu/mbrtu.c:224-281 | a run of 1 to 256 bytes is collected as it came |
| `RtuLine.SlaveHears` | FreeModbus/modbus/rtu/mbrtu.c:223-350 | an idle slave that hears a run of 1 to 256 bytes posts one frame and reads what the bytes parse to |
| `RtuLine.MasterHears` | FreeModbus/modbus/rtu/mbrtu_m.c:232-430 | the idle master, likewise |
| `RtuLine.MasterToSlave` | FreeModbus/modbus/rtu/mbrtu_m.c:192-348 | for every address and PDU of 1 to 250 bytes the bytes the master emits, heard by the slave and followed by one expiry, make the slave's receive return that address and PDU |
| `RtuLine.SlaveToMaster` | FreeModbus/modbus/rtu/mbrtu.c:185-319 | likewise from slave to master for PDUs of 1 to 253 bytes |
| `TimerSpec.WrapOrder` | RT-Thread-1.2.2/src/timer.c:354-361 | for deadlines less than half the tick range apart, the unsigned comparison of 32-bit ticks is the order of the true deadlines |
| `TimerSpec.WrapDue` | RT-Thread-1.2.2/src/timer.c:508 | the unsigned due test is the true one |
| `TimerSpec.UpperSplits` | RT-Thread-1.2.2/src/timer.c:336-365 | the insertion point separates the deadlines up to the new one from the later ones |
| `TimerSpec.InsertSorted` | RT-Thread-1.2.2/src/timer.c:336-386 | insertion behind equal deadlines keeps the row sorted by deadline and start order |
| `TimerSpec.WithoutSorted` | RT-Thread-1.2.2/src/timer.c:121-129 | removal keeps the row sorted |
| `TimerSpec.StartKeeps` | RT-Thread-1.2.2/src/timer.c:292-407 | starting a timer keeps the clock invariant and lists exactly it in addition |
| `TimerSpec.FireInv` | RT-Thread-1.2.2/src/timer.c:508-534 | firing the head keeps the invariant and lowers the number of due timers by one, a periodic restart included |
| `TimerSpec.CheckFires` | RT-Thread-1.2.2/src/timer.c:486-544 | rt_timer_check fires exactly the due timers in row order, restarts the periodic ones and leaves none due |
| `TimerSpec.StartIsBoth` | RT-Thread-1.2.2/src/timer.c:292-407 | with interrupts disabled around it, rt_timer_start is the reading of the tick and the link at one moment |
| `TimerSpec.ReadKeeps` | RT-Thread-1.2.2/src/timer.c:304-319 | leaving the rows and reading the tick, the first part of rt_timer_start, keeps the clock invariant |
| `TimerSpec.LinkKeeps` | RT-Thread-1.2.2/src/timer.c:321-391 | the link, the second part, keeps the clock invariant also when ticks have passed in between |
| `TimerSpec.NextInv` | RT-Thread-1.2.2/src/clock.c:83-105 | start, either part of a start, stop, control and tick keep the clock invariant |
| `TimerSpec.RunInv` | RT-Thread-1.2.2/src/clock.c:83-105 | the clock invariant holds in every state of every run, of any length |
| `TimerSpec.FiresOnDeadline` | RT-Thread-1.2.2/src/timer.c:318-538 | a timer started with interrupts disabled and neither restarted nor stopped since fires on exactly its true deadline tick, and not before; a zero time fires one tick late |
| `TimerSpec.SettingsStay` | RT-Thread-1.2.2/src/timer.c:452-477 | in every run a timer keeps the ticks and the flag rt_timer_control gave it until it is given others |
| `TimerSpec.FiresAsSet` | RT-Thread-1.2.2/src/timer.c:292-477 | so a timer set to i ticks and started later, if undisturbed, fires i ticks behind its start |
| `TimerSpec.StoppedStaysOut` | RT-Thread-1.2.2/src/timer.c:417-440 | in every run a stopped timer does not fire until it is started, or a start under way is completed |
| `TimerSpec.LinkedFires` | RT-Thread-1.2.2/src/timer.c:303-391 | in every run, a timer started with interrupts enabled fires on its deadline if and only if it is linked before that tick, otherwise on the first tick behind the link, and never before; other starts, stops and ticks may come between reading the tick and the link |
| `TimerSpec.TickFiresInOrder` | RT-Thread-1.2.2/src/timer.c:354-361 | timers that fire in one tick fire by deadline, ties in start order |
| `TimerSpec.CheckRestarts` | RT-Thread-1.2.2/src/timer.c:523-534 | a fired periodic timer is pending again one period later, a one-shot timer is no longer listed |
| `TimerSpec.ZeroPeriodSpins` | RT-Thread-1.2.2/src/timer.c:499-538 | a due listed periodic timer of zero ticks, among any other timers, keeps rt_timer_check turning for any number of turns |
| `TimerSpec.CheckEndsIff` | RT-Thread-1.2.2/src/timer.c:499-538 | the loop of rt_timer_check ends if and only if no due periodic timer has zero ticks |
| `TimerSpec.FiresEveryPeriod` | RT-Thread-1.2.2/src/timer.c:318-538 | a periodic timer started at t with p ticks and left alone fires on the ticks t + p, t + 2p, t + 3p, ... and on no others |
| `TimerRows.SortedWithin` | RT-Thread-1.2.2/src/timer.c:336-386 | a sorted row whose members all lie in another sorted row is a subsequence of it |
| `TimerRows.RowsAreSubsequences` | RT-Thread-1.2.2/src/timer.c:336-386 | each row is a subsequence of the row below it |
| `TimerRows.RemoveKeepsRows` | RT-Thread-1.2.2/src/timer.c:121-129 | _rt_timer_remove keeps all rows sorted and nested, and the bottom row loses exactly that timer |
| `TimerRows.InsertKeepsRows` | RT-Thread-1.2.2/src/timer.c:367-386 | a start keeps all rows sorted and nested for every number of levels and every counter value, and the bottom row is the plain sorted insertion |
| `TimerRows.DescentStarts` | RT-Thread-1.2.2/src/timer.c:336-365 | the place where one level's search stopped is at or before the insertion point one level below |
| `Timers.TimerList.constructor` | RT-Thread-1.2.2/src/timer.c:80-105 | empty rows and a clock at zero satisfy the invariant |
| `Timers.TimerList.SearchRow` | RT-Thread-1.2.2/src/timer.c:340-362 | the walk along one row over wrapped ticks ends at the true insertion point |
| `Timers.TimerList.FindHeads` | RT-Thread-1.2.2/src/timer.c:336-365 | the descent through the levels finds the true insertion point of every row |
| `Timers.TimerList.InsertAbove` | RT-Thread-1.2.2/src/timer.c:376-386 | linking one level higher |
| `Timers.TimerList.InsertRowsUp` | RT-Thread-1.2.2/src/timer.c:367-386 | the counter bits decide the height; the rows are the specified ones |
| `Timers.TimerList.Remove` | RT-Thread-1.2.2/src/timer.c:121-129 | the timer leaves every row |
| `Timers.TimerList.Unlist` | RT-Thread-1.2.2/src/timer.c:306-310 | the timer leaves the rows and is no longer active |
| `Timers.TimerList.ReadTick` | RT-Thread-1.2.2/src/timer.c:318-319 | the stored tick is the true deadline modulo 2^32, and the rows stay in order |
| `Timers.TimerList.StartRead` | RT-Thread-1.2.2/src/timer.c:304-319 | the first part of rt_timer_start refines the specification; the stored tick is the true deadline modulo 2^32 |
| `Timers.TimerList.StartLink` | RT-Thread-1.2.2/src/timer.c:321-391 | the second part refines the specification, ticks in between included |
| `Timers.TimerList.Link` | RT-Thread-1.2.2/src/timer.c:337-388 | search and insertion together are the sorted insertion |
| `Timers.TimerList.Start` | RT-Thread-1.2.2/src/timer.c:292-407 | rt_timer_start, called with interrupts disabled, refines the specification |
| `Timers.TimerList.Stop` | RT-Thread-1.2.2/src/timer.c:417-440 | rt_timer_stop refines the specification, and fails exactly on an inactive timer |
| `Timers.TimerList.SetTimer` | RT-Thread-1.2.2/src/timer.c:452-477 | rt_timer_control refines the specification |
| `Timers.TimerList.FireFirst` | RT-Thread-1.2.2/src/timer.c:501-534 | one turn of the check loop refines the firing step |
| `Timers.TimerList.CheckTimers` | RT-Thread-1.2.2/src/timer.c:486-544 | the whole check loop terminates and refines the specification |
| `Timers.TimerList.TickIncrease` | RT-Thread-1.2.2/src/clock.c:83-105 | a tick over the wrapping 32-bit counter refines the unbounded clock |
| `MessageQueueSpec.NextInv` | RT-Thread-1.2.2/src/ipc.c:1939-2267 | each critical section of send, urgent, receive and reset keeps: every pool node is in exactly one of free list, queue, one sender's hand, one receiver's hand |
| `MessageQueueSpec.AlwaysOnePlace` | RT-Thread-1.2.2/src/ipc.c:1939-2267 | so in every interleaving of any number of senders and receivers |
| `MessageQueueSpec.AlwaysFifo` | RT-Thread-1.2.2/src/ipc.c:1964-2270 | in every run, urgent messages and resets included, the messages received and the messages queued are those of a plain deque on which the same links at tail and head, takes and resets were done |
| `MessageQueueSpec.UrgentNext` | RT-Thread-1.2.2/src/ipc.c:2049-2061 | in every run, the next message received after an urgent one was linked is that one, however many sends, fills, timeouts and releases come in between |
| `MessageQueueSpec.FrontStays` | RT-Thread-1.2.2/src/ipc.c:1964-1995 | between any two points of a run without receive, urgent send and reset the queue only grows at its end, and the bodies of its messages stay |
| `MessageQueueSpec.BodyStaysInHand` | RT-Thread-1.2.2/src/ipc.c:2192-2216 | in every run, from the receive that takes a node to its return to the free list, the node is in that receiver's hand and its body is the value recorded as received |
| `MessageQueueSpec.NoSleepOnMessage` | RT-Thread-1.2.2/src/ipc.c:1981-1995 | while receivers sleep, at least as many woken ones are on their way as messages are queued |
| `MessageQueueSpec.TakeFreeIff` | RT-Thread-1.2.2/src/ipc.c:1939-1956 | a send finds the queue full if and only if every node is queued or in somebody's hand; otherwise it gets a node that is not |
| `MessageQueueSpec.BodyIsCopied` | RT-Thread-1.2.2/src/ipc.c:1958-1961 | in every run a node holds what was last copied into it |
| `MessageQueueSpec.FilledIsLinked` | RT-Thread-1.2.2/src/ipc.c:1956-1980 | so what a sender links is what it copied |
| `MessageQueueSpec.LinkWakesFirst` | RT-Thread-1.2.2/src/ipc.c:1981-1990 | a link wakes the receiver that stands first, and nobody else |
| `MessageQueueSpec.ReceiveSettles` | RT-Thread-1.2.2/src/ipc.c:2115-2204 | a receiver that finds no message waits, if it may, at its place; one that finds one takes the first |
| `MessageQueueSpec.WaitEndsIff` | RT-Thread-1.2.2/src/ipc.c:1981-2267 | a waiting receiver stops waiting exactly when its timer runs out, a message is linked while it stands first, or the queue is reset; only in the second case does it look for a message again |
| `MessageQueueSpec.WaitOrderKept` | RT-Thread-1.2.2/src/ipc.c:92-157 | two receivers that go on waiting keep their order, over every step |
| `MessageQueueSpec.LastFreedIsNext` | RT-Thread-1.2.2/src/ipc.c:2210-2215 | the node given back last is the next one given out |
| `MessageQueueSpec.LogIsHistory` | RT-Thread-1.2.2/src/ipc.c:1964-2270 | the log the deque replays is the history of the run: one entry per link, take and reset, with the body the message had |
| `MessageQueueSpec.ReplayInOrder` | RT-Thread-1.2.2/src/ipc.c:1964-2270 | whatever is done to it, the deque holds urgent messages first, the last linked in front, and ordinary ones behind in link order, each message once |
| `MessageQueueSpec.EveryMessageSomewhere` | RT-Thread-1.2.2/src/ipc.c:1964-2270 | every message linked is in exactly one place: queued, received, or thrown away by a reset |
| `MessageQueueSpec.Gone` | RT-Thread-1.2.2/src/ipc.c:1964-2270 | what was received or thrown away at any point stays so in order, and nothing returns to the queue |
| `MessageQueueSpec.OrdinaryInOrder` | RT-Thread-1.2.2/src/ipc.c:1964-2202 | ordinary messages leave in the order they were linked, also with urgent messages and resets in between |
| `MessageQueueSpec.UrgentFirst` | RT-Thread-1.2.2/src/ipc.c:2049-2061 | an urgent message leaves before everything that was queued when it was linked |
| `MessageQueueSpec.LostIff` | RT-Thread-1.2.2/src/ipc.c:2249-2267 | a message is thrown away if and only if it was queued at a reset |
| `MessageQueueSpec.ResetDiscards` | RT-Thread-1.2.2/src/ipc.c:2249-2267 | what was queued at a reset is never received and never queued again, and the queue is empty after the reset |
| `MessageQueue.Queue.Ends` | RT-Thread-1.2.2/src/ipc.c:1964-2202 | head and tail are null, and entry is zero, exactly when the queue is empty |
| `MessageQueue.Queue.constructor` | RT-Thread-1.2.2/src/ipc.c:1738-1785 | rt_mq_init links all nodes into the free list |
| `MessageQueue.Queue.TakeFreeNode` | RT-Thread-1.2.2/src/ipc.c:1939-1956 | the first critical section of a send takes the first free node or finds the queue full |
| `MessageQueue.Queue.FillNode` | RT-Thread-1.2.2/src/ipc.c:1958-1961 | copying the body into a node held by the sender disturbs no list |
| `MessageQueue.Queue.LinkPool` | RT-Thread-1.2.2/src/ipc.c:1772-1779 | the loop of rt_mq_init chains all nodes on the free list |
| `MessageQueue.Queue.AppendNode` | RT-Thread-1.2.2/src/ipc.c:1965-1976 | linking at the tail appends the node to the queue and leaves the free list alone |
| `MessageQueue.Queue.PrependNode` | RT-Thread-1.2.2/src/ipc.c:2052-2058 | linking at the head puts the node first and leaves the free list alone |
| `MessageQueue.Queue.LinkAtTail` | RT-Thread-1.2.2/src/ipc.c:1963-1995 | the second critical section of rt_mq_send |
| `MessageQueue.Queue.LinkAtHead` | RT-Thread-1.2.2/src/ipc.c:2048-2077 | the second critical section of rt_mq_urgent |
| `MessageQueue.Queue.ReceiveNode` | RT-Thread-1.2.2/src/ipc.c:2115-2205 | one round of rt_mq_recv: take the head, or suspend, or fail |
| `MessageQueue.Queue.PutFreeNode` | RT-Thread-1.2.2/src/ipc.c:2210-2216 | the last critical section of rt_mq_recv |
| `MessageQueue.Queue.ResetQueue` | RT-Thread-1.2.2/src/ipc.c:2243-2270 | the reset loop frees every queued node and wakes every sleeper |
| `EventSpec.ScanLeavesNone` | RT-Thread-1.2.2/src/ipc.c:1017-1067 | after the send loop no thread still waiting has its AND or OR condition satisfied by the remaining set, although CLEAR waiters shrink the set on the way |
| `EventSpec.NextInv` | RT-Thread-1.2.2/src/ipc.c:998-1199 | send, receive and timeout keep: no waiting thread's condition holds |
| `EventSpec.NoLostWakeup` | RT-Thread-1.2.2/src/ipc.c:998-1199 | so in every reachable state |
| `EventSpec.ScanTakesOnce` | RT-Thread-1.2.2/src/ipc.c:1017-1067 | in one send loop each bit is either still set or was taken by exactly one CLEAR receiver |
| `EventSpec.EachBitTakenOnce` | RT-Thread-1.2.2/src/ipc.c:998-1199 | over every run a bit is taken by CLEAR receivers at most as often as it was sent |
| `EventSpec.ScanGives` | RT-Thread-1.2.2/src/ipc.c:1030-1065 | every delivery answers a waiter and reports the bits it asked for that were set |
| `EventSpec.SatisfiedIffAsked` | RT-Thread-1.2.2/src/ipc.c:1032-1047 | the test of the send loop holds if and only if, bit by bit, every asked bit is set (AND) or some asked bit is set (OR) |
| `EventSpec.WaitersLackBits` | RT-Thread-1.2.2/src/ipc.c:998-1199 | in every run, of a thread waiting with AND some asked bit is not set, and of one waiting with OR none is |
| `EventSpec.SendAdds` | RT-Thread-1.2.2/src/ipc.c:1017-1018 | the send adds exactly the sent bits before it looks at the waiters |
| `EventSpec.TurnServesIff` | RT-Thread-1.2.2/src/ipc.c:1026-1065 | one turn of the send loop serves the waiter if and only if every asked bit (AND) or some asked bit (OR) is set, with exactly the asked bits that are set, and takes exactly the asked bits out if the waiter asked for CLEAR |
| `EventSpec.RecvServesIff` | RT-Thread-1.2.2/src/ipc.c:1121-1199 | rt_event_recv serves the caller at once under the same condition and with the same bits; otherwise it takes nothing, and the caller waits, if it may |
| `EventSpec.ExpireLeaves` | RT-Thread-1.2.2/src/thread.c:636-657 | a timeout takes that one waiter off the list, the others keep their order, and the set stays |
| `EventObject.EventObj.constructor` | RT-Thread-1.2.2/src/ipc.c:889-906 | rt_event_init |
| `EventObject.EventObj.Send` | RT-Thread-1.2.2/src/ipc.c:998-1077 | the loop over the live suspend list refines the specification; afterwards, bit by bit, no waiting thread's AND or OR request is met |
| `EventObject.EventObj.ServeAt` | RT-Thread-1.2.2/src/ipc.c:1026-1065 | one turn of that loop, removal under iteration included; the thread is resumed if and only if its asked bits are set, all or any |
| `EventObject.EventObj.Recv` | RT-Thread-1.2.2/src/ipc.c:1093-1199 | take at once, or suspend, or fail; it takes at once if and only if all or any of the asked bits are set, and gets the asked-for part of the set |
| `EventObject.EventObj.Timeout` | RT-Thread-1.2.2/src/thread.c:636-657 | a timeout takes exactly that waiter off the list |
| `MutexSpec.SuspendOrdered` | RT-Thread-1.2.2/src/ipc.c:92-135 | a PRIO suspend keeps the list ordered by priority, equals in arrival order |
| `MutexSpec.NextInv` | RT-Thread-1.2.2/src/ipc.c:642-859 | take, release, timeout and outside priority changes keep: value is 1 iff there is no owner iff hold is 0; the owner does not wait; and, with the PRIO flag, the list is ordered and the owner's priority is no worse than any waiter's, also after hand-off |
| `MutexSpec.AlwaysInv` | RT-Thread-1.2.2/src/ipc.c:642-859 | so in every reachable state |
| `MutexSpec.OutermostReleaseRestores` | RT-Thread-1.2.2/src/ipc.c:806-849 | in every run the outermost release gives the thread back the priority it had when it took the mutex, recursive holds and inheritance in between included |
| `MutexSpec.OwnerPriorityIsBest` | RT-Thread-1.2.2/src/ipc.c:677-752 | in every run, with either flag, an owner's priority is exactly the best of the one it had when it got the mutex and of those of all threads that began to wait since; a waiter's timeout does not take an inherited priority back |
| `MutexSpec.HandOffIff` | RT-Thread-1.2.2/src/ipc.c:819-849 | after a hand-off the new owner is no worse than the waiters if and only if the first waiter was the best one |
| `MutexSpec.FifoInversion` | RT-Thread-1.2.2/src/ipc.c:819-849 | with the FIFO flag a run exists after which the owner is worse than a waiter |
| `MutexSpec.HoldIsBalance` | RT-Thread-1.2.2/src/ipc.c:670-673 | in every run, from the step that makes a thread the owner, it stays the owner exactly as long as its successful takes since then outnumber its releases, and hold is the difference |
| `MutexSpec.OwnershipEndsIff` | RT-Thread-1.2.2/src/ipc.c:806-849 | a step ends the ownership if and only if it is the release by the owner that brings the difference to zero |
| `MutexSpec.TakeSettles` | RT-Thread-1.2.2/src/ipc.c:642-761 | a take succeeds if and only if the mutex is free or the caller owns it; otherwise the caller waits, if it may, and nobody else starts to |
| `MutexSpec.OrderKept` | RT-Thread-1.2.2/src/ipc.c:92-135 | two threads that go on waiting keep their order, over every step |
| `MutexSpec.WaitOrder` | RT-Thread-1.2.2/src/ipc.c:92-135 | in every run, of two waiting threads the one that began earlier stands first, except that with the PRIO flag the better priority does; equals stand in order of arrival |
| `MutexSpec.HandsToFirst` | RT-Thread-1.2.2/src/ipc.c:819-849 | the release that ends an ownership hands the mutex to the waiting thread in front of all others, or leaves it free if nobody waits |
| `MutexSpec.WaitEndsIff` | RT-Thread-1.2.2/src/thread.c:636-657 | a thread stops waiting exactly when its timer runs out or it is handed the mutex as the first of the list; the timer changes nothing else |
| `MutexSpec.PriorityStep` | RT-Thread-1.2.2/src/ipc.c:677-849 | what every step makes of every thread's priority: the owner inherits from a better waiter and gets its original back when its ownership ends; nobody else's changes unless it is set |
| `MutexObject.MutexObj.constructor` | RT-Thread-1.2.2/src/ipc.c:525-544 | rt_mutex_init |
| `MutexObject.MutexObj.ListSuspend` | RT-Thread-1.2.2/src/ipc.c:92-135 | the insertion loop refines the ordered insertion |
| `MutexObject.MutexObj.TakeMutex` | RT-Thread-1.2.2/src/ipc.c:642-761 | rt_mutex_take refines the specification; it succeeds if and only if the caller ends up owner |
| `MutexObject.MutexObj.ReleaseMutex` | RT-Thread-1.2.2/src/ipc.c:772-859 | rt_mutex_release refines the specification; it succeeds if and only if the caller was the owner |
| `MutexObject.MutexObj.RestorePriority` | RT-Thread-1.2.2/src/ipc.c:811-817 | the owner gets its original priority back, nobody else changes |
| `MutexObject.MutexObj.Timeout` | RT-Thread-1.2.2/src/thread.c:636-657 | a timeout takes exactly that waiter off the list |
| `RtList.InsertRing` | RT-Thread-1.2.2/include/rtservice.h:62-84 | inserting a node behind any node of a ring yields the ring with it in that place, next and prev inverse |
| `RtList.RemoveRing` | RT-Thread-1.2.2/include/rtservice.h:90-96 | removing a node yields the ring without it |
| `RtList.Lists.InsertAfter` | RT-Thread-1.2.2/include/rtservice.h:62-69 | rt_list_insert_after on arrays of links |
| `RtList.Lists.InsertBefore` | RT-Thread-1.2.2/include/rtservice.h:77-84 | rt_list_insert_before of the list head appends |
| `RtList.Lists.Remove` | RT-Thread-1.2.2/include/rtservice.h:90-96 | rt_list_remove takes the node out and leaves it a ring of its own |
| `RtList.Lists.IsEmpty` | RT-Thread-1.2.2/include/rtservice.h:102-105 | rt_list_isempty holds exactly for the one-node ring |
| `FindFirstSet.TableIsLowest` | RT-Thread-1.2.2/src/kservice.c:1205-1223 | every entry of the 256-byte table is the index of the lowest set bit |
| `FindFirstSet.FfsIsLowest` | RT-Thread-1.2.2/src/kservice.c:1235-1249 | __rt_ffs is 0 exactly for 0, otherwise one more than the index of the lowest set bit of all 32 |
| `FindFirstSet.NoneBelow` | RT-Thread-1.2.2/src/kservice.c:1235-1249 | below that index no bit is set |
| `SchedulerSpec.GroupBits` | RT-Thread-1.2.2/src/scheduler.c:300 | setting or clearing a priority's mask changes exactly that bit of the ready group |
| `SchedulerSpec.ResumeInv` | RT-Thread-1.2.2/src/thread.c:595-627 | a resume keeps the invariant for every thread and status |
| `SchedulerSpec.SuspendInv` | RT-Thread-1.2.2/src/thread.c:554-585 | a suspend keeps the invariant |
| `SchedulerSpec.SuspendOnInv` | RT-Thread-1.2.2/src/ipc.c:92-135 | suspending on an object keeps the invariant |
| `SchedulerSpec.StartupInv` | RT-Thread-1.2.2/src/thread.c:203-234 | a startup keeps the invariant, although it goes through suspend state |
| `SchedulerSpec.TimeoutInv` | RT-Thread-1.2.2/src/thread.c:636-657 | a timeout takes the thread off its object and makes it ready |
| `SchedulerSpec.YieldInv` | RT-Thread-1.2.2/src/thread.c:377-411 | a yield keeps the invariant |
| `SchedulerSpec.ChangePriorityInv` | RT-Thread-1.2.2/src/thread.c:476-541 | a priority change moves a ready thread to its new queue and keeps the invariant |
| `SchedulerSpec.ExitInv` | RT-Thread-1.2.2/src/thread.c:47-82 | an exit keeps the invariant |
| `SchedulerSpec.NextInv` | RT-Thread-1.2.2/src/thread.c:377-657 | every step keeps: bit p of the ready group is set iff queue p is not empty; queue p holds exactly the ready threads of priority p, once each; masks are 1<<p; suspend lists hold only suspended threads |
| `SchedulerSpec.AlwaysInv` | RT-Thread-1.2.2/src/thread.c:377-657 | so in every reachable state |
| `SchedulerSpec.ScheduleSelectsBest` | RT-Thread-1.2.2/src/scheduler.c:191-258 | rt_schedule, through __rt_ffs, makes the head of the best non-empty queue current; no ready thread has a better priority |
| `SchedulerSpec.NothingReadyIff` | RT-Thread-1.2.2/src/scheduler.c:191-258 | the ready group is 0 exactly when no thread is ready |
| `SchedulerSpec.OneListEach` | RT-Thread-1.2.2/src/scheduler.c:267-353 | a thread is on at most one of all ready queues, suspend lists and the defunct list |
| `SchedulerOrder.StepThread` | RT-Thread-1.2.2/src/thread.c:47-657 | what every step makes of every thread: only the thread the step is about changes its state or priority, and how |
| `SchedulerOrder.StepList` | RT-Thread-1.2.2/src/thread.c:595-657 | which suspend lists a thread is on after a step: it comes on one by waiting there, and leaves by resume, timeout or exit |
| `SchedulerOrder.WaitPlace` | RT-Thread-1.2.2/src/ipc.c:92-135 | a thread that waits stands at its place in the list, the others keep theirs |
| `SchedulerOrder.QueueEffect` | RT-Thread-1.2.2/src/scheduler.c:267-353 | what a step does to a ready queue: nothing, or the thread it is about leaves, or goes to the tail |
| `SchedulerOrder.OrderKept` | RT-Thread-1.2.2/src/scheduler.c:267-353 | two threads that stay in a ready queue keep their order, unless the first one yields or is queued again |
| `SchedulerOrder.EntersLast` | RT-Thread-1.2.2/src/scheduler.c:267-304 | a thread that becomes ready, by resume, startup, timeout or priority change, or yields, stands behind everything in its queue |
| `SchedulerOrder.ReadyInOrder` | RT-Thread-1.2.2/src/scheduler.c:267-353 | in every run, of two ready threads of one priority the one ready longer without yielding stands first |
| `SchedulerOrder.ReadyFrom` | RT-Thread-1.2.2/src/scheduler.c:267-304 | every ready thread was put at the tail of its queue by some step and has stayed in it since |
| `SchedulerOrder.PicksLongestReady` | RT-Thread-1.2.2/src/scheduler.c:191-258 | in every run rt_schedule takes a thread of the best priority, and among those the one that has been ready longest since it last yielded |
| `SchedulerOrder.LockedKeepsCurrent` | RT-Thread-1.2.2/src/scheduler.c:358-400 | in every run, while calls of rt_enter_critical outnumber those of rt_exit_critical, no thread is switched, and the nesting count is the difference |
| `Scheduler.Kernel.constructor` | RT-Thread-1.2.2/src/scheduler.c:120-147 | empty queues satisfy the invariant |
| `Scheduler.Kernel.ScheduleInsertThread` | RT-Thread-1.2.2/src/scheduler.c:267-304 | READY, at the tail of its queue, its bit set |
| `Scheduler.Kernel.ScheduleRemoveThread` | RT-Thread-1.2.2/src/scheduler.c:313-353 | out of its queue, the bit cleared when the queue runs empty |
| `Scheduler.Kernel.Reschedule` | RT-Thread-1.2.2/src/scheduler.c:191-258 | rt_schedule refines the specification |
| `Scheduler.Kernel.ThreadResume` | RT-Thread-1.2.2/src/thread.c:595-627 | fails exactly on a thread that is not suspended |
| `Scheduler.Kernel.ThreadSuspend` | RT-Thread-1.2.2/src/thread.c:554-585 | fails exactly on a thread that is not ready |
| `Scheduler.Kernel.ListSuspend` | RT-Thread-1.2.2/src/ipc.c:92-135 | suspends on an object's list at the given place |
| `Scheduler.Kernel.ThreadStartup` | RT-Thread-1.2.2/src/thread.c:203-234 | startup on the real fields refines the specification |
| `Scheduler.Kernel.ThreadTimeout` | RT-Thread-1.2.2/src/thread.c:636-657 | timeout refines the specification |
| `Scheduler.Kernel.ThreadYield` | RT-Thread-1.2.2/src/thread.c:377-411 | a ready thread with company goes to the tail of its queue, otherwise nothing changes |
| `Scheduler.Kernel.ThreadChangePriority` | RT-Thread-1.2.2/src/thread.c:476-541 | priority change refines the specification |
| `Scheduler.Kernel.ThreadExit` | RT-Thread-1.2.2/src/thread.c:47-82 | exit refines the specification |
| `CoilTable.SetWordBits` | FreeModbus/modbus/functions/mbutils.c:47-83 | the masked 16-bit update changes exactly the addressed bits |
| `CoilTable.GetWordBits` | FreeModbus/modbus/functions/mbutils.c:86-114 | the masked read returns exactly the addressed bits, zero padded |
| `CoilTable.WriteExactIff` | FreeModbus/port/user_mb_app.c:208-223 | for any data the write changes no coil outside the range if and only if every coil in the tail of the last byte whose stray data bit is set was set already |
| `CoilTable.PaddedWriteExact` | FreeModbus/port/user_mb_app.c:208-223 | with zero padding exactly the addressed coils take the data bits |
| `CoilTable.ReadAfterWrite` | FreeModbus/port/user_mb_app.c:192-223 | reading back a zero-padded write returns the written bytes |
| `CoilTable.Coils.constructor` | FreeModbus/port/user_mb_app.c:33-37 | an empty table |
| `CoilTable.Coils.SetBits` | FreeModbus/modbus/functions/mbutils.c:47-83 | xMBUtilSetBits on the buffer, across the byte border |
| `CoilTable.Coils.GetBits` | FreeModbus/modbus/functions/mbutils.c:86-114 | xMBUtilGetBits from the buffer, across the byte border |
| `CoilTable.Coils.Write` | FreeModbus/port/user_mb_app.c:208-223 | the write loop, and exactly the bytes it uses the helper on |
| `CoilTable.Coils.Read` | FreeModbus/port/user_mb_app.c:192-205 | the read loop with its n/8+1 turns returns the slice packed LSB first with zero padding, and exactly the bytes it touches |
| `CoilTable.WritePastIff` | FreeModbus/modbus/functions/mbutils.c:72-82 | a write inside a table touches the byte behind the table exactly when its last helper call is on the last byte, and nothing further |
| `CoilTable.ReadPastIff` | FreeModbus/port/user_mb_app.c:192-200 | exactly when a read touches the byte behind the table, and exactly when a second one |
| `MirrorSpec.U16Back` | FreeModbus/modbus/functions/mbfuncholding_m.c:112-115 | a 16-bit number split into two bytes and put together again is itself |
| `MirrorSpec.ReadCoilsBits` | FreeModbus/port/user_mb_app.c:192-205 | every bit of the packed reply is the coil, or padding |
| `MirrorSpec.WriteReadRegs` | FreeModbus/port/user_mb_app_m.c:139-147 | registers written from a read reply are the registers that were read, the others unchanged |
| `MirrorSpec.WriteReadCoils` | FreeModbus/port/user_mb_app_m.c:213-228 | coils written from a read reply are the coils that were read, the others unchanged |
| `MirrorSpec.SameCoilWrite` | FreeModbus/port/user_mb_app_m.c:213-228 | tables that agree still agree after a write of equal data |
| `MirrorSpec.SameRegWrite` | FreeModbus/port/user_mb_app_m.c:139-147 | a register write depends only on the bytes of its range |
| `MirrorTables.WrittenIsWriteCoils` | FreeModbus/port/user_mb_app.c:208-223 | the packed write is the write on plain booleans |
| `MirrorTables.PackedIsReadLoop` | FreeModbus/port/user_mb_app.c:192-205 | the packed read is the read loop on plain booleans |
| `MirrorTables.Store.WriteHolding` | FreeModbus/port/user_mb_app_m.c:139-147 | the register write loop changes that row as specified and no other |
| `MirrorTables.Store.ReadHolding` | FreeModbus/port/user_mb_app.c:126-134 | the register read loop, high byte first |
| `MirrorTables.Store.HoldingWriteCB` | FreeModbus/port/user_mb_app_m.c:102-155 | the holding-register callback writes exactly when the range fits; the whole mirror after it |
| `MirrorTables.Store.CoilsWriteCB` | FreeModbus/port/user_mb_app_m.c:167-236 | the coil callback writes exactly when the range fits; the whole mirror after it, next row included |
| `MirrorTables.Store.CoilsRead` | FreeModbus/port/user_mb_app.c:165-231 | the coil callback's read |
| `MirrorTables.WriteFromRow` | FreeModbus/port/user_mb_app_m.c:178-228 | a write at a row of the whole array is a write at the start of the array seen from that row |
| `MirrorExchange.ReadRegsExchange` | FreeModbus/modbus/functions/mbfuncholding_m.c:265-337 | function 3, for 1 to 125 registers of the table: the exchange succeeds, the mirror equals the slave on the read range whatever it held, is unchanged elsewhere, and agreement is kept |
| `MirrorExchange.ReadCoilsExchange` | FreeModbus/modbus/functions/mbfunccoils_m.c:88-176 | function 1, for 1 to 1999 coils of the table: the same |
| `MirrorExchange.WriteCoilExchange` | FreeModbus/modbus/functions/mbfunccoils_m.c:194-267 | function 5, for every coil of the table: the exchange succeeds, agreement is kept and the coil has the requested value |
| `MirrorExchange.WriteRegExchange` | FreeModbus/modbus/functions/mbfuncholding_m.c:100-152 | function 6, for every register of the table: the exchange succeeds, agreement is kept and the register has the requested value |
| `MirrorExchange.WriteCoilsExchange` | FreeModbus/modbus/functions/mbfunccoils_m.c:287-387 | function 15, on a row and its slave, for 1 to 1968 coils of the table: the exchange succeeds, agreement is kept and the coils have the requested values, whatever the unused bits of the last byte |
| `MirrorExchange.WriteRegsExchange` | FreeModbus/modbus/functions/mbfuncholding_m.c:169-249 | function 16, for 1 to 120 registers of the table: the exchange succeeds, agreement is kept and the registers have the requested values |
| `MirrorExchange.ReadWriteExchange` | FreeModbus/modbus/functions/mbfuncholding_m.c:357-451 | function 23, for 1 to 125 registers to read and 1 to 121 to write, both in the table: the exchange succeeds, the mirror equals the slave on the read range, and agreement is kept, overlapping read and write ranges included |
| `MirrorExchange.ReadWriteKeepsIff` | FreeModbus/modbus/functions/mbfuncholding.c:235-306 | a function 23 request that passes every check but the one on its read range is answered with an exception and has been written, exactly that write; any other request answered with an exception changes nothing |
| `MirrorExchange.RefusedKeeps` | FreeModbus/modbus/functions/mbfuncholding.c:77-228 | reads never change the slave; a write answered with an exception changes nothing |
| `MirrorExchange.BroadcastCoil` | FreeModbus/modbus/functions/mbfunccoils_m.c:219-267 | function 5 as a broadcast: the handler does to a row what the slave does to its table |
| `MirrorExchange.BroadcastReg` | FreeModbus/modbus/functions/mbfuncholding_m.c:124-152 | function 6 as a broadcast, likewise |
| `MirrorExchange.BroadcastCoils` | FreeModbus/modbus/functions/mbfunccoils_m.c:329-387 | function 15 as a broadcast, on a row and its slave alone; what it does to the next row is in MirrorRows |
| `MirrorExchange.BroadcastRegs` | FreeModbus/modbus/functions/mbfuncholding_m.c:202-249 | function 16 as a broadcast, likewise |
| `MirrorExchange.ReadWriteChangesIff` | FreeModbus/modbus/functions/mbfuncholding.c:246-303 | a function 23 request answered with an exception can change a slave if and only if it is long enough, its counts and byte count are valid and its write range fits, and its read range does not |
| `MirrorExchange.ReadWriteChangedSlave` | FreeModbus/modbus/functions/mbfuncholding.c:246-303 | such a request and a table that it changes |
| `MirrorExchange.CoilCountIff` | FreeModbus/modbus/functions/mbfunccoils.c:88-95 | function 1 refuses a count as a value if and only if it is 0 or at least 2000 |
| `MirrorAnswers.ReadCoilsAnswer` | FreeModbus/modbus/functions/mbfunccoils.c:68-144 | function 1: the slave accepts if and only if 1 <= n < 2000 and the range is in the table; a count outside is an illegal value, otherwise a range outside an illegal address; the reply is the packed coils |
| `MirrorAnswers.ReadRegsAnswer` | FreeModbus/modbus/functions/mbfuncholding.c:169-228 | function 3: likewise for 1 <= n <= 125; the reply is the registers, high byte first |
| `MirrorAnswers.WriteCoilAnswer` | FreeModbus/modbus/functions/mbfunccoils.c:148-197 | function 5: likewise for the values 0xFF00 and 0x0000; exactly that coil changes and the request is the reply |
| `MirrorAnswers.WriteRegAnswer` | FreeModbus/modbus/functions/mbfuncholding.c:76-105 | function 6: accepted if and only if the address is in the table; exactly that register changes and the request is the reply |
| `MirrorAnswers.WriteCoilsAnswer` | FreeModbus/modbus/functions/mbfunccoils.c:202-267 | function 15: a frame of any length from 6 bytes on is accepted if and only if 1 <= n <= 1968 with the byte count that goes with n, and the range is in the table, with the value looked at first; the coils take the data bits and the reply is the head of the request |
| `MirrorAnswers.WriteRegsAnswer` | FreeModbus/modbus/functions/mbfuncholding.c:109-164 | function 16: likewise for 1 <= n <= 120; exactly the registers of the range take the values |
| `MirrorAnswers.ReadWriteAnswer` | FreeModbus/modbus/functions/mbfuncholding.c:234-306 | function 23: accepted if and only if 1 to 125 registers are read and 1 to 121 written and both ranges are in the table, counts looked at first; exactly the written range changes, also when only the read range is refused; the reply shows the registers after the write |
| `MirrorAnswers.ReadWriteCount` | FreeModbus/modbus/functions/mbfuncholding.c:261-265 | function 23: a byte count that does not go with the registers to write is an illegal value, and nothing is written |
| `MirrorAnswers.ShortFrames` | FreeModbus/modbus/functions/mbfuncholding.c:77-105 | a frame too short for its function is an illegal value, except that function 23 answers it with itself |
| `MirrorAnswers.ReadRepliesTaken` | FreeModbus/modbus/functions/mbfuncholding_m.c:288-337 | a reply of function 1 or 3 is taken over if and only if its byte count goes with the request and the range is in the mirror; otherwise the mirror stays |
| `MirrorAnswers.EchoesTaken` | FreeModbus/modbus/functions/mbfuncholding_m.c:123-152 | the echo of function 5 or 6, likewise |
| `MirrorAnswers.WriteRepliesTaken` | FreeModbus/modbus/functions/mbfuncholding_m.c:201-249 | the reply of function 15 or 16, or a broadcast of theirs, likewise |
| `MirrorAnswers.ReadWriteReplyTaken` | FreeModbus/modbus/functions/mbfuncholding_m.c:394-451 | the reply of function 23, likewise; a read range the mirror does not have leaves the written registers |
| `MirrorRows.RowKeepsIff` | FreeModbus/port/user_mb_app_m.c:33-38 | when one row of the mirror changes, all sixteen rows keep agreeing with their slaves if and only if that row does and nothing behind it has changed |
| `MirrorRows.WriteQuietIff` | FreeModbus/port/user_mb_app_m.c:213-228 | a coil write leaves everything behind its row as it was if and only if every stray bit of its last byte meets a coil already set there |
| `MirrorRows.PaddedMeetsAll` | FreeModbus/port/user_mb_app_m.c:213-228 | zero padding is sufficient for every row |
| `MirrorRows.BehindMirrorIff` | FreeModbus/port/user_mb_app_m.c:213-228 | a write to the last row leaves the memory behind the mirror as it was if and only if its stray bits meet set bits there |
| `MirrorRows.RowTouchesNextIff` | FreeModbus/port/user_mb_app_m.c:213-228 | a write to a row uses a byte behind the row, one at most, exactly when its last helper call is on the row's last byte |
| `MirrorRows.WriteCoilsAllIff` | FreeModbus/modbus/functions/mbfunccoils_m.c:287-387 | function 15 to one slave: the handler takes the reply, and afterwards all rows agree if and only if every stray bit landing in the next row meets a coil already set |
| `MirrorRows.ReadCoilsAll` | FreeModbus/modbus/functions/mbfunccoils_m.c:88-176 | function 1: the handler for its code takes the zero-padded reply and disturbs no other row |
| `MirrorRows.WriteCoilAll` | FreeModbus/modbus/functions/mbfunccoils_m.c:194-267 | function 5: the handler for its code takes the echo and disturbs no other row |
| `MirrorRows.RegsAll` | FreeModbus/modbus/functions/mbfuncholding_m.c:124-451 | the register functions disturb no other row |
| `MirrorRows.ReadRegsAll` | FreeModbus/modbus/functions/mbfuncholding_m.c:288-337 | function 3 from one slave: the handler for its code takes the reply and every row keeps its agreement |
| `MirrorRows.WriteRegAll` | FreeModbus/modbus/functions/mbfuncholding_m.c:123-152 | function 6 to one slave: likewise |
| `MirrorRows.WriteRegsAll` | FreeModbus/modbus/functions/mbfuncholding_m.c:201-249 | function 16 to one slave: likewise |
| `MirrorRows.ReadWriteAll` | FreeModbus/modbus/functions/mbfuncholding_m.c:394-451 | function 23 to one slave: likewise |
| `MirrorRows.NoHandler` | FreeModbus/modbus/mb_m.c:321-346 | a function code without a handler is refused and leaves the mirror as it is |
| `MirrorRows.BroadcastCoilAll` | FreeModbus/modbus/mb_m.c:332-338 | function 5 as a broadcast over all sixteen rows keeps every row in agreement |
| `MirrorRows.BroadcastRegAll` | FreeModbus/modbus/mb_m.c:332-338 | function 6, likewise |
| `MirrorRows.BroadcastRegsAll` | FreeModbus/modbus/mb_m.c:332-338 | function 16, likewise |
| `MirrorRows.BroadcastCoilsAllIff` | FreeModbus/modbus/mb_m.c:332-338 | function 15: every row keeps its agreement if and only if the request is refused or every stray bit that lands in a next row meets a coil already set there |
| `MirrorRows.BroadcastDamages` | FreeModbus/port/user_mb_app_m.c:213-228 | four coils from 60 on with data 0xF0: the second row no longer agrees with its slave |
| `MirrorHandlers.SlaveHandlers.ReadCoils` | FreeModbus/modbus/functions/mbfunccoils.c:69-144 | the function 1 handler overwrites frame and length as specified |
| `MirrorHandlers.SlaveHandlers.WriteCoil` | FreeModbus/modbus/functions/mbfunccoils.c:149-197 | the function 5 handler |
| `MirrorHandlers.SlaveHandlers.WriteMultipleCoils` | FreeModbus/modbus/functions/mbfunccoils.c:203-267 | the function 15 handler |
| `MirrorHandlers.SlaveHandlers.WriteHoldingRegister` | FreeModbus/modbus/functions/mbfuncholding.c:77-105 | the function 6 handler |
| `MirrorHandlers.SlaveHandlers.WriteMultipleHoldingRegister` | FreeModbus/modbus/functions/mbfuncholding.c:110-164 | the function 16 handler |
| `MirrorHandlers.SlaveHandlers.ReadHoldingRegister` | FreeModbus/modbus/functions/mbfuncholding.c:170-228 | the function 3 handler |
| `MirrorHandlers.SlaveHandlers.ReplyRegs` | FreeModbus/modbus/functions/mbfuncholding.c:193-215 | the register reply in the frame |
| `MirrorHandlers.SlaveHandlers.ReadWriteMultipleHoldingRegister` | FreeModbus/modbus/functions/mbfuncholding.c:235-306 | the function 23 handler: write first, then read |
| `MirrorHandlers.MasterHandlers.PutHead` | FreeModbus/modbus/functions/mbfuncholding_m.c:109-116 | function code and two 16-bit fields in the send buffer |
| `MirrorHandlers.MasterHandlers.RequestRead` | FreeModbus/modbus/functions/mbfuncholding_m.c:265-286 | the requests of functions 1 and 3 |
| `MirrorHandlers.MasterHandlers.RequestWriteCoil` | FreeModbus/modbus/functions/mbfunccoils_m.c:194-216 | the request of function 5 |
| `MirrorHandlers.MasterHandlers.PutData` | FreeModbus/modbus/functions/mbfuncholding_m.c:188-193 | the data loop of the requests |
| `MirrorHandlers.MasterHandlers.RequestWriteCoils` | FreeModbus/modbus/functions/mbfunccoils_m.c:287-326 | the request of function 15 |
| `MirrorHandlers.MasterHandlers.RequestWriteRegs` | FreeModbus/modbus/functions/mbfuncholding_m.c:169-199 | the request of function 16 |
| `MirrorHandlers.MasterHandlers.RequestReadWrite` | FreeModbus/modbus/functions/mbfuncholding_m.c:357-392 | the request of function 23 |
| `MirrorHandlers.MasterHandlers.ReadCoils` | FreeModbus/modbus/functions/mbfunccoils_m.c:113-176 | the reply handler of function 1 on the mirror row |
| `MirrorHandlers.MasterHandlers.WriteCoil` | FreeModbus/modbus/functions/mbfunccoils_m.c:219-267 | the reply handler of function 5 |
| `MirrorHandlers.MasterHandlers.WriteMultipleCoils` | FreeModbus/modbus/functions/mbfunccoils_m.c:329-387 | the reply handler of function 15, whose data come from the send buffer |
| `MirrorHandlers.MasterHandlers.WriteHoldingRegister` | FreeModbus/modbus/functions/mbfuncholding_m.c:124-152 | the reply handler of function 6 |
| `MirrorHandlers.MasterHandlers.WriteMultipleHoldingRegister` | FreeModbus/modbus/functions/mbfuncholding_m.c:202-249 | the reply handler of function 16 |
| `MirrorHandlers.MasterHandlers.ReadHoldingRegister` | FreeModbus/modbus/functions/mbfuncholding_m.c:289-337 | the reply handler of function 3 |
| `MirrorHandlers.MasterHandlers.StoreExchange` | FreeModbus/modbus/functions/mbfuncholding_m.c:430-439 | the two register callbacks: what was written, then what was read |
| `MirrorHandlers.MasterHandlers.ReadWriteMultipleHoldingRegister` | FreeModbus/modbus/functions/mbfuncholding_m.c:395-451 | the reply handler of function 23: the written registers from the send buffer, then the read ones |
| `MirrorHandlers.SlaveHandlers.CoilsCallback` | FreeModbus/port/user_mb_app.c:165-231 | the coil callback on the slave's only table |
| `MirrorHandlers.SlaveHandlers.HoldingCallback` | FreeModbus/port/user_mb_app.c:101-153 | the holding-register callback on the slave's only table |
| `MirrorHandlers.MasterHandlers.Execute` | FreeModbus/modbus/mb_m.c:321-346 | the handler for the function code, on the addressed row; the illegal-function exception when there is none |
| `MirrorHandlers.MasterHandlers.ExecuteBroadcast` | FreeModbus/modbus/mb_m.c:332-338 | the broadcast loop runs the handler on every row in turn, the exception being the last one's |

## Left out

- MemHeap.RtMemHeap.Realloc: sizes up to 2^32 - 72 only; above that the size comparisons wrap around.
- MemHeap.RtMemHeap.Init: the pool must have room for two headers, as the code assumes without a check.
- SmallHeap.SmallMem.Realloc: pointers are NULL, outside the heap, or live; the code asserts no more and trusts the caller.
- TimerSpec.FiresOnDeadline: callbacks that start or stop timers themselves, and skipped ticks, are not modelled.
- Timers.TimerList.StartLink: a link delayed so far, or ticks so large, that a listed deadline could lie half the tick range or more from the current tick is excluded.
- Timers.TimerList.SetTimer: a listed periodic timer is not given zero ticks or half the tick range, with which rt_timer_check would not end or rt_timer_start would assert.
- MessageQueueSpec.AlwaysFifo: a message body is one value per node; `rt_memcpy` of its bytes and the message size check are not modelled.
- MutexSpec.AlwaysInv: one mutex; nested mutexes and priority changes of threads that own it or wait for it are not modelled, nor is the overflow of the 8-bit hold count.
- SchedulerSpec.AlwaysInv: at most 32 priorities, as this build has; direct resumes of waiters and deletion of never-started threads are preconditions; stacks, context switch and thread timers are not modelled.
- MasterSpec.RunInv: callbacks are atomic, and at most one gap-free run of bytes answers a request; races inside a callback and late or unsolicited frames are not modelled.
- RtuMaster.MbMaster.PollExecute: whether a handler ran and what it returned are parameters; the handlers are modelled in `MirrorHandlers`.
- RtuLine.MasterToSlave: PDUs of up to 250 bytes, which the master's send buffer holds with address and CRC.
- MirrorHandlers.MasterHandlers.RequestWriteCoils: requests longer than the send buffer (which the code does not refuse) are excluded.
- MirrorHandlers.MasterHandlers.RequestWriteRegs: requests longer than the send buffer, likewise.
- MirrorHandlers.MasterHandlers.RequestReadWrite: requests longer than the send buffer, likewise.
- Scheduler.Kernel.ThreadResume: one step, although thread.c tests the status before it disables interrupts and uses two interrupts-disabled regions; nobody else is assumed to touch the thread in between.
- Scheduler.Kernel.ThreadSuspend: the status test and the region behind it are one step, likewise; so are ThreadStartup and ThreadTimeout.
- The locks of the allocators (`heap_sem`, `heap->lock`) and hence concurrent calls; memory is modelled as cells at the struct offsets of the headers, other header bytes carrying no value.
- Ready queues and suspend lists are sequences; `RtList` shows that the linked rings implement their insertions and removals.
- The slab zone layer, memory pools, mailboxes, semaphores (except as the master's resource counter) and the soft-timer thread: smaller variants of what is modelled.
- Modbus ASCII and TCP, discrete inputs, input registers and Report Slave ID: easier copies of the RTU and holding-register paths.
- Serial and timer hardware, device layer, object names, module loading, console output and board support.
