# Sweeping, span allocation and the page heap: a Dafny model

This project models the parts of the crate that sweep spans, hand out objects, keep the sweep
buffers, and account for free pages, and proves what they are for.  `dafny verify dfyconfig.toml`
checks all of it.

## What is modelled

**The sweep-generation protocol** (`SweepProtocol`, `SweepInvariant`, `SweepTheorems`, `SweepProgress`,
`SweepAnswers`, `ReadOrder`).  A step machine in
which any number of threads run `sweep_one` or sweep a span directly, spans are allocated, and
collections raise the generation by 2 so that the two stacks trade roles.  Each access to shared state is
a step of its own: testing `sweep_done`, joining the sweepers, loading the generation, popping, the two
reads of the span, the compare-and-swap, counting the swept pages, stamping, freeing, pushing, leaving.
The theorems hold for every schedule, over any number of cycles.

**One thread sweeping** (`Collector`, `CollectorTheorems`).  The class `GC` runs `sweep_one` and the drain
loop of the background sweeper on a heap of full span records, and terminates.

**The sweep buffer** (`SweepBuffer`; `ConcurrentPush`, `PushLimit`, `PushProgress`; `ConcurrentPop`, `PopProgress`;
`BufferBag`, `BufferLifetime`, `SpineCapacity`).  A class over arrays refines a plain stack; two step machines interleave pushes with pushes, and pops with pops, one
atomic access at a time, and both refine a bag; alternating rounds of the two make up the life of a buffer.

**The span's bitmaps** (`MemorySpan` over `Bits`, `Bitmap`, `PopCount`; `SpanModel`; `SpanAllocation`).  A class with byte
arrays and a 64-bit cache, proved to act on a span whose bitmaps are plain sets of object indices.

**The page heap** (`ArenaIndex`, `Words`, `Released`, `PageHeap`, `PageRuns`, `PageHeapTheorems`, `PageHeapRecords`).  Slots of
the arena map, rounding to physical pages, and the merging of free spans.

`FreeChecks` holds the checks of the locked free, which both heaps use.  `Powers`, `Sums`, `FiniteSets`,
`Generations`, `BlockSizes`, `BufferMemory` and `Options` hold shared definitions.

## How the model reads the source

Where the code departs from what its comments say it does, the model has the intended form, and for six
of these departures a lemma says exactly when the code as written is right.

- src/gc.rs:240 goes on with the loop when the swap *succeeds*.  Modelled: it goes on when the swap fails
  (src/gc.rs:237-239).  `CollectorTheorems.AsWrittenRightExactlyWhenNothingDue` treats the form as written.
- src/gc.rs:225-226 reads a popped span's generation before its state.  Modelled: state first.
  `ReadOrder.GenerationFirstSafeExactly` treats the order as written: it is free of panics if and only if no
  direct sweep gives a span back to the heap; in particular (`ReadOrder.ReadOrderMatters`) without direct
  sweeps, of which the crate has none.
- src/sweep_buffer.rs:74-76 tests an unsigned cursor for exactly 0.  Modelled: signed, `<= 0`.
  `ConcurrentPop.UnsignedSafeExactlyAlone` treats the form as written.
- src/memory_span.rs:501 adds before it shifts.  Modelled: `start + (pages << PAGE_SHIFT)`.
  `Released.EndAsWrittenExactly` treats the form as written.
- src/memory_heap.rs:569 subtracts before it shifts.  Modelled: `(1 << ARENA_LEVEL_2_BITS) - 1`.
  `ArenaIndex.AsWrittenMaskExactly` treats the form as written.
- src/memory_heap.rs:550 adds without wrapping, so that with overflow checks it fails on high addresses.
  Modelled: the sum wraps.  `ArenaIndex.PlainSumExactly` treats the plain sum.
- src/sweep_buffer.rs:58-60 and src/sweep_buffer.rs:140-143 transmute the address of a spine slot.  Modelled:
  the block pointer in the slot is loaded or stored.
- src/sweep_buffer.rs:163 reallocates the spine.  Modelled: a larger copy, the old spine staying readable
  (src/sweep_buffer.rs:170-177).
- src/memory_span.rs:460 may shift by 64, which overflow checks reject.  Modelled: the result is arbitrary, and
  is shown never to be read; `NextFreeIndex` says when it happens (`SpanModel.ShiftsWord`): exactly when the
  object found is the last of its 64 and the search came through all of them.
- src/memory_heap.rs:429 declares a new `needs_scavenge` inside the closure, so the outer one never changes.
  Neither is modelled.
- The conditions on src/memory_allocator.rs:297-307 define the arena size twice on Windows.  The `WINDOWS`
  layout takes the Windows value.

Assumed of what is a stub or lies elsewhere:

- `new_mark_bits` gives a fresh zeroed bitmap padded to whole 64-bit words; `free_specials` does nothing.
- `MemoryCentral::free_span` stamps the span with the heap's generation and keeps it (src/memory_span.rs:268;
  the body at src/memory_central.rs:9-11 does not stamp).
- `MemorySpanTreap::remove_span` takes a member out of a set.
- Atomic accesses are sequentially consistent; the generation is at least 2; a span of size class 0 is one
  object; arenas of mapped pages exist.
- A spine slot that was never stored to holds no pointer.
- A direct sweeper is counted in `sweepers` while at work, so that no collection begins meanwhile.  The crate has no direct sweeper; the count
  stands for "GC must not start while we are in the middle" (src/memory_span.rs:169-170).
  `SweepTheorems.DoneWithoutDirectSweepers` counts as the source does.
- A collection raises the generation only when `sweep_done` is set and no sweeper is left.  The crate has no
  such step; its effect is documented at src/memory_heap.rs:139 and src/memory_span.rs:75-79.

`!0`, the answer that there is nothing to sweep, is `NothingToSweep` or `None`.  A panic is a failed result or
the state `Panicked`.  Divisions by powers of two in `ArenaIndex` and `Released` use `Powers.Div` and
`Powers.Mod`, which `Powers.DivIsDivision` equates with `/` and `%`; `Words.And` and `Words.Not` are shown to be the
operations of a 64-bit word.

## Model

| member | source | states |
|---|---|---|
| SweepTheorems.QuiescenceMeansSwept | src/gc.rs:206-257 | whenever `sweep_done` is set and no sweeper is left: nothing is unswept, each span in use has generation g and sits once on the swept stack, each span of the cycle was swept exactly once, and `pages_swept` grew by exactly their pages |
| SweepTheorems.EverySpanPlaced | src/memory_heap.rs:144-153 | in every reachable state each span in use is at g-2 waiting or with one popper, at g-1 with exactly one sweeper, or at g on the swept stack or about to be handed on; no two threads hold or own one span |
| SweepTheorems.NoPanicAndExactPages | src/gc.rs:222-252 | no panic is reachable; `pages_in_use` is the sum over spans in use; the numbers answered by `sweep_one` add up to the pages it returned to the heap (`SweepAnswers` tells a number from `!0`) |
| SweepTheorems.DoneWithoutDirectSweepers | src/gc.rs:206-257 | with `sweepers` counting `sweep_one` alone: when the sweep is done and it is 0, each span in use has generation g and sits once on the swept stack, unless a direct sweeper is at work on it |
| SweepProgress.CallBounded | src/gc.rs:213-255 | between collections, however the others run, a thread takes at most five more steps in its call for each unswept span, and seven besides |
| SweepProgress.QuiescenceReachable | src/gc.rs:206-257 | from every reachable state, steps of the threads alone can bring the sweep to its end, with everything swept |
| SweepAnswers.CallsGoRight | src/gc.rs:206-257 | over every run each call of `sweep_one` goes one of three ways: it finds the sweep done and answers `None`; it finds the unswept stack empty and answers `None`; or it sweeps one span, gives it back or keeps it, and answers the pages given back |
| SweepAnswers.NumbersTellSweeps | src/gc.rs:195-196 | over every run the calls that have answered a number, or are about to, are as many as the spans `sweep_one` has swept, and what each thread answers adds up to the pages it has given back |
| SweepAnswers.EventHappens | src/gc.rs:206-252 | the events that these two count are what happens to the heap: which spans are swept, freed or kept, and when nothing is found |
| SweepProgress.DoneKeepsOut | src/gc.rs:206-207 | once the sweep is done, a call begun by a thread at rest is over at once: until the next collection the thread takes no part in sweeping, unless directly |
| SweepProgress.AllocationHappens | src/memory_span.rs:75-79 | allocation takes a free span into use with the generation of the heap, on the swept stack, and keeps the invariant |
| SweepProgress.CollectionHappens | src/memory_heap.rs:139-153 | a collection can begin whenever the sweep is done and no sweeper is left; each span in use then waits once on the unswept stack |
| SweepProgress.StampGoesEitherWay | src/memory_span.rs:239-306 | a sweeper that stamps its span goes on to free it or to push it |
| ReadOrder.GenerationFirstSafe | src/gc.rs:225-244 | with the order as written, while no direct sweep gives a span back: no panic, and at quiescence everything is swept, each span once, with exact `pages_swept` |
| ReadOrder.GenerationFirstPanics | src/gc.rs:225-233 | a run with the order as written, in which a direct sweep gives a span back, that reaches the "non in-use span" panic |
| ReadOrder.GenerationFirstSafeExactly | src/gc.rs:225-235 | the order as written is free of panics if and only if direct sweeps may not give a span back |
| ReadOrder.ReadOrderMatters | src/gc.rs:225-235 | the order as written is free of panics if and only if there are no direct sweeps |
| SweepTheorems.RunKeepsInv | src/gc.rs:197-257 | any run over any number of cycles keeps the invariant |
| SweepInvariant.StepKeepsInv | src/gc.rs:206-257 | every step, allocation and collection included, keeps the invariant |
| SweepInvariant.JudgeStep | src/gc.rs:226-236 | a popped span is dropped only if it is already dealt with, and a span not in use has the heap's generation |
| SweepInvariant.ClaimStep | src/gc.rs:236-244 | the compare-and-swap gives a waiting span to exactly one thread; the loser drops it |
| SweepInvariant.SweepStep | src/memory_span.rs:176-187 | a claimed span passes the check at the start of `sweep`, and its pages are counted |
| SweepInvariant.StampStep | src/memory_span.rs:239-258 | the sweeper still owns the span when it stamps it |
| SweepInvariant.FreeSpanStep | src/memory_heap.rs:345-385 | freeing a swept span meets none of the panics and keeps `pages_in_use` exact |
| SweepInvariant.PushStep | src/memory_span.rs:298-304 | a kept span lands on the swept stack once |
| SweepInvariant.QuiescentSpans | src/memory_heap.rs:139-141 | what is known of one span once the sweep is done and no sweeper is left |
| SweepInvariant.CollectKeeps | src/memory_span.rs:75-79 | raising the generation by 2 at quiescence makes the swept stack the unswept one of the next cycle and re-establishes the invariant |
| Collector.GC.FreeSpan | src/memory_heap.rs:345-385 | the locked free: which spans may be freed, and the state and `pages_in_use` afterwards |
| Collector.GC.Sweep | src/memory_span.rs:168-306 | sweeping one claimed span on the heap, to its end on the heap or on the swept stack |
| Collector.GC.PopSpan | src/gc.rs:214-217 | takes the newest span of the unswept stack, nothing exactly when it is empty |
| Collector.GC.Round | src/gc.rs:213-255 | one round of the loop of `sweep_one` |
| Collector.GC.SweepOne | src/gc.rs:197-257 | the loop ends; its result and heap are those of the specification; `sweepers` is restored; a finished sweep is reported and nothing changed |
| Collector.GC.Drain | src/gc.rs:129-134 | the drain loop ends and counts one background sweep for each result |
| CollectorTheorems.RoundKeeps | src/gc.rs:213-255 | a round does not fail; it sweeps one waiting span or drops one already dealt with |
| CollectorTheorems.RoundAnswers | src/gc.rs:213-247 | whatever the heap: a round ends the loop with `!0` exactly on an empty stack, drops the span on top exactly when it is claimed or finished, and fails on one that is not in use and not of this generation |
| CollectorTheorems.LoopKeeps | src/gc.rs:213-255 | `sweep_one` sweeps exactly one waiting span, or reports that none waits |
| CollectorTheorems.DrainKeeps | src/gc.rs:131-134 | the drain loop takes one result for each waiting span |
| CollectorTheorems.DrainSweepsAll | src/gc.rs:129-134 | draining sweeps exactly the waiting spans, each once, changes no other, grows `pages_swept` by their pages, and its results add up to the pages returned to the heap |
| CollectorTheorems.FreeSpanExactly | src/memory_heap.rs:345-385 | the locked free takes a span if and only if it holds no objects and is manual, or in use with the heap's generation; `pages_in_use` never runs short and stays the sum over spans in use; no other span changes |
| CollectorTheorems.OutcomeSound | src/memory_span.rs:209-297 | sweeping a sound claimed span does not fail and leaves it sound with the heap's generation |
| CollectorTheorems.SweepGivesOutcome | src/memory_heap.rs:345-385 | from `sweep`, no panic of the locked free is reached |
| CollectorTheorems.AsWrittenStrands | src/gc.rs:236-244 | with the swap test as written nothing is swept: each waiting span is left at g-1 on neither stack |
| CollectorTheorems.AsWrittenRightExactlyWhenNothingDue | src/gc.rs:236-244 | the test as written sweeps the heap if and only if no span waits |
| SweepBuffer.SweepBuffer.constructor | src/sweep_buffer.rs:46-53 | a new buffer is empty |
| SweepBuffer.SweepBuffer.Push | src/sweep_buffer.rs:100-125 | appends the span, across block boundaries and spine growth; a block is added exactly when those there are full |
| SweepBuffer.SweepBuffer.AllocateBlock | src/sweep_buffer.rs:127-147 | adds one fresh block at the end of the spine, keeping all others, and grows the spine only when it is full; the capacity stays the least of 0, 256, 512, 1024 and so on |
| SweepBuffer.SweepBuffer.GrowSpine | src/sweep_buffer.rs:149-178 | a spine of twice the capacity (256 at first) with the same blocks, the old one untouched |
| SweepBuffer.SweepBuffer.Pop | src/sweep_buffer.rs:73-94 | removes and returns the span pushed last and clears its slot; `None` when there is none |
| BlockSizes.CapGrows | src/sweep_buffer.rs:149-155 | doubling a full spine, from 256 on, and no other, keeps the capacity the least that is enough |
| BlockSizes.LeastCapIsLeast | src/sweep_buffer.rs:149-155 | that capacity is the least 256 times a power of two not below the number of blocks |
| ConcurrentPush.MissingBlockIsNext | src/sweep_buffer.rs:107-122 | with at most 512 pushes in flight, a push that finds its block missing finds it to be block `spine_length` |
| ConcurrentPush.StepKeepsInv | src/sweep_buffer.rs:100-178 | with at most 512 pushes in flight, every step keeps the invariant of lock, spines, blocks and cursors |
| ConcurrentPush.BlocksAllocatedInOrder | src/sweep_buffer.rs:100-147 | in every interleaving with at most 512 pushes in flight, in any number of threads, a thread allocating holds the lock with `top == spine_length`, all spines ever published agree, and no push meets an empty slot |
| ConcurrentPush.PushesLoseNothing | src/sweep_buffer.rs:98-125 | with at most 512 in flight at a time, once all pushes have finished the buffer holds what it held and every span pushed, once, in the order of the cursors |
| PushProgress.PushBounded | src/sweep_buffer.rs:97-147 | a push takes at most twelve effective steps of its own, however the others run |
| PushProgress.CanMove | src/sweep_buffer.rs:107-124 | a push under way can always go on, unless it waits for a lock that is held |
| PushProgress.WaitsForAnother | src/sweep_buffer.rs:113-117 | a push that waits for the lock waits for another push that can go on |
| PushProgress.PushesCanEnd | src/sweep_buffer.rs:97-125 | from every state reached with at most 512 pushes in flight, steps of the pushes alone bring them all to their end, and the buffer then holds every span whose push had begun |
| PushProgress.LockFreePush | src/sweep_buffer.rs:105-110 | a push that finds its block announced neither takes nor waits for the lock, whatever the others do |
| SpineCapacity.PushesFit | src/sweep_buffer.rs:127-178 | in every interleaving with at most 512 pushes in flight the capacity is the least one for the blocks the spine must have room for |
| SpineCapacity.LifetimeFits | src/sweep_buffer.rs:127-178 | between rounds of pushes and pops the current spine has the least capacity for the blocks there are |
| PushLimit.FaultWithMoreThreads | src/sweep_buffer.rs:107-122 | from any quiescent buffer and for any number of threads above 512, a schedule in which a push meets a spine slot that is empty or not there |
| PushLimit.SafeExactlyUpToBlockSize | src/sweep_buffer.rs:98-125 | from any quiescent buffer, up to k pushes in flight are safe, in any number of threads, if and only if k is at most 512 |
| PushLimit.ThreadsSafeExactly | src/sweep_buffer.rs:98-125 | from any quiescent buffer, pushing in n threads is safe if and only if n is at most 512 |
| ConcurrentPop.PopsClaimSlotsOnce | src/sweep_buffer.rs:70-94 | in every interleaving each slot is returned at most once, with the span it held, and `None` is returned only after every slot is claimed |
| ConcurrentPop.PopsLeaveTheRest | src/sweep_buffer.rs:73-94 | once all pops have finished, `index` is the number of spans left and the slots from there up are exactly those returned, each cleared |
| ConcurrentPop.PopsConserve | src/sweep_buffer.rs:73-94 | the spans returned and the spans left make up the spans there were |
| PopProgress.StepNearer | src/sweep_buffer.rs:73-94 | no pop waits: each step of a pop under way leaves it one step fewer, and the last returns its one result |
| PopProgress.PopsCanEnd | src/sweep_buffer.rs:69-94 | from every reachable state the pops under way come to their end in the steps they have left, and the buffer holds the oldest spans |
| PopProgress.PopAlone | src/sweep_buffer.rs:73-94 | a pop that runs alone returns the newest span and leaves the others, or returns `None` from an empty buffer |
| PopProgress.PopsCanEmpty | src/sweep_buffer.rs:69-94 | pops can empty any buffer, and return exactly what it held |
| ConcurrentPop.UnsignedFault | src/sweep_buffer.rs:74-76 | with the test as written, two overlapping pops of an empty buffer read a slot that does not exist |
| ConcurrentPop.UnsignedSafeExactlyAlone | src/sweep_buffer.rs:74-76 | up to k pops in flight are safe with the test as written, in any number of threads, if and only if k is at most 1 |
| BufferBag.PushesRefineBag | src/sweep_buffer.rs:97-125 | with at most 512 pushes in flight, every step of any run of pushes is a step on a bag or none: a push puts its span in at its last step |
| BufferBag.PopsRefineBag | src/sweep_buffer.rs:69-94 | every step of any run of pops is a step on a bag or none: a pop takes a span out at its first step and returns that span, or finds the bag empty and returns nothing |
| BufferLifetime.RoundConserves | src/sweep_buffer.rs:70-100 | one round of concurrent pushes or pops, run to its end, conserves spans |
| BufferLifetime.LifetimeConserves | src/memory_heap.rs:144-153 | over any number of alternating rounds, the spans ever pushed are those popped and those still held |
| MemorySpan.MemorySpanData.RefillAllocationsCache | src/memory_span.rs:480-485 | the cache becomes the complement of the 64 bits from the given byte |
| MemorySpan.MemorySpanData.CountWholeBytes | src/memory_span.rs:403-408 | the byte loop counts exactly the set bits of the whole bytes |
| MemorySpan.MemorySpanData.CountAllocations | src/memory_span.rs:402-417 | with the loop over whole bytes, the table and the masked tail count exactly the mark bits below the element count |
| MemorySpan.MemorySpanData.ShiftCache | src/memory_span.rs:460 | the shifted cache follows the free index to the end of its word; whether the shift was by 64, which overflow checks reject |
| MemorySpan.MemorySpanData.SkipFullWords | src/memory_span.rs:435-453 | the loop passes over allocated objects only |
| MemorySpan.MemorySpanData.NextFreeIndex | src/memory_span.rs:423-474 | returns the least clear allocation bit at or after the free index below the element count, or the element count, and keeps the cache right; the shift is by 64 exactly when that bit is the last of its word and the search came through the whole word |
| MemorySpan.MemorySpanData.TakeMarkBits | src/memory_span.rs:225-237 | the mark bits become the allocation bits, a fresh clear bitmap takes their place, allocation restarts |
| MemorySpan.MemorySpanData.Advance | src/memory_span.rs:460-472 | moves the free index past the object found, and the cache with it, refilled at a new word |
| MemorySpan.MemorySpanData.Restart | src/memory_span.rs:223-237 | tells whether no object was free, and restarts allocation from the mark bits |
| MemorySpan.MemorySpanData.Sweep | src/memory_span.rs:168-306 | on the bitmaps, `sweep` does what `SweepSpan` does on sets; it panics exactly on a span not claimed for g or with more marks than allocations; it frees exactly a span of span class below 2 with nothing marked (counted modulo 2^16); `was_empty` tells whether no object was free |
| MemorySpan.SpanClassParts | src/memory_span.rs:131-145 | a span class is twice its size class, plus one if its objects hold no pointers |
| MemorySpan.TwinsSweptAlike | src/memory_span.rs:131-145 | the two span classes of one size class are swept alike |
| MemorySpan.ComplementCaches | src/memory_span.rs:480-485 | eight little-endian bytes, complemented, are the cache of their 64 objects |
| MemorySpan.WordExhausted | src/memory_span.rs:435-441 | an empty cache means all objects up to the end of the word are allocated |
| MemorySpan.LowestCached | src/memory_span.rs:450-454 | the trailing zeros of the cache lead to the next free object |
| MemorySpan.CacheShifted | src/memory_span.rs:460 | shifting the cache moves its window by as many objects |
| Bits.BitFromLeBytes | src/memory_span.rs:481-483 | bit j of the word is bit j%8 of byte j/8 |
| Bits.TrailingZerosIsLowest | src/memory_span.rs:436 | the trailing zeros of a word are the index of its lowest set bit, or 64 |
| PopCount.TableHalves | src/memory_span.rs:147-159 | every entry of the table is its lowest bit plus the entry of the remaining bits |
| Bitmap.CountByteByTable | src/memory_span.rs:147-159 | the table gives the number of set bits of every byte |
| Bitmap.CountMasked | src/memory_span.rs:409-415 | masking a byte drops exactly the bits at and above the mask from the count |
| Bitmap.CountSetIsCardinality | src/memory_span.rs:399-417 | counting bit by bit gives the size of the set of marked objects |
| SpanAllocation.AllocateToExhaustion | src/memory_span.rs:419-474 | on the bitmaps, `next_free_index` called until it is exhausted hands out the objects that the set model does |
| SpanAllocation.SweepAndAllocate | src/memory_span.rs:209-237 | on the bitmaps, a sweep frees exactly a span of span class below 2 with nothing marked, and allocation to exhaustion then hands out exactly the unmarked objects, in order, each once, as many as elements less allocations |
| SpanModel.AllocateAllIsFreeObjects | src/memory_span.rs:419-474 | handing out objects to exhaustion yields exactly the free ones, strictly increasing |
| SpanModel.SweepConserves | src/memory_span.rs:168-306 | a sound claimed span never panics; old count = new count + allocated and unmarked objects; every path ends with generation g; freed exactly when of class 0 with nothing marked, and then marked for zeroing |
| SpanModel.SweepPanicsExactly | src/memory_span.rs:176-218 | `sweep` panics exactly on a span that is not in use at g-1, and on one with more marked than allocated objects, counted modulo 2^16 |
| SpanModel.ResetSpanAllocatesClear | src/memory_span.rs:225-237 | from a reset free index, allocation yields exactly the clear bits |
| SpanModel.SweptSpanAllocatesUnmarked | src/memory_span.rs:209-237 | after a sweep, allocation yields exactly the unmarked objects, as many as elements less allocations |
| ArenaIndex.PageRecovered | src/memory_heap.rs:519-525 | the page number is recovered from the slot |
| ArenaIndex.OneSlotPerPage | src/memory_heap.rs:519-525 | two addresses share a slot if and only if they lie in one page, for all power-of-two sizes |
| ArenaIndex.InBoundsExactly | src/memory_heap.rs:537-571 | the slot is within the tables if and only if the address is one the map covers |
| ArenaIndex.CanonicalExactly | src/memory_allocator.rs:364-374 | with an offset of half the map, the covered addresses are exactly the sign-extended ones |
| ArenaIndex.PlatformSlots | src/memory_allocator.rs:297-374 | on 64-bit Linux and Windows, each 8 KiB page of the 48-bit canonical space has its own slot in bounds, and no other address has one in bounds |
| ArenaIndex.SlotNumbers | src/memory_heap.rs:519-571 | the three numbers of a slot on Linux and on Windows, with `/` and `%` of the address |
| ArenaIndex.PlainSumExactly | src/memory_heap.rs:549-551 | of the covered addresses, the plain sum serves exactly the lower half |
| ArenaIndex.TwoArenasOneSlot | src/memory_heap.rs:565-571 | two addresses in different arenas that the mask as written sends to one slot |
| ArenaIndex.WindowsLevel2AsWritten | src/memory_heap.rs:565-571 | on Windows the mask as written keeps bit 19 of the arena index and drops the others |
| ArenaIndex.AsWrittenMaskExactly | src/memory_heap.rs:565-571 | the mask as written gives each page its own slot if and only if there is no first level or the second has one bit |
| Words.AndIsWordAnd | src/memory_heap.rs:569 | bitwise and of numbers is the `&` of 64-bit words |
| Words.NotIsWordNot | src/memory_span.rs:505-506 | the complement of a number is the `!` of a 64-bit word |
| Words.ShiftIsDivision | src/memory_heap.rs:561 | shifting a word right divides by a power of two |
| Words.AndLowMask | src/memory_heap.rs:569 | masking the low n bits takes the remainder by 2^n |
| Words.AndHighMask | src/memory_span.rs:505-506 | masking away the low n bits takes the remainder off |
| Released.MaskRounds | src/memory_span.rs:503-507 | the mask rounds down to a multiple of any power of two |
| Released.BoundsRoundIn | src/memory_span.rs:497-509 | the bounds are the start rounded up and the end rounded down |
| Released.RoundingIsTight | src/memory_span.rs:504-506 | the rounded bounds are the least multiple from the start on and the greatest up to the end |
| Released.ReleasesWholePages | src/memory_span.rs:487-495 | a scavenged span has released exactly the physical pages wholly inside it |
| Released.NotScavengedReleasesNothing | src/memory_span.rs:490-492 | a span that is not scavenged has released nothing |
| Released.ReleasedIsGivenBack | src/memory_span.rs:487-509 | what is released, in all three cases: nothing, all bytes, or the whole physical pages between the rounded bounds |
| Released.DefinedExactly | src/memory_span.rs:489-495 | the subtraction stays in range if and only if the span meets a physical page boundary |
| Released.ReleasedAtMost | src/memory_span.rs:487-509 | no more is released than the span has, and all of it when physical pages are no larger than heap pages |
| Released.ReleasedOfJoin | src/memory_heap.rs:409-430 | released(merged) = released(a) + released(b), plus one physical page exactly when the joint cuts one; at most the bytes merged |
| Released.EndAsWrittenExactly | src/memory_span.rs:501 | the end as written is the end of the span if and only if the span starts at address 0 |
| FreeChecks.CheckFree | src/memory_heap.rs:354-376 | which spans pass the checks of the locked free, and `pages_in_use` afterwards |
| PageHeap.LockedHeap.Free | src/memory_heap.rs:345-409 | checks and frees a span and starts to coalesce it with what it had released |
| PageHeap.LockedHeap.SetSpan | src/memory_heap.rs:519-525 | sets the entry of one slot, given that it is within the tables |
| PageHeap.LockedHeap.Grow | src/memory_heap.rs:416-426 | grows the span and rewrites the map at its new lowest or highest page |
| PageHeap.LockedHeap.Discard | src/memory_heap.rs:430-438 | counts what the merged span had released and takes it out of the set of its kind |
| PageHeap.LockedHeap.Merge | src/memory_heap.rs:412-441 | one merge, as the specification has it, failing only when `released` does |
| PageHeap.LockedHeap.Insert | src/memory_heap.rs:397-402 | the coalesced span joins the free spans of its kind |
| PageRuns.CountsArePages | src/memory_heap.rs:43-47 | page counts of the spans add up to the number of pages they hold |
| PageRuns.MergeKeeps | src/memory_heap.rs:412-441 | a merge keeps spans disjoint, placed and tagged, and keeps the pages held |
| PageHeapTheorems.SetSpanSetsOnePage | src/memory_heap.rs:518-525 | `set_span` changes the span found for one page and for no other |
| PageHeapTheorems.MergeInBounds | src/memory_heap.rs:419-426 | a merge writes within the arena map |
| PageHeapTheorems.StepDefinedExactly | src/memory_heap.rs:354-376 | a free succeeds if and only if the span holds no objects, has the heap's generation when in use, and, when scavenged, meets a physical page boundary (or these are no larger than heap pages); a merge if and only if the neighbour meets the last condition; an insertion always |
| PageHeapTheorems.StepKeeps | src/memory_heap.rs:394-441 | freeing, merging and inserting each keep the invariant and the pages held |
| PageHeapTheorems.RunKeeps | src/memory_heap.rs:43-47 | over any run the spans stay a partition of the same pages, found from their lowest and highest page (in use: from every page), with the same total |
| PageHeapTheorems.RunKeepsCount | src/memory_heap.rs:54 | over any run `pages_in_use` is the number of pages of the spans in use, and all pages of the heap are those, the manually managed and the free ones |
| PageHeapTheorems.RunKeepsDirty | src/memory_heap.rs:418 | over any run a page to be zeroed stays in a span marked so |
| PageHeapTheorems.LookupFinds | src/memory_heap.rs:93-97 | any address in a span in use, or in the lowest or highest page of a free one, leads to that span |
| PageHeapTheorems.MergesRelease | src/memory_heap.rs:405-430 | along any merges of scavenged spans, released(result) is the amount counted plus one physical page for each joint that cut one |
| PageHeapTheorems.CoalescingReleases | src/memory_heap.rs:405-430 | from the freeing of a scavenged span through any merges: counted <= released(result) <= bytes of the result, all equal when physical pages are no larger than heap pages |
| PageHeapRecords.StepRecords | src/memory_heap.rs:385-441 | a free changes the state of one span and nothing else of any record; a merge changes start, size and need for zeroing of one; an insertion changes none |
| PageHeapRecords.StepScavenged | src/memory_heap.rs:394-441 | no step changes whether a page is scavenged, but for the pages of a merged span, which take the kind of the span they join |
| PageHeapRecords.RunScavenged | src/memory_heap.rs:394-441 | over any run a page comes to be scavenged only by being merged into a scavenged span, and ceases to be only by being merged into one that is not |
| PageHeapRecords.StepCounts | src/memory_heap.rs:405-430 | freeing a span counts what it had given back, nothing if it is not scavenged; merging a span that is not scavenged adds nothing |
| PageHeapRecords.CoalescingCounts | src/memory_heap.rs:405-430 | from a free through any merges, what is counted is what the scavenged pieces had given back |

## Left out

- SweepTheorems.QuiescenceMeansSwept: a sweep buffer is a bag here, whose pushes and pops are single steps; `BufferBag` shows that a buffer refines it while at most 512 pushes are in flight and pushes and pops do not overlap, and with more a push may fail (`PushLimit`).
- SweepTheorems.NoPanicAndExactPages: holds, as to panics inside a buffer, with at most 512 pushes in flight; `PushLimit.SafeExactlyUpToBlockSize` shows that more may fail.  In the step machine whether a swept span is freed is a free choice; `SpanModel.SweepConserves` says when it is.
- SweepInvariant.StepKeepsInv: generations are unbounded numbers, so wrap-around of the counter is not modelled.
- ConcurrentPush.PushesLoseNothing: the cursor does not wrap around at 2^64.
- MemorySpan.MemorySpanData.Sweep: ends where the span is handed on; `Collector.GC.Sweep` models the handing on.  Bitmaps belonging to one span are not shared with another.
- MemorySpan.MemorySpanData.NextFreeIndex: a free index beyond the element count, on which the source panics, is excluded by the invariant that every method keeps.
- MemorySpan.MemorySpanData.SkipFullWords: rounding the index up to a word boundary is written as division; `Released.MaskRounds` shows that the mask of the source does the same.
- Collector.GC.PopSpan: the two buffers are sequences here; `SweepBuffer` refines such a sequence.
- Collector.GC.Sweep: spans are records reached by index, so aliasing of span pointers is not modelled; nor is the heap after a panic.
- Released.ReleasesWholePages: the span lies in the address space with room to round its start up.
- PageHeap.LockedHeap.Merge: spans are records reached by index and the arena map is a map from slots; the merged span's record is left as it is, as in the source.
- PageHeap.LockedHeap.Insert: the insertion is a comment in the source; without it no second span could be freed and merged with the first.
- The order in which `coalesce` looks for neighbours, realigning, scavenging and `heap_released` are comments in the source.
- The treap, the span lists, `static_vec`, `work` and the size-class tables are stubs, constants or comments.
- Futures, parking and waking, channels, `enable`, and the freeing of work buffers in src/gc.rs.
- Marking and the arenas of mark bits: mark bits are an input to `sweep`.
- Finalizers, specials, tracing, statistics and timestamps.
- Raw allocation, mutex poisoning and weak memory ordering.
- Arena layouts of AIX, and of 32-bit targets, where src/memory_allocator.rs:309-315 makes an arena smaller than a page and leaves it no slots.
