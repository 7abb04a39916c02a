# pdb-sim engine core in Dafny

This project models the low-level core of the pdb-sim engine, a small C game
engine for Windows with a Vulkan renderer, and proves properties of it:

- `atomic.dfy`: the single-word atomics of `src/atomic.c` (increment, decrement, compare-assign, read, write) on a 32-bit `Cell`.
- `deque.dfy`: the bounded, semaphore-guarded ring deque of `src/deque.c`. The operations are modelled as written and as evidently intended, and the ring is given a contents view.
- `moremath.dfy`: the index wrap `wrapi` of `src/moremath.h`.
- `heap.dfy`: the growable heap of `src/heap.c` and its older copy `heap.c`. It covers pool growth, the allocation answer, free, and the release order of destroy. The allocator (TLSF) and the OS are oracles whose answers are parameters.
- `timer_object.dfy`: the hierarchical, scalable, pausable timer of `src/timer_object.c`.
- `renderer.dfy`: the renderer's three resource caches in `src/renderer.c`. This covers lookup-or-append, the stamp with the current frame, the eviction sweep of stale entries, the frame counter and the per-frame slot.
- `trace.dfy`: the duration tracer of `src/trace.c`. It covers the open and print queues, push and pop of durations, and the Chrome Trace Event Format document written at capture stop.
- `gpu.dfy`: the selection logic of `src/gpu.c`. This covers the memory-type choice, the frame ring, the mesh layout tables, the mesh element counts, and how a command buffer binds and draws a mesh.
- `cint.dfy`: C integer semantics shared by the modules: 32- and 64-bit wrap-around and truncating remainder.
- `wrappers.dfy`: `Option`.

Parts that change state in place are classes whose methods are specified
against pure step functions: `Atomic.Cell`, `Deque.Deque`, `Heap.Heap`,
`TimerObject.TimerObject`, `Renderer.Table`, `Renderer.Renderer`,
`Trace.Trace`, `Gpu.FrameRing` and `Gpu.CommandBuffer`. The properties of
those step functions are lemmas. C's `%` and `/` truncate toward zero and are
written out as such (`CInt.CRem`, `Gpu.CDiv`). Fixed-width integer arithmetic
is wrapped explicitly (`CInt.Wrap32`, `CInt.Wrap64`).

## Model

| member | source | states |
|---|---|---|
| CInt.CRem | src/deque.c:37 | C's `%`: the remainder has the dividend's sign and magnitude below the divisor; for a non-negative dividend it is the mathematical remainder |
| CInt.CRemNegative | src/deque.c:44 | a negative cursor whose remainder is nonzero gives a negative slot index |
| CInt.Wrap32 | src/atomic.c:6-12 | a 32-bit signed result lies in int range and is congruent to the exact result modulo 2^32 |
| Atomic.CompareExchange | src/atomic.c:14-16 | InterlockedCompareExchange stores the exchange value exactly when the word equals the comparand, and always returns the old word |
| Atomic.DocumentedCompareAssign | src/atomic.h:18-22 | the documented compare-assign: replace the word by `new_value` when it equals `value`, otherwise keep it; return the old word |
| Atomic.IncDecInverse | src/atomic.c:6-12 | a 32-bit increment and decrement undo each other, wrap-around included |
| Atomic.CompareAssignArgumentsSwapped | src/atomic.c:15 | the call as written agrees with the documented compare-assign if and only if the word equals both arguments or neither |
| Atomic.CompareAssignCounterexample | src/atomic.c:15 | word 5, compare with 5, replace by 7: as written the word stays 5, documented it becomes 7 |
| Atomic.Cell.Inc | src/atomic.c:6-8 | the word is incremented with 32-bit wrap-around and the value before the increment is returned |
| Atomic.Cell.Dec | src/atomic.c:10-12 | the word is decremented with 32-bit wrap-around and the value before the decrement is returned |
| Atomic.Cell.CompareAssign | src/atomic.c:14-16 | as written: the word becomes `value` when it equals `new_value`; the old word is returned |
| Atomic.Cell.CompareAssignCorrected | src/atomic.h:18-22 | the new word and the returned old word are exactly those of the documented compare-assign |
| Atomic.Cell.Read | src/atomic.c:18-20 | returns the word and changes nothing |
| Atomic.Cell.Write | src/atomic.c:22-24 | the word holds the stored value |
| Atomic.IncThenDec | src/atomic.c:6-12 | an increment followed by a decrement on the same word restores it |
| MoreMath.Wrapi | src/moremath.h:30-36 | from `min` upward the result lies in [min, max); below `min` it lies in (min, max] |
| MoreMath.WrapiExample | src/moremath.h:28-29 | the header's own example: 7 wrapped into [0, 4) is 3 |
| MoreMath.WrapiKeepsInRange | src/moremath.h:30-36 | an input already in [min, max) is returned unchanged |
| MoreMath.WrapiCongruent | src/moremath.h:30-36 | both branches return a value congruent to the input modulo the range |
| MoreMath.WrapiReturnsMax | src/moremath.h:31-32 | below `min` at a whole number of ranges away, the result is `max` itself |
| MoreMath.WrapiBoundaryExample | src/moremath.h:32 | -4 wrapped into [0, 4) gives 4 |
| MoreMath.WrapiCorrected | src/moremath.h:28-29 | the intended wrap: a value in [min, max) congruent to the input modulo the range |
| MoreMath.WrapiCorrectedAgrees | src/moremath.h:30-36 | the intended wrap equals wrapi everywhere except where wrapi returns `max`, where it returns `min` |
| Deque.Created | src/deque.c:16-26 | a new deque has both cursors at 0, no used permit and `length` free permits |
| Deque.Store | src/deque.c:38 | a write at a slot index inside the array replaces that slot; outside it leaves the slots unchanged |
| Deque.Load | src/deque.c:45 | a read inside the array yields the slot's item; outside it is reported as out of bounds with the index |
| Deque.PushFrontStep | src/deque.c:35-40 | as written: x is stored at the old head reduced with C's `%` (nothing is stored when that index is outside the array), one free permit becomes a used one, the head steps back with wrap-around, the tail is kept |
| Deque.PopFrontStep | src/deque.c:42-48 | as written: one used permit becomes a free one, the head steps forward, slots and tail are kept |
| Deque.PushBackStep | src/deque.c:50-55 | as written: one free permit becomes a used one, the tail steps forward, the head is kept |
| Deque.PopBackStep | src/deque.c:57-63 | as written: one used permit becomes a free one, the tail steps back, slots and head are kept |
| Deque.Contents | src/deque.h:4-10 | the ring's contents from head to tail have exactly `used` items |
| Deque.PushFrontFixed | src/deque.h:4-10 | intended push at the front keeps the permit counts summing to the capacity |
| Deque.PopFrontFixed | src/deque.h:4-10 | intended pop at the front keeps the permit counts summing to the capacity |
| Deque.PushBackFixed | src/deque.h:4-10 | intended push at the back keeps the permit counts summing to the capacity |
| Deque.PopBackFixed | src/deque.h:4-10 | intended pop at the back keeps the permit counts summing to the capacity |
| Deque.PushFrontFixedPrepends | src/deque.h:4-10 | the intended push at the front puts the item in front of the contents |
| Deque.PopFrontFixedTakesFirst | src/deque.h:4-10 | the intended pop at the front returns the first item and removes it |
| Deque.PushBackFixedAppends | src/deque.h:4-10 | the intended push at the back puts the item behind the contents |
| Deque.PopBackFixedTakesLast | src/deque.h:4-10 | the intended pop at the back returns the last item and removes it |
| Deque.PopBackAfterPushBackFixed | src/deque.h:4-10 | intended: a pop at the back right after a push at the back returns that item and restores the contents |
| Deque.PopFrontAfterPushFrontFixed | src/deque.h:4-10 | intended: a pop at the front right after a push at the front returns that item and restores the contents |
| Deque.BackPushFrontPopAgree | src/deque.c:42-55 | the written push at the back and pop at the front equal the intended ones while their cursor is non-negative |
| Deque.PushBackAppends | src/deque.c:50-55 | the push at the back as written appends the item to the contents |
| Deque.PopFrontTakesFirst | src/deque.c:42-48 | the pop at the front as written returns the first item and removes it |
| Deque.PushBackAll | src/deque.c:50-55 | n pushes at the back add n used permits |
| Deque.PopFrontAll | src/deque.c:42-48 | k pops at the front yield k items |
| Deque.PushBackAllAppends | src/deque.c:50-55 | pushing a sequence at the back appends the whole sequence to the contents |
| Deque.PopFrontAllTakesPrefix | src/deque.c:42-48 | k pops at the front return the first k items of the contents, in order |
| Deque.FifoOrder | src/deque.c:42-55 | used as a queue (push back, pop front), the deque returns items in the order they were pushed |
| Deque.PushFrontLeavesNegativeHead | src/deque.c:37 | as written, a push at the front of a fresh deque leaves the head at -1; the next pop at the front reads index -1 and the next push at the front writes nothing |
| Deque.PushFrontOverwritesFront | src/deque.c:35-40 | on any non-empty deque whose head is not negative, pushFront as written replaces the front item by x and puts the slot before it in front: the contents become [old slot before the head, x] followed by all but the first old item |
| Deque.PopBackAfterPushBackMisses | src/deque.c:52-60 | as written, a pop at the back right after a push at the back reads the slot after the one written |
| Deque.PopBackCounterexample | src/deque.c:59-60 | two slots holding 0, push 1 at the back, pop at the back: 0 comes out |
| Deque.Deque.Create | src/deque.c:16-26 | the new object's state is the created deque over its fresh slots |
| Deque.Deque.PushFront | src/deque.c:35-40 | the new state is the written push at the front applied to the old one |
| Deque.Deque.PopFront | src/deque.c:42-48 | the new state and the returned item are the written pop at the front of the old state |
| Deque.Deque.PushBack | src/deque.c:50-55 | the new state is the written push at the back applied to the old one |
| Deque.Deque.PopBack | src/deque.c:57-63 | the new state and the returned item are the written pop at the back of the old state |
| Deque.Deque.CurrentSize | src/trace.c:143 | the size query returns the used-permit count, between 0 and the capacity |
| Heap.RecordSize | src/heap.c:11-19 | sizeof(object_t): 304 bytes for src/heap.c, 40 for the older heap.c:10-16 (used by CurrentGrowthPoolSize and LegacyGrowthPoolSize) |
| Heap.GrowthPoolSize | src/heap.c:45 | the new pool size is a 64-bit value |
| Heap.GrowthPoolSizeCovers | src/heap.c:45 | without overflow, a new pool holds at least twice the request and at least the grow increment, plus one record |
| Heap.CurrentGrowthPoolSize | src/heap.c:45 | in the current heap a new pool is max(grow increment, 2·size) + 304 bytes |
| Heap.LegacyGrowthPoolSize | heap.c:42 | in the older heap a new pool is max(grow increment, 2·size) + 40 bytes |
| Heap.GrownRecord | src/heap.c:46-54 | the record of a grown pool sits at the OS address and gives the allocator the whole object size |
| Heap.GrownPoolOverrunsReservation | src/heap.c:46-52 | the pool handed to the allocator ends sizeof(object_t) minus the pool overhead bytes past the reservation |
| Heap.GrownPoolOverrunExample | src/heap.c:52 | a one-page reservation of 4096 bytes whose pool ends at byte 4384 |
| Heap.GrownRecordFixed | src/heap.c:46-52 | the intended record: its pool ends exactly at the end of the reservation |
| Heap.AllocResult | src/heap.c:43-63 | as written: NULL when the first attempt succeeds, NULL when the OS refuses, otherwise the retry's answer |
| Heap.AllocResultFixed | src/heap.h:23-26 | intended: the first attempt's block when there is one, otherwise NULL or the retry's answer |
| Heap.AllocResultDiffersOnFirstSuccess | src/heap.c:59-62 | the written and intended answers differ if and only if the first attempt succeeds |
| Heap.AllocFirstSuccessExample | heap.c:56-59 | the allocator finds a block at 0x1000 straight away and the older heapAlloc still returns NULL |
| Heap.ChainAddrs | src/heap.c:53-54 | the pool chain's addresses, in chain order |
| Heap.Heap.Init | heap.c:24-37 | a new heap has no pools and no live blocks |
| Heap.Heap.Create | src/heap.c:27-40 | a zero reservation gives NULL; otherwise a fresh, valid, empty heap with the given settings |
| Heap.Heap.Alloc | src/heap.c:42-64 | the answer is the written allocation result; a first-attempt block becomes live with no new pool; an OS refusal changes nothing; growth prepends the grown record to the chain and makes the retry's block live |
| Heap.Heap.Free | src/heap.c:66-68 | the freed block is no longer live, freeing NULL changes nothing, and the pool chain is unchanged |
| Heap.Heap.Destroy | src/heap.c:70-88 | the release log is: the allocator, then every pool in chain order, then the heap's own reservation; no address is released twice (the older heap.c:67-79 does the same) |
| TimerObject.Truncate | src/timer_object.c:35 | the double-to-integer cast: the integer part, rounded toward zero |
| TimerObject.ScaledDelta | src/timer_object.c:35 | the delta is a 64-bit tick count; for a non-negative scale, when the parent is not behind the bias and the product stays below 2^64, it is the elapsed parent ticks times the scale, truncated toward zero; at scale 1 it is exactly the elapsed ticks; an unchanged parent gives 0 |
| TimerObject.Created | src/timer_object.c:16-26 | a new timer has 0 ticks and delta, scale 1, is running, and is biased at its parent's (or the system's) ticks |
| TimerObject.UpdateStep | src/timer_object.c:32-39 | a paused timer is unchanged; a running one takes the scaled delta of the parent ticks since its bias at its own scale, adds it with 64-bit wrap-around, and re-biases at the parent's ticks |
| TimerObject.PauseStep | src/timer_object.c:61-63 | pausing sets the flag and changes nothing else |
| TimerObject.ResumeStep | src/timer_object.c:65-70 | resuming a paused timer re-biases it at the parent's ticks; a running timer is unchanged |
| TimerObject.SetScaleStep | src/timer_object.c:57-59 | setting the scale changes nothing else |
| TimerObject.SecondUpdateHasZeroDelta | src/timer_object.c:34-37 | updating twice at the same parent time gives a zero second delta and leaves the ticks unchanged |
| TimerObject.PausedIgnoresUpdates | src/timer_object.c:33 | a paused timer is unchanged by any number of updates |
| TimerObject.UpdatesTelescope | src/timer_object.c:34-37 | at scale 1 without overflow, the ticks gained equal the parent time since the bias, however the updates are spaced |
| TimerObject.ScaledUpdateGain | src/timer_object.c:35-37 | after setScale(s) on a running timer, the next update gains the elapsed parent ticks times s, truncated toward zero, keeps scale s and re-biases at the parent's ticks |
| TimerObject.ZeroScaleFreezes | src/timer_object.c:35-36 | at scale 0 an update gains no ticks, however far the parent has advanced |
| TimerObject.PauseExcludesElapsedTime | src/timer_object.c:61-70 | pause, any updates, resume, update: only the time since resuming is counted |
| TimerObject.TimerObject.ParentTicks | src/timer_object.c:34 | the parent's ticks when there is a parent, otherwise the system clock's reading |
| TimerObject.TimerObject.Create | src/timer_object.c:16-26 | the new timer's state is the created clock, biased at the parent's or the system's ticks |
| TimerObject.TimerObject.Update | src/timer_object.c:32-39 | the new state is the update step applied to the old state at the parent's ticks |
| TimerObject.TimerObject.SetScale | src/timer_object.c:57-59 | the new state is the old one with the new scale |
| TimerObject.TimerObject.Pause | src/timer_object.c:61-63 | the new state is the old one, paused |
| TimerObject.TimerObject.Resume | src/timer_object.c:65-70 | the new state is the resume step applied to the old one |
| Renderer.IndexOf | src/renderer.c:179-184 | the lookup finds the first entry with the key, and finds nothing if and only if no entry has it |
| Renderer.Touch | src/renderer.c:179-190 | the lookup as a function on the entries: the first entry with the key restamped, or a new entry appended (its properties are TouchKeepsTable and TouchTwiceAppendsOnce) |
| Renderer.TouchKeepsTable | src/renderer.c:179-190 | a lookup keeps keys distinct, adds its key and no other, appends only on a miss, and changes only the entry it stamps |
| Renderer.TouchTwiceAppendsOnce | src/renderer.c:179-190 | a second lookup of the same key hits the entry the first created and appends nothing |
| Renderer.Fresh | src/renderer.c:266 | the live entries are never more than the entries |
| Renderer.FreshMembers | src/renderer.c:266 | the live entries are exactly the entries that are not stale |
| Renderer.SwapRemove | src/renderer.c:273-274 | swap-remove drops one element by moving the last one into its place |
| Renderer.SwapRemoveMultiset | src/renderer.c:273-274 | swap-remove takes exactly the removed element out of the multiset |
| Renderer.SweepAsWritten | src/renderer.c:264-294 | the sweep as written, from index count down to 0; when it stays in bounds it keeps the array length and never increases the count |
| Renderer.SweepAsWrittenDropsLiveEntry | src/renderer.c:265 | a left-over stale slot at index count makes the sweep overwrite it with the last live entry and then lose that entry |
| Renderer.SweepAsWrittenUnderflows | src/renderer.c:273 | on an empty table with a stale left-over in slot 0, the sweep reads index -1 |
| Renderer.SweepAsWrittenOverflows | src/renderer.c:265-266 | on a full table the sweep first reads index 1024, past the array |
| Renderer.SweepAsWrittenKeepsOnlyFresh | src/renderer.c:264-294 | when the sweep as written stays in bounds, the table it leaves has distinct keys and no stale entry, and as a multiset it is contained in the live entries before the sweep; it may lose live ones |
| Renderer.SweepAsWrittenAllStaleUnderflows | src/renderer.c:265-274 | when every slot up to and including index count is stale, the sweep as written ends by reading index -1 |
| Renderer.Table.Init | src/renderer.c:84-86 | a new table has no entries |
| Renderer.Table.FindOrAppend | src/renderer.c:177-205 | the entries become the lookup of the key stamped with the frame; the index returned holds that entry: the first match on a hit, the old count on a miss; that one slot is written and every other slot, those past the count included, keeps its old value |
| Renderer.Table.MoveLastInto | src/renderer.c:273-274 | the array's first n-1 slots become the swap-remove of its first n |
| Renderer.Table.DestroyStale | src/renderer.c:264-276 | as written, one table's loop from index count down to 0: the outcome is that of the sweep as written, with the first out-of-bounds index reported; when in bounds the table stays sound and keeps only live entries it had |
| Renderer.Table.DestroyStaleFixed | src/renderer.c:264-276 | the intended (corrected) sweep of the src/renderer.c:265 finding, starting at count - 1: the entries left are, as a multiset, exactly the live entries before the sweep; none is stale, every live one is kept, nothing new appears |
| Renderer.AllStaleNoneFresh | src/renderer.c:169-170 | when every entry is stale, no entry is live |
| Renderer.FrameSlot | src/renderer.c:139 | the per-frame slot lies in [0, gpu_frame_count) and is the counter itself while the counter is smaller |
| Renderer.FrameSlotsDistinct | src/renderer.c:257 | frames fewer than gpu_frame_count apart use different slots |
| Renderer.KeepStamps | src/renderer.c:203 | a lookup stamped with the current frame keeps every stamp at most the current frame |
| Renderer.Renderer.Create | src/renderer.c:78-89 | the new renderer has empty tables, frame 0 and the GPU's frame count |
| Renderer.Renderer.ShaderModelCommand | src/renderer.c:177-205 | the shader table becomes the lookup of the shader stamped with this frame; only the returned slot of its array is written, so the left-over slots the sweep reads are unchanged |
| Renderer.Renderer.MeshModelCommand | src/renderer.c:207-228 | the mesh table becomes the lookup of the mesh stamped with this frame; only the returned slot of its array is written, so the left-over slots the sweep reads are unchanged |
| Renderer.Renderer.InstanceModelCommand | src/renderer.c:230-262 | the instance table becomes the lookup of the entity stamped with this frame; only the returned slot of its array is written, so the left-over slots the sweep reads are unchanged; the uniform-buffer slot is this frame's slot |
| Renderer.Renderer.DestroyStaleData | src/renderer.c:264-294 | the sweep as written on the instance, mesh and shader tables in that order; the first out-of-bounds index is reported; otherwise each table is its sweep's outcome, holds no stale entry and keeps only live entries it had |
| Renderer.Renderer.FrameComplete | src/renderer.c:132-139 | the sweep as written runs at the old frame, the counter advances by one, and the new frame's slot is returned |
| Renderer.Renderer.Shutdown | src/renderer.c:168-170 | the counter jumps by gpu_frame_count + 1 and the sweep as written runs; its fault is reported, and when it stays in bounds all three tables are empty |
| Trace.EventCopy | src/trace.c:46-55 | the copy keeps the name and process id and takes the new kind, thread id and timestamp |
| Trace.PushStep | src/trace.c:64-83 | a stopped trace is unchanged; a started one appends the event to both the open and the print queue |
| Trace.PopStep | src/trace.c:85-98 | a stopped trace returns nothing; a started one returns the front of the open queue and appends its end copy to the print queue |
| Trace.PopAfterPushClosesOldest | src/trace.c:91 | a pop right after a push returns the pushed event if and only if no other duration was open, or the oldest open one is equal to it |
| Trace.NestedPopClosesOuter | src/trace.h:40-44 | open "outer", then "inner", then pop: "outer" is closed |
| Trace.PopStepNested | src/trace.h:40-49 | the intended pop returns the most recently opened duration and appends its end copy |
| Trace.PopNestedUndoesPush | src/trace.h:40-49 | with the intended pop, a pop right after a push closes that event and restores the open queue |
| Trace.DigitChar | src/trace.c:146 | a digit is printed as a character from '0' to '9' |
| Trace.Digits | src/trace.c:146 | a natural number prints as at least one decimal digit, with no leading zero |
| Trace.ParseDigitsInverse | src/trace.c:146 | reading the printed digits back gives the number |
| Trace.Decimal | src/trace.c:146 | `%d` prints at least one character and starts with '-' if and only if the number is negative |
| Trace.DecimalRoundTrip | src/trace.c:146-147 | every number printed with `%d` reads back to itself |
| Trace.Clip | src/trace.c:145 | snprintf keeps a prefix of at most 2047 characters, and the whole line when it fits |
| Trace.Object | src/trace.c:145-152 | the JSON object of one event: name, kind, pid, tid and ts in the format string's order (its properties are LinesAreJoinedObjects and LineEndings) |
| Trace.EventLine | src/trace.c:143-153 | one event's line: its object and ",\n", or "\n" for the last event, cut by the buffer (uncut when the event fits: LineEndings) |
| Trace.Lines | src/trace.c:139-167 | the lines of the drained print queue in queue order (LinesCons, LinesAreJoinedObjects) |
| Trace.Join | src/trace.c:139-167 | the reference JSON array body: items separated by ",\n" (LinesAreJoinedObjects relates it to Lines) |
| Trace.LinesCons | src/trace.c:143-153 | the lines of a queue are the first event's line (with a comma when more follow) and then the rest |
| Trace.DrainStep | src/trace.c:143-166 | writing the first event's line with a comma leaves exactly the lines of the rest to write |
| Trace.Document | src/trace.c:129-170 | the document starts with the two header lines and ends with the closing lines |
| Trace.Objects | src/trace.c:145-152 | one JSON object per event, in queue order |
| Trace.LinesAreJoinedObjects | src/trace.c:139-167 | when no line is cut short, the event lines are the objects joined by ",\n" and ended by a newline, a well-formed array body |
| Trace.LineEndings | src/trace.c:143-153 | every line but the last ends in "},\n"; the last ends in "}\n" |
| Trace.StopStep | src/trace.c:105-182 | stopping clears `started`, drains the print queue into the document and keeps the open queue and path |
| Trace.Trace.Create | src/trace.c:35-44 | a new trace is stopped, with empty queues of the given capacities |
| Trace.Trace.CaptureStart | src/trace.c:100-103 | the trace is started with the given path and nothing else changes |
| Trace.Trace.CaptureStop | src/trace.c:105-182 | without a file nothing changes and nothing is written, whatever the print queue holds; with one, the document written and the new state are those of the stop step |
| Trace.DurationPush | src/trace.c:64-83 | a null or stopped trace is unchanged; otherwise the new state is the push step with a begin event of this thread and time |
| Trace.DurationPop | src/trace.c:85-98 | a null or stopped trace returns nothing; otherwise the item and new state are the pop step's |
| Gpu.GetMemoryTypeIndex | src/gpu.c:1103-1112 | returns the lowest index that is allowed by the bits and has all the property flags, or 0 when there is none |
| Gpu.NextFrame | src/gpu.c:684 | the next frame index stays in [0, frame_count) |
| Gpu.AdvanceFrames | src/gpu.c:682-684 | k successive frame ends (AdvanceFramesIsModular gives the closed form) |
| Gpu.AdvanceFramesIsModular | src/gpu.c:684 | k frame ends move the frame index to (i + k) mod frame_count |
| Gpu.FrameRing.Create | src/gpu.c:102 | a new GPU starts at frame 0 |
| Gpu.FrameRing.EndFrameUpdate | src/gpu.c:682-684 | the ended frame is the old index and the index moves to the next frame |
| Gpu.VertexSize | src/gpu.c:1151 | mesh_vtx_size of each layout: 12 and 24 bytes (src/gpu.c:1191); LayoutTablesAgree relates it to the stride |
| Gpu.IndexSize | src/gpu.c:1150 | mesh_idx_size of each layout: 2 bytes (src/gpu.c:1190); LayoutTablesAgree relates it to the index type |
| Gpu.Stride | src/gpu.c:1130 | the vertex binding stride of each layout: 12 and 24 bytes (src/gpu.c:1164) |
| Gpu.Attributes | src/gpu.c:1134-1181 | the vertex attributes of each layout, three 4-byte floats each, at offsets 0 and 12 |
| Gpu.IndexTypeOf | src/gpu.c:1149 | mesh_idx_type of each layout: VK_INDEX_TYPE_UINT16 (src/gpu.c:1189) |
| Gpu.LayoutTablesAgree | src/gpu.c:1128-1191 | each layout's attributes are packed from offset 0 and fill exactly one binding stride; the stride is the vertex size, and the index size is the width of the index type |
| Gpu.CDiv | src/gpu.c:979 | C's int division truncates toward zero: for a non-negative dividend the quotient r is the non-negative number with r·b ≤ a < (r+1)·b; for a negative one it is the non-positive number with (r-1)·b < a ≤ r·b |
| Gpu.ElementCount | src/gpu.c:979-980 | the data size cast to a 32-bit int, then divided with truncation toward zero (ElementCountIsWholeElements, ElementCountWrapsNegative) |
| Gpu.ElementCountIsWholeElements | src/gpu.c:979-980 | below 2^31 bytes the count is the number of whole elements in the data |
| Gpu.ElementCountWrapsNegative | src/gpu.c:979 | 2^31 bytes of 2-byte indices give a count of -2^30 |
| Gpu.CreateMeshCounts | src/gpu.c:978-980 | a mesh's counts are its data sizes divided by the layout's element sizes |
| Gpu.BindStep | src/gpu.c:1077-1092 | a positive count is copied and its buffer bound; a count that is not positive becomes 0 and binds nothing; exactly one bind per positive count is recorded, the vertex buffer before the index buffer |
| Gpu.DrawStep | src/gpu.c:1094-1101 | the draw is indexed if and only if the index count is nonzero |
| Gpu.BindThenDraw | src/gpu.c:1077-1101 | after binding a mesh, the draw is indexed with its index count when it has indices, otherwise a plain draw of its vertices |
| Gpu.CommandBuffer.BindMesh | src/gpu.c:1077-1092 | the buffer's counts and recorded commands are those of the bind step |
| Gpu.CommandBuffer.DrawCommand | src/gpu.c:1094-1101 | the recorded draw is the draw step of the current counts |

## Left out

- Concurrency is not modelled. Semaphores, mutexes, the render thread and its command deque are sequential here. A wait that would block forever (a pop on an empty deque, a push on a full one, a trace pop with no open duration) is a precondition.
- Atomics: memory ordering and `volatile` are not modelled; each primitive is one sequential step.
- dequeDestroy, traceDestroy, timerObjectDestroy, rendererDestroy and gpuDestroy only release memory, so they are not part of this model.
- The deque's slots hold `void*`; the model is generic in the item type.
- Heap: TLSF's internal block management and VirtualAlloc/VirtualFree are oracles. Their answers (an address or NULL) are parameters, and the allocator's own pool overhead is a parameter too.
- Heap: the backtrace capture of src/heap.c:55 and the alignment argument are passed to code outside this model. They do not change the answer, so the model ignores them.
- Heap.Heap.Alloc: the allocator's and the OS's answers are required to be fresh (not a live block, not a held reservation) instead of modelling TLSF's and VirtualAlloc's bookkeeping.
- Heap.Heap.Free: freeing an address that is not a live block is undefined in TLSF and is excluded by precondition.
- TimerObject: `scale` is a real number, so a double product and its rounding are exact here. A product at or above 2^64, undefined in C, is wrapped modulo 2^64. The `float` argument of setScale is not rounded to single precision.
- TimerObject.TimerObject.Create: src/timer_object.c:22 calls `timer_get_ticks()`, which no header declares, while src/timer_object.c:34 calls `timerGetTicks()`. The model reads both as the system clock's reading.
- TimerObject: the getters that convert ticks to microseconds and milliseconds (src/timer_object.c:41-55) depend on the system timer's frequency, which is not part of this model. The system clock's reading is the parameter `now`.
- Renderer: creating and destroying the GPU objects an entry owns (shaders, pipelines, meshes, uniform buffers, descriptor sets) is left out, as are the uniform data copies. Only the tables' keys and frame stamps are modelled.
- Renderer.Renderer.DestroyStaleData, Renderer.Renderer.FrameComplete, Renderer.Renderer.Shutdown, Renderer.Table.DestroyStale: an out-of-bounds read (index count = 1024 on a full table, or index -1 when an empty table's slot 0 is stale) is undefined in C. The model stops the sweep there and reports the index; the state it leaves then is not specified.
- Renderer.Renderer.FrameComplete: frame_counter is an unbounded integer here, not a 32-bit int that would overflow after 2^31 frames.
- Renderer.Table.FindOrAppend: the `assert` on free room is a precondition.
- Renderer.Entity: the entity type is not part of this model. It is compared with `memcmp`, modelled as field-by-field equality of an (entity, sequence) pair.
- Trace: process ids, thread ids and timestamps come from the OS and the timer. They are parameters.
- Trace.Trace.CaptureStop: the file is modelled by whether it could be created, and the document is returned instead of written. Write failures after creation are not modelled. A failed creation returns with the mutex still locked; that is concurrency and is not modelled.
- Trace.Trace.CaptureStop: the wide-path conversion at src/trace.c:115 is given a zero-size buffer, so the path handed to CreateFile stays empty. Whether a file is created is an oracle here.
- Trace.Clip: the 2048-byte snprintf buffer is counted in characters. Names are taken to be byte (ASCII) strings; a name with multi-byte UTF-8 characters would be cut at a different place.
- Trace.Object: event names are written without JSON escaping, exactly as the source does. A name containing `"` therefore yields an ill-formed document. `%d` and `%lu` fields are printed from unbounded integers.
- Error logging: the debugPrint calls on the error paths of src/heap.c:49,60 and src/trace.c:116,124,132,156,173 are left out. They only write a message. The failed reservation and the failed path conversion or file creation are modelled with their returns; the write failures they log are not (see Trace.Trace.CaptureStop above).
- Gpu: every Vulkan call is left out. So are instance, device, swapchain, buffer and pipeline creation, and the debug print when no memory type qualifies.
- Gpu.GetMemoryTypeIndex: memoryTypeCount is at most 32 (VK_MAX_MEMORY_TYPES); longer tables are excluded by precondition.
- Gpu.ElementCount: the mesh info's data-size type is not part of this model; it is taken as a 64-bit size_t, which the `(int)` cast truncates to 32 bits.
- Gpu.ElementCount: the divisor at src/gpu.c:979-980 has type VkIndexType, an enum. The model takes the enum to be a signed `int`, as MSVC does for this Windows code, so the division is signed. Under GCC or Clang the enum is `unsigned int` and the wrapped negative size would be divided as unsigned: 2^31 bytes of 2-byte indices would count +2^30, not the -2^30 of ElementCountWrapsNegative.

## Findings

| source | as written | input that shows it | evidently intended | confidence | as-written member | corrected member |
|---|---|---|---|---|---|---|
| src/deque.c:37 | pushFront writes at the old head, then decrements; C `%` keeps the head negative | a fresh deque of 2 slots: pushFront x, then popFront reads index -1 | decrement first, then index the ring with a non-negative modulo | high, not executed | Deque.PushFrontLeavesNegativeHead | Deque.PopFrontAfterPushFrontFixed |
| src/deque.c:59 | popBack reads at the old tail, one past the last item | two slots holding 0: pushBack 1, popBack returns 0 | step the tail back first, then read the new tail | high, not executed | Deque.PopBackCounterexample | Deque.PopBackAfterPushBackFixed |
| src/atomic.c:15 | compare-assign passes `value` as the exchange and `new_value` as the comparand | word 5, compare with 5, replace by 7: the word stays 5 | exchange = new_value, comparand = value | high, not executed | Atomic.CompareAssignCounterexample | Atomic.Cell.CompareAssignCorrected |
| src/moremath.h:32 | below `min`, a whole number of ranges away yields `max` | wrapi(-4, 0, 4) = 4 | a result in [min, max), here 0 | high, not executed | MoreMath.WrapiBoundaryExample | MoreMath.WrapiCorrected |
| src/heap.c:59-62 | a successful first allocation falls into the NULL branch | the allocator returns 0x1000 at once; heapAlloc returns NULL | return the first block | high, not executed | Heap.AllocFirstSuccessExample | Heap.AllocResultFixed |
| src/heap.c:52 | the new pool starts after the record but is given the record's bytes too | grow increment 3776, size 16, overhead 16: 4096 bytes reserved, pool ends at byte 4384 | give the allocator only the bytes after the record | medium, not executed | Heap.GrownPoolOverrunExample | Heap.GrownRecordFixed |
| src/renderer.c:265 | the stale sweep starts at index count, one past the last entry | live entry at 0, stale left-over at 1, count 1: the live entry is lost | start at count - 1 | high, not executed | Renderer.SweepAsWrittenDropsLiveEntry | Renderer.Table.DestroyStaleFixed |
| src/trace.c:91 | a pop closes the oldest open duration | open "outer", then "inner", then pop: "outer" is closed | close the most recently opened duration | medium, not executed | Trace.NestedPopClosesOuter | Trace.PopNestedUndoesPush |
