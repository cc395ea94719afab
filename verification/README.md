# forge-alloc: models and proofs

A Dafny model of the allocation protocols of forge-alloc, one module per component, each
operation proved against what the component is for.

- **Growth** (`SlabGrowth`, `ExtendableSlabs`, `Slabs`): `ExtendableSlab`'s three-phase
  protocol as a state machine over any number of threads, its scanning loops as methods,
  and the fixed-stride slab underneath.
- **Bump allocation** (`BumpMath`, `Mmap`, `BumpArenas`, `SharedBump`): placement
  arithmetic in 64-bit words, lazy commit with an OS that may decline, the sequential arena
  with grow, rewind and scopes, and the lock-free arena as a linearizable refinement of it.
- **Counters** (`Statistics`, `Watermark`): every atomic access is one step.
- **Hardening** (`Quarantines`, `Poison`, `Guards`, `CacheJitters`, `Canaries`): a ring
  against a queue, poison through quarantine, and words kept beside client bytes.
- **Containers** (`AlignedCols`): amortized growth of an aligned buffer.
- **Foundations** (`Words`, `Layouts`, `RawBytes`, `Sums`): 64-bit words, masks as bit
  recursions, layouts, bytes, sums.

A protocol is a `State`, an `Enabled` predicate and a `Next` function; `IsRun` is a sequence
of steps from the initial state, in any interleaving, and the main results hold at every
state of every run. A mutable component is a class whose methods are proved against
functions on values; the lemmas are about those functions. The inner allocator, the OS and
the environment are parameters that answer within their documented contract.

`dafny verify dfyconfig.toml` checks everything.

Where the code and its own documentation disagree, the model follows the code:

- `ExtendableSlab` documents at most one redundant segment per racing thread. Without frees
  there is none at all (`SlabGrowth.ExactGrowth`).
- The hint is documented as the lowest segment that might have free slots. A free landing
  between another thread's phases leaves it past an open segment (`SlabGrowth.HintCanGoStale`).
- `Quarantine` documents the counter's wrap as harmless for the ring. It is only if `EPOCHS`
  divides 2^64 (`Quarantines.QueueIff`), and otherwise some blocks wait longer than the
  documented `EPOCHS` frees, but never twice that (`Quarantines.WaitBounded`).
- `BumpArena::new` treats a range ending at the top of the address space as one that wraps;
  `SharedBumpArena::new` has no such check (`SharedBump.WrongRefusalIff`).
- `Watermark` handles critical before warn within one call, but a warn handler may still run
  after a critical one of another thread, exactly for thresholds that leave a warn band below a
  reachable critical line (`Watermark.HandlerOrderIff`); for an inner without a bound the gate
  does not pass crossings (`Watermark.GateCanSuppress`).
- `CacheJitter` accepts line sizes above 2^48, for which a second header decodes to the same
  displacement (`CacheJitters.OneHeaderEachIff`, `CacheJitters.TwoHeadersForOne`).
- `CacheJitter` calls its reduction of a draw unbiased; it is if and only if the associativity
  divides 2^64, and off by at most one draw otherwise (`CacheJitters.LinesUnbiasedIff`,
  `CacheJitters.LinesFair`).
- `AlignedColBuffer::reserve` documents failure only for a new size that overflows a layout;
  its doubling can also fail a request that fits (`AlignedCols.DoublingRefusesIff`).

## Model

| member | source | states |
|---|---|---|
| `SlabGrowth.ExactGrowth` | crates/forge-alloc/src/layout/extendable_slab.rs:224-300 | every interleaving of any number of threads, before the first free: the segment count is max(initial, ceil(live / capacity)); all redundant segments are discarded |
| `SlabGrowth.GrowthBound` | crates/forge-alloc/src/layout/extendable_slab.rs:224-300 | with frees: the segment count is at most max(initial, ceil((live + frees) / capacity)) |
| `SlabGrowth.GrowthIsJustified` | crates/forge-alloc/src/layout/extendable_slab.rs:264-299 | every run: a segment is installed only by a call that fell through phase 1 at an earlier step, and only if all slots existing by then are live or were freed since that step |
| `SlabGrowth.RunSafe` | crates/forge-alloc/src/layout/extendable_slab.rs:191-216 | every run: held blocks are aligned and pairwise disjoint, each in exactly one installed segment, routed back to its issuer by address; a private (dropped) segment never issued one |
| `SlabGrowth.NextKeepsInv` | crates/forge-alloc/src/layout/extendable_slab.rs:224-300 | every step of every thread keeps the invariant; only an installing phase 3 adds a segment |
| `SlabGrowth.RunKeepsInv` | crates/forge-alloc/src/layout/extendable_slab.rs:224-300 | the invariant and the growth accounting hold in every reachable state |
| `SlabGrowth.RefusedIffUnfit` | crates/forge-alloc/src/layout/extendable_slab.rs:264-299 | phase 3 ends the call, without a block exactly for a layout whose alignment or size the slots cannot hold |
| `SlabGrowth.AllocateServesIff` | crates/forge-alloc/src/layout/extendable_slab.rs:228-263 | the first critical section serves a block exactly when some segment has a free slot for the layout, and otherwise changes nothing |
| `SlabGrowth.BuildSucceeds` | crates/forge-alloc/src/layout/extendable_slab.rs:159-183 | whenever the OS maps, the building thread has an untouched segment of the right shape inside the mapping |
| `SlabGrowth.FreeKeepsInv` | crates/forge-alloc/src/layout/extendable_slab.rs:191-216 | freeing a held pointer is always routed, removes exactly that block and keeps the invariant |
| `SlabGrowth.PrivateNeverIssued` | crates/forge-alloc/src/layout/extendable_slab.rs:270-299 | a segment built outside the lock is untouched and contains no held pointer |
| `SlabGrowth.HeldRoutes` | crates/forge-alloc/src/layout/extendable_slab.rs:197-208 | the first segment containing a held pointer is the one that issued it, and no other contains it |
| `SlabGrowth.CleanNeedsNoSecondWalk` | crates/forge-alloc/src/layout/extendable_slab.rs:244-259 | while all segments below the hint are full the second walk never serves |
| `SlabGrowth.InstallKeepsCleanIff` | crates/forge-alloc/src/layout/extendable_slab.rs:284-298 | phase 3 keeps "all segments below the hint are full" if and only if the segments its thread saw are still full |
| `SlabGrowth.QuietRunIsClean` | crates/forge-alloc/src/layout/extendable_slab.rs:69-91 | in runs where no free lands in a growth window the hint stays clean at every moment |
| `SlabGrowth.RunIsCleanIff` | crates/forge-alloc/src/layout/extendable_slab.rs:69-91 | over every run: the hint is clean in every state if and only if at every serving phase 3 the segments its thread saw full are full |
| `SlabGrowth.HintCanGoStale` | crates/forge-alloc/src/layout/extendable_slab.rs:253-259 | a concrete run after which a segment below the hint has a free slot, which only the second walk finds |
| `SlabGrowth.NewSegmentExact` | crates/forge-alloc/src/layout/extendable_slab.rs:159-183 | a built segment is untouched, has the type's shape and lies inside its mapping |
| `ExtendableSlabs.BuildPlanShape` | crates/forge-alloc/src/layout/extendable_slab.rs:173-182 | the planned slab: least stride holding a link and the type, a layout of exactly capacity strides, slack for the alignment |
| `ExtendableSlabs.BuildPlanExact` | crates/forge-alloc/src/layout/extendable_slab.rs:159-183 | a segment can be built exactly for a sized type, a slot count from 1 to u32::MAX, slots that make a layout and a page-rounded mapping that is a word |
| `ExtendableSlabs.BuildPlanFits` | crates/forge-alloc/src/layout/extendable_slab.rs:163-172 | wherever the OS puts the mapping, the slab's request fits inside it |
| `ExtendableSlabs.Phase1Exact` | crates/forge-alloc/src/layout/extendable_slab.rs:228-263 | phase 1 fails exactly when no segment can serve, whatever the hint; otherwise it serves from one that can; the hint stays below max(1, len) |
| `ExtendableSlabs.Phase1GrowsIffFull` | crates/forge-alloc/src/layout/extendable_slab.rs:228-263 | the same in terms of slots: growth is asked for exactly when every segment is full or the layout does not fit |
| `ExtendableSlabs.Phase1TakesFirst` | crates/forge-alloc/src/layout/extendable_slab.rs:228-263 | phase 1 serves from the first segment at or past the hint that can, and only if there is none from the first of all |
| `ExtendableSlabs.Phase1MovesHint` | crates/forge-alloc/src/layout/extendable_slab.rs:234-258 | after phase 1 has served, the hint is the segment it served from |
| `ExtendableSlabs.ReleaseExact` | crates/forge-alloc/src/layout/extendable_slab.rs:191-216 | a pointer inside a segment is freed in the first that contains it and pulls the hint back; any other only adds one to the wrapping failure count |
| `ExtendableSlabs.ExtendableSlab.TryExisting` | crates/forge-alloc/src/layout/extendable_slab.rs:228-263 | the two scanning loops compute phase 1 and the snapshot |
| `ExtendableSlabs.ExtendableSlab.InstallOrUse` | crates/forge-alloc/src/layout/extendable_slab.rs:270-299 | the recheck loop and the installation compute phase 3 |
| `ExtendableSlabs.ExtendableSlab.Deallocate` | crates/forge-alloc/src/layout/extendable_slab.rs:191-216 | the routing loop frees in the first containing segment, pulls the hint back, or counts a routing failure |
| `ExtendableSlabs.ExtendableSlab.CapacityBytes` | crates/forge-alloc/src/layout/extendable_slab.rs:321-328 | the sum of the segments' bytes |
| `Slabs.TakeSlotExact` | crates/forge-alloc/src/layout/slab.rs:445-532 | an allocation fails exactly when the layout does not fit or no slot is free; otherwise exactly one slot becomes live |
| `Slabs.PutSlotExact` | crates/forge-alloc/src/layout/slab.rs:379-440 | freeing a live slot by its address makes exactly that slot free |
| `Slabs.SlotIndexIff` | crates/forge-alloc/src/layout/slab.rs:315-343 | every address, every stride: it resolves to slot i exactly when it is the first byte of an existing slot i |
| `Slabs.SlotIndexRefuses` | crates/forge-alloc/src/layout/slab.rs:319-340 | refused are exactly the addresses below the slab, past its last slot or between two slot boundaries |
| `Slabs.SplitOffsetExact` | crates/forge-alloc/src/layout/slab.rs:327-333 | the shift-and-mask path for power-of-two strides and the division path agree |
| `Slabs.SlotsDisjoint` | crates/forge-alloc/src/layout/slab.rs:302-310 | distinct slots occupy disjoint bytes inside the slab |
| `Slabs.SlabObject.Allocate` | crates/forge-alloc/src/layout/slab.rs:457-531 | the free list threaded through the slots pops, or the next slot is carved; the range tripwire never fires on an intact list |
| `Slabs.SlabObject.Deallocate` | crates/forge-alloc/src/layout/slab.rs:391-439 | the freed slot becomes the new head of the threaded list |
| `Slabs.ContainsExact` | crates/forge-alloc-core/src/traits/fixed_range.rs:82-94 | the wrapping range test is right for every range, wrapping ones included |
| `SharedBump.RunLinearizable` | crates/forge-alloc/src/layout/shared_bump.rs:119-213 | every run: the log of successful compare-and-swaps is a sequential run, every answer is one the sequential arena gives between call and return, issued blocks are aligned, in range and disjoint |
| `SharedBump.RunRefinesBumpArena` | crates/forge-alloc/src/layout/shared_bump.rs:119-213 | replaying the log on an empty BumpArena over the same range yields the same blocks and cursor |
| `SharedBump.LogIsArenaRun` | crates/forge-alloc/src/layout/shared_bump.rs:119-213 | the induction behind it: the log is an allowed BumpArena run from any served prefix |
| `SharedBump.NextKeepsInv` | crates/forge-alloc/src/layout/shared_bump.rs:137-212 | every atomic step keeps the invariant and never moves the cursor back |
| `SharedBump.LossesArePaid` | crates/forge-alloc/src/layout/shared_bump.rs:137-212 | every call of every run: its lost compare-and-swaps number at most the bytes the cursor advanced (so at most the capacity) and at most the successes of other threads since it began |
| `SharedBump.CallAnswered` | crates/forge-alloc/src/layout/shared_bump.rs:119-213 | every call that returns leaves one answer, for its own request, dated between its call and its return |
| `SharedBump.LossShrinks` | crates/forge-alloc/src/layout/shared_bump.rs:194-210 | every run: a lost compare-and-swap leaves the loop strictly less of the region, never less than nothing |
| `SharedBump.WrongRefusalIff` | crates/forge-alloc/src/layout/shared_bump.rs:67-79 | some run turns down a request that would still fit if and only if the range wraps, which SharedBumpArena::new does not reject |
| `SharedBump.SharedBumpArena.Allocate` | crates/forge-alloc/src/layout/shared_bump.rs:119-213 | the loop on the shared cell, other threads taking any steps between its accesses: what it does is a run of the step machine, its block starts at or past every block published by then, an error means the request does not fit any more, and losses are bounded |
| `SharedBump.SharedBumpArena.CompareExchangeWeak` | crates/forge-alloc/src/layout/shared_bump.rs:166-211 | the cell is written exactly if it still held the expected value and the operation did not fail spuriously; the block is then logged and answered |
| `BumpArenas.RunSafe` | crates/forge-alloc/src/layout/bump.rs:319-428 | any run of allocate, alloc_uninit, grow, reset, rewind and nested scopes: live blocks aligned, in range, disjoint, committed; the watermark never moves back |
| `BumpArenas.Apply` | crates/forge-alloc/src/layout/bump.rs:135-428 | each single call keeps the whole invariant and the mapping |
| `BumpArenas.AllocateFailsExactly` | crates/forge-alloc/src/layout/bump.rs:321-364 | allocation fails exactly when the aligned block does not fit over the integers or the OS declines pages it needs, and then changes nothing |
| `BumpArenas.AllocStepExact` | crates/forge-alloc/src/layout/bump.rs:188-364 | allocate and alloc_uninit as steps: refused exactly as above and then nothing changes, else the block is live at the next aligned offset, the cursor is its end, its pages are committed and nothing else changes |
| `BumpArenas.GrowStepExact` | crates/forge-alloc/src/layout/bump.rs:384-425 | grow as a step: when it fails and that nothing changes then; else where the block goes, in place or relocated with its bytes, the cursor, the watermark and every other byte and block |
| `BumpArenas.RewindStepExact` | crates/forge-alloc/src/layout/bump.rs:148-174 | reset, rewind and scope drop as steps: the cursor is the mark, exactly the blocks past it are dead, nothing else changes |
| `BumpArenas.OtherStepExact` | crates/forge-alloc/src/layout/bump.rs:300-309 | opening a scope marks the cursor, a client write changes one byte, a zero-sized type consumes nothing |
| `BumpArenas.LastBlockGrowExact` | crates/forge-alloc/src/layout/bump.rs:394-425 | growing the last block succeeds, in place, exactly when it fits; otherwise the relocating fall-through fails and changes nothing |
| `BumpArenas.GrowKeepsPrefix` | crates/forge-alloc/src/layout/bump.rs:384-425 | a successful grow returns a live block of the new size that starts with the old contents |
| `BumpArenas.GrowPreserves` | crates/forge-alloc/src/layout/bump.rs:384-425 | a grow leaves every other live block in place, unchanged and disjoint from the new block |
| `BumpArenas.ScopeRestores` | crates/forge-alloc/src/layout/bump.rs:605-620 | opening a scope, any well-nested body and its drop restore the mark, the live blocks and their bytes exactly |
| `BumpArenas.BumpArena.New` | crates/forge-alloc/src/layout/bump.rs:70-96 | refused exactly when the range ends at the very top of the address space |
| `BumpArenas.BumpArena.Allocate` | crates/forge-alloc/src/layout/bump.rs:321-364 | the same for allocate: when it is refused, and the block, cursor and writable bytes it leaves |
| `BumpArenas.BumpArena.AllocUninit` | crates/forge-alloc/src/layout/bump.rs:188-221 | refused exactly when the block does not fit or its pages are declined; else the cursor is published, the block is live and writable; zero-sized types consume nothing |
| `BumpArenas.BumpArena.GrowInPlace` | crates/forge-alloc/src/layout/bump.rs:401-409 | the fast path commits the tail before publishing the cursor |
| `BumpArenas.BumpArena.Relocate` | crates/forge-alloc/src/layout/bump.rs:414-424 | the slow path allocates, copies and abandons the old block |
| `BumpArenas.BumpArena.Grow` | crates/forge-alloc/src/layout/bump.rs:384-425 | grow is the modelled call, and fails exactly when that does |
| `BumpArenas.BumpArena.Reset` | crates/forge-alloc/src/layout/bump.rs:148-151 | reset empties the arena |
| `BumpArenas.BumpArena.RewindTo` | crates/forge-alloc/src/layout/bump.rs:167-174 | the cursor is the mark and exactly the blocks past it are dead |
| `BumpArenas.Scope.constructor` | crates/forge-alloc/src/layout/bump.rs:306-309 | a scope remembers the cursor |
| `BumpArenas.Scope.Drop` | crates/forge-alloc/src/layout/bump.rs:610-620 | dropping a scope rewinds to its mark: exactly the blocks past it are dead |
| `BumpMath.PlaceExact` | crates/forge-alloc/src/layout/bump.rs:329-342 | the checked-add-and-mask code against integer arithmetic |
| `BumpMath.NoSpuriousOverflow` | crates/forge-alloc/src/layout/bump.rs:329-342 | on a range that does not wrap, a request fails exactly when it does not fit |
| `BumpMath.PlaceIsSound` | crates/forge-alloc/src/layout/bump.rs:329-342 | a placement is aligned, past the cursor and inside the range |
| `BumpMath.PlaceMonotone` | crates/forge-alloc/src/layout/shared_bump.rs:139-145 | a request that fails at one cursor fails at every later one |
| `Mmap.OsCommitExact` | crates/forge-alloc/src/backing/mmap.rs:741-805 | a commit is declined only by the OS and only when the watermark must move; on success the watermark covers the request, page aligned and never lower |
| `Mmap.MapLengthExact` | crates/forge-alloc/src/backing/mmap.rs:353-369 | the mapped length is the least page multiple, refused only if that is no word |
| `Mmap.ClampedReleaseExact` | crates/forge-alloc/src/backing/mmap.rs:537-545 | the released bytes are exactly the requested committed ones |
| `Mmap.MmapBacked.constructor` | crates/forge-alloc/src/backing/mmap.rs:353-389 | a lazy Windows mapping starts uncommitted, every other fully committed |
| `Mmap.MmapBacked.Commit` | crates/forge-alloc/src/backing/mmap.rs:741-805 | the watermark is an exact witness: writable bytes are the prefix below it, with no hole; a declined commit changes nothing |
| `Mmap.MmapBacked.Allocate` | crates/forge-alloc/src/backing/mmap.rs:429-467 | issued bytes are committed; a declined commit leaves cursor and watermark |
| `Mmap.MmapBacked.ReleasePages` | crates/forge-alloc/src/backing/mmap.rs:518-553 | only committed bytes are handed to the OS on Windows |
| `Statistics.QuiescentReading` | crates/forge-alloc/src/hardening/statistics.rs:331-390 | whenever no call is in flight: the peak is the historical maximum, the byte counter the sum of held sizes, the totals differ by the held blocks, the mirror is the largest polled count |
| `Statistics.NeverUnderflows` | crates/forge-alloc/src/hardening/statistics.rs:248-292 | at every moment the byte counter is the sum of counted blocks and the next fetch_sub does not wrap |
| `Statistics.MaxBytesIsHistory` | crates/forge-alloc/src/hardening/statistics.rs:357-382 | the tracked maximum is the largest value the counter held over the run |
| `Statistics.PeakStep` | crates/forge-alloc/src/hardening/statistics.rs:373-382 | load-then-skip keeps the peak: at the maximum, or some thread still carries it |
| `Statistics.MirrorStep` | crates/forge-alloc/src/hardening/statistics.rs:320-327 | load-then-skip keeps the corruption mirror in the same sense |
| `Statistics.AccountingStep` | crates/forge-alloc/src/hardening/statistics.rs:227-292 | every step keeps the counters equal to the block sums |
| `Statistics.RunKeepsInv` | crates/forge-alloc/src/hardening/statistics.rs:225-390 | the invariant holds in every reachable state |
| `Statistics.Wrapper.Allocate` | crates/forge-alloc/src/hardening/statistics.rs:331-390 | one uninterrupted call: the counters it leaves, each atomic access being the step machine's |
| `Statistics.Wrapper.Deallocate` | crates/forge-alloc/src/hardening/statistics.rs:227-292 | the same for a free: both counters and the mirror before the inner gets the block |
| `Statistics.Wrapper.MirrorCorruption` | crates/forge-alloc/src/hardening/statistics.rs:320-327 | the clamped load-then-skip maximum |
| `Watermark.GateExact` | crates/forge-alloc/src/hardening/watermark.rs:244-261 | the gate is safe for a live capacity if and only if the least crossing byte count passes it |
| `Watermark.GateIsFloor` | crates/forge-alloc/src/hardening/watermark.rs:255-261 | the gate of a bounded inner is the lower threshold, capped at 100, rounded down to a byte |
| `Watermark.GateNeverSuppresses` | crates/forge-alloc/src/hardening/watermark.rs:412-424 | bounded construction capacity, live capacity no smaller, any u8 thresholds: no crossing is suppressed |
| `Watermark.SkippedOwesNothing` | crates/forge-alloc/src/hardening/watermark.rs:412-424 | every run, growing inner included: an allocation the gate keeps from the check reached no threshold of the capacity reported at that moment |
| `Watermark.CriticalWithin` | crates/forge-alloc/src/hardening/watermark.rs:308-368 | capacity moving between two bounds, no rearm: at quiescence on_critical has run at most once, surely if the historical maximum reaches it at the upper bound and only if it does at the lower |
| `Watermark.GateCanSuppress` | crates/forge-alloc/src/hardening/watermark.rs:250-253 | concrete misses for an unbounded and for a shrunk inner |
| `Watermark.ReachesExact` | crates/forge-alloc/src/hardening/watermark.rs:324-332 | the truncated, saturated percentage test is exact multiplication |
| `Watermark.CriticalExactlyOnce` | crates/forge-alloc/src/hardening/watermark.rs:319-368 | fixed capacity, no rearm: at quiescence on_critical has run exactly once iff the historical maximum reached it, on_warn at most once, no warn win follows the critical win |
| `Watermark.NeverTwice` | crates/forge-alloc/src/hardening/watermark.rs:340-366 | whatever the capacity does, without rearm: at every moment neither handler has run twice |
| `Watermark.HandlerOrderIff` | crates/forge-alloc/src/hardening/watermark.rs:319-368 | fixed capacity: some run without rearm calls on_warn after on_critical if and only if the thresholds leave a byte count at warn and below critical and critical is reachable; never with critical at or below warn |
| `Watermark.LateWarnIffOvertaken` | crates/forge-alloc/src/hardening/watermark.rs:331-366 | in each run a warn call follows a critical one exactly when the warn winner was still waiting when the critical handler ran |
| `Watermark.WarnCanRunAfterCritical` | crates/forge-alloc/src/hardening/watermark.rs:38-45 | the default thresholds allow it on 100 bytes |
| `Watermark.EpochExact` | crates/forge-alloc/src/hardening/watermark.rs:296-300 | in every epoch between rearms of every run, at any capacities the checks read, the levels won are exactly those its checks owe: warn iff the first reaching check is below critical, critical iff some check reaches it |
| `Watermark.HandlersMatchWins` | crates/forge-alloc/src/hardening/watermark.rs:345-366 | every run, any rearms and capacities: at quiescence each handler has been called once per win |
| `Watermark.HandlersRunExactly` | crates/forge-alloc/src/hardening/watermark.rs:319-368 | at quiescence without rearm, at any capacities the checks read: exactly when each handler has run, by the sequence of checks |
| `Watermark.PeakIsHistory` | crates/forge-alloc/src/hardening/watermark.rs:410-411 | the tracked peak is the largest value the counter held over the run |
| `Watermark.AccountingStep` | crates/forge-alloc/src/hardening/watermark.rs:374-394 | every step keeps the counter equal to the counted blocks |
| `Watermark.RunKeepsInv` | crates/forge-alloc/src/hardening/watermark.rs:400-438 | without rearm, whatever the capacity does: the invariant holds in every reachable state |
| `Watermark.GateSkips` | crates/forge-alloc/src/hardening/watermark.rs:422-424 | below the gate the skipped check would have called nothing and set nothing |
| `Watermark.Wrapper.CheckAndFire` | crates/forge-alloc/src/hardening/watermark.rs:319-368 | one uninterrupted check at the capacity just read: which handler runs and what the bitmap becomes |
| `Watermark.Wrapper.Allocate` | crates/forge-alloc/src/hardening/watermark.rs:400-438 | one uninterrupted call of a possibly growing inner: counter, handler and bitmap, for a bounded inner as if the gate were not there |
| `Watermark.Wrapper.Deallocate` | crates/forge-alloc/src/hardening/watermark.rs:374-394 | a free subtracts the size and fires nothing |
| `Watermark.Wrapper.RearmThresholds` | crates/forge-alloc/src/hardening/watermark.rs:296-300 | rearming clears the bitmap and nothing else |
| `Quarantines.QueueIff` | crates/forge-alloc/src/hardening/quarantine.rs:151-172 | for every sequence of frees without a double free: the ring forwards what a queue would if and only if the counter has not wrapped or EPOCHS divides 2^64 |
| `Quarantines.QueueFailsPastWrap` | crates/forge-alloc/src/hardening/quarantine.rs:155-166 | if EPOCHS does not divide 2^64, then for every length past 2^64 some sequence without a double free is not forwarded as a queue would |
| `Quarantines.RingIsQueue` | crates/forge-alloc/src/hardening/quarantine.rs:151-172 | block n is forwarded exactly at free n + EPOCHS, in free order |
| `Quarantines.WrapEvictsEarly` | crates/forge-alloc/src/hardening/quarantine.rs:155-166 | the first free after the wrap evicts a block freed only 2^64 mod EPOCHS frees earlier |
| `Quarantines.BlockWaits` | crates/forge-alloc/src/hardening/quarantine.rs:151-172 | wrapped or not, every block stays in its slot exactly Wait frees and is evicted by the last of them |
| `Quarantines.WaitBounded` | crates/forge-alloc/src/hardening/quarantine.rs:36-39 | every wait is positive and shorter than twice the ring, and is EPOCHS away from the wrap |
| `Quarantines.WaitIsEpochsIff` | crates/forge-alloc/src/hardening/quarantine.rs:36-39 | no block waits longer than the documented EPOCHS if and only if EPOCHS divides 2^64 |
| `Quarantines.NothingLost` | crates/forge-alloc/src/hardening/quarantine.rs:151-172 | in all cases, wrap included: forwarded plus waiting blocks are exactly the freed ones |
| `Quarantines.Quarantine.Deallocate` | crates/forge-alloc/src/hardening/quarantine.rs:151-172 | the array ring performs the modelled free; state is final before the inner call |
| `Quarantines.Quarantine.Drop` | crates/forge-alloc/src/hardening/quarantine.rs:233-277 | the drain hands over every waiting block in slot order, each exactly once; a panicking inner leaks the rest |
| `Poison.PoisonPersists` | crates/forge-alloc/src/hardening/poison.rs:140-156 | every run: whatever waits in the quarantine is poison over its whole usable extent; the last EPOCHS freed blocks are, while the counter is steady |
| `Poison.ResizeStepExact` | crates/forge-alloc-core/src/traits/allocator.rs:141-189 | the default grow and shrink as a step: refused, nothing changes; else the new block starts with the common prefix, the old one is quarantined and poison from end to end, other client blocks keep their bytes |
| `Poison.ReleaseStepExact` | crates/forge-alloc/src/hardening/poison.rs:140-156 | a free as a step: the block moves from the client to the quarantine, its usable extent is the pattern, no byte outside it changes |
| `Poison.NextKeepsInv` | crates/forge-alloc/src/hardening/poison.rs:138-176 | every step keeps the invariant |
| `Poison.ReleaseKeepsInv` | crates/forge-alloc/src/hardening/poison.rs:140-156 | a free poisons the whole extent and quarantines the block |
| `Poison.EvictedIsPoison` | crates/forge-alloc/src/hardening/poison.rs:140-156 | the block handed on to the inner is still poison from end to end |
| `Poison.RecentWaits` | crates/forge-alloc/src/hardening/quarantine.rs:151-172 | the last EPOCHS freed blocks are the ones in the ring |
| `Poison.PoisonOnFree.Deallocate` | crates/forge-alloc/src/hardening/poison.rs:140-156 | on memory: exactly the usable extent becomes the pattern, the block enters the quarantine, and the block handed to the inner is the one the ring evicts |
| `Poison.PoisonOnFree.Resize` | crates/forge-alloc-core/src/traits/allocator.rs:141-189 | on memory: the prefix is copied, other client blocks keep their bytes, the old block is poisoned and quarantined; refused, nothing changes |
| `CacheJitters.RunNeverPanics` | crates/forge-alloc/src/hardening/cache_jitter.rs:389-511 | every accepted configuration, key and choice of displacements: no live block's header check fails and its free hands the inner the exact pair it issued |
| `CacheJitters.UnpackPack` | crates/forge-alloc/src/hardening/cache_jitter.rs:296-336 | unpacking inverts packing |
| `CacheJitters.OneHeaderEachIff` | crates/forge-alloc/src/hardening/cache_jitter.rs:311-336 | a displacement has exactly one accepted header per address if and only if 65536 lines fit the address space |
| `CacheJitters.TwoHeadersForOne` | crates/forge-alloc/src/hardening/cache_jitter.rs:131-143 | a line of 2^49 bytes is accepted and has two headers for displacement zero at every address, under any key |
| `CacheJitters.SealExact` | crates/forge-alloc/src/hardening/cache_jitter.rs:303-313 | both header fields come back from the sealed word, and no other word has them |
| `CacheJitters.LinesInWindow` | crates/forge-alloc/src/hardening/cache_jitter.rs:243-247 | the multiply-shift reduction stays within the window for every draw |
| `CacheJitters.LinesFair` | crates/forge-alloc/src/hardening/cache_jitter.rs:236-247 | every line of the window is drawn, by an interval of draws whose length is the same for all lines up to one |
| `CacheJitters.LinesUnbiasedIff` | crates/forge-alloc/src/hardening/cache_jitter.rs:236-247 | all lines have equally many draws if and only if the associativity divides 2^64 |
| `CacheJitters.PrefixExact` | crates/forge-alloc/src/hardening/cache_jitter.rs:131-218 | accepted parameters are exactly the checked ones; prefix arithmetic never overflows |
| `CacheJitters.RngNeverZero` | crates/forge-alloc/src/hardening/cache_jitter.rs:222-229 | the generator state is never zero, after any number of steps from any seed |
| `CacheJitters.RngReference` | crates/forge-alloc/src/hardening/cache_jitter.rs:222-229 | the first outputs for seed 1 and for the replacement of seed 0 |
| `CacheJitters.RequestExact` | crates/forge-alloc/src/hardening/cache_jitter.rs:368-385 | alignments above a line pass through; else the inflated layout exists exactly when its padded size fits isize::MAX |
| `CacheJitters.BlockIsWellLaid` | crates/forge-alloc/src/hardening/cache_jitter.rs:489-505 | header and client bytes lie disjoint inside the inner block; the client keeps its alignment |
| `CacheJitters.FreeExact` | crates/forge-alloc/src/hardening/cache_jitter.rs:389-471 | for lines 65536 of which fit the address space: a free is refused exactly when the stored word is no header of any displacement in the window at that address, and otherwise walks back by that displacement |
| `CacheJitters.CacheJitter.Allocate` | crates/forge-alloc/src/hardening/cache_jitter.rs:477-511 | the object stores the header and advances the generator only for a jittered success |
| `CacheJitters.CacheJitter.Deallocate` | crates/forge-alloc/src/hardening/cache_jitter.rs:389-471 | the object verifies and walks back as modelled |
| `Canaries.RunNeverPanics` | crates/forge-alloc/src/hardening/canary.rs:206-266 | well-behaved runs: no free of a live block panics, the inner gets back exactly its pair |
| `Canaries.PanicsIffDamaged` | crates/forge-alloc/src/hardening/canary.rs:213-216 | a free panics if and only if some sentinel byte differs from the secret's, naming the first damaged sentinel and changing nothing |
| `Canaries.FreeWipes` | crates/forge-alloc/src/hardening/canary.rs:217-240 | a free that passes wipes both sentinels, touches no other byte and hands on the inner pointer and layout |
| `Canaries.BlockIsWellLaid` | crates/forge-alloc/src/hardening/canary.rs:252-259 | for every size and alignment: sentinels, pad and client bytes are disjoint inside the inner block, and the client pointer is aligned |
| `Canaries.InnerLayoutExact` | crates/forge-alloc/src/hardening/canary.rs:142-153 | the inflated layout exists exactly when its padded size fits isize::MAX |
| `Canaries.SentinelIntactIff` | crates/forge-alloc/src/hardening/canary.rs:169-190 | the word comparison is the comparison of all eight bytes |
| `Canaries.Canary.Allocate` | crates/forge-alloc/src/hardening/canary.rs:246-266 | the object stores both sentinels of the modelled block |
| `Canaries.Canary.Deallocate` | crates/forge-alloc/src/hardening/canary.rs:206-241 | the object verifies, zeroes and forwards as modelled |
| `Canaries.ZeroWord` | crates/forge-alloc/src/hardening/canary.rs:49-54 | the zeroing loop clears exactly the eight bytes |
| `Guards.RunKeepsInv` | crates/forge-alloc-core/src/traits/allocator.rs:92-112 | every run of clients that write only their own bytes over an inner issuing disjoint blocks keeps every stored word intact and returns each block once |
| `Guards.StepExact` | crates/forge-alloc-core/src/traits/allocator.rs:92-112 | each step changes only the guards it stores or wipes, or one byte |
| `Guards.DecodeEncode` | crates/forge-alloc/src/hardening/canary.rs:171-171 | a stored word reads back |
| `AlignedCols.RunIsAmortized` | crates/forge-containers/src/aligned_col.rs:240-345 | any mix of calls: the buffer refines a plain sequence, the bytes handed to reallocation sum to at most the capacity, and the capacity is at most twice the largest request |
| `AlignedCols.ApplyExact` | crates/forge-containers/src/aligned_col.rs:240-290 | one call appends exactly its data or changes nothing |
| `AlignedCols.ReservedFailsExactly` | crates/forge-containers/src/aligned_col.rs:248-258 | reserve fails exactly on word overflow, an invalid doubled layout or a refusing allocator |
| `AlignedCols.ApplySucceedsExactly` | crates/forge-containers/src/aligned_col.rs:240-311 | push and extend fail exactly as a reserve of as many bytes does, clear never; the capacity each call leaves |
| `AlignedCols.WithCapacityFailsExactly` | crates/forge-containers/src/aligned_col.rs:142-149 | pre-allocation fails exactly for a capacity that is no layout or when the allocator declines |
| `AlignedCols.DoublingRefusesIff` | crates/forge-containers/src/aligned_col.rs:253-257 | exactly when doubling turns away a request whose plain size is a valid layout |
| `AlignedCols.DoublingRefusesFresh` | crates/forge-containers/src/aligned_col.rs:253-257 | a buffer pre-allocated past half of isize::MAX refuses one byte more than it has |
| `AlignedCols.DoublingRefusesOne` | crates/forge-containers/src/aligned_col.rs:253-257 | with 2^62 bytes, for one |
| `AlignedCols.PushesCopyLinearly` | crates/forge-containers/src/aligned_col.rs:261-270 | n pushes copy at most 2n bytes |
| `AlignedCols.AlignedColBuffer.GrowTo` | crates/forge-containers/src/aligned_col.rs:318-345 | for any larger capacity: when it succeeds, and that it then keeps the bytes, moves the pointer and frees exactly the layout granted before |
| `AlignedCols.AlignedColBuffer.Reserve` | crates/forge-containers/src/aligned_col.rs:248-258 | the object's reserve: when it fails, the room it leaves, the bytes kept |
| `AlignedCols.AlignedColBuffer.Push` | crates/forge-containers/src/aligned_col.rs:261-270 | the object's push: when it fails, else one byte appended |
| `AlignedCols.AlignedColBuffer.Extend` | crates/forge-containers/src/aligned_col.rs:273-311 | the object's extend: when it fails, else the slice appended |
| `AlignedCols.AlignedColBuffer.Clear` | crates/forge-containers/src/aligned_col.rs:240-242 | clear keeps the allocation |
| `AlignedCols.AlignedColBuffer.WithCapacity` | crates/forge-containers/src/aligned_col.rs:142-149 | pre-allocates exactly the capacity asked for |
| `AlignedCols.AlignedColBuffer.Drop` | crates/forge-containers/src/aligned_col.rs:355-369 | the block is freed with the layout it was granted for |
| `Layouts.NewLayoutExact` | crates/forge-alloc-core/src/traits/non_zero_layout.rs:32-55 | the constructor accepts exactly the layouts whose padded size fits isize::MAX |
| `Layouts.PadToAlignExact` | crates/forge-alloc-core/src/traits/non_zero_layout.rs:119-151 | padding never overflows and yields the least multiple, again a valid layout |
| `Layouts.PadToAlignIdempotent` | crates/forge-alloc-core/src/traits/non_zero_layout.rs:119-151 | padding twice is padding once |
| `Layouts.ArrayLayoutExact` | crates/forge-alloc-core/src/traits/non_zero_layout.rs:87-102 | an array layout exists exactly when n padded strides are non-empty and fit |
| `Words.MaskRoundsDown` | crates/forge-alloc/src/layout/bump.rs:333-333 | clearing the low bits of a word rounds it down to a multiple |
| `Words.CheckedRoundUpExact` | crates/forge-alloc/src/layout/bump.rs:332-333 | the checked mask round-up is the least multiple, refused exactly when that is no word |

## Left out

- Raw system calls, page-size detection, the thread-local OS error slot, memory protection and
  NUMA or huge-page variants: the OS is an answer, success with a fresh region or failure.
- `usize` widths other than 64 bits; the clamp in `mirror_corruption` is the identity there.
- Lock acquisition, fairness and poisoning in `ExtendableSlab`: a critical section is one step,
  and the mutex is what makes it one.
- Hardware memory ordering beyond atomic single-location steps, pointer provenance, cache-line
  padding.
- `SlabGrowth.RunSafe`: does not model the bytes inside a slot, the free-list MAC or its
  disarming on corruption; slabs are assumed uncorrupted, as callers that obey the contract
  leave them.
- `ExtendableSlab::with_initial_segments` as a loop: its result is the initial state, any
  number of untouched disjoint segments.
- `Slabs.SlabObject.Allocate`: does not model the corruption branch, which an intact list never
  takes.
- `Slabs.SlabObject.Deallocate`: does not model the MAC stored beside the link.
- `SharedBump.SharedBumpArena.Allocate`: states the loop for finitely many spurious failures per
  call, because with infinitely many the loop does not end; the state machine allows any number.
- `Statistics.Wrapper.Allocate`: does not model interference inside the method; the object runs
  one call at a time, and interleavings are the step machine's.
- `Statistics.Wrapper.Deallocate`: likewise one call at a time.
- `Statistics.Wrapper.MirrorCorruption`: likewise one call at a time.
- `Watermark.Wrapper.CheckAndFire`: likewise one call at a time.
- `Watermark.Wrapper.Allocate`: likewise one call at a time.
- `Watermark.Wrapper.Deallocate`: likewise one call at a time.
- `Watermark.CriticalExactlyOnce`: states runs with a fixed capacity and no `rearm`; a moving
  capacity is `Watermark.CriticalWithin`, and with `rearm` a handler may run again by design,
  once per epoch (`Watermark.EpochExact`).
- `Watermark.HandlerOrderIff`: states which thresholds allow a late warn at a fixed capacity; for
  a moving one each run has its own condition (`Watermark.LateWarnIffOvertaken`).
- Contents of pages after `release_pages`, and `alloc_slice_copy`, `alloc_str`, `alloc`: copies
  on top of `alloc_uninit`.
- `CacheJitters.RunNeverPanics`: treats `header_mix` as an arbitrary function; key derivation,
  mixing quality, entropy and constant-time comparison are not modelled.
- Zeroing of secrets when `Canary` and `CacheJitter` are dropped, and volatility or fences.
- `Poison.PoisonOnFree.Deallocate`: the inner's own writes to an evicted block are the scribbles
  of later steps; alignment of issued blocks is not tracked here.
- `ZeroizeOnFree`: `PoisonOnFree` with pattern 0.
- `AlignedColBuffer::as_typed` and typed views of bytes.
- `ArenaPool`, `WithFallback`, `NodeSet`, `StdCompat`, `SizeClassed`, `StackAlloc`,
  `GenerationalSlab`, `SlabOwner`, `LockedMmapBacked`, `GuardPage` and the C interface:
  forwarding, or the arithmetic already proved here.
