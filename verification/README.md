# GPU memory governor: a verified model

The service governs one arena of device memory. An allocator keeps the arena as a
tiling of live and free regions with a size-ordered free index and an id index; a
governor binds generation-stamped records to live regions, retires them, plans
compaction and reclaim, and survives a crash through a checksummed snapshot file; a
small framed protocol carries messages between processes. This project models those
parts in Dafny and proves what they promise.

`dafny verify dfyconfig.toml` checks everything, within the verifier's default limits.

## How the model is organised

- `Machine`: 64-bit words as bounded naturals with wrap-around written out; bitwise AND
  on binary digits; what `v & (v - 1)` and the rounding mask compute.
- `ArenaSpec`: the arena as a set of live intervals, the plain per-byte occupancy map,
  maximal free runs, and each allocator operation as a function of the live intervals.
- `Tiling`, `RegionAllocator`: the allocator's three redundant indexes. Every method of the
  class updates `regions`, `freeSlots`, `allocOffset` and the counters in place and is proved
  equal to the `ArenaSpec` operation on the live intervals the indexes stand for.
- `AllocationTheorems`: what allocation, release and relocation mean in terms of bytes.
- `GovernorSpec`, `GovernorInvariants`, `HandleSafety`, `Reissue`, `Accounting`, `Pinning`, `Reclaim`, `Observations`:
  the governor as a state machine (request, release, pin, unpin, relocate, observe pressure,
  crash and recover), its invariants, and theorems over whole runs.
- `Handles`, `Ownership`, `PlanMeaning`, `ReclaimMeaning`: what the governor's answers mean, in terms of bytes,
  requests and the records' own fields rather than of the functions that compute them.
- `Bookkeeping`, `ClassAccounting`, `RegionIdentity`: what records, counters and region ids say at every point
  of a run.
- `Compaction`, `Planner`, `PlanSearch`, `CompactionRuns`, `CompactionLimits`: the single-move planner, its
  nested search loop, what its prediction is worth, and exactly how far that reaches.
- `Doubles`: binary64 conversion, difference and division of unsigned words, as the planner and the pressure
  classification use them.
- `Reachability`, `Layouts`: runs put together from steps, and the arena layouts they build.
- `MemoryGovernor`: the governor object; each method is proved equal to a step of the state machine.
- `Wire`, `Streams`, `Crc`, `CrcDivision`: little-endian words, length-prefixed strings, a shape-directed
  grammar over them, the writer and reader objects, the reflected CRC-32, and polynomial division.
- `SnapshotFormat`, `Snapshots`, `Persistence`, `Validation`, `SnapshotAcceptance`: the snapshot
  file, its encoder and decoder, the structural validator, and the link to governor runs.
- `Frames`: the framed protocol.
- `FileLayout`: the bytes of a snapshot file and of a frame, field by field.
- `Pressure`: watermarks, utilization and hysteresis.

Where a method and a specification function share a purpose (for example
`RegionAllocator.Allocate` and `ArenaSpec.Allocate`), the method follows the source's loops and
assignments and the function is what the theorems are about; the method's `ensures` joins them.

The theorems about accepted files are not vacuous: `Snapshots.RoundTrip` makes every storable snapshot an
accepted file, `SnapshotAcceptance.CounterIsNotChecked` builds one, and
`SnapshotAcceptance.ReachableSnapshotSurvives` supplies one for every run.

## What the proofs found

- **Ids handed out after a snapshot are handed out again.** After restoring a snapshot, a handle that any
  governor could issue (generation 1, or a later one on an arena of at least two bytes) is rejected over every
  later run exactly when its id is below the snapshot's id counter (`Reissue.RestoreBound`, for ids and
  generations that sum to at most 2^64 - 3).
- **A compaction plan can be refused by the state it was planned on.** On every arena of at least 2^63 + 2 bytes
  a run of six operations leads to a plan whose rounding overflows: it promises a gain, the relocation is
  refused, and planning again never ends (`CompactionLimits.OverflowingPlanIsRefused`). Plans are always
  accepted exactly on arenas of at most 2^63 + 1 bytes (`CompactionLimits.AlwaysAcceptedIff`); for one step the
  condition is `Compaction.StepAcceptedIff`.
- **The planner can pass over the best move**, because it compares gains as binary64 values. On every arena of
  at least 2^53 + 3 bytes some run leads to such a plan (`CompactionLimits.TiedGainsMislead`); the plan is
  always the best move exactly on arenas of at most 2^53 + 2 bytes (`CompactionLimits.AlwaysBestIff`).
- **The decoder does not check the id counter.** A file whose `next_alloc_id` is not above its ids is
  accepted, and the first request after restoring it can be granted the id of a retired record
  (`SnapshotAcceptance.CounterIsNotChecked`). Whoever wrote a snapshot, no id it lists becomes current again
  over any run exactly when its counter is above its ids (`Reissue.SafeToRestoreIff`). The comment at
  `include/gpu_memory_service/persistence.hpp:35-38` also lists generation regression and impossible
  lifecycles among the rejected inputs; the code checks neither, and the model follows the code.
- **A pin taken by a request cannot be undone.** The record counts it and the arena does not, so the new
  record can be neither unpinned nor released (`Pinning.RequestedPinIsStuck`). Pinning and unpinning it
  once forgets the request's pin, and turns a non-movable block movable (`Pinning.UnpinUndoesPin`).
- **`current_committed` follows the arena only under size-keeping relocations**
  (`Accounting.RelocationCommitted` gives the exact condition).
- **`current_movable` and `current_pinned` drift when a pin finds its block pinned or non-movable**:
  `ClassAccounting.PinClasses` gives the exact condition, and `ClassAccounting.RunClasses` shows that runs
  without such pins and without size-changing relocations keep both exact.
- **`verify()` reports index drift on an arena of capacity 0**, and is clean in every other reachable state
  (`RegionAllocation.RegionAllocator.Verify`).
- **A flag byte other than 0 or 1 is accepted as "not recoverable"**, so re-encoding an accepted file gives
  the file back exactly when all flag bytes are 0 or 1 (`Snapshots.CanonicalIffFlags`);
  `SnapshotAcceptance.OddFlagIsAccepted` builds an accepted file with the byte 2.
- **The frame encoder never refuses a payload**, although the comment at
  `include/gpu_memory_service/protocol.hpp:44-45` says it returns nothing on overflow; a frame comes back
  exactly when its payload is within 2^20 bytes (`Frames.FrameRoundTrip`).
- **Damage in a frame's length field can go unnoticed**: a payload that carries the checksum of a shorter frame
  decodes to that frame once its length is changed (`Frames.LengthDamageAccepted`).
- The comment at `src/pressure.cpp:26-27` says an unknown prior state stays unknown; the code treats it like
  any other state below HIGH, and so does the model.

## Model

| member | source | states |
|---|---|---|
| `Machine.IsPow2Meaning` | include/gpu_memory_service/util.hpp:10-12 | `v & (v - 1)` is zero for a non-zero word exactly when the word is a power of two |
| `Machine.AlignUpMeaning` | src/region_allocator.cpp:12-18 | rounding gives the least multiple of the alignment not below the value, and 0 for a positive value exactly when no such multiple fits a word |
| `AllocationTheorems.RoundedSize` | include/gpu_memory_service/util.hpp:22-28 | the rounded size is the mathematical least multiple whenever that is below 2^64, and the overflow signal 0 otherwise |
| `ArenaSpec.SpanFreeIsBytewise` | include/gpu_memory_service/region_allocator.hpp:57-58 | an interval avoids every live block exactly when each of its bytes is free in the occupancy map |
| `ArenaSpec.FreeRunIsMaximal` | src/region_allocator.cpp:95-124 | the merged free runs are exactly the maximal intervals of free bytes |
| `ArenaSpec.FreeRunsDisjoint` | src/region_allocator.cpp:95-124 | two free runs that share a byte are the same run |
| `ArenaSpec.RunAround` | src/region_allocator.cpp:169-197 | every free span lies inside a free run |
| `ArenaSpec.BytesSplit` | include/gpu_memory_service/region_allocator.hpp:74-75 | live bytes and free bytes of the occupancy map add up to the capacity |
| `ArenaSpec.LiveBytesAdd` | src/region_allocator.cpp:82-83 | a block placed on free bytes adds exactly its size to the live byte count |
| `ArenaSpec.BestFitUnique` | src/region_allocator.cpp:50-55 | at most one free run is least by (size, offset) among those that can hold a request |
| `ArenaSpec.BestFitExists` | src/region_allocator.cpp:50-55 | if any free run can hold a request there is such a least one |
| `Tiling.FreeRegionsAreRuns` | src/region_allocator.cpp:95-124 | in a canonical tiling the free regions are exactly the maximal runs of free bytes |
| `Tiling.SlotsAreRuns` | include/gpu_memory_service/region_allocator.hpp:89-107 | the free index holds exactly the (size, offset) pairs of the maximal free runs |
| `Tiling.LayoutDetermined` | src/region_allocator.cpp:95-140 | two canonical tilings of the same live intervals have the same offsets, sizes and indexes: the layout carries no history |
| `Tiling.EditCanonical` | src/region_allocator.cpp:58-86 | replacing the tiles of a window by tiles that fit keeps the whole tiling canonical |
| `Tiling.PlaceCanonical` | src/region_allocator.cpp:58-86 | splitting a free region into front, live and tail pieces keeps the tiling exact, merged and aligned |
| `Tiling.CoalesceCanonical` | src/region_allocator.cpp:95-124 | merging a released span with its free neighbours keeps the tiling exact, merged and aligned |
| `Tiling.PlaceSlots` | src/region_allocator.cpp:57-81 | the incremental index update of a split gives exactly the free regions of the new tiling |
| `Tiling.CoalesceSlots` | src/region_allocator.cpp:99-122 | the incremental index update of a merge gives exactly the free regions of the new tiling |
| `Tiling.CarveIsPlace` | src/region_allocator.cpp:169-203 | rebuilding the map around a relocation target is the same as splitting the one free region that contains it |
| `RegionAllocation.RegionAllocator.constructor` | src/region_allocator.cpp:20-30 | a new allocator stands for the empty arena with every index in agreement |
| `RegionAllocation.FitsAfterPadding` | src/region_allocator.cpp:52-55 | the wrapping front-padding test accepts a slot exactly when its first aligned offset leaves room, so a padding that wrapped is always skipped |
| `RegionAllocation.RegionAllocator.FindBestFit` | src/region_allocator.cpp:49-55 | the walk over the size-ordered index stops at the least free run by (size, offset) that can hold the request, or finds that none can |
| `RegionAllocation.RegionAllocator.Allocate` | src/region_allocator.cpp:39-93 | allocation updates all indexes in place to the best-fit placement on the live intervals, with the same result and reject reason |
| `RegionAllocation.RegionAllocator.SplitSlot` | src/region_allocator.cpp:57-88 | splitting the chosen slot places the block at its first aligned offset and returns the rest to the index |
| `RegionAllocation.RegionAllocator.CanonicalizeFree` | src/region_allocator.cpp:95-124 | a returned span ends up as one maximal free region in the tiling and the index; it is refused exactly when empty or beyond the arena, changing nothing |
| `RegionAllocation.RegionAllocator.Free` | src/region_allocator.cpp:126-140 | a current handle's interval is removed from the live intervals and the merged run is reported; a stale one changes nothing |
| `RegionAllocation.RegionAllocator.TargetIsClear` | src/region_allocator.cpp:154-168 | looking at the region before the target and those starting inside it decides whether any live block overlaps the target |
| `RegionAllocation.RegionAllocator.CarveTarget` | src/region_allocator.cpp:169-198 | the region-by-region rebuild cuts the target out of the one free region around it and leaves every other region alone |
| `RegionAllocation.RegionAllocator.Relocate` | src/region_allocator.cpp:142-209 | relocation is the move of one live interval, or a rejection that changes nothing; the internal merge never fails |
| `RegionAllocation.RegionAllocator.Pin` | src/region_allocator.cpp:211-219 | pinning counts up and marks the region pinned, leaving the layout alone |
| `RegionAllocation.RegionAllocator.Unpin` | src/region_allocator.cpp:221-231 | unpinning counts down, makes the region movable at zero, and is refused on an unpinned region |
| `RegionAllocation.RegionAllocator.Get` | src/region_allocator.cpp:233-240 | the id index returns the live region of a current handle and refuses any other |
| `RegionAllocation.RegionAllocator.LargestFreeRegion` | src/region_allocator.cpp:32-37 | the lazily refreshed summary is the size of the largest maximal free run, and refreshing it changes nothing else |
| `RegionAllocation.RegionAllocator.Snapshot` | src/region_allocator.cpp:258-263 | the listings are exactly the live blocks, or exactly the maximal free runs, by ascending offset |
| `RegionAllocation.RegionAllocator.Verify` | src/region_allocator.cpp:265-294 | the self-check finds nothing wrong in any consistent state of a non-empty arena, and reports index drift on an empty one |
| `AllocationTheorems.AllocateIffRoom` | src/region_allocator.cpp:39-93 | for every request: allocation succeeds exactly when the request is well formed and some multiple of the alignment starts a run of enough free bytes inside the arena |
| `AllocationTheorems.FailureReason` | src/region_allocator.cpp:46-47 | a well-formed request fails for total capacity exactly when too few bytes are free, for contiguity exactly when enough are free but nowhere together, for overflow exactly when the rounded size does not fit |
| `AllocationTheorems.MalformedReason` | src/region_allocator.cpp:40-42 | a malformed request fails for zero bytes, for a zero alignment or for one that is no power of two, in this order |
| `AllocationTheorems.AllocateIsBestFit` | src/region_allocator.cpp:49-58 | the block starts at the first aligned offset of the free run that is least by (size, offset) among all runs with room |
| `AllocationTheorems.AllocateOccupies` | src/region_allocator.cpp:71-84 | a grant occupies exactly the bytes of the returned region |
| `AllocationTheorems.FreeVacates` | src/region_allocator.cpp:126-140 | a release frees exactly the block's bytes |
| `AllocationTheorems.RelocateIffRoom` | src/region_allocator.cpp:142-209 | relocation is accepted exactly when the handle is current and the aligned target bytes are free; then only that block's bytes change, otherwise nothing does |
| `AllocationTheorems.RelocateReason` | src/region_allocator.cpp:142-168 | each reason a relocation is refused for has its exact condition, down to the taken bytes |
| `AllocationTheorems.TargetInOneRun` | src/region_allocator.cpp:169-197 | an accepted target lies inside exactly one free run |
| `AllocationTheorems.FreeUndoesAllocate` | src/region_allocator.cpp:126-140 | releasing right after allocating restores the live intervals |
| `AllocationTheorems.ReleaseOrderIsIrrelevant` | src/region_allocator.cpp:95-140 | releasing the same blocks in any two orders gives the same tiling and free index |
| `AllocationTheorems.ReleasingEverything` | src/region_allocator.cpp:95-140 | releasing every block leaves one free region that spans the arena |
| `GovernorInvariants.AllocateKeeps` | src/region_allocator.cpp:39-93 | allocation keeps live blocks disjoint, aligned and inside, and an error changes nothing |
| `GovernorInvariants.RequestKeeps` | src/governed_memory.cpp:64-128 | a request keeps records and arena in lockstep; a failed one changes nothing but possibly the id counter |
| `GovernorInvariants.ReleaseKeeps` | src/governed_memory.cpp:141-174 | a release keeps lockstep, fails without effect, and once past its own checks is never refused by the arena |
| `GovernorInvariants.PinKeeps` | src/governed_memory.cpp:181-195 | pinning keeps lockstep and succeeds exactly on current handles |
| `GovernorInvariants.UnpinKeeps` | src/governed_memory.cpp:202-217 | unpinning keeps lockstep, and a refusal changes nothing |
| `GovernorInvariants.RelocationKeeps` | src/governed_memory.cpp:387-405 | relocation keeps lockstep, and a refusal changes nothing |
| `GovernorInvariants.StepKeeps` | src/governed_memory.cpp:59-217 | every operation, crash and recovery included, keeps records and arena in lockstep and advances the id counter by at most one |
| `GovernorInvariants.RunKeeps` | src/governed_memory.cpp:59-217 | the same over any run short of exhausting the id counter |
| `Handles.InitializedIff` | src/governed_memory.cpp:41-55 | initialization succeeds exactly with a backend that provides an arena for a domain with capacity, or when it had succeeded before; every failure has its reason and changes nothing |
| `Handles.GrantedHandle` | src/governed_memory.cpp:64-127 | a granted handle names free bytes, as many as the request rounded up to the least multiple of its alignment, from an aligned offset on; afterwards the live bytes are the old ones and exactly these, and the new block holds them |
| `Handles.GrantedPlace` | src/governed_memory.cpp:88-127 | the handle starts at the first aligned offset of the free run that is least by (size, offset) among those with room |
| `Handles.GrantedIff` | src/governed_memory.cpp:64-90 | a request is granted exactly when it makes sense, the governor is initialized, and an aligned stretch of its rounded size is free |
| `Handles.GrantedRecord` | src/governed_memory.cpp:92-122 | the new record carries the handle's place and the request's data, a query with the handle returns it, and nothing else in the books changes |
| `Handles.InvalidRequest` | src/allocation.cpp:12-34 | each reason a request is refused for before the arena is asked has its exact condition |
| `Handles.RefusedRequest` | src/governed_memory.cpp:66-90 | a request that makes sense is refused for overflow, total or contiguous room on exact conditions, and takes an id exactly when its rounded size fits a word |
| `Handles.RelocatedHandle` | src/governed_memory.cpp:387-405 | an accepted relocation answers with the target offset, the new size and the record's alignment; the target was free, the block then holds exactly these bytes, its old bytes are free, and every other block is untouched |
| `Handles.RelocatedRecord` | src/governed_memory.cpp:395-403 | the moved record has its new place and every generation one step on, and is otherwise unchanged, as is everything else in the books |
| `Handles.RefusedRelocation` | src/governed_memory.cpp:389-394 | each reason a relocation is refused for has its exact condition |
| `Handles.PinAnswer` | src/governed_memory.cpp:181-195 | a pin succeeds exactly on a current handle and adds one to the count |
| `Handles.UnpinAnswer` | src/governed_memory.cpp:202-217 | an unpin succeeds exactly on a current handle the arena counts a pin of, takes one off, and makes the block movable with the last |
| `Handles.GetAnswer` | src/governed_memory.cpp:219-227 | a query returns the record of a current handle and refuses any other as stale |
| `Ownership.RunDescends` | src/governed_memory.cpp:59-217 | a record that is there after a run was there before it, with the same id, owner, purpose, size asked for, alignment and region id |
| `Ownership.AuthorityOfRequest` | src/governed_memory.cpp:130-155 | over any run after a granted request, a release of its current, unpinned allocation succeeds exactly when each authority is unset or the one the request named, and is refused as a stale authority otherwise |
| `Ownership.ReleasedRecord` | src/governed_memory.cpp:160-174 | a release returns and retires the record, released and not resident but otherwise as it was, and frees exactly the bytes of its block |
| `Ownership.ReleasedTwice` | src/governed_memory.cpp:143-151 | whatever run follows a release, releasing the same id again is a double free under its last generation and stale under any other |
| `Bookkeeping.RunOrderly` | src/governed_memory.cpp:59-217 | over any run short of exhausting a counter, each record has one region generation and one relocation per generation, a lifecycle that mirrors its pins, a region that names the same owner, and is recoverable exactly if it is backed |
| `Bookkeeping.RunAccounted` | src/governed_memory.cpp:163-172 | over any run, crashes included, every retired record is released and not resident or awaits revalidation, and the history counter is the number of released ones |
| `Bookkeeping.RunFromStart` | src/governed_memory.cpp:29-55 | all of this holds from a new governor on |
| `Bookkeeping.RestoredRecords` | src/governed_memory.cpp:440-468 | restoring a snapshot without repeated ids retires every live record as awaiting revalidation and not resident, keeps the retired ones as they were, and carries no use of memory over |
| `RegionIdentity.RunIds` | src/region_allocator.cpp:72 | over any run short of exhausting the counter, no two live blocks share a region id |
| `HandleSafety.DeadIsRejected` | src/governed_memory.cpp:141-217 | nothing accepts a released or relocated-away handle, and trying changes nothing |
| `HandleSafety.ReleaseKills` | src/governed_memory.cpp:160-172 | a released allocation is dead under every generation |
| `HandleSafety.RelocationKills` | src/governed_memory.cpp:387-405 | a relocation kills the handle it was given and makes exactly the returned one current |
| `HandleSafety.GenerationStep` | include/gpu_memory_service/types.hpp:127-130 | generations only advance, by at most one per operation, and new records start at one |
| `HandleSafety.DeadForever` | src/governed_memory.cpp:141-217 | over any run, crashes included, a dead handle is never accepted again |
| `HandleSafety.RestoreIsRecover` | src/governed_memory.cpp:427-468 | restoring a state's own snapshot keeps every old record as retired and nothing as current |
| `HandleSafety.RestoreIsLockstep` | src/governed_memory.cpp:440-468 | a restored snapshot gives a consistent governor exactly when its id counter is above every id it contains |
| `HandleSafety.RestoredHandlesStayDead` | src/governed_memory.cpp:440-468 | no handle issued before a snapshot is accepted at any point after its restoration |
| `Reissue.RestoreBound` | src/governed_memory.cpp:440-468 | after restoring a governor's own snapshot, a handle that could be issued at all is rejected over every later run exactly when its id is below the snapshot's id counter; one that could not (generation 0, or a second generation on at most one byte) always is |
| `Reissue.SafeToRestoreIff` | src/governed_memory.cpp:440-468 | after restoring any snapshot, whoever wrote it, no id it lists becomes current over any run exactly when its id counter is above all its ids |
| `Accounting.RunCommitted` | src/governed_memory.cpp:118-124 | over any run whose relocations keep sizes, the committed counter is the number of live bytes |
| `Accounting.ReleaseUncommits` | src/governed_memory.cpp:162-170 | the saturating subtraction of a release never saturates and keeps the counter exact |
| `Accounting.RelocationCommitted` | src/governed_memory.cpp:387-405 | a relocation moves the live bytes by the size difference and leaves the counter alone, so the two still agree exactly when the size is kept |
| `Accounting.RunResident` | src/governed_memory.cpp:118-167 | over any run at all, resident and committed bytes stay equal |
| `ClassAccounting.PinClasses` | src/governed_memory.cpp:189-193 | after a pin the movable and pinned counters still match the arena exactly if the block was movable, or was not pinned and no movable bytes were counted |
| `ClassAccounting.RelocationClasses` | src/governed_memory.cpp:395-403 | after a relocation they still match exactly if the size was kept or the block is of neither class |
| `ClassAccounting.RunClasses` | src/governed_memory.cpp:118-217 | over any run whose relocations keep sizes and whose pins are of movable blocks, both counters are the bytes the arena holds in that class |
| `Pinning.ReleasableIff` | src/governed_memory.cpp:141-160 | a release succeeds exactly on a current handle that nothing pins, under authorities that are unset or the record's own; double free, stale generation, stale authority and pinned are answered on exact conditions |
| `Pinning.MovableIff` | src/governed_memory.cpp:387-394 | a handle can be moved exactly when it is current, nothing pins its record, and the target is an aligned, non-empty stretch of bytes that are all free |
| `Pinning.UnpinUndoesPin` | src/governed_memory.cpp:181-217 | unpinning right after pinning always succeeds and restores the arena exactly when the block was movable or already pinned |
| `Pinning.RequestedPinIsStuck` | src/governed_memory.cpp:100-108 | a record whose pin came from the request can be neither unpinned nor released |
| `Doubles.ExactGain` | src/governed_memory.cpp:360 | up to 2^53 bytes the binary64 difference that the planner compares is the exact gain |
| `Doubles.GainMonotone` | src/governed_memory.cpp:360 | at any size a larger result never has a smaller binary64 gain, and no gain is negative |
| `Compaction.StepTarget` | src/governed_memory.cpp:340-346 | the planner's rounding either overflows and sends the step to offset 0, or gives the first aligned offset of the free run with the block inside the run |
| `Compaction.StepAcceptedIff` | src/governed_memory.cpp:340-370 | a planned step is accepted by the state it was planned on exactly when the rounding fits a word or the first bytes of the arena are free; it then moves only that block, and otherwise changes nothing |
| `Compaction.PlannedStepAccepted` | src/governed_memory.cpp:340-370 | on an arena of at most 2^63 + 1 bytes, or with blocks at least as large as their alignment, every planned step is accepted and moves only that block |
| `Compaction.MoveOutcome` | src/governed_memory.cpp:348-358 | for every candidate move: the true largest free run afterwards never exceeds the prediction, and a predicted gain is attained exactly when the rounding fits a word, or the overflowed step lands in free space at the start of the arena that is not the run in front of the block |
| `Compaction.PlanOutcome` | src/governed_memory.cpp:316-376 | for every plan of every state: when its step is accepted, when a predicted gain is attained, that the prediction is an upper bound, and that no eligible move truly does better, except above 2^53 + 2 bytes where gains round alike |
| `Compaction.PlanIsExact` | src/governed_memory.cpp:316-376 | on an arena of at most 2^63 + 1 bytes, or with blocks at least as large as their alignment, the plan is accepted and predicts exactly when it predicts a gain; no eligible move does better up to 2^53 + 2 bytes |
| `Compaction.GainfulRoundsTerminate` | src/governed_memory.cpp:316-376 | under the same condition on the first state, planning and applying gainful steps stops: there are never more rounds than bytes outside the largest free run |
| `Compaction.MovingPreservesData` | src/governed_memory.cpp:340-367 | copying a block to its target and applying the same-size relocation leaves what every current handle reads unchanged |
| `CompactionRuns.RunCovers` | src/governed_memory.cpp:64-128 | over any run whose relocations leave at least the alignment, every block is at least as large as its alignment |
| `CompactionRuns.ReachablePlanIsExact` | src/governed_memory.cpp:316-376 | a plan made in any reachable state is accepted there and predicts exactly: over every run on an arena of at most 2^63 + 1 bytes, and on larger ones over runs whose relocations leave at least the alignment |
| `CompactionRuns.ReachableRoundsTerminate` | src/governed_memory.cpp:316-376 | from any such state, planning and applying gainful steps stops within as many rounds as bytes outside the largest free run |
| `CompactionLimits.OverflowingPlanIsRefused` | src/governed_memory.cpp:340-346 | on every arena of at least 2^63 + 2 bytes, a run after which the plan promises a gain and is refused, so that planning again never ends |
| `CompactionLimits.AlwaysAcceptedIff` | src/governed_memory.cpp:340-370 | the plans of all runs are always accepted exactly on arenas of at most 2^63 + 1 bytes |
| `CompactionLimits.TiedGainsMislead` | src/governed_memory.cpp:360-361 | on every arena of at least 2^53 + 3 bytes, a run after which the planner passes over a move that truly does better |
| `CompactionLimits.AlwaysBestIff` | src/governed_memory.cpp:328-376 | no eligible move ever truly does better than the plan, over all runs and over all consistent states of a capacity, exactly when the capacity is at most 2^53 + 2 bytes |
| `Planner.Neighbours` | src/governed_memory.cpp:333-338 | one pass over the free list finds the sizes of the free regions touching a block on either side |
| `Planner.ChoosePlan` | src/governed_memory.cpp:328-376 | the nested search returns the first move, in address order, with the best binary64 gain, or nothing exactly when no move is eligible |
| `PlanSearch.PlanFor` | src/governed_memory.cpp:316-323 | the search on the allocator's own listings gives the plan and leaves the arena as it was |
| `PlanMeaning.EmptyPlanIff` | src/governed_memory.cpp:328-346 | for every plan of every consistent state: there is no step exactly when no movable, unpinned record that is not NEVER_RECLAIM has room for its size, from the first aligned offset, in a free run that does not touch it |
| `PlanMeaning.StepMeaning` | src/governed_memory.cpp:328-368 | the step names a current record that is movable, unpinned and not NEVER_RECLAIM, moves all of it to the first aligned offset of such a run, and is the first, by block and by run offset, of the moves with the best gain |
| `Reclaim.BeforeIsStrict` | src/governed_memory.cpp:306-310 | two different candidates are always ordered, one way only |
| `Reclaim.SelectionUnique` | src/governed_memory.cpp:306-313 | the selection is determined by (priority, larger size, smaller id) |
| `Reclaim.SelectionReleases` | src/governed_memory.cpp:292-314 | releasing a selection one after another always succeeds and frees exactly the sum of the sizes |
| `Reclaim.SelectionWithinEstimate` | src/governed_memory.cpp:229-239 | the sizes of any selection sum to at most the reclaimable estimate |
| `ReclaimMeaning.SelectionMeaning` | src/governed_memory.cpp:292-314 | the entry at each position of a selection is the offer with exactly that many offers ahead of it, and an offer is selected exactly when fewer than the maximum are |
| `ReclaimMeaning.SelectedRecords` | src/governed_memory.cpp:297-304 | nothing pinned, immovable, NEVER_RECLAIM, of unknown class, or unbacked though its class needs backing is ever selected, and with room for all of them every record that may be selected is |
| `ReclaimMeaning.SelectionOrder` | src/governed_memory.cpp:15-26 | a selection goes from BEST_EFFORT over CHECKPOINTED, RELOADABLE and COLD to AFTER_COMPLETION, and within a class from larger to smaller blocks |
| `ReclaimMeaning.EstimateMeaning` | src/governed_memory.cpp:229-239 | the estimate counts a byte exactly when an unpinned, movable record of a reclaimable class holds it |
| `MemoryGovernance.MemoryGovernor.constructor` | src/governed_memory.cpp:29-32 | a new governor has an empty arena of the managed capacity and no records |
| `MemoryGovernance.MemoryGovernor.Initialize` | src/governed_memory.cpp:41-55 | initialization is the state machine's step, and happens once |
| `MemoryGovernance.MemoryGovernor.Request` | src/governed_memory.cpp:64-128 | the object's new state and answer are those of the state machine's request, the last value of the id counter included; it stays consistent unless the counter wraps |
| `MemoryGovernance.MemoryGovernor.Release` | src/governed_memory.cpp:141-174 | the object's new state and answer are those of the state machine's release |
| `MemoryGovernance.MemoryGovernor.Pin` | src/governed_memory.cpp:181-195 | the object's new state and answer are those of the state machine's pin |
| `MemoryGovernance.MemoryGovernor.Unpin` | src/governed_memory.cpp:202-217 | the object's new state and answer are those of the state machine's unpin |
| `MemoryGovernance.MemoryGovernor.Get` | src/governed_memory.cpp:219-227 | a record is returned exactly for a current handle |
| `MemoryGovernance.MemoryGovernor.ApplyRelocation` | src/governed_memory.cpp:387-405 | the object's new state and answer are those of the state machine's relocation |
| `MemoryGovernance.MemoryGovernor.ObservePressure` | src/governed_memory.cpp:241-253 | the stored pressure becomes the classification of the live bytes against the capacity |
| `MemoryGovernance.MemoryGovernor.ReclaimableBytes` | src/governed_memory.cpp:229-239 | the summed estimate is the number of arena bytes held by reclaimable records |
| `MemoryGovernance.MemoryGovernor.ReclaimCandidates` | src/governed_memory.cpp:292-314 | the result is exactly the least eligible records under the reclaim order, up to the requested number |
| `MemoryGovernance.MemoryGovernor.PlanCompaction` | src/governed_memory.cpp:316-376 | planning leaves the governor's state alone and returns the first move with the best binary64 gain |
| `MemoryGovernance.MemoryGovernor.Snapshot` | src/governed_memory.cpp:427-438 | the snapshot lists every record and every retired record once, by ascending id, with the counters |
| `MemoryGovernance.MemoryGovernor.Restore` | src/governed_memory.cpp:440-468 | restoring rebuilds an empty arena and retires every record; the object is consistent exactly when the snapshot's ids are below its counter |
| `Crc.Checksum` | src/persistence.cpp:16-25 | the byte and bit loops compute the reflected CRC-32 |
| `Crc.StepInjective` | src/persistence.cpp:21 | one bit step of the CRC is injective on all 32-bit states |
| `Crc.StepsShift` | src/persistence.cpp:20-22 | a byte-aligned difference passes through eight steps unchanged but for its shift |
| `Crc.FourBytes` | src/persistence.cpp:18-23 | feeding four bytes equals 32 bit steps on the state combined with the word they spell |
| `Crc.Residue` | src/persistence.cpp:224-227 | a body followed by four bytes reaches one fixed residue exactly when those bytes are its checksum |
| `Crc.WindowChangesState` | src/persistence.cpp:16-25 | two inputs that differ only inside four consecutive bytes leave different CRC states |
| `CrcDivision.ChecksumIsRemainder` | src/persistence.cpp:16-25 | a word is the checksum exactly when its complement is a remainder of the message, low bits first, times x^32 after 32 one bits, divided by the CRC-32 generator over the field of two elements |
| `CrcDivision.RemainderUnique` | src/persistence.cpp:16-25 | that division has one remainder |
| `CrcDivision.CheckValue` | src/persistence.cpp:16-25 | the checksum of the digits "123456789" is the published 0xCBF43926 |
| `Wire.DecodeEncode` | src/persistence.cpp:28-55 | values written one after another are read back, whatever follows them |
| `Wire.EncodeDecode` | src/persistence.cpp:42-55 | what the reader consumed is exactly the encoding of the values it returned |
| `Wire.DecodeExtends` | src/persistence.cpp:42-55 | more input after an accepted prefix changes nothing but the remainder |
| `Streams.Writer.PutWord` | src/persistence.cpp:32-33 | the shift loop appends the word low byte first |
| `Streams.Writer.Str` | src/persistence.cpp:34 | a string goes out as its 32-bit length and its bytes |
| `Streams.Reader.TakeBytes` | src/persistence.cpp:46-47 | the assembly loop advances the position and returns the little-endian number |
| `Streams.Reader.Str` | src/persistence.cpp:48 | a string is read exactly when its length is within the limit and the bytes are there |
| `SnapshotFormat.RecordOfVals` | src/persistence.cpp:62-116 | the fields written for a record read back as that record |
| `SnapshotFormat.ValsOfRecord` | src/persistence.cpp:83-116 | reading a record and writing it back gives the same fields exactly when the flag byte is 0 or 1 |
| `SnapshotFormat.DomainOfVals` | src/persistence.cpp:118-158 | the fields written for a domain read back as that domain |
| `FileLayout.RecordLayout` | src/persistence.cpp:62-81 | the bytes of a record, field by field in order and width |
| `FileLayout.DomainLayout` | src/persistence.cpp:118-131 | the bytes of a domain, field by field in order and width |
| `FileLayout.SnapshotLayout` | src/persistence.cpp:178-189 | a snapshot file is the magic number and version, the domain, both counted lists and the counters, and the checksum of all that |
| `SnapshotFormat.ParseFile` | src/persistence.cpp:178-226 | a written file reads back value for value, whatever follows it |
| `SnapshotFormat.FileParse` | src/persistence.cpp:191-226 | the bytes consumed by a successful read are exactly the encoding of what was read, with bounded counts and strings |
| `Snapshots.RoundTrip` | src/persistence.cpp:178-252 | decoding an encoded snapshot returns it exactly when it is storable: valid watermarks, bounded counts and strings, sound structure |
| `Snapshots.SurvivesIff` | src/persistence.cpp:160-252 | a snapshot survives being written and read exactly when its watermarks are ordered within [0, 1], both lists have at most 2^20 records, each record is plausible over the integers with codes inside the enumerations, no id repeats, and live records do not overlap |
| `Snapshots.AcceptedIsStorable` | src/persistence.cpp:191-252 | everything the decoder accepts is storable |
| `Snapshots.PrefixFree` | src/persistence.cpp:225-226 | no proper extension of an accepted buffer is accepted |
| `Snapshots.AcceptedIsChecked` | src/persistence.cpp:223-227 | an accepted buffer ends in the checksum of the rest |
| `Snapshots.BurstRejected` | src/persistence.cpp:223-227 | any change confined to four consecutive bytes of an accepted file is rejected, length fields and checksum included |
| `Snapshots.TotalWithinCapacity` | src/persistence.cpp:231-242 | disjoint records inside the capacity have sizes that sum within it |
| `Snapshots.AcceptedGeometry` | src/persistence.cpp:229-249 | accepted records are non-empty, aligned, inside the capacity and pairwise disjoint over the integers, and their unbounded sum is within it |
| `Snapshots.CanonicalIffFlags` | src/persistence.cpp:113-114 | re-encoding an accepted file gives the file back exactly when every flag byte is 0 or 1 |
| `Snapshots.SoundRawIsAccepted` | src/persistence.cpp:191-252 | well-formed field values that describe a sound snapshot make an accepted file that decodes to it, whatever their flag bytes |
| `Persistence.WriteRecord` | src/persistence.cpp:62-81 | the field-by-field writes produce the record's values in order |
| `Persistence.WriteDomain` | src/persistence.cpp:118-131 | the field-by-field writes produce the domain's values in order |
| `Persistence.EncodeSnapshot` | src/persistence.cpp:178-189 | the encoder's loops produce the body and its checksum |
| `Persistence.ReadRecord` | src/persistence.cpp:83-116 | the field-by-field reads fill the record from the grammar's values, and fail exactly when the grammar does |
| `Persistence.ReadDomain` | src/persistence.cpp:133-158 | the field-by-field reads fill the domain from the grammar's values, and fail exactly when the grammar does |
| `Persistence.ReadList` | src/persistence.cpp:202-220 | a count within the bound is followed by that many records |
| `Persistence.DecodeSnapshot` | src/persistence.cpp:191-252 | the decoder accepts exactly the well-formed, checked and structurally sound buffers and returns their snapshot |
| `Validation.InsertApart` | src/persistence.cpp:244-247 | inserting an extent into the order keeps track of exactly the overlaps it causes |
| `Validation.SortExtents` | src/persistence.cpp:244-246 | sorting permutes the extents and neither creates nor hides an overlap |
| `Validation.ScanNeighbours` | src/persistence.cpp:247-249 | after sorting, comparing neighbours finds every overlapping pair |
| `Validation.CheckRecords` | src/persistence.cpp:230-241 | the id set and the wrapping sum accept exactly valid records with fresh, distinct ids |
| `Validation.CheckStructure` | src/persistence.cpp:229-250 | the decoder's checks accept exactly the structurally sound snapshots |
| `SnapshotAcceptance.StepSound` | src/governed_memory.cpp:59-217 | every operation leaves only records the decoder's record check accepts |
| `SnapshotAcceptance.ReachableSnapshotSurvives` | src/governed_memory.cpp:427-438 | the snapshot of any reachable state is accepted by the decoder and comes back unchanged, when the lists fit the format |
| `SnapshotAcceptance.CounterIsNotChecked` | src/persistence.cpp:221 | a concrete accepted file whose id counter is not above its ids, and the run after restoring it that is granted the id of its retired record |
| `SnapshotAcceptance.OddFlagIsAccepted` | src/persistence.cpp:113-114 | a concrete accepted file with the flag byte 2, which re-encodes to a different file |
| `Frames.FrameInverse` | src/protocol.cpp:43-76 | a buffer decodes to a frame and a length exactly when it starts with that frame's encoding and the payload is within the limit |
| `Frames.FrameRoundTrip` | src/protocol.cpp:43-76 | an encoded frame decodes to itself exactly when its payload is within the limit |
| `FileLayout.FrameFields` | src/protocol.cpp:43-52 | a frame is the magic number, version 1, the message byte, the counted payload, and the checksum of what follows the magic number |
| `Frames.StreamInverse` | src/protocol.cpp:54-76 | repeated decoding yields a list of frames exactly when the buffer is their concatenation |
| `Frames.FrameBurstRejected` | src/protocol.cpp:68-70 | a change confined to four consecutive bytes that leaves the length field alone is rejected |
| `Frames.LengthDamageAccepted` | src/protocol.cpp:60-70 | for every message and payload (four bytes short of the limit) there is a longer frame that decodes to them once only its length field is changed |
| `Frames.WriteFrame` | src/protocol.cpp:43-52 | the appends produce the frame's bytes with the checksum over everything after the magic number |
| `Frames.ReadFrame` | src/protocol.cpp:54-76 | the step-by-step decoder agrees with the frame grammar on every buffer |
| `Doubles.DivideClose` | src/pressure.cpp:29-30 | the modelled binary64 quotient differs from the true one by at most 2^-53 of it |
| `Pressure.UtilizationMonotone` | src/pressure.cpp:29-30 | more committed bytes never lower the rounded utilization |
| `Pressure.UtilizationClose` | src/pressure.cpp:29-30 | the utilization is within 2^-53 of the quotient of the converted counts, each conversion within 2^-53 of its count, and up to 2^53 bytes the utilization within 2^-53 of the true quotient |
| `Pressure.HalfMeaning` | src/pressure.cpp:12 | half the low watermark is exact for normal values, with the pattern of one exponent less, and otherwise off by at most half the least positive value |
| `Pressure.OneBits` | src/pressure.cpp:6 | the pattern 0x3FF0000000000000 denotes 1 |
| `Pressure.Hysteresis` | src/pressure.cpp:5-23 | over any samples from any state: the result is high exactly when some sample reached `high` and every later one stayed at or above `low`, or the run started high and never fell below `low`; it is critical exactly when the latest sample reaches `critical` |
| `Pressure.BelowHigh` | src/pressure.cpp:11-22 | over any samples from any state the result is low exactly when the latest sample is under half of `low`, and normal exactly when it is neither that nor high |
| `Pressure.ReentryNeedsSwing` | src/pressure.cpp:5-23 | leaving and re-entering the high states takes a swing of more than high minus low |
| `Observations.PressureAfterRun` | src/governed_memory.cpp:241-253 | the pressure stored after any run is the classification, one after another, of the utilizations observed since the last recovery |
| `Observations.StoredPressure` | src/governed_memory.cpp:241-253 | over any run the stored pressure is high exactly when some observation since the last recovery reached `high` and every later one stayed at or above `low`, or the run started high, had no recovery and never fell below `low`; it is critical exactly when the latest observation reached `critical`, and low exactly when it was under half of `low` |

## Left out

- Sockets, polling, process spawning, the CUDA and host backends, the command line, benchmarks and examples: input and output and foreign calls. Whether the backend exists and could allocate the arena are parameters of `Initialize`.
- The coordinator loop: thin bookkeeping around sockets.
- Mutexes: every public method holds one lock, so each method is one atomic step.
- `explain`, `dump`, `to_string` and failure messages: only the reject reasons are kept.
- File reads and writes: `encode` and `decode` work on byte sequences.
- The byte-backed enumerations are kept as their codes, because the decoder casts raw bytes before it checks their range.
- Floating point is modelled by the reals that binary64 operations round to (conversion, difference, division, halving); signed zeros are not told apart.
- `strategy_` is stored by the source but never consulted, and is not part of this model.
- Accessors without logic (`movable_bytes`, `pinned_bytes`, `external_fragmentation`, `allocations`, `summary`): they would add only easy members.
- The payload helpers for single values in `src/protocol.cpp:23-41`: their words and strings are those of the wire primitives.
- `std::sort` and `std::stable_sort` are modelled by insertion into an ordered list.
- `Persistence.WriteRecord` and `Persistence.ReadRecord` handle the fields in groups of consecutive fields, in the source's order.
- The CRC's four-byte register is a bit-vector; all other words are bounded naturals, and `|`-assembly of bytes is written as a sum of disjoint bytes.
- `GovernorInvariants.RunKeeps`: runs are bounded so that the 64-bit id counter does not wrap; the source's behaviour after 2^64 requests is not modelled.
- `HandleSafety.DeadForever`: generations are likewise assumed not to reach 2^64 within the run.
- `Bookkeeping.RunOrderly`: assumes that neither generations nor pin counts nor the id counter wrap, as do `ClassAccounting.RunClasses` and, for the region counter, `RegionIdentity.RunIds`.
- `RegionIdentity.RunIds`: covers live blocks; two pieces of a carved free region can share an id (`src/region_allocator.cpp:186-187`).
- `RegionAllocation.RegionAllocator.Allocate`: requires the id not to be live already, which the governor guarantees.
- `Compaction.PlanIsExact`: covers arenas of at most 2^63 + 1 bytes, or blocks at least as large as their alignment; beyond that the promise is false (`CompactionLimits.AlwaysAcceptedIff`), and `Compaction.PlanOutcome` gives the exact conditions for every state.
- `Reissue.RestoreBound`: covers ids and generations that sum to at most 2^64 - 3, so that the run that brings the handle up fits the id counter.
- `Reissue.SafeToRestoreIff`: assumes a capacity above 0 and listed ids of at most 2^64 - 4, for the same reason.
- `SnapshotAcceptance.ReachableSnapshotSurvives`: assumes valid watermarks, known codes and strings of at most 2^20 bytes in requests, relocations no smaller than the request, and at most 2^20 records in each list.
