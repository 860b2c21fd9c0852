/** Compaction plans made in any state that a run can reach. */
module CompactionRuns {
  import opened Machine
  import opened GovernorSpec
  import opened GovernorInvariants
  import opened ArenaSpec
  import opened Compaction
  import Records

  /** A relocation, if any, leaves the block at least as large as its alignment. */
  ghost predicate KeepsCover(s: GovernorState, op: Op) {
    op.OpRelocate? && op.id in s.records ==> op.newSize >= s.records[op.id].alignment
  }

  ghost predicate RunKeepsCover(s: GovernorState, ops: seq<Op>)
    decreases |ops|
  {
    ops == [] || (KeepsCover(s, ops[0]) && RunKeepsCover(Step(s, ops[0]), ops[1..]))
  }

  lemma RequestCovers(s: GovernorState, op: Op)
    requires Lockstep(s) && SizesCoverAlignment(s.arena) && op.OpRequest? && s.nextAllocId < MAX64
    ensures SizesCoverAlignment(Step(s, op).arena)
  {
    var ar := ArenaRequest(op.req, s.nextAllocId);
    var (t, r) := Request(s, op.req);
    assert s.nextAllocId !in s.arena.live;
    if r.Ok? {
      AllocateKeeps(s.arena, ar);
      var region := ArenaSpec.Allocate(s.arena, ar).1.value;
      assert IsPow2(ar.alignment);
      hide Lockstep, Invariant, ArenaSpec.Allocate, IsPow2, AlignUp, SpanFree;
      RoundedCovers(ar.bytes, ar.alignment, region.size);
    }
  }

  lemma RoundedCovers(n: u64, align: u64, size: u64)
    requires IsPow2(align) && 0 < n <= size && size == AlignUp(n, align)
    ensures size >= align
  {
    hide IsPow2, AlignUp;
    AlignUpMeaning(n, align);
    if size < align {
      MultiplesGap(0, size, align);
    }
  }

  lemma RelocationCovers(s: GovernorState, id: u64, gen: u64, offset: u64, size: u64)
    requires Lockstep(s) && SizesCoverAlignment(s.arena) && (id in s.records ==> size >= s.records[id].alignment)
    ensures SizesCoverAlignment(ApplyRelocation(s, id, gen, offset, size).0.arena)
  {
    if CurrentRecord(s, id, gen) {
      assert InStep(s.records[id], s.arena.live[id]);
    }
    hide Invariant;
  }

  lemma StepCovers(s: GovernorState, op: Op)
    requires Lockstep(s) && SizesCoverAlignment(s.arena) && s.nextAllocId < MAX64 && KeepsCover(s, op)
    ensures SizesCoverAlignment(Step(s, op).arena)
  {
    hide Lockstep, ArenaSpec.Allocate, ArenaSpec.Relocate;
    match op
    case OpRequest(req) => RequestCovers(s, op);
    case OpRelocate(id, gen, offset, size) => RelocationCovers(s, id, gen, offset, size);
    case OpInitialize(b, a) =>
    case OpRelease(id, gen, wb, sb) =>
    case OpPin(id, gen) => RepinCovers(s.arena, id, gen);
    case OpUnpin(id, gen) => RepinCovers(s.arena, id, gen);
    case OpObserve =>
    case OpRecover =>
  }

  lemma RepinCovers(a: ArenaState, id: u64, gen: u64)
    requires SizesCoverAlignment(a)
    ensures SizesCoverAlignment(PinRegion(a, id, gen).0) && SizesCoverAlignment(UnpinRegion(a, id, gen).0)
  {
  }

  /** Over any run whose relocations keep sizes at or above the alignment, every block
      is at least as large as its alignment. */
  lemma {:induction false} RunCovers(s: GovernorState, ops: seq<Op>)
    requires Lockstep(s) && SizesCoverAlignment(s.arena) && s.nextAllocId + |ops| <= MAX64 && RunKeepsCover(s, ops)
    ensures SizesCoverAlignment(Run(s, ops).arena)
    decreases |ops|
  {
    if ops != [] {
      StepKeeps(s, ops[0]);
      StepCovers(s, ops[0]);
      RunCovers(Step(s, ops[0]), ops[1..]);
    }
  }

  lemma {:induction false} RunKeepsCapacity(s: GovernorState, ops: seq<Op>)
    ensures Run(s, ops).domain.managedCapacity == s.domain.managedCapacity
    decreases |ops|
  {
    if ops != [] {
      hide Step;
      StepKeepsCapacity(s, ops[0]);
      RunKeepsCapacity(Step(s, ops[0]), ops[1..]);
    }
  }

  /** The planner's rounding cannot overflow in any state of a run on an arena of at
      most 2^63 + 1 bytes, whatever its relocations do to sizes; on larger arenas, if the
      relocations leave blocks at least as large as their alignment. */
  ghost predicate CannotOverflow(domain: Records.MemoryDomain, ops: seq<Op>) {
    domain.managedCapacity <= HALF_WORD + 1 || RunKeepsCover(Fresh(domain), ops)
  }

  lemma ReachableFits(domain: Records.MemoryDomain, ops: seq<Op>)
    requires 1 + |ops| <= MAX64 && CannotOverflow(domain, ops)
    ensures Lockstep(Run(Fresh(domain), ops)) && RoundingFits(Run(Fresh(domain), ops).arena)
  {
    var s := Fresh(domain);
    FreshIsLockstep(domain);
    RunKeeps(s, ops);
    RunKeepsCapacity(s, ops);
    if RunKeepsCover(s, ops) {
      RunCovers(s, ops);
    }
  }

  /** A plan made in any reachable state is accepted there and predicts exactly. */
  lemma ReachablePlanIsExact(domain: Records.MemoryDomain, ops: seq<Op>, plan: CompactionPlan, n: int)
    requires 1 + |ops| <= MAX64 && CannotOverflow(domain, ops)
    requires IsPlan(Run(Fresh(domain), ops).arena, plan) && plan.steps != []
    requires IsLargestFree(AfterPlan(Run(Fresh(domain), ops), plan), n)
    ensures PlanAccepted(Run(Fresh(domain), ops), plan) && n <= plan.largestFreeAfter
    ensures plan.largestFreeAfter > plan.largestFreeBefore ==> n == plan.largestFreeAfter
    ensures NoneDoesBetter(Run(Fresh(domain), ops), plan)
  {
    ReachableFits(domain, ops);
    hide *;
    PlanIsExact(Run(Fresh(domain), ops), plan, n);
  }

  /** From any reachable state, planning and applying gainful steps stops. */
  lemma ReachableRoundsTerminate(domain: Records.MemoryDomain, ops: seq<Op>, states: seq<GovernorState>, n: int)
    requires 1 + |ops| <= MAX64 && CannotOverflow(domain, ops)
    requires states != [] && states[0] == Run(Fresh(domain), ops) && GainfulRounds(states)
    requires IsLargestFree(states[0].arena, n)
    ensures |states| - 1 <= domain.managedCapacity - n
  {
    ReachableFits(domain, ops);
    RunKeepsCapacity(Fresh(domain), ops);
    assert states[0].arena.capacity == domain.managedCapacity;
    hide *;
    GainfulRoundsTerminate(states, n);
  }
}
