/** The committed counter against the arena, and the size facts that
    size-preserving relocations keep. */
module Accounting {
  import opened Machine
  import opened Types
  import opened Records
  import opened GovernorSpec
  import opened GovernorInvariants
  import opened ArenaSpec

  ghost predicate CommittedMatches(s: GovernorState) {
    s.domain.currentCommitted == |LiveBytes(s.arena)|
  }

  lemma LiveBytesBounded(a: ArenaState)
    ensures |LiveBytes(a)| <= a.capacity
  {
    BytesSplit(a);
  }

  lemma RequestCommits(s: GovernorState, req: AllocationRequest)
    requires Lockstep(s) && s.nextAllocId < MAX64 && CommittedMatches(s)
    ensures CommittedMatches(Request(s, req).0)
  {
    var (t, r) := Request(s, req);
    if r.Ok? {
      var ar := ArenaRequest(req, s.nextAllocId);
      AllocateKeeps(s.arena, ar);
      var region := ArenaSpec.Allocate(s.arena, ar).1.value;
      assert region.size > 0 by { assert LiveBlock(t.arena, s.nextAllocId); }
      LiveBytesAdd(s.arena, t.arena, s.nextAllocId, region);
      LiveBytesBounded(t.arena);
    }
  }

  /** Removing a block gives back exactly its bytes. */
  lemma WithoutBytes(a: ArenaState, b: ArenaState, id: u64)
    requires Invariant(a) && id in a.live && b.live == Without(a.live, id) && b.capacity == a.capacity
    ensures |LiveBytes(a)| == |LiveBytes(b)| + a.live[id].size
  {
    assert LiveBlock(a, id);
    assert a.live == b.live[id := a.live[id]];
    LiveBytesAdd(b, a, id, a.live[id]);
  }

  /** The saturating subtraction of a release never saturates. */
  lemma ReleaseUncommits(s: GovernorState, id: u64, gen: u64, wb: u64, sb: u64)
    requires Lockstep(s) && CommittedMatches(s)
    ensures CommittedMatches(Release(s, id, gen, wb, sb).0)
    ensures Release(s, id, gen, wb, sb).1.Ok? ==> s.records[id].regionSize <= s.domain.currentCommitted
  {
    var (t, r) := Release(s, id, gen, wb, sb);
    if r.Ok? {
      assert InStep(s.records[id], s.arena.live[id]);
      WithoutBytes(s.arena, t.arena, id);
    }
  }

  lemma SameIntervalsSameBytes(a: ArenaState, b: ArenaState)
    requires a.capacity == b.capacity && a.live.Keys == b.live.Keys
    requires forall id | id in a.live :: a.live[id].offset == b.live[id].offset && a.live[id].size == b.live[id].size
    ensures LiveBytes(a) == LiveBytes(b)
  {
    forall j ensures ByteFree(a, j) <==> ByteFree(b, j) {
      assert forall id | id in a.live :: Apart(a.live[id], j, j + 1) == Apart(b.live[id], j, j + 1);
    }
  }

  lemma PinsKeepBytes(s: GovernorState, id: u64, gen: u64)
    ensures LiveBytes(Pin(s, id, gen).0.arena) == LiveBytes(s.arena)
    ensures LiveBytes(Unpin(s, id, gen).0.arena) == LiveBytes(s.arena)
    ensures Pin(s, id, gen).0.domain.currentCommitted == s.domain.currentCommitted
    ensures Unpin(s, id, gen).0.domain.currentCommitted == s.domain.currentCommitted
  {
    SameIntervalsSameBytes(s.arena, Pin(s, id, gen).0.arena);
    SameIntervalsSameBytes(s.arena, Unpin(s, id, gen).0.arena);
  }

  /** A relocation moves the live total by exactly the size difference, and leaves
      the committed counter alone: the two still agree exactly when the size is kept. */
  lemma RelocationCommitted(s: GovernorState, id: u64, gen: u64, offset: u64, size: u64)
    requires Lockstep(s) && CommittedMatches(s) && ApplyRelocation(s, id, gen, offset, size).1.Ok?
    ensures var t := ApplyRelocation(s, id, gen, offset, size).0;
            && |LiveBytes(t.arena)| == |LiveBytes(s.arena)| - s.records[id].regionSize + size
            && (CommittedMatches(t) <==> size == s.records[id].regionSize)
  {
    assert InStep(s.records[id], s.arena.live[id]);
    var t := ApplyRelocation(s, id, gen, offset, size).0;
    MovedBytes(s.arena, t.arena, id, t.arena.live[id]);
  }

  lemma WithoutSpanFree(a: ArenaState, c: ArenaState, id: u64, r: Region)
    requires c == a.(live := Without(a.live, id)) && SpanFree(a, r.offset, r.offset + r.size)
    ensures SpanFree(c, r.offset, r.offset + r.size)
  {
    forall i | i in c.live ensures Apart(c.live[i], r.offset, r.offset + r.size) {
      assert Apart(a.live[i], r.offset, r.offset + r.size);
    }
  }

  lemma MovedBytes(a: ArenaState, b: ArenaState, id: u64, r: Region)
    requires Invariant(a) && id in a.live && b.live == a.live[id := r] && b.capacity == a.capacity
    requires r.size > 0 && SpanFree(a, r.offset, r.offset + r.size)
    ensures |LiveBytes(b)| == |LiveBytes(a)| - a.live[id].size + r.size
  {
    var c := a.(live := Without(a.live, id));
    assert b.live == c.live[id := r];
    WithoutSpanFree(a, c, id, r);
    hide *;
    WithoutBytes(a, c, id);
    LiveBytesAdd(c, b, id, r);
  }

  /** Relocations, if any, keep the size of the block. */
  ghost predicate KeepsSize(s: GovernorState, op: Op) {
    op.OpRelocate? && op.id in s.records ==> op.newSize == s.records[op.id].regionSize
  }

  lemma RecoverEmpties(s: GovernorState)
    ensures |LiveBytes(Recover(s).arena)| == 0
  {
    assert LiveBytes(Recover(s).arena) == {};
  }

  lemma StepCommitted(s: GovernorState, op: Op)
    requires Lockstep(s) && s.nextAllocId < MAX64 && CommittedMatches(s) && KeepsSize(s, op)
    ensures CommittedMatches(Step(s, op))
  {
    hide Lockstep, ArenaSpec.Allocate, ArenaSpec.Relocate, ArenaSpec.Free, LiveBytes;
    match op
    case OpInitialize(b, a) =>
    case OpRequest(req) => RequestCommits(s, req);
    case OpRelease(id, gen, wb, sb) => ReleaseUncommits(s, id, gen, wb, sb);
    case OpPin(id, gen) => PinsKeepBytes(s, id, gen);
    case OpUnpin(id, gen) => PinsKeepBytes(s, id, gen);
    case OpRelocate(id, gen, off, size) =>
      if ApplyRelocation(s, id, gen, off, size).1.Ok? {
        RelocationCommitted(s, id, gen, off, size);
      }
    case OpObserve =>
    case OpRecover => RecoverEmpties(s);
  }

  /** Every operation of a run satisfies `KeepsSize` where it is applied. */
  ghost predicate RunKeepsSizes(s: GovernorState, ops: seq<Op>)
    decreases |ops|
  {
    ops == [] || (KeepsSize(s, ops[0]) && RunKeepsSizes(Step(s, ops[0]), ops[1..]))
  }

  /** Over any run whose relocations keep sizes, `current_committed` is the number
      of live bytes of the occupancy map. */
  lemma {:induction false} RunCommitted(s: GovernorState, ops: seq<Op>)
    requires Lockstep(s) && s.nextAllocId + |ops| <= MAX64 && CommittedMatches(s) && RunKeepsSizes(s, ops)
    ensures CommittedMatches(Run(s, ops))
    decreases |ops|
  {
    if ops != [] {
      StepKeeps(s, ops[0]);
      StepCommitted(s, ops[0]);
      RunCommitted(Step(s, ops[0]), ops[1..]);
    }
  }

  /** Resident and committed bytes are always charged and discharged together. */
  lemma StepResident(s: GovernorState, op: Op)
    requires s.domain.currentResident == s.domain.currentCommitted
    ensures Step(s, op).domain.currentResident == Step(s, op).domain.currentCommitted
  {
    hide ArenaSpec.Allocate, ArenaSpec.Relocate, ArenaSpec.Free, ArenaSpec.PinRegion, ArenaSpec.UnpinRegion, LiveBytes,
         ValidateRequest, NewRecord, Relocated;
    match op
    case OpRequest(req) =>
    case OpRelease(id, gen, wb, sb) =>
    case _ =>
  }

  /** Over any run at all, resident and committed bytes stay equal. */
  lemma {:induction false} RunResident(s: GovernorState, ops: seq<Op>)
    requires s.domain.currentResident == s.domain.currentCommitted
    ensures Run(s, ops).domain.currentResident == Run(s, ops).domain.currentCommitted
    decreases |ops|
  {
    if ops != [] {
      hide Step;
      StepResident(s, ops[0]);
      RunResident(Step(s, ops[0]), ops[1..]);
    }
  }
}
