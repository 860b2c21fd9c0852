/** Exactly which handles are safe after a restoration: ids handed out between the
    snapshot and the crash are handed out again. */
module Reissue {
  import opened Machine
  import opened Types
  import opened Records
  import opened GovernorSpec
  import opened GovernorInvariants
  import opened ArenaSpec
  import opened HandleSafety
  import opened Layouts
  import opened Reachability

  // -------------------------------------------------- one block at a time

  /** A request for `n` bytes without alignment. */
  function Simple(n: u64): AllocationRequest {
    Plain(n, 1, MOVABLE)
  }

  ghost predicate Idle(s: GovernorState) {
    Lockstep(s) && s.initialized && s.domain.managedCapacity > 0 && s.arena.live == map[]
  }

  /** `id` is the only live block, unpinned and unaligned, with this generation and size. */
  ghost predicate Sole(s: GovernorState, id: u64, gen: u64, size: u64) {
    && Lockstep(s) && s.initialized && s.arena.live.Keys == {id} && CurrentRecord(s, id, gen)
    && s.records[id].pinCount == 0 && s.records[id].alignment == 1 && s.arena.live[id].size == size
  }

  lemma EmptyHolds(a: ArenaState, n: u64)
    requires 0 < n <= a.capacity && a.live == map[]
    ensures CanAllocate(a, n, 1)
  {
    NoRounding(0);
    assert FreeRun(a, 0, a.capacity) && Fits(0, a.capacity, n, 1);
    var lo, hi := BestFitExists(a, n, 1, 0, a.capacity);
  }

  lemma AllocateSucceeds(a: ArenaState, req: AllocRequest)
    requires req.bytes > 0 && IsPow2(req.alignment) && req.bytes <= a.capacity
    requires var need := AlignUp(req.bytes, req.alignment);
             req.bytes <= need <= a.capacity && CanAllocate(a, need, req.alignment)
    ensures ArenaSpec.Allocate(a, req).1.Ok?
  {
    hide ArenaSpec.CanAllocate, AlignUp;
  }

  lemma SimpleInArena(a: ArenaState, id: u64, n: u64)
    requires Invariant(a) && 0 < n <= a.capacity && a.live == map[]
    ensures var (b, r) := ArenaSpec.Allocate(a, ArenaRequest(Simple(n), id));
            && r.Ok? && b.live == a.live[id := r.value] && r.value.size == n && r.value.alignment == 1
            && r.value == LiveRegion(ArenaRequest(Simple(n), id), r.value.offset, r.value.size, r.value.tag.regionId)
  {
    NoRounding(n);
    EmptyHolds(a, n);
    var req := ArenaRequest(Simple(n), id);
    AllocateSucceeds(a, req);
    hide ArenaSpec.Allocate, ArenaSpec.CanAllocate, AlignUp, IsPow2, Invariant, SpanFree;
    AllocateKeeps(a, req);
    GrantedRegion(a, req);
  }

  lemma SimpleIsValid(n: u64, capacity: u64)
    requires 0 < n <= capacity
    ensures ValidateRequest(Simple(n), capacity).Ok? && AlignUpChecked(Simple(n).bytes, Simple(n).alignment) == n
  {
    NoRounding(n);
  }

  /** On an idle governor a simple request is granted the next id. */
  lemma SimpleIsGranted(s: GovernorState, n: u64)
    requires Idle(s) && s.nextAllocId < MAX64 && 0 < n <= s.domain.managedCapacity
    ensures var t := Step(s, OpRequest(Simple(n)));
            && Sole(t, s.nextAllocId, 1, n) && t.nextAllocId == s.nextAllocId + 1
            && t.domain.managedCapacity == s.domain.managedCapacity
  {
    SimpleInArena(s.arena, s.nextAllocId, n);
    SimpleIsValid(n, s.domain.managedCapacity);
    RequestKeeps(s, Simple(n));
    hide Lockstep, ArenaSpec.Allocate, ValidateRequest, AlignUpChecked;
    assert s.arena.live.Keys == {};
  }

  /** A block that fills the arena leaves no free run. */
  lemma FullHasNoRun(a: ArenaState, h: u64, lo: int, hi: int)
    requires Invariant(a) && h in a.live && a.live[h].size == a.capacity
    ensures !SpanFree(a, lo, hi)
  {
    assert LiveBlock(a, h);
    assert SpanFree(a, lo, hi) ==> Apart(a.live[h], lo, hi);
  }

  lemma AllocateFails(a: ArenaState, req: AllocRequest)
    requires !CanAllocate(a, AlignUp(req.bytes, req.alignment), req.alignment)
    ensures ArenaSpec.Allocate(a, req).1.Err? && ArenaSpec.Allocate(a, req).0 == a
  {
    hide ArenaSpec.CanAllocate, AlignUp, IsPow2, FreeBytes;
  }

  /** A valid request that the arena refuses consumes an id and changes nothing else. */
  lemma RefusedConsumesId(s: GovernorState, req: AllocationRequest)
    requires s.initialized && s.nextAllocId < MAX64 && ValidateRequest(req, s.domain.managedCapacity).Ok?
    requires AlignUpChecked(req.bytes, req.alignment) >= req.bytes > 0
    requires var (b, r) := ArenaSpec.Allocate(s.arena, ArenaRequest(req, s.nextAllocId)); r.Err? && b == s.arena
    ensures Step(s, OpRequest(req)) == s.(nextAllocId := s.nextAllocId + 1)
  {
  }

  lemma FullRefuses(s: GovernorState, h: u64)
    requires Sole(s, h, 1, s.domain.managedCapacity) && s.domain.managedCapacity > 0
    ensures ValidateRequest(Simple(1), s.domain.managedCapacity).Ok?
    ensures AlignUpChecked(Simple(1).bytes, Simple(1).alignment) >= Simple(1).bytes > 0
    ensures var (b, r) := ArenaSpec.Allocate(s.arena, ArenaRequest(Simple(1), s.nextAllocId)); r.Err? && b == s.arena
  {
    SimpleIsValid(1, s.domain.managedCapacity);
    NoRounding(1);
    FullCannot(s.arena, h);
    hide Lockstep, ArenaSpec.CanAllocate, ArenaSpec.Allocate, ValidateRequest, AlignUpChecked, AlignUp, IsPow2;
    AllocateFails(s.arena, ArenaRequest(Simple(1), s.nextAllocId));
  }

  /** On a full arena a request fails but consumes an id. */
  lemma FullConsumesId(s: GovernorState, h: u64)
    requires Sole(s, h, 1, s.domain.managedCapacity) && s.domain.managedCapacity > 0 && s.nextAllocId < MAX64
    ensures Step(s, OpRequest(Simple(1))) == s.(nextAllocId := s.nextAllocId + 1)
  {
    FullRefuses(s, h);
    assert s.initialized;
    hide *;
    RefusedConsumesId(s, Simple(1));
  }

  lemma FullCannot(a: ArenaState, h: u64)
    requires Invariant(a) && h in a.live && a.live[h].size == a.capacity
    ensures !CanAllocate(a, 1, 1)
  {
    forall lo: u64, hi: int ensures !BestFit(a, 1, 1, lo, hi) {
      FullHasNoRun(a, h, lo, hi);
    }
  }

  lemma SoleIsReleased(s: GovernorState, id: u64, gen: u64, size: u64)
    requires Sole(s, id, gen, size) && s.domain.managedCapacity > 0
    ensures var t := Step(s, OpRelease(id, gen, 0, 0));
            Idle(t) && t.nextAllocId == s.nextAllocId && t.domain.managedCapacity == s.domain.managedCapacity
  {
    assert InStep(s.records[id], s.arena.live[id]);
    ReleaseKeeps(s, id, gen, 0, 0);
    hide Invariant, InStep;
    assert Without(s.arena.live, id) == map[];
  }

  /** A one-byte block can always move to another byte of an arena of two or more. */
  lemma SoleMoves(s: GovernorState, id: u64, gen: u64) returns (op: Op)
    requires Sole(s, id, gen, 1) && s.domain.managedCapacity >= 2 && gen < MAX64
    ensures var t := Step(s, op);
            && Sole(t, id, gen + 1, 1) && t.nextAllocId == s.nextAllocId
            && t.domain.managedCapacity == s.domain.managedCapacity
  {
    hide *;
    var at := FreeByte(s, id, gen);
    op := OpRelocate(id, gen, at, 1);
    StepRelocates(s, id, gen, at);
    MovedIsSole(s, id, gen, at);
  }

  lemma StepRelocates(s: GovernorState, id: u64, gen: u64, at: u64)
    ensures Step(s, OpRelocate(id, gen, at, 1)) == ApplyRelocation(s, id, gen, at, 1).0
  {
    hide ApplyRelocation;
  }

  lemma MovedIsSole(s: GovernorState, id: u64, gen: u64, at: u64)
    requires Sole(s, id, gen, 1) && gen < MAX64 && SpanFree(s.arena, at, at + 1)
    ensures var t := ApplyRelocation(s, id, gen, at, 1).0;
            && Sole(t, id, gen + 1, 1) && t.nextAllocId == s.nextAllocId
            && t.domain.managedCapacity == s.domain.managedCapacity
  {
    assert InStep(s.records[id], s.arena.live[id]);
    hide Lockstep, ArenaSpec.Relocate, SpanFree, InStep, Moved;
    ByteMoves(s.arena, id, gen, at);
    RelocationKeeps(s, id, gen, at, 1);
  }

  lemma ByteMoves(a: ArenaState, id: u64, gen: u64, at: u64)
    requires ArenaSpec.Current(a, id, gen) && a.live.Keys == {id} && SpanFree(a, at, at + 1) && gen < MAX64
    ensures var (b, r) := ArenaSpec.Relocate(a, id, gen, at, 1, 1);
            && r.Ok? && b.live.Keys == {id} && b.live[id] == r.value && r.value.size == 1
            && r.value.allocGeneration == gen + 1 && b.capacity == a.capacity
  {
    NoRounding(1);
    hide SpanFree, IsPow2;
  }

  lemma FreeByte(s: GovernorState, id: u64, gen: u64) returns (at: u64)
    requires Sole(s, id, gen, 1) && s.domain.managedCapacity >= 2
    ensures SpanFree(s.arena, at, at + 1)
  {
    var a := s.arena;
    assert LiveBlock(a, id);
    at := if a.live[id].offset == 0 then 1 else 0;
    assert Apart(a.live[id], at, at + 1);
  }

  // --------------------------------------------------- reaching an old id

  lemma {:induction false} IdsAreConsumed(s: GovernorState, h: u64, n: nat) returns (t: GovernorState)
    requires Sole(s, h, 1, s.domain.managedCapacity) && s.domain.managedCapacity > 0 && s.nextAllocId + n <= MAX64
    ensures Reaches(s, t, n) && t == s.(nextAllocId := s.nextAllocId + n)
    decreases n
  {
    if n == 0 {
      t := s;
      ReachesItself(s);
    } else {
      var op := OpRequest(Simple(1));
      FullConsumesId(s, h);
      var u := Step(s, op);
      StepKeeps(s, op);
      SoleAfterConsumed(s, u, h);
      hide Sole, Step, Reaches, Lockstep;
      t := IdsAreConsumed(u, h, n - 1);
      ReachesNext(s, op);
      ReachesThrough(s, u, t, 1, n - 1);
    }
  }

  lemma SoleAfterConsumed(s: GovernorState, u: GovernorState, h: u64)
    requires Sole(s, h, 1, s.domain.managedCapacity) && u == s.(nextAllocId := u.nextAllocId) && Lockstep(u)
    ensures Sole(u, h, 1, u.domain.managedCapacity)
  {
    hide Lockstep;
  }

  lemma InitializedIsIdle(r: GovernorState)
    requires Lockstep(r) && !r.initialized && r.arena.live == map[] && r.domain.managedCapacity > 0
    ensures var i := Step(r, OpInitialize(true, true));
            Idle(i) && i.nextAllocId == r.nextAllocId && i.domain.managedCapacity == r.domain.managedCapacity
  {
    DomainOnlyKeeps(r, Step(r, OpInitialize(true, true)));
    hide Lockstep;
  }

  /** From an idle governor, `id` is the next to be granted after few operations. */
  lemma IdComesUp(s: GovernorState, id: u64) returns (t: GovernorState, n: nat)
    requires Idle(s) && s.nextAllocId <= id < MAX64
    ensures Reaches(s, t, n) && n <= id - s.nextAllocId + 1
    ensures Idle(t) && t.nextAllocId == id && t.domain.managedCapacity == s.domain.managedCapacity
  {
    if s.nextAllocId == id {
      t, n := s, 0;
      ReachesItself(s);
    } else {
      var h, size := s.nextAllocId, s.domain.managedCapacity;
      var fill, free := OpRequest(Simple(size)), OpRelease(h, 1, 0, 0);
      SimpleIsGranted(s, size);
      hide Idle, Sole, Step, Reaches;
      var u := Step(s, fill);
      var v := IdsAreConsumed(u, h, id - h - 1);
      ConsumedIsSole(u, v, h, size);
      SoleIsReleased(v, h, 1, size);
      t, n := Step(v, free), 1 + (id - h - 1) + 1;
      ReachesNext(s, fill);
      ReachesNext(v, free);
      ReachesThrough(s, u, v, 1, id - h - 1);
      ReachesThrough(s, v, t, 1 + (id - h - 1), 1);
    }
  }

  lemma ConsumedIsSole(u: GovernorState, v: GovernorState, h: u64, size: u64)
    requires Sole(u, h, 1, size) && v == u.(nextAllocId := v.nextAllocId) && u.nextAllocId <= v.nextAllocId
    ensures Sole(v, h, 1, size)
  {
    IdOnlyKeeps(u, v);
    hide Lockstep;
  }

  /** Relocating back and forth reaches any generation. */
  lemma {:induction false} GenerationsCome(s: GovernorState, id: u64, gen: u64, target: u64) returns (t: GovernorState)
    requires Sole(s, id, gen, 1) && gen <= target && (gen == target || s.domain.managedCapacity >= 2)
    ensures Reaches(s, t, target - gen) && CurrentRecord(t, id, target)
    decreases target - gen
  {
    if gen == target {
      t := s;
      ReachesItself(s);
    } else {
      var op := SoleMoves(s, id, gen);
      hide Sole, Step, Reaches;
      t := GenerationsCome(Step(s, op), id, gen + 1, target);
      ReachesNext(s, op);
      ReachesThrough(s, Step(s, op), t, 1, target - gen - 1);
    }
  }

  /** An id at or above the counter is handed out again, under any generation that
      the arena has room to reach. */
  lemma IdReissued(r: GovernorState, id: u64, gen: u64) returns (ops: seq<Op>)
    requires Lockstep(r) && !r.initialized && r.arena.live == map[] && r.domain.managedCapacity > 0
    requires r.nextAllocId <= id && gen >= 1 && (gen == 1 || r.domain.managedCapacity >= 2) && id + gen + 2 <= MAX64
    ensures r.nextAllocId + |ops| <= MAX64 && CurrentRecord(Run(r, ops), id, gen)
  {
    var start, take := OpInitialize(true, true), OpRequest(Simple(1));
    hide Step, Idle, Lockstep, Sole, Reaches;
    InitializedIsIdle(r);
    var i := Step(r, start);
    var j, n := IdComesUp(i, id);
    SimpleIsGranted(j, 1);
    var k := Step(j, take);
    var t := GenerationsCome(k, id, 1, gen);
    ReachesNext(r, start);
    ReachesNext(j, take);
    ReachesThrough(r, i, j, 1, n);
    ReachesThrough(r, j, k, 1 + n, 1);
    ReachesThrough(r, k, t, 1 + n + 1, gen - 1);
    ops := RunOf(r, t, 1 + n + 1 + (gen - 1));
  }

  // ----------------------------------------- handles that cannot come up

  /** What every record satisfies whose governor started without records. */
  ghost predicate Young(s: GovernorState) {
    && (forall id | id in s.records :: s.records[id].generation >= 1)
    && (s.domain.managedCapacity <= 1 ==> forall id | id in s.records :: s.records[id].generation == 1)
  }

  /** On an arena of one byte a relocation finds no room. */
  lemma NoRoomToMove(s: GovernorState, id: u64, gen: u64, offset: u64, size: u64)
    requires Lockstep(s) && s.domain.managedCapacity <= 1
    ensures ApplyRelocation(s, id, gen, offset, size).0 == s
  {
    if CurrentRecord(s, id, gen) {
      OneByteIsFull(s.arena, id, gen, offset, size, s.records[id].alignment);
    }
    hide Lockstep, ArenaSpec.Relocate;
  }

  lemma OneByteIsFull(a: ArenaState, id: u64, gen: u64, offset: u64, size: u64, align: u64)
    requires Invariant(a) && a.capacity <= 1
    ensures ArenaSpec.Relocate(a, id, gen, offset, size, align).1.Err?
  {
    if id in a.live {
      assert LiveBlock(a, id);
      assert SpanFree(a, offset, offset + size) ==> Apart(a.live[id], offset, offset + size);
    }
    hide Invariant;
  }

  lemma OnlyRelocationAdvances(s: GovernorState, op: Op, id: u64)
    requires !op.OpRelocate? && id in s.records && id in Step(s, op).records && Lockstep(s)
    requires op.OpRequest? ==> id != s.nextAllocId
    ensures Step(s, op).records[id].generation == s.records[id].generation
  {
    hide ArenaSpec.Allocate, ArenaSpec.Free, ArenaSpec.PinRegion, ArenaSpec.UnpinRegion, Lockstep, ValidateRequest;
  }

  lemma YoungStep(s: GovernorState, op: Op)
    requires Lockstep(s) && Headroom(s, 1) && Young(s)
    ensures Young(Step(s, op))
  {
    var t := Step(s, op);
    if s.domain.managedCapacity <= 1 && op.OpRelocate? {
      NoRoomToMove(s, op.id, op.gen, op.newOffset, op.newSize);
    } else {
      StepKeepsCapacity(s, op);
      forall id | id in t.records ensures YoungRecord(s.domain.managedCapacity, t.records[id].generation) {
        YoungAfter(s, op, id);
      }
    }
  }

  predicate YoungRecord(capacity: u64, generation: u64) {
    generation >= 1 && (capacity <= 1 ==> generation == 1)
  }

  lemma YoungAfter(s: GovernorState, op: Op, id: u64)
    requires Lockstep(s) && Headroom(s, 1) && Young(s) && id in Step(s, op).records
    requires s.domain.managedCapacity > 1 || !op.OpRelocate?
    ensures YoungRecord(s.domain.managedCapacity, Step(s, op).records[id].generation)
  {
    GenerationStep(s, op, id);
    if id in s.records && !op.OpRelocate? {
      assert id != s.nextAllocId;
      OnlyRelocationAdvances(s, op, id);
    }
    hide Step, Lockstep, Headroom;
  }

  lemma {:induction false} YoungRun(s: GovernorState, ops: seq<Op>)
    requires Lockstep(s) && Headroom(s, |ops|) && Young(s)
    ensures Lockstep(Run(s, ops)) && Young(Run(s, ops))
    ensures Run(s, ops).domain.managedCapacity == s.domain.managedCapacity
    decreases |ops|
  {
    if ops != [] {
      HeadroomLess(s, |ops|);
      StepKeeps(s, ops[0]);
      StepKeepsHeadroom(s, ops[0], |ops| - 1);
      YoungStep(s, ops[0]);
      StepKeepsCapacity(s, ops[0]);
      hide Step, Lockstep, Headroom, Young;
      YoungRun(Step(s, ops[0]), ops[1..]);
    }
  }

  lemma HeadroomLess(s: GovernorState, n: nat)
    requires n >= 1 && Headroom(s, n)
    ensures Headroom(s, 1)
  {
  }

  /** A governor without records never has a record of generation 0, of a second
      generation on one byte, or of any kind on no bytes. */
  lemma CannotComeUp(r: GovernorState, ops: seq<Op>, id: u64, gen: u64)
    requires Lockstep(r) && r.records == map[] && r.nextAllocId + |ops| <= MAX64
    requires CurrentRecord(Run(r, ops), id, gen)
    ensures r.domain.managedCapacity > 0 && gen >= 1 && (gen == 1 || r.domain.managedCapacity >= 2)
  {
    YoungRun(r, ops);
    var t := Run(r, ops);
    assert InStep(t.records[id], t.arena.live[id]) && LiveBlock(t.arena, id);
    hide Run;
  }

  /** A handle that some governor could issue: with a generation, on an arena that has
      room for it. */
  predicate Issuable(gen: u64, capacity: u64) {
    capacity > 0 && gen >= 1 && (gen == 1 || capacity >= 2)
  }

  /** Which handles are safe after a restoration is decided by the snapshot's id
      counter: a handle that could be issued at all stays unaccepted over every run
      exactly when its id is below that counter. */
  lemma RestoreBound(s: GovernorState, p: PersistSnapshot, id: u64, gen: u64)
    requires Lockstep(s) && IsSnapshot(s, p) && id + gen + 2 <= MAX64
    ensures (forall ops | p.nextAllocId + |ops| <= MAX64 :: !CurrentRecord(Run(Restore(p), ops), id, gen)) <==>
            id < p.nextAllocId || !Issuable(gen, p.domain.managedCapacity)
  {
    var r := Restore(p);
    RestoreIsRecover(s, p);
    RecoverKeeps(s);
    hide Run, Lockstep, Restore, Recover, IsSnapshot;
    if id < p.nextAllocId {
      forall ops | p.nextAllocId + |ops| <= MAX64 ensures !CurrentRecord(Run(r, ops), id, gen) {
        RestoredHandlesStayDead(s, p, ops, id, gen);
      }
    } else if !Issuable(gen, p.domain.managedCapacity) {
      forall ops | p.nextAllocId + |ops| <= MAX64 ensures !CurrentRecord(Run(r, ops), id, gen) {
        if CurrentRecord(Run(r, ops), id, gen) {
          CannotComeUp(r, ops, id, gen);
        }
      }
    } else {
      var ops := IdReissued(r, id, gen);
      assert CurrentRecord(Run(r, ops), id, gen);
    }
  }

  // ---------------------------------------- snapshots that no governor made

  /** The governor without its retired records, which no later grant depends on. */
  function Forgetful(s: GovernorState): GovernorState {
    s.(retired := map[])
  }

  lemma StepForgets(s: GovernorState, op: Op)
    ensures Forgetful(Step(s, op)) == Forgetful(Step(Forgetful(s), op))
  {
    hide ArenaSpec.Allocate, ArenaSpec.Relocate, ArenaSpec.Free, ArenaSpec.PinRegion, ArenaSpec.UnpinRegion,
         ArenaSpec.LiveBytes, Request, Release;
    match op
    case OpRequest(req) => RequestForgets(s, req);
    case OpRelease(id, gen, wb, sb) => ReleaseForgets(s, id, gen, wb, sb);
    case _ =>
  }

  lemma RequestForgets(s: GovernorState, req: AllocationRequest)
    ensures Forgetful(Request(s, req).0) == Forgetful(Request(Forgetful(s), req).0)
  {
    hide ArenaSpec.Allocate, ValidateRequest;
  }

  lemma ReleaseForgets(s: GovernorState, id: u64, gen: u64, wb: u64, sb: u64)
    ensures Forgetful(Release(s, id, gen, wb, sb).0) == Forgetful(Release(Forgetful(s), id, gen, wb, sb).0)
  {
    hide ArenaSpec.Free;
  }

  /** Retired records never matter to what a run makes current. */
  lemma {:induction false} RunForgets(s: GovernorState, ops: seq<Op>)
    ensures Forgetful(Run(s, ops)) == Forgetful(Run(Forgetful(s), ops))
    decreases |ops|
  {
    if ops != [] {
      hide Step, Forgetful;
      StepForgets(s, ops[0]);
      RunForgets(Step(s, ops[0]), ops[1..]);
      RunForgets(Step(Forgetful(s), ops[0]), ops[1..]);
    }
  }

  lemma CurrentForgets(s: GovernorState, ops: seq<Op>, id: u64, gen: u64)
    ensures CurrentRecord(Run(s, ops), id, gen) <==> CurrentRecord(Run(Forgetful(s), ops), id, gen)
  {
    RunForgets(s, ops);
    hide Run;
    assert Run(s, ops).records == Forgetful(Run(s, ops)).records;
    assert Run(Forgetful(s), ops).records == Forgetful(Run(Forgetful(s), ops)).records;
  }

  lemma FreshStart(p: PersistSnapshot)
    ensures var r := Forgetful(Restore(p));
            && Lockstep(r) && !r.initialized && r.arena.live == map[] && r.nextAllocId == p.nextAllocId
            && r.domain.managedCapacity == p.domain.managedCapacity
  {
    hide Collect, RevalidatedAll;
  }

  /** After restoring any snapshot at all, the first grant takes the id of its counter. */
  lemma FirstGrant(p: PersistSnapshot)
    requires p.domain.managedCapacity > 0 && p.nextAllocId < MAX64
    ensures CurrentRecord(Run(Restore(p), [OpInitialize(true, true), OpRequest(Simple(1))]), p.nextAllocId, 1)
  {
    var start, take := OpInitialize(true, true), OpRequest(Simple(1));
    var r := Forgetful(Restore(p));
    FreshStart(p);
    hide Forgetful, Restore, Lockstep, Step, Idle;
    InitializedIsIdle(r);
    SimpleIsGranted(Step(r, start), 1);
    TwoSteps(r, start, take);
    CurrentForgets(Restore(p), [start, take], p.nextAllocId, 1);
  }

  lemma TwoSteps(s: GovernorState, x: Op, y: Op)
    ensures Run(s, [x, y]) == Step(Step(s, x), y)
  {
    hide Step;
    assert [x, y][1..] == [y] && [y][1..] == [];
    assert Run(Step(s, x), [y]) == Run(Step(Step(s, x), y), []);
  }

  ghost predicate InSnapshot(p: PersistSnapshot, id: u64) {
    exists i :: (0 <= i < |p.records| && p.records[i].id == id) || (0 <= i < |p.retired| && p.retired[i].id == id)
  }

  lemma IdsIssuedMeaning(p: PersistSnapshot)
    ensures IdsIssued(p) <==> forall id: u64 | InSnapshot(p, id) :: id < p.nextAllocId
  {
    if forall id: u64 | InSnapshot(p, id) :: id < p.nextAllocId {
      forall i | 0 <= i < |p.records| ensures p.records[i].id < p.nextAllocId {
        assert InSnapshot(p, p.records[i].id);
      }
      forall i | 0 <= i < |p.retired| ensures p.retired[i].id < p.nextAllocId {
        assert InSnapshot(p, p.retired[i].id);
      }
    }
  }

  /** Over every run after the restoration, no id of the snapshot becomes current. */
  ghost predicate NoneRevives(p: PersistSnapshot) {
    forall id: u64, gen: u64, ops: seq<Op> {:trigger CurrentRecord(Run(Restore(p), ops), id, gen)} |
      InSnapshot(p, id) && p.nextAllocId + |ops| <= MAX64 :: !CurrentRecord(Run(Restore(p), ops), id, gen)
  }

  /** Exactly the snapshots whose counter is above their ids are safe to restore,
      whoever wrote them. */
  lemma SafeToRestoreIff(p: PersistSnapshot)
    requires p.domain.managedCapacity > 0 && forall id: u64 | InSnapshot(p, id) :: id + 3 <= MAX64
    ensures NoneRevives(p) <==> IdsIssued(p)
  {
    hide Run, Restore, Lockstep, InSnapshot, IdsIssued, Dead, Headroom;
    IdsIssuedMeaning(p);
    if IdsIssued(p) {
      forall id: u64, gen: u64, ops: seq<Op> | InSnapshot(p, id) && p.nextAllocId + |ops| <= MAX64
        ensures !CurrentRecord(Run(Restore(p), ops), id, gen)
      {
        IssuedStaysDead(p, ops, id, gen);
      }
    } else {
      var id: u64 :| InSnapshot(p, id) && id >= p.nextAllocId;
      var r := Forgetful(Restore(p));
      FreshStart(p);
      var ops := IdReissued(r, id, 1);
      CurrentForgets(Restore(p), ops, id, 1);
    }
  }

  lemma IssuedStaysDead(p: PersistSnapshot, ops: seq<Op>, id: u64, gen: u64)
    requires IdsIssued(p) && id < p.nextAllocId && p.nextAllocId + |ops| <= MAX64
    ensures !CurrentRecord(Run(Restore(p), ops), id, gen)
  {
    RestoreIsLockstep(p);
    hide Run, Lockstep, IdsIssued, Collect, RevalidatedAll;
    DeadForever(Restore(p), ops, id, gen);
  }
}
