/** What every governor operation keeps: records and arena in lockstep. */
module GovernorInvariants {
  import opened Machine
  import opened Types
  import opened Records
  import opened GovernorSpec
  import opened ArenaSpec

  /** A record and the live region it describes.  A pin required by the request
      is counted by the record only. */
  ghost predicate InStep(rec: AllocationRecord, r: Region) {
    && rec.id == r.allocId && rec.generation == r.allocGeneration
    && rec.offset == r.offset && rec.regionSize == r.size && rec.alignment == r.alignment
    && rec.regionId == r.tag.regionId && rec.regionGeneration == r.tag.regionGeneration
    && rec.movability == r.movability && rec.reclaimability == r.tag.reclaimability
    && rec.residency == RESIDENT && r.tag.residency == RESIDENT
    && (rec.pinCount == r.pinCount || (rec.pinCount == 1 && r.pinCount == 0 && r.movability == PINNED))
  }

  ghost predicate Lockstep(s: GovernorState) {
    && Invariant(s.arena)
    && s.arena.capacity == s.domain.managedCapacity
    && s.records.Keys == s.arena.live.Keys
    && (forall id | id in s.records :: InStep(s.records[id], s.arena.live[id]))
    && (forall id | id in s.records :: id < s.nextAllocId && id !in s.retired && s.records[id].id == id)
    && (forall id | id in s.retired :: id < s.nextAllocId && s.retired[id].id == id)
  }

  lemma FreshIsLockstep(domain: MemoryDomain)
    ensures Lockstep(Fresh(domain))
  {
  }

  // ----------------------------------------------- the arena keeps its invariant

  lemma AllocateKeeps(a: ArenaState, req: AllocRequest)
    requires Invariant(a) && req.allocId !in a.live
    ensures Invariant(ArenaSpec.Allocate(a, req).0)
    ensures var (b, r) := ArenaSpec.Allocate(a, req);
            if r.Err? then b == a
            else b.live == a.live[req.allocId := r.value] && b.capacity == a.capacity
                 && r.value.size == AlignUp(req.bytes, req.alignment) >= req.bytes
                 && SpanFree(a, r.value.offset, r.value.offset + r.value.size)
                 && Aligned(r.value.offset, req.alignment) && r.value.alignment == req.alignment
  {
    var (b, r) := ArenaSpec.Allocate(a, req);
    if r.Ok? {
      var need := AlignUp(req.bytes, req.alignment);
      var run := BestRun(a, need, req.alignment);
      AlignUpMeaning(run.0, req.alignment);
      RunHolds(a, run.0, run.1, r.value.offset, r.value.offset + r.value.size);
      AddKeeps(a, b, req.allocId, r.value);
    }
  }

  lemma RunHolds(a: ArenaState, lo: int, hi: int, l: int, h: int)
    requires FreeRun(a, lo, hi) && lo <= l < h <= hi
    ensures SpanFree(a, l, h)
  {
    forall id | id in a.live ensures Apart(a.live[id], l, h) {
      assert Apart(a.live[id], lo, hi);
    }
  }

  lemma AddKeeps(a: ArenaState, b: ArenaState, id: u64, r: Region)
    requires Invariant(a) && id !in a.live && b.live == a.live[id := r] && b.capacity == a.capacity
    requires r.live && r.allocId == id && r.size > 0 && SpanFree(a, r.offset, r.offset + r.size)
    requires IsPow2(r.alignment) && Aligned(r.offset, r.alignment)
    ensures Invariant(b)
  {
    forall i | i in b.live ensures LiveBlock(b, i) {
      assert i != id ==> LiveBlock(a, i);
    }
    forall i, j | i in b.live && j in b.live && i != j
      ensures Apart(b.live[i], b.live[j].offset, b.live[j].offset + b.live[j].size)
    {
      if i == id {
        assert Apart(a.live[j], r.offset, r.offset + r.size);
      } else if j == id {
        assert Apart(a.live[i], r.offset, r.offset + r.size);
      }
    }
  }

  lemma FreeKeeps(a: ArenaState, id: u64, gen: u64)
    requires Invariant(a)
    ensures Invariant(ArenaSpec.Free(a, id, gen).0)
  {
    var b := ArenaSpec.Free(a, id, gen).0;
    forall i | i in b.live ensures LiveBlock(b, i) {
      assert LiveBlock(a, i);
    }
  }

  lemma RelocateKeeps(a: ArenaState, id: u64, gen: u64, offset: u64, size: u64, align: u64)
    requires Invariant(a)
    ensures Invariant(ArenaSpec.Relocate(a, id, gen, offset, size, align).0)
  {
    var (b, r) := ArenaSpec.Relocate(a, id, gen, offset, size, align);
    if r.Ok? {
      var c := a.(live := Without(a.live, id));
      FreeKeeps(a, id, gen);
      forall i | i in c.live ensures LiveBlock(c, i) {
        assert LiveBlock(a, i);
      }
      assert LiveBlock(a, id);
      assert b.live == c.live[id := r.value];
      forall i | i in c.live ensures Apart(c.live[i], offset, offset + size) {
        assert Apart(a.live[i], offset, offset + size);
      }
      AddKeeps(c, b, id, r.value);
    }
  }

  lemma RewriteKeepsInvariant(a: ArenaState, b: ArenaState, id: u64, r: Region)
    requires Invariant(a) && id in a.live && b == a.(live := a.live[id := r])
    requires r.offset == a.live[id].offset && r.size == a.live[id].size && r.alignment == a.live[id].alignment
    requires r.live && r.allocId == id
    ensures Invariant(b)
  {
    forall i | i in b.live ensures LiveBlock(b, i) {
      assert LiveBlock(a, i);
    }
    forall i, j | i in b.live && j in b.live && i != j
      ensures Apart(b.live[i], b.live[j].offset, b.live[j].offset + b.live[j].size)
    {
      assert Apart(a.live[i], a.live[j].offset, a.live[j].offset + a.live[j].size);
    }
  }

  // ------------------------------------------------------ each operation

  /** A new record for the next id, in step with a new live block. */
  lemma GrantKeeps(s: GovernorState, t: GovernorState, rec: AllocationRecord, r: Region)
    requires Lockstep(s) && s.nextAllocId < MAX64 && Invariant(t.arena)
    requires t.arena.live == s.arena.live[s.nextAllocId := r] && t.arena.capacity == s.arena.capacity
    requires t.records == s.records[s.nextAllocId := rec] && t.retired == s.retired
    requires t.nextAllocId == s.nextAllocId + 1 && t.domain.managedCapacity == s.domain.managedCapacity
    requires InStep(rec, r) && rec.id == s.nextAllocId
    ensures Lockstep(t)
  {
    hide Invariant, InStep;
    assert s.nextAllocId !in s.records && s.nextAllocId !in s.retired;
  }

  /** The region an allocation returns carries the request's own data. */
  lemma GrantedRegion(a: ArenaState, req: AllocRequest)
    requires ArenaSpec.Allocate(a, req).1.Ok?
    ensures var r := ArenaSpec.Allocate(a, req).1.value; r == LiveRegion(req, r.offset, r.size, r.tag.regionId)
  {
  }

  lemma NewRecordInStep(req: AllocationRequest, id: u64, r: Region)
    requires r == LiveRegion(ArenaRequest(req, id), r.offset, r.size, r.tag.regionId)
    ensures InStep(NewRecord(req, r), r) && NewRecord(req, r).id == id
  {
  }

  lemma RequestKeeps(s: GovernorState, req: AllocationRequest)
    requires Lockstep(s) && s.nextAllocId < MAX64
    ensures Lockstep(Request(s, req).0)
    ensures Request(s, req).1.Err? ==> Request(s, req).0.(nextAllocId := s.nextAllocId) == s
    ensures s.nextAllocId <= Request(s, req).0.nextAllocId <= s.nextAllocId + 1
  {
    var (t, r) := Request(s, req);
    var ar := ArenaRequest(req, s.nextAllocId);
    assert s.nextAllocId !in s.arena.live;
    AllocateKeeps(s.arena, ar);
    if r.Ok? {
      var region := ArenaSpec.Allocate(s.arena, ar).1.value;
      GrantedRegion(s.arena, ar);
      NewRecordInStep(req, s.nextAllocId, region);
      hide ArenaSpec.Allocate, Lockstep, Invariant, InStep, NewRecord, SpanFree, ValidateRequest;
      GrantKeeps(s, t, NewRecord(req, region), region);
    } else {
      IdOnlyKeeps(s, t);
    }
  }

  lemma IdOnlyKeeps(s: GovernorState, t: GovernorState)
    requires Lockstep(s) && t == s.(nextAllocId := t.nextAllocId) && s.nextAllocId <= t.nextAllocId
    ensures Lockstep(t)
  {
  }

  lemma ReleaseKeeps(s: GovernorState, id: u64, gen: u64, wb: u64, sb: u64)
    requires Lockstep(s)
    ensures Lockstep(Release(s, id, gen, wb, sb).0)
    ensures Release(s, id, gen, wb, sb).1.Err? ==> Release(s, id, gen, wb, sb).0 == s
    ensures Release(s, id, gen, wb, sb).1.Ok? <==> ReleaseRefusal(s, id, gen, wb, sb).Ok?
  {
    FreeKeeps(s.arena, id, gen);
    assert id in s.records ==> InStep(s.records[id], s.arena.live[id]);
  }

  /** A record and its block change together. */
  lemma RewrittenKeeps(s: GovernorState, t: GovernorState, id: u64, rec: AllocationRecord, r: Region)
    requires Lockstep(s) && id in s.records && Invariant(t.arena)
    requires t.arena.live == s.arena.live[id := r] && t.arena.capacity == s.arena.capacity
    requires t.records == s.records[id := rec] && t.retired == s.retired
    requires t.nextAllocId == s.nextAllocId && t.domain.managedCapacity == s.domain.managedCapacity
    requires InStep(rec, r) && rec.id == id
    ensures Lockstep(t)
  {
    hide Invariant, InStep;
  }

  /** The records that pin, unpin and relocate write stay in step with the region. */
  lemma RewrittenInStep(rec: AllocationRecord, r: Region, q: Region)
    requires InStep(rec, r)
    ensures q == r.(pinCount := q.pinCount, movability := PINNED) ==> InStep(PinnedRecord(rec, q), q)
    ensures q == r.(pinCount := q.pinCount, movability := q.movability) ==> InStep(UnpinnedRecord(rec, q), q)
    ensures q == Moved(r, q.offset, q.size, rec.alignment) && rec.pinCount == 0 ==> InStep(Relocated(rec, q), q)
  {
  }

  lemma PinKeeps(s: GovernorState, id: u64, gen: u64)
    requires Lockstep(s)
    ensures Lockstep(Pin(s, id, gen).0)
    ensures Pin(s, id, gen).1.Err? ==> Pin(s, id, gen).0 == s
    ensures Pin(s, id, gen).1.Ok? <==> CurrentRecord(s, id, gen)
  {
    if CurrentRecord(s, id, gen) {
      assert InStep(s.records[id], s.arena.live[id]) && LiveBlock(s.arena, id);
      var (b, r) := ArenaSpec.PinRegion(s.arena, id, gen);
      RewriteKeepsInvariant(s.arena, b, id, r.value);
      RewrittenInStep(s.records[id], s.arena.live[id], r.value);
      hide Lockstep, Invariant, InStep;
      RewrittenKeeps(s, Pin(s, id, gen).0, id, PinnedRecord(s.records[id], r.value), r.value);
    }
  }

  lemma UnpinKeeps(s: GovernorState, id: u64, gen: u64)
    requires Lockstep(s)
    ensures Lockstep(Unpin(s, id, gen).0)
    ensures Unpin(s, id, gen).1.Err? ==> Unpin(s, id, gen).0 == s
  {
    if CurrentRecord(s, id, gen) {
      assert InStep(s.records[id], s.arena.live[id]) && LiveBlock(s.arena, id);
      var (b, r) := ArenaSpec.UnpinRegion(s.arena, id, gen);
      if r.Ok? {
        RewriteKeepsInvariant(s.arena, b, id, r.value);
        RewrittenInStep(s.records[id], s.arena.live[id], r.value);
        hide Lockstep, Invariant, InStep;
        RewrittenKeeps(s, Unpin(s, id, gen).0, id, UnpinnedRecord(s.records[id], r.value), r.value);
      }
    }
  }

  lemma RelocationKeeps(s: GovernorState, id: u64, gen: u64, offset: u64, size: u64)
    requires Lockstep(s)
    ensures Lockstep(ApplyRelocation(s, id, gen, offset, size).0)
    ensures ApplyRelocation(s, id, gen, offset, size).1.Err? ==> ApplyRelocation(s, id, gen, offset, size).0 == s
  {
    if CurrentRecord(s, id, gen) {
      assert InStep(s.records[id], s.arena.live[id]) && LiveBlock(s.arena, id);
      var rec := s.records[id];
      RelocateKeeps(s.arena, id, gen, offset, size, rec.alignment);
      var r := ArenaSpec.Relocate(s.arena, id, gen, offset, size, rec.alignment).1;
      if ApplyRelocation(s, id, gen, offset, size).1.Ok? {
        RewrittenInStep(rec, s.arena.live[id], r.value);
        hide Lockstep, Invariant, InStep, SpanFree;
        RewrittenKeeps(s, ApplyRelocation(s, id, gen, offset, size).0, id, Relocated(rec, r.value), r.value);
      }
    }
  }

  lemma RecoverKeeps(s: GovernorState)
    requires Lockstep(s)
    ensures Lockstep(Recover(s)) && Recover(s).records == map[] && Recover(s).nextAllocId == s.nextAllocId
  {
  }

  lemma DomainOnlyKeeps(s: GovernorState, t: GovernorState)
    requires Lockstep(s) && t.arena == s.arena && t.records == s.records && t.retired == s.retired
    requires t.nextAllocId == s.nextAllocId && t.domain.managedCapacity == s.domain.managedCapacity
    ensures Lockstep(t)
  {
  }

  lemma StepKeepsCapacity(s: GovernorState, op: Op)
    ensures Step(s, op).domain.managedCapacity == s.domain.managedCapacity
  {
    hide ArenaSpec.Allocate, ArenaSpec.Relocate, ArenaSpec.Free, ArenaSpec.PinRegion, ArenaSpec.UnpinRegion;
  }

  /** Every operation keeps records and arena in lockstep. */
  lemma StepKeeps(s: GovernorState, op: Op)
    requires Lockstep(s) && s.nextAllocId < MAX64
    ensures Lockstep(Step(s, op))
    ensures s.nextAllocId <= Step(s, op).nextAllocId <= s.nextAllocId + 1
  {
    hide Lockstep, ArenaSpec.Allocate, ArenaSpec.Relocate, ArenaSpec.Free, ArenaSpec.PinRegion, ArenaSpec.UnpinRegion;
    match op
    case OpInitialize(b, a) => DomainOnlyKeeps(s, Step(s, op));
    case OpRequest(req) => RequestKeeps(s, req);
    case OpRelease(id, gen, wb, sb) => ReleaseKeeps(s, id, gen, wb, sb);
    case OpPin(id, gen) => PinKeeps(s, id, gen);
    case OpUnpin(id, gen) => UnpinKeeps(s, id, gen);
    case OpRelocate(id, gen, off, size) => RelocationKeeps(s, id, gen, off, size);
    case OpObserve => DomainOnlyKeeps(s, Step(s, op));
    case OpRecover => RecoverKeeps(s);
  }

  /** Over any run that does not exhaust the id counter. */
  lemma {:induction false} RunKeeps(s: GovernorState, ops: seq<Op>)
    requires Lockstep(s) && s.nextAllocId + |ops| <= MAX64
    ensures Lockstep(Run(s, ops))
    ensures s.nextAllocId <= Run(s, ops).nextAllocId <= s.nextAllocId + |ops|
    decreases |ops|
  {
    if ops != [] {
      StepKeeps(s, ops[0]);
      RunKeeps(Step(s, ops[0]), ops[1..]);
    }
  }
}
