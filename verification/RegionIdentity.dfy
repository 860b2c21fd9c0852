/** Region ids: every live block has its own, whatever pieces of free space share one. */
module RegionIdentity {
  import opened Machine
  import opened Types
  import opened Records
  import opened GovernorSpec
  import opened GovernorInvariants
  import opened ArenaSpec

  /** No two live blocks share a region id, and the counter is above all of them. */
  ghost predicate OwnIds(a: ArenaState) {
    && a.nextRegionId >= 1
    && (forall i | i in a.live :: 1 <= a.live[i].tag.regionId < a.nextRegionId)
    && (forall i, j | i in a.live && j in a.live && i != j :: a.live[i].tag.regionId != a.live[j].tag.regionId)
  }

  /** The counter only advances, by at most three, and a new block's id is fresh. */
  lemma AllocateIds(a: ArenaState, req: AllocRequest)
    requires a.nextRegionId + 3 <= MAX64
    ensures var (b, r) := ArenaSpec.Allocate(a, req);
            && a.nextRegionId <= b.nextRegionId <= a.nextRegionId + 3
            && if r.Err? then b == a
               else b.live == a.live[req.allocId := r.value]
                    && a.nextRegionId <= r.value.tag.regionId < b.nextRegionId
  {
    hide IsPow2, AlignUp, CanAllocate, FreeBytes;
  }

  lemma PlacedIds(a: ArenaState, b: ArenaState, id: u64, r: Region)
    requires OwnIds(a) && id !in a.live && b.live == a.live[id := r]
    requires a.nextRegionId <= r.tag.regionId < b.nextRegionId
    ensures OwnIds(b)
  {
  }

  /** A block rewritten or moved keeps its region id. */
  lemma RewrittenIds(a: ArenaState, b: ArenaState, id: u64, r: Region)
    requires OwnIds(a) && id in a.live && b.live == a.live[id := r] && r.tag.regionId == a.live[id].tag.regionId
    requires a.nextRegionId <= b.nextRegionId
    ensures OwnIds(b)
  {
  }

  lemma SmallerIds(a: ArenaState, b: ArenaState)
    requires OwnIds(a) && a.nextRegionId <= b.nextRegionId
    requires forall i | i in b.live :: i in a.live && b.live[i] == a.live[i]
    ensures OwnIds(b)
  {
  }

  lemma RequestIds(s: GovernorState, req: AllocationRequest)
    requires Lockstep(s) && OwnIds(s.arena) && s.arena.nextRegionId + 3 <= MAX64
    ensures var b := Request(s, req).0.arena; OwnIds(b) && b.nextRegionId <= s.arena.nextRegionId + 3
  {
    var ar := ArenaRequest(req, s.nextAllocId);
    assert s.nextAllocId !in s.arena.live;
    AllocateIds(s.arena, ar);
    var (b, r) := ArenaSpec.Allocate(s.arena, ar);
    hide OwnIds, ArenaSpec.Allocate, ValidateRequest, Lockstep, NewRecord, Charge;
    if r.Ok? {
      PlacedIds(s.arena, b, s.nextAllocId, r.value);
    }
  }

  lemma RelocationIds(s: GovernorState, id: u64, gen: u64, off: u64, size: u64)
    requires OwnIds(s.arena) && s.arena.nextRegionId + 3 <= MAX64
    ensures var b := ApplyRelocation(s, id, gen, off, size).0.arena;
            OwnIds(b) && b.nextRegionId <= s.arena.nextRegionId + 3
  {
    hide SpanFree, OwnIds;
    var b := ApplyRelocation(s, id, gen, off, size).0.arena;
    if ApplyRelocation(s, id, gen, off, size).1.Ok? {
      RewrittenIds(s.arena, b, id, b.live[id]);
    }
  }

  lemma StepIds(s: GovernorState, op: Op)
    requires Lockstep(s) && OwnIds(s.arena) && s.arena.nextRegionId + 3 <= MAX64
    ensures OwnIds(Step(s, op).arena) && Step(s, op).arena.nextRegionId <= s.arena.nextRegionId + 3
  {
    var b := Step(s, op).arena;
    hide Lockstep, OwnIds, Request, ApplyRelocation, Discharge, NotePinned, NoteUnpinned, LiveBytes;
    match op
    case OpRequest(req) => RequestIds(s, req);
    case OpRelocate(id, gen, off, size) => RelocationIds(s, id, gen, off, size);
    case OpRelease(id, gen, wb, sb) => SmallerIds(s.arena, b);
    case OpPin(id, gen) =>
      if b != s.arena {
        RewrittenIds(s.arena, b, id, b.live[id]);
      }
    case OpUnpin(id, gen) =>
      if b != s.arena {
        RewrittenIds(s.arena, b, id, b.live[id]);
      }
    case OpRecover => EmptyIds(b);
    case _ =>
  }

  lemma EmptyIds(a: ArenaState)
    requires a.live == map[] && a.nextRegionId == 1
    ensures OwnIds(a)
  {
  }

  /** Over any run that does not exhaust the counter, every live block has a region id of its own. */
  lemma {:induction false} RunIds(s: GovernorState, ops: seq<Op>)
    requires Lockstep(s) && OwnIds(s.arena) && s.nextAllocId + |ops| <= MAX64
    requires s.arena.nextRegionId + 3 * |ops| <= MAX64
    ensures OwnIds(Run(s, ops).arena)
    decreases |ops|
  {
    if ops != [] {
      hide Step, Lockstep, OwnIds;
      StepKeeps(s, ops[0]);
      StepIds(s, ops[0]);
      RunIds(Step(s, ops[0]), ops[1..]);
    }
  }
}
