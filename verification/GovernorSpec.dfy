/** The governor as a state machine: each public operation as a function from
    state to state and result. */
module GovernorSpec {
  import opened Machine
  import opened Types
  import opened Records
  import opened Pressure
  import ArenaSpec

  datatype GovernorState = GovernorState(
    domain: MemoryDomain,
    arena: ArenaSpec.ArenaState,
    records: map<u64, AllocationRecord>,
    retired: map<u64, AllocationRecord>,
    initialized: bool,
    nextAllocId: u64,
    historyCount: u64)

  datatype AllocationHandle = AllocationHandle(id: u64, generation: u64, offset: u64, size: u64, alignment: u64)

  function Fresh(domain: MemoryDomain): GovernorState {
    GovernorState(domain, ArenaSpec.ArenaState(domain.managedCapacity, map[], 1), map[], map[], false, 1, 0)
  }

  function Initialize(s: GovernorState, hasBackend: bool, arenaAllocated: bool): (GovernorState, Result<()>) {
    if s.initialized then (s, Ok(()))
    else if !hasBackend then (s, Err(INTERNAL_ERROR))
    else if s.domain.managedCapacity == 0 then (s, Err(INVALID_REQUEST))
    else if !arenaAllocated then (s, Err(PHYSICAL_OOM))
    else (s.(initialized := true, domain := s.domain.(health := HEALTHY)), Ok(()))
  }

  // --------------------------------------------------------------- request

  function ArenaRequest(req: AllocationRequest, id: u64): AllocRequest {
    AllocRequest(req.bytes, req.alignment, if req.requiresPin then PINNED else req.movability,
                 req.origin.memClass, req.reclaimability, id, 1, req.origin.workerBoot, req.origin.provenance)
  }

  function NewRecord(req: AllocationRequest, r: Region): AllocationRecord {
    AllocationRecord(
      r.allocId, 1, req.bytes, r.size, r.offset, req.alignment, r.tag.regionId, r.tag.regionGeneration,
      req.reclaimability, if req.requiresPin then PINNED else req.movability, if req.requiresPin then 1 else 0,
      RESIDENT, if req.requiresPin then LIFECYCLE_PINNED else LIFECYCLE_RESIDENT, 0, req.origin,
      req.origin.backingRef != [])
  }

  function Charge(d: MemoryDomain, size: u64, movability: u8): MemoryDomain {
    d.(currentCommitted := Add64(d.currentCommitted, size), currentResident := Add64(d.currentResident, size),
       currentMovable := if movability == MOVABLE then Add64(d.currentMovable, size) else d.currentMovable,
       currentPinned := if movability == PINNED then Add64(d.currentPinned, size) else d.currentPinned)
  }

  /** A valid request consumes an id, granted or not. */
  ghost function Grant(s: GovernorState, req: AllocationRequest): (GovernorState, Result<AllocationHandle>) {
    var id := s.nextAllocId;
    var s1 := s.(nextAllocId := Add64(id, 1));
    var (arena, r) := ArenaSpec.Allocate(s.arena, ArenaRequest(req, id));
    if r.Err? then (s1, Err(r.reason))
    else
      (s1.(arena := arena, records := s.records[id := NewRecord(req, r.value)],
           domain := Charge(s.domain, r.value.size, r.value.movability)),
       Ok(AllocationHandle(id, 1, r.value.offset, r.value.size, req.alignment)))
  }

  ghost function Request(s: GovernorState, req: AllocationRequest): (GovernorState, Result<AllocationHandle>) {
    var v := ValidateRequest(req, s.domain.managedCapacity);
    var regionSize := AlignUpChecked(req.bytes, req.alignment);
    if v.Err? then (s, Err(v.reason))
    else if !s.initialized then (s, Err(INTERNAL_ERROR))
    else if regionSize == 0 || regionSize < req.bytes then (s, Err(SIZE_OVERFLOW))
    else Grant(s, req)
  }

  // --------------------------------------------------------------- release

  function Released(rec: AllocationRecord): AllocationRecord {
    rec.(lifecycle := LIFECYCLE_RELEASED, residency := NONRESIDENT)
  }

  function Discharge(d: MemoryDomain, size: u64, movability: u8): MemoryDomain {
    d.(currentCommitted := SatSub(d.currentCommitted, size), currentResident := SatSub(d.currentResident, size),
       currentMovable := if movability == MOVABLE then SatSub(d.currentMovable, size) else d.currentMovable,
       currentPinned := if movability == PINNED then SatSub(d.currentPinned, size) else d.currentPinned)
  }

  /** Why a release is refused, before the arena is asked. */
  function ReleaseRefusal(s: GovernorState, id: u64, gen: u64, workerBoot: u64, sourceBoot: u64): Result<()> {
    if id !in s.records then
      if id in s.retired && s.retired[id].generation == gen then Err(DOUBLE_FREE) else Err(STALE_GENERATION)
    else
      var rec := s.records[id];
      if rec.generation != gen then Err(STALE_GENERATION)
      else if workerBoot != 0 && workerBoot != rec.origin.workerBoot then Err(STALE_AUTHORITY)
      else if sourceBoot != 0 && sourceBoot != rec.origin.sourceBoot then Err(STALE_AUTHORITY)
      else if rec.pinCount > 0 || rec.residency == ACTIVE then Err(FREE_OF_ACTIVE_OR_PINNED)
      else Ok(())
  }

  ghost function Release(s: GovernorState, id: u64, gen: u64, workerBoot: u64, sourceBoot: u64)
      : (GovernorState, Result<AllocationRecord>)
  {
    var refusal := ReleaseRefusal(s, id, gen, workerBoot, sourceBoot);
    if refusal.Err? then (s, Err(refusal.reason))
    else
      var (arena, r) := ArenaSpec.Free(s.arena, id, gen);
      if r.Err? then (s, Err(r.reason))
      else
        var rel := Released(s.records[id]);
        (s.(arena := arena, records := ArenaSpec.Without(s.records, id), retired := s.retired[id := rel],
            domain := Discharge(s.domain, rel.regionSize, rel.movability), historyCount := Add64(s.historyCount, 1)),
         Ok(rel))
  }

  // ------------------------------------------------------------ pin, unpin

  predicate CurrentRecord(s: GovernorState, id: u64, gen: u64) {
    id in s.records && s.records[id].generation == gen
  }

  /** The source first subtracts 0 from the pinned total, so a second pin adds the size again. */
  function NotePinned(d: MemoryDomain, size: u64): MemoryDomain {
    d.(currentMovable := SatSub(d.currentMovable, size), currentPinned := Add64(SatSub(d.currentPinned, 0), size))
  }

  function NoteUnpinned(d: MemoryDomain, size: u64): MemoryDomain {
    d.(currentPinned := SatSub(d.currentPinned, size), currentMovable := Add64(d.currentMovable, size))
  }

  function PinnedRecord(rec: AllocationRecord, r: Region): AllocationRecord {
    rec.(movability := PINNED, pinCount := r.pinCount, lifecycle := LIFECYCLE_PINNED)
  }

  ghost function Pin(s: GovernorState, id: u64, gen: u64): (GovernorState, Result<()>) {
    if !CurrentRecord(s, id, gen) then (s, Err(STALE_GENERATION))
    else
      var (arena, r) := ArenaSpec.PinRegion(s.arena, id, gen);
      if r.Err? then (s, Err(r.reason))
      else
        var rec := PinnedRecord(s.records[id], r.value);
        (s.(arena := arena, records := s.records[id := rec],
            domain := NotePinned(s.domain, rec.regionSize)),
         Ok(()))
  }

  function UnpinnedRecord(rec: AllocationRecord, r: Region): AllocationRecord {
    rec.(movability := r.movability, pinCount := r.pinCount,
         lifecycle := if r.pinCount == 0 then LIFECYCLE_RESIDENT else LIFECYCLE_PINNED)
  }

  ghost function Unpin(s: GovernorState, id: u64, gen: u64): (GovernorState, Result<()>) {
    if !CurrentRecord(s, id, gen) then (s, Err(STALE_GENERATION))
    else
      var (arena, r) := ArenaSpec.UnpinRegion(s.arena, id, gen);
      if r.Err? then (s, Err(r.reason))
      else
        var rec := UnpinnedRecord(s.records[id], r.value);
        (s.(arena := arena, records := s.records[id := rec],
            domain := if rec.pinCount == 0 then NoteUnpinned(s.domain, rec.regionSize) else s.domain),
         Ok(()))
  }

  function Get(s: GovernorState, id: u64, gen: u64): Result<AllocationRecord> {
    if !CurrentRecord(s, id, gen) then Err(STALE_GENERATION)
    else
      var r := ArenaSpec.GetRegion(s.arena, id, gen);
      if r.Err? then Err(r.reason) else Ok(s.records[id])
  }

  // ------------------------------------------------------------ relocation

  function Relocated(rec: AllocationRecord, r: Region): AllocationRecord {
    rec.(offset := r.offset, regionSize := r.size, regionGeneration := r.tag.regionGeneration,
         generation := r.allocGeneration,
         relocationGeneration := if rec.relocationGeneration != 0 then NextGeneration(rec.relocationGeneration) else 1,
         lifecycle := LIFECYCLE_RESIDENT)
  }

  ghost function ApplyRelocation(s: GovernorState, id: u64, gen: u64, newOffset: u64, newSize: u64)
      : (GovernorState, Result<AllocationHandle>)
  {
    if !CurrentRecord(s, id, gen) then (s, Err(STALE_GENERATION))
    else if s.records[id].pinCount > 0 then (s, Err(BLOCKED_BY_PINNED))
    else
      var (arena, r) := ArenaSpec.Relocate(s.arena, id, gen, newOffset, newSize, s.records[id].alignment);
      if r.Err? then (s, Err(r.reason))
      else
        var rec := Relocated(s.records[id], r.value);
        (s.(arena := arena, records := s.records[id := rec]),
         Ok(AllocationHandle(id, rec.generation, r.value.offset, r.value.size, rec.alignment)))
  }

  // ------------------------------------------------- pressure, persistence

  ghost function ObservePressure(s: GovernorState): GovernorState {
    var committed := |ArenaSpec.LiveBytes(s.arena)|;
    ArenaSpec.BytesSplit(s.arena);
    s.(domain := s.domain.(pressure :=
      Evaluate(s.domain.managedCapacity, committed, s.domain.watermarks, s.domain.pressure)))
  }

  /** The records of a map in ascending order of id. */
  ghost predicate Listed(m: map<u64, AllocationRecord>, v: seq<AllocationRecord>) {
    && |v| == |m|
    && (forall i | 0 <= i < |v| :: v[i].id in m && m[v[i].id] == v[i])
    && (forall i, j | 0 <= i < j < |v| :: v[i].id < v[j].id)
  }

  /** `p` is the snapshot of `s`. */
  ghost predicate IsSnapshot(s: GovernorState, p: PersistSnapshot) {
    && p.domain == s.domain && p.nextAllocId == s.nextAllocId && p.historyCount == s.historyCount
    && Listed(s.records, p.records) && Listed(s.retired, p.retired)
  }

  function Revalidated(rec: AllocationRecord): AllocationRecord {
    rec.(lifecycle := LIFECYCLE_REVALIDATION_REQUIRED, residency := RESIDENCY_REVALIDATION_REQUIRED)
  }

  /** Insert records into a map keyed by id, later entries replacing earlier ones. */
  function Collect(v: seq<AllocationRecord>): map<u64, AllocationRecord> {
    if v == [] then map[] else Collect(v[..|v| - 1])[v[|v| - 1].id := v[|v| - 1]]
  }

  function RevalidatedAll(v: seq<AllocationRecord>): seq<AllocationRecord> {
    seq(|v|, i requires 0 <= i < |v| => Revalidated(v[i]))
  }

  /** Conservative recovery: nothing recovered is current. */
  function Restore(p: PersistSnapshot): GovernorState {
    GovernorState(
      p.domain.(currentCommitted := 0, currentResident := 0, currentMovable := 0, currentPinned := 0,
                health := HEALTH_UNKNOWN, pressure := PRESSURE_REVALIDATION_REQUIRED),
      ArenaSpec.ArenaState(p.domain.managedCapacity, map[], 1),
      map[], Collect(RevalidatedAll(p.records) + p.retired), false, p.nextAllocId, p.historyCount)
  }

  /** A crash followed by recovery from the state's own snapshot. */
  function Recover(s: GovernorState): GovernorState {
    GovernorState(
      s.domain.(currentCommitted := 0, currentResident := 0, currentMovable := 0, currentPinned := 0,
                health := HEALTH_UNKNOWN, pressure := PRESSURE_REVALIDATION_REQUIRED),
      ArenaSpec.ArenaState(s.domain.managedCapacity, map[], 1),
      map[], (map id | id in s.records :: Revalidated(s.records[id])) + s.retired, false, s.nextAllocId, s.historyCount)
  }

  // ------------------------------------------------------------------ runs

  datatype Op =
    | OpInitialize(hasBackend: bool, arenaAllocated: bool)
    | OpRequest(req: AllocationRequest)
    | OpRelease(id: u64, gen: u64, workerBoot: u64, sourceBoot: u64)
    | OpPin(id: u64, gen: u64)
    | OpUnpin(id: u64, gen: u64)
    | OpRelocate(id: u64, gen: u64, newOffset: u64, newSize: u64)
    | OpObserve
    | OpRecover

  ghost function Step(s: GovernorState, op: Op): GovernorState {
    match op
    case OpInitialize(b, a) => Initialize(s, b, a).0
    case OpRequest(req) => Request(s, req).0
    case OpRelease(id, gen, wb, sb) => Release(s, id, gen, wb, sb).0
    case OpPin(id, gen) => Pin(s, id, gen).0
    case OpUnpin(id, gen) => Unpin(s, id, gen).0
    case OpRelocate(id, gen, off, size) => ApplyRelocation(s, id, gen, off, size).0
    case OpObserve => ObservePressure(s)
    case OpRecover => Recover(s)
  }

  ghost function Run(s: GovernorState, ops: seq<Op>): GovernorState
    decreases |ops|
  {
    if ops == [] then s else Run(Step(s, ops[0]), ops[1..])
  }
}
