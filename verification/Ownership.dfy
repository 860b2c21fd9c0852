/** What a record keeps from its request over whole runs, and what that means for
    whoever may release it. */
module Ownership {
  import opened Machine
  import opened Types
  import opened Records
  import opened GovernorSpec
  import opened GovernorInvariants
  import opened HandleSafety
  import opened Handles
  import opened Pinning
  import opened Reachability
  import ArenaSpec

  /** `rec` is a later state of the record `old`. */
  predicate Descends(before: AllocationRecord, rec: AllocationRecord) {
    && rec.id == before.id && rec.requestedBytes == before.requestedBytes && rec.alignment == before.alignment
    && rec.regionId == before.regionId && rec.reclaimability == before.reclaimability
    && rec.residency == before.residency && rec.origin == before.origin && rec.recoverable == before.recoverable
  }

  lemma PinDescends(s: GovernorState, i: u64, gen: u64, id: u64)
    ensures id in Pin(s, i, gen).0.records ==> id in s.records && Descends(s.records[id], Pin(s, i, gen).0.records[id])
    ensures id in Unpin(s, i, gen).0.records ==>
              id in s.records && Descends(s.records[id], Unpin(s, i, gen).0.records[id])
  {
    hide ArenaSpec.PinRegion, ArenaSpec.UnpinRegion, NotePinned, NoteUnpinned;
  }

  lemma RelocationDescends(s: GovernorState, i: u64, gen: u64, off: u64, size: u64, id: u64)
    requires id in ApplyRelocation(s, i, gen, off, size).0.records
    ensures id in s.records && Descends(s.records[id], ApplyRelocation(s, i, gen, off, size).0.records[id])
  {
    hide ArenaSpec.Relocate;
  }

  lemma StepDescends(s: GovernorState, op: Op, id: u64)
    requires Lockstep(s) && id < s.nextAllocId && id in Step(s, op).records
    ensures id in s.records && Descends(s.records[id], Step(s, op).records[id])
  {
    hide ArenaSpec.Allocate, ArenaSpec.Free, Pin, Unpin, ApplyRelocation, Lockstep, ValidateRequest,
         ArenaSpec.LiveBytes, Charge, Discharge, NewRecord;
    match op
    case OpPin(i, gen) => PinDescends(s, i, gen, id);
    case OpUnpin(i, gen) => PinDescends(s, i, gen, id);
    case OpRelocate(i, gen, off, size) => RelocationDescends(s, i, gen, off, size, id);
    case _ =>
  }

  /** A record that is there after a run was there before it, with the same owner and purpose. */
  lemma {:induction false} RunDescends(s: GovernorState, ops: seq<Op>, id: u64)
    requires Lockstep(s) && s.nextAllocId + |ops| <= MAX64 && id < s.nextAllocId && id in Run(s, ops).records
    ensures id in s.records && Descends(s.records[id], Run(s, ops).records[id])
    decreases |ops|
  {
    if ops != [] {
      hide Step, Lockstep;
      StepKeeps(s, ops[0]);
      RunDescends(Step(s, ops[0]), ops[1..], id);
      StepDescends(s, ops[0], id);
    }
  }

  /** Only the authorities that a request named can release what it was granted, however
      the run went on: another one is refused as stale, and an unset one always passes. */
  lemma AuthorityOfRequest(s: GovernorState, req: AllocationRequest, ops: seq<Op>, gen: u64, wb: u64, sb: u64)
    requires Lockstep(s) && s.nextAllocId + |ops| < MAX64 && Request(s, req).1.Ok?
    ensures var (t, h) := Request(s, req); var u := Run(t, ops); var id := h.value.id;
            CurrentRecord(u, id, gen) && u.records[id].pinCount == 0 ==>
              var r := Release(u, id, gen, wb, sb).1;
              && (r.Ok? <==> (wb == 0 || wb == req.origin.workerBoot) && (sb == 0 || sb == req.origin.sourceBoot))
              && (r.Err? ==> r == Err(STALE_AUTHORITY))
  {
    var (t, h) := Request(s, req);
    var u, id := Run(t, ops), h.value.id;
    RequestKeeps(s, req);
    GrantedHandle(s, req);
    GrantedRecord(s, req);
    RunKeeps(t, ops);
    hide Request, Release, Run, Lockstep, ArenaSpec.LiveBytes, ArenaSpec.FreeBytes, Span, RoundsUpTo;
    if CurrentRecord(u, id, gen) {
      RequestAdvances(s, req);
      RunDescends(t, ops, id);
      ReleasableIff(u, id, gen, wb, sb);
    }
  }

  lemma RequestAdvances(s: GovernorState, req: AllocationRequest)
    requires s.nextAllocId < MAX64 && Request(s, req).1.Ok?
    ensures Request(s, req).0.nextAllocId == s.nextAllocId + 1 && Request(s, req).1.value.id == s.nextAllocId
  {
    hide ArenaSpec.Allocate, ValidateRequest;
  }

  // --------------------------------------------------------- double release

  lemma StepKeepsRetired(s: GovernorState, op: Op, id: u64)
    requires Lockstep(s) && id in s.retired
    ensures id in Step(s, op).retired && Step(s, op).retired[id] == s.retired[id]
  {
    hide ArenaSpec.Allocate, ArenaSpec.Relocate, ArenaSpec.Free, ArenaSpec.PinRegion, ArenaSpec.UnpinRegion,
         ArenaSpec.Invariant, InStep, ValidateRequest, ArenaSpec.LiveBytes;
    match op
    case OpInitialize(b, a) =>
    case OpRequest(req) =>
    case OpRelease(i, gen, wb, sb) =>
    case OpPin(i, gen) =>
    case OpUnpin(i, gen) =>
    case OpRelocate(i, gen, off, size) =>
    case OpObserve =>
    case OpRecover =>
  }

  lemma {:induction false} RunKeepsRetired(s: GovernorState, ops: seq<Op>, id: u64)
    requires Lockstep(s) && s.nextAllocId + |ops| <= MAX64 && id in s.retired
    ensures id in Run(s, ops).retired && Run(s, ops).retired[id] == s.retired[id]
    decreases |ops|
  {
    if ops != [] {
      hide Step, Lockstep;
      StepKeeps(s, ops[0]);
      StepKeepsRetired(s, ops[0], id);
      RunKeepsRetired(Step(s, ops[0]), ops[1..], id);
    }
  }

  /** A release hands out the record it retires: as it was, but released and not resident. */
  lemma ReleasedRecord(s: GovernorState, id: u64, gen: u64, wb: u64, sb: u64)
    requires Lockstep(s) && Release(s, id, gen, wb, sb).1.Ok?
    ensures var (t, r) := Release(s, id, gen, wb, sb);
            && CurrentRecord(s, id, gen)
            && r.value == s.records[id].(lifecycle := LIFECYCLE_RELEASED, residency := NONRESIDENT)
            && t.retired == s.retired[id := r.value] && t.records == s.records - {id}
            && t.historyCount == Add64(s.historyCount, 1) && t.nextAllocId == s.nextAllocId
            && BytesOf(s.arena, id) <= ArenaSpec.LiveBytes(s.arena)
            && ArenaSpec.LiveBytes(t.arena) == ArenaSpec.LiveBytes(s.arena) - BytesOf(s.arena, id)
  {
    assert InStep(s.records[id], s.arena.live[id]);
    hide ArenaSpec.Invariant, InStep, ArenaSpec.LiveBytes, BytesOf, Discharge;
    VacatedBytes(s.arena, id, gen);
  }

  /** Releasing twice is reported as a double free over any run in between, crashes
      included; any other generation of the id is reported as stale. */
  lemma ReleasedTwice(s: GovernorState, id: u64, gen: u64, wb: u64, sb: u64, ops: seq<Op>, g: u64, wb': u64, sb': u64)
    requires Lockstep(s) && s.nextAllocId + |ops| <= MAX64 && Release(s, id, gen, wb, sb).1.Ok?
    ensures var u := Run(Release(s, id, gen, wb, sb).0, ops);
            Release(u, id, g, wb', sb') == (u, Err(if g == gen then DOUBLE_FREE else STALE_GENERATION))
  {
    var t := Release(s, id, gen, wb, sb).0;
    ReleasedRecord(s, id, gen, wb, sb);
    ReleaseKeeps(s, id, gen, wb, sb);
    hide Run, Release, Lockstep, ArenaSpec.LiveBytes, BytesOf;
    RunKeepsRetired(t, ops, id);
    RunKeeps(t, ops);
    var u := Run(t, ops);
    RetiredIsNotCurrent(u, id);
    ReleaseKeeps(u, id, g, wb', sb');
    ReleasableIff(u, id, g, wb', sb');
  }

  lemma RetiredIsNotCurrent(s: GovernorState, id: u64)
    requires Lockstep(s) && id in s.retired
    ensures id !in s.records
  {
  }
}
