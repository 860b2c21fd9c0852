/** What the records say at every point of a run: their generations, lifecycle and
    pins agree with each other and with the arena, and retired records and the history
    counter account for every release. */
module Bookkeeping {
  import opened Machine
  import opened Types
  import opened Records
  import opened GovernorSpec
  import opened GovernorInvariants
  import opened ArenaSpec
  import opened HandleSafety
  import opened Handles
  import opened Ownership

  /** A record on its own: one region and one relocation count per generation, a
      lifecycle that mirrors the pins, and recoverable exactly if it is backed. */
  predicate Orderly(rec: AllocationRecord) {
    && rec.generation == rec.relocationGeneration + 1 && rec.regionGeneration == rec.generation
    && rec.lifecycle == (if rec.pinCount > 0 then LIFECYCLE_PINNED else LIFECYCLE_RESIDENT)
    && (rec.recoverable <==> rec.origin.backingRef != [])
  }

  /** A region describes the same owner as its record, and every pin it counts makes it pinned. */
  predicate SameOwner(rec: AllocationRecord, r: Region) {
    && r.tag.memClass == rec.origin.memClass && r.tag.workerBoot == rec.origin.workerBoot
    && r.tag.provenance == rec.origin.provenance && (r.pinCount > 0 ==> r.movability == PINNED)
  }

  ghost predicate OrderlyAt(s: GovernorState, id: u64)
    requires id in s.records
  {
    id in s.arena.live && Orderly(s.records[id]) && SameOwner(s.records[id], s.arena.live[id])
  }

  ghost predicate AllOrderly(s: GovernorState) {
    forall id | id in s.records :: OrderlyAt(s, id)
  }

  /** `n` more steps exhaust no counter. */
  ghost predicate Room(s: GovernorState, n: nat) {
    Headroom(s, n) && forall id | id in s.arena.live :: s.arena.live[id].pinCount + n < TWO32
  }

  // ------------------------------------------------------ each operation

  lemma NewRegion(s: GovernorState, req: AllocationRequest)
    requires Request(s, req).1.Ok? && s.nextAllocId !in s.arena.live && Invariant(s.arena)
    ensures var t := Request(s, req).0; var r := ArenaSpec.Allocate(s.arena, ArenaRequest(req, s.nextAllocId)).1;
            && r.Ok? && t.arena.live == s.arena.live[s.nextAllocId := r.value]
            && t.records == s.records[s.nextAllocId := NewRecord(req, r.value)]
            && r.value.pinCount == 0 && r.value.tag.memClass == req.origin.memClass
            && r.value.tag.workerBoot == req.origin.workerBoot && r.value.tag.provenance == req.origin.provenance
            && r.value.tag.regionGeneration == 1
  {
    var ar := ArenaRequest(req, s.nextAllocId);
    AllocateKeeps(s.arena, ar);
    GrantedRegion(s.arena, ar);
    hide ArenaSpec.Allocate, Invariant, SpanFree, ValidateRequest, Charge, NewRecord;
  }

  lemma NewOrderly(req: AllocationRequest, r: Region)
    requires r.pinCount == 0 && r.tag.memClass == req.origin.memClass && r.tag.workerBoot == req.origin.workerBoot
    requires r.tag.provenance == req.origin.provenance && r.tag.regionGeneration == 1
    ensures Orderly(NewRecord(req, r)) && SameOwner(NewRecord(req, r), r)
  {
  }

  lemma RequestOrderly(s: GovernorState, req: AllocationRequest, id: u64)
    requires Lockstep(s) && AllOrderly(s) && id in Request(s, req).0.records
    ensures OrderlyAt(Request(s, req).0, id)
  {
    var (t, h) := Request(s, req);
    if h.Ok? {
      assert s.nextAllocId !in s.arena.live;
      NewRegion(s, req);
      var r := ArenaSpec.Allocate(s.arena, ArenaRequest(req, s.nextAllocId)).1.value;
      hide ArenaSpec.Allocate, Request, Lockstep, NewRecord, AllOrderly, OrderlyAt, Orderly, SameOwner;
      NewOrderly(req, r);
      RewrittenOrderly(s, t, s.nextAllocId, NewRecord(req, r), r, id);
    } else {
      RefusedKeepsBooks(s, req);
      SameBooks(s, t, id);
    }
  }

  lemma RefusedKeepsBooks(s: GovernorState, req: AllocationRequest)
    requires Request(s, req).1.Err?
    ensures Request(s, req).0.records == s.records && Request(s, req).0.arena == s.arena
  {
    hide ValidateRequest, CanAllocate, FreeBytes, AlignUp, AlignUpChecked, IsPow2;
  }

  /** A record and its region rewritten together. */
  lemma RewrittenOrderly(s: GovernorState, t: GovernorState, i: u64, rec: AllocationRecord, r: Region, id: u64)
    requires AllOrderly(s) && t.records == s.records[i := rec] && t.arena.live == s.arena.live[i := r]
    requires Orderly(rec) && SameOwner(rec, r) && id in t.records
    ensures OrderlyAt(t, id)
  {
    assert id != i ==> OrderlyAt(s, id);
    hide Orderly, SameOwner;
  }

  /** The records that pin, unpin and relocate write. */
  lemma RecordsOrderly(rec: AllocationRecord, r: Region, q: Region)
    requires InStep(rec, r) && Orderly(rec) && SameOwner(rec, r)
    ensures q == r.(pinCount := q.pinCount, movability := PINNED) && q.pinCount > 0 ==>
              Orderly(PinnedRecord(rec, q)) && SameOwner(PinnedRecord(rec, q), q)
    ensures q == r.(pinCount := q.pinCount, movability := q.movability)
            && (q.pinCount > 0 ==> q.movability == PINNED) ==>
              Orderly(UnpinnedRecord(rec, q)) && SameOwner(UnpinnedRecord(rec, q), q)
    ensures q == Moved(r, q.offset, q.size, rec.alignment) && rec.pinCount == 0 && rec.generation < MAX64 ==>
              Orderly(Relocated(rec, q)) && SameOwner(Relocated(rec, q), q)
  {
  }

  lemma PinOrderly(s: GovernorState, i: u64, gen: u64, id: u64)
    requires Lockstep(s) && AllOrderly(s) && Room(s, 1) && id in Pin(s, i, gen).0.records
    ensures OrderlyAt(Pin(s, i, gen).0, id)
  {
    if CurrentRecord(s, i, gen) {
      assert InStep(s.records[i], s.arena.live[i]) && OrderlyAt(s, i);
      var (b, r) := PinRegion(s.arena, i, gen);
      hide PinRegion, Lockstep, InStep, Orderly, SameOwner, AllOrderly, PinnedRecord, OrderlyAt;
      PinnedRegion(s.arena, i, gen);
      RecordsOrderly(s.records[i], s.arena.live[i], r.value);
      RewrittenOrderly(s, Pin(s, i, gen).0, i, PinnedRecord(s.records[i], r.value), r.value, id);
    } else {
      assert OrderlyAt(s, id);
    }
  }

  lemma UnpinOrderly(s: GovernorState, i: u64, gen: u64, id: u64)
    requires Lockstep(s) && AllOrderly(s) && id in Unpin(s, i, gen).0.records
    ensures OrderlyAt(Unpin(s, i, gen).0, id)
  {
    if Unpin(s, i, gen).1.Ok? {
      assert InStep(s.records[i], s.arena.live[i]) && OrderlyAt(s, i);
      var (b, r) := UnpinRegion(s.arena, i, gen);
      hide UnpinRegion, Lockstep, InStep, Orderly, SameOwner, AllOrderly, UnpinnedRecord, OrderlyAt;
      UnpinnedRegion(s.arena, i, gen);
      assert r.value.pinCount > 0 ==> r.value.movability == PINNED by { OwnerPins(s.records[i], s.arena.live[i]); }
      RecordsOrderly(s.records[i], s.arena.live[i], r.value);
      RewrittenOrderly(s, Unpin(s, i, gen).0, i, UnpinnedRecord(s.records[i], r.value), r.value, id);
    } else {
      assert OrderlyAt(s, id);
    }
  }

  lemma OwnerPins(rec: AllocationRecord, r: Region)
    requires SameOwner(rec, r) && r.pinCount > 0
    ensures r.movability == PINNED
  {
  }

  lemma ReleaseOrderly(s: GovernorState, i: u64, gen: u64, wb: u64, sb: u64, id: u64)
    requires Lockstep(s) && AllOrderly(s) && id in Release(s, i, gen, wb, sb).0.records
    ensures OrderlyAt(Release(s, i, gen, wb, sb).0, id)
  {
    assert OrderlyAt(s, id);
    hide Invariant, InStep, AllOrderly;
  }

  lemma RelocationOrderly(s: GovernorState, i: u64, gen: u64, off: u64, size: u64, id: u64)
    requires Lockstep(s) && AllOrderly(s) && Room(s, 1) && id in ApplyRelocation(s, i, gen, off, size).0.records
    ensures OrderlyAt(ApplyRelocation(s, i, gen, off, size).0, id)
  {
    if ApplyRelocation(s, i, gen, off, size).1.Ok? {
      assert InStep(s.records[i], s.arena.live[i]) && OrderlyAt(s, i);
      var rec := s.records[i];
      var (b, r) := Relocate(s.arena, i, gen, off, size, rec.alignment);
      hide Relocate, Lockstep, InStep, Orderly, SameOwner, AllOrderly, Relocated, OrderlyAt;
      RelocatedRegion(s.arena, i, gen, off, size, rec.alignment);
      RecordsOrderly(rec, s.arena.live[i], r.value);
      RewrittenOrderly(s, ApplyRelocation(s, i, gen, off, size).0, i, Relocated(rec, r.value), r.value, id);
    } else {
      assert OrderlyAt(s, id);
    }
  }

  lemma StepOrderly(s: GovernorState, op: Op)
    requires Lockstep(s) && AllOrderly(s) && Room(s, 1)
    ensures AllOrderly(Step(s, op))
  {
    hide Lockstep, Room, Request, Pin, Unpin, Release, ApplyRelocation, OrderlyAt;
    forall id | id in Step(s, op).records ensures OrderlyAt(Step(s, op), id) {
      match op
      case OpRequest(req) => RequestOrderly(s, req, id);
      case OpRelease(i, gen, wb, sb) => ReleaseOrderly(s, i, gen, wb, sb, id);
      case OpPin(i, gen) => PinOrderly(s, i, gen, id);
      case OpUnpin(i, gen) => UnpinOrderly(s, i, gen, id);
      case OpRelocate(i, gen, off, size) => RelocationOrderly(s, i, gen, off, size, id);
      case OpInitialize(b, a) => SameBooks(s, Step(s, op), id);
      case OpObserve => SameBooks(s, Step(s, op), id);
      case OpRecover =>
    }
  }

  lemma SameBooks(s: GovernorState, t: GovernorState, id: u64)
    requires AllOrderly(s) && t.arena == s.arena && t.records == s.records && id in t.records
    ensures OrderlyAt(t, id)
  {
    assert OrderlyAt(s, id);
  }

  lemma RequestPins(s: GovernorState, req: AllocationRequest, id: u64)
    requires id in Request(s, req).0.arena.live && Lockstep(s)
    ensures Request(s, req).0.arena.live[id].pinCount == if id in s.arena.live then s.arena.live[id].pinCount else 0
  {
    if Request(s, req).1.Ok? {
      assert s.nextAllocId !in s.arena.live;
      NewRegion(s, req);
    } else {
      RefusedKeepsBooks(s, req);
    }
    hide Request, Lockstep, ArenaSpec.Allocate;
  }

  /** Pins are counted one at a time, and new blocks start without any. */
  lemma PinsAdvance(s: GovernorState, op: Op, id: u64)
    requires Lockstep(s) && id in Step(s, op).arena.live
    ensures Step(s, op).arena.live[id].pinCount <= if id in s.arena.live then s.arena.live[id].pinCount + 1 else 0
  {
    hide Lockstep, Request, SpanFree, Relocated, LiveBytes, Discharge;
    match op
    case OpRequest(req) => RequestPins(s, req, id);
    case OpRelocate(i, gen, off, size) =>
    case OpRelease(i, gen, wb, sb) =>
    case _ =>
  }

  lemma StepKeepsRoom(s: GovernorState, op: Op, n: nat)
    requires Lockstep(s) && Room(s, n + 1) && n < TWO32
    ensures Room(Step(s, op), n)
  {
    hide Step, Lockstep, Headroom;
    StepKeepsHeadroom(s, op, n);
    forall id | id in Step(s, op).arena.live ensures Step(s, op).arena.live[id].pinCount + n < TWO32 {
      PinsAdvance(s, op, id);
    }
  }

  /** Over any run that exhausts no counter, every record stays in order. */
  lemma {:induction false} RunOrderly(s: GovernorState, ops: seq<Op>)
    requires Lockstep(s) && AllOrderly(s) && Room(s, |ops|) && |ops| < TWO32
    ensures AllOrderly(Run(s, ops))
    decreases |ops|
  {
    if ops != [] {
      RoomLess(s, |ops|);
      hide Step, Lockstep, AllOrderly, Room, Headroom;
      StepKeeps(s, ops[0]);
      StepOrderly(s, ops[0]);
      StepKeepsRoom(s, ops[0], |ops| - 1);
      RunOrderly(Step(s, ops[0]), ops[1..]);
    }
  }

  lemma RoomLess(s: GovernorState, n: nat)
    requires n >= 1 && Room(s, n)
    ensures Room(s, 1) && s.nextAllocId < MAX64
  {
  }

  // ------------------------------------------- retired records and history

  /** A retired record was released, or lost in a crash and never confirmed since. */
  predicate Settled(rec: AllocationRecord) {
    || (rec.lifecycle == LIFECYCLE_RELEASED && rec.residency == NONRESIDENT)
    || (rec.lifecycle == LIFECYCLE_REVALIDATION_REQUIRED && rec.residency == RESIDENCY_REVALIDATION_REQUIRED)
  }

  ghost function ReleasedIds(s: GovernorState): set<u64> {
    set id | id in s.retired && s.retired[id].lifecycle == LIFECYCLE_RELEASED
  }

  /** Retired records are settled, and the history counter is the number of releases among them. */
  ghost predicate Accounted(s: GovernorState) {
    && (forall id | id in s.retired :: Settled(s.retired[id]))
    && s.historyCount == |ReleasedIds(s)|
  }

  lemma OneMoreReleased(s: GovernorState, t: GovernorState, id: u64, rel: AllocationRecord)
    requires Accounted(s) && id !in s.retired && t.retired == s.retired[id := rel]
    requires rel.lifecycle == LIFECYCLE_RELEASED && rel.residency == NONRESIDENT
    requires s.historyCount < MAX64 && t.historyCount == s.historyCount + 1
    ensures Accounted(t)
  {
    assert ReleasedIds(t) == ReleasedIds(s) + {id};
    assert id !in ReleasedIds(s);
  }

  lemma ReleaseAccounted(s: GovernorState, id: u64, gen: u64, wb: u64, sb: u64)
    requires Lockstep(s) && Accounted(s) && s.nextAllocId < MAX64
    ensures Accounted(Release(s, id, gen, wb, sb).0)
  {
    var (t, r) := Release(s, id, gen, wb, sb);
    ReleaseKeeps(s, id, gen, wb, sb);
    if r.Ok? {
      ReleasedRecord(s, id, gen, wb, sb);
      BelowCounter(s);
      assert id !in s.retired;
      hide Release, Lockstep, LiveBytes, BytesOf, ReleasedIds, Settled;
      OneMoreReleased(s, t, id, r.value);
    }
  }

  lemma BelowCounter(s: GovernorState)
    requires Lockstep(s)
    ensures |ReleasedIds(s)| <= s.nextAllocId
  {
    CountBelow(ReleasedIds(s), s.nextAllocId);
  }

  lemma {:induction false} CountBelow(ids: set<u64>, n: nat)
    requires forall id | id in ids :: id < n
    ensures |ids| <= n
    decreases n
  {
    if n > 0 {
      var rest := set id | id in ids && id != n - 1;
      CountBelow(rest, n - 1);
      assert ids <= rest + {n - 1 as u64};
      SubsetSize(ids, rest + {n - 1 as u64});
    } else {
      assert ids == {};
    }
  }

  lemma RecoverAccounted(s: GovernorState)
    requires Lockstep(s) && Accounted(s)
    ensures Accounted(Recover(s))
  {
    var t := Recover(s);
    assert s.records.Keys !! s.retired.Keys;
    hide Lockstep;
    forall id | id in t.retired
      ensures Settled(t.retired[id]) && (id in ReleasedIds(t) <==> id in ReleasedIds(s))
    {
    }
    assert ReleasedIds(t) == ReleasedIds(s);
  }

  lemma StepAccounted(s: GovernorState, op: Op)
    requires Lockstep(s) && Accounted(s) && s.nextAllocId < MAX64
    ensures Accounted(Step(s, op))
  {
    hide Lockstep, ArenaSpec.Allocate, Relocate, PinRegion, UnpinRegion, Release, ValidateRequest, LiveBytes, Settled,
         NewRecord, Relocated;
    match op
    case OpRelease(id, gen, wb, sb) => ReleaseAccounted(s, id, gen, wb, sb);
    case OpRecover => RecoverAccounted(s);
    case _ => SameHistory(s, Step(s, op));
  }

  lemma SameHistory(s: GovernorState, t: GovernorState)
    requires Accounted(s) && t.retired == s.retired && t.historyCount == s.historyCount
    ensures Accounted(t)
  {
    assert ReleasedIds(t) == ReleasedIds(s);
  }

  /** Over any run, crashes included, nothing retired is resident, and the history
      counter is the number of records that were released. */
  lemma {:induction false} RunAccounted(s: GovernorState, ops: seq<Op>)
    requires Lockstep(s) && Accounted(s) && s.nextAllocId + |ops| <= MAX64
    ensures Accounted(Run(s, ops))
    decreases |ops|
  {
    if ops != [] {
      hide Step, Lockstep, Accounted;
      StepKeeps(s, ops[0]);
      StepAccounted(s, ops[0]);
      RunAccounted(Step(s, ops[0]), ops[1..]);
    }
  }

  // ------------------------------------------------------------ restoration

  /** The list that a restoration puts into the retired map. */
  lemma RestoredEntry(p: PersistSnapshot, k: nat)
    requires k < |p.records| + |p.retired|
    ensures var v := RevalidatedAll(p.records) + p.retired;
            && k < |v| && v[k].id == (p.records + p.retired)[k].id
            && v[k] == if k < |p.records|
                       then p.records[k].(lifecycle := LIFECYCLE_REVALIDATION_REQUIRED,
                                          residency := RESIDENCY_REVALIDATION_REQUIRED)
                       else p.retired[k - |p.records|]
  {
  }

  lemma RestoredIds(p: PersistSnapshot)
    requires forall i, j | 0 <= i < j < |p.records + p.retired| ::
               (p.records + p.retired)[i].id != (p.records + p.retired)[j].id
    ensures var v := RevalidatedAll(p.records) + p.retired;
            forall i, j | 0 <= i < j < |v| :: v[i].id != v[j].id
  {
    var v := RevalidatedAll(p.records) + p.retired;
    forall i, j | 0 <= i < j < |v| ensures v[i].id != v[j].id {
      RestoredEntry(p, i);
      RestoredEntry(p, j);
    }
  }

  /** Restoring a snapshot without repeated ids: what was live is retired and awaits
      revalidation, not resident and otherwise unchanged; what was retired stays so; and
      no use of memory is carried over. */
  lemma RestoredRecords(p: PersistSnapshot)
    requires forall i, j | 0 <= i < j < |p.records + p.retired| ::
               (p.records + p.retired)[i].id != (p.records + p.retired)[j].id
    ensures var s := Restore(p);
            && (forall i | 0 <= i < |p.records| ::
                  && p.records[i].id in s.retired
                  && s.retired[p.records[i].id] == p.records[i].(lifecycle := LIFECYCLE_REVALIDATION_REQUIRED,
                                                                 residency := RESIDENCY_REVALIDATION_REQUIRED))
            && (forall i | 0 <= i < |p.retired| ::
                  p.retired[i].id in s.retired && s.retired[p.retired[i].id] == p.retired[i])
            && s.records == map[] && s.arena.live == map[] && s.arena.capacity == p.domain.managedCapacity
            && !s.initialized && s.nextAllocId == p.nextAllocId && s.historyCount == p.historyCount
            && s.domain == p.domain.(currentCommitted := 0, currentResident := 0, currentMovable := 0,
                                     currentPinned := 0, health := HEALTH_UNKNOWN,
                                     pressure := PRESSURE_REVALIDATION_REQUIRED)
  {
    var v := RevalidatedAll(p.records) + p.retired;
    hide Collect, RevalidatedAll;
    RestoredIds(p);
    CollectListed(v);
    forall i | 0 <= i < |p.records|
      ensures p.records[i].id in Collect(v)
      ensures Collect(v)[p.records[i].id] == p.records[i].(lifecycle := LIFECYCLE_REVALIDATION_REQUIRED,
                                                           residency := RESIDENCY_REVALIDATION_REQUIRED)
    {
      RestoredEntry(p, i);
    }
    forall i | 0 <= i < |p.retired|
      ensures p.retired[i].id in Collect(v) && Collect(v)[p.retired[i].id] == p.retired[i]
    {
      RestoredEntry(p, |p.records| + i);
    }
  }

  /** From its start on, a governor is in order and accounts for everything. */
  lemma RunFromStart(domain: MemoryDomain, ops: seq<Op>)
    requires |ops| < TWO32
    ensures var s := Run(Fresh(domain), ops); Lockstep(s) && AllOrderly(s) && Accounted(s)
  {
    var s := Fresh(domain);
    FreshIsLockstep(domain);
    assert ReleasedIds(s) == {} && AllOrderly(s) && Accounted(s) && Room(s, |ops|);
    hide Run, Lockstep, AllOrderly, Accounted, Room;
    RunKeeps(s, ops);
    RunOrderly(s, ops);
    RunAccounted(s, ops);
  }
}
