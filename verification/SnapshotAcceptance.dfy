/** Every snapshot a governor run can produce survives the file format. */
module SnapshotAcceptance {
  import opened Machine
  import opened Types
  import opened Records
  import opened GovernorSpec
  import opened GovernorInvariants
  import opened Snapshots
  import ArenaSpec
  import Wire
  import SnapshotFormat
  import opened HandleSafety
  import Reissue
  import opened Pressure

  /** What the format can hold of a request. */
  predicate FitRequest(req: AllocationRequest) {
    && req.origin.memClass <= CLASS_INTERNAL && req.reclaimability <= BEST_EFFORT
    && req.movability <= NONMOVABLE && req.origin.provenance <= RECONSTRUCTED
    && |req.origin.owner| <= Wire.MAX_STRING && |req.origin.backingRef| <= Wire.MAX_STRING
  }

  /** Requests use known codes and short strings; relocations leave room for what was requested. */
  predicate FitOp(s: GovernorState, op: Op) {
    && (op.OpRequest? ==> FitRequest(op.req))
    && (op.OpRelocate? && op.id in s.records ==> op.newSize >= s.records[op.id].requestedBytes)
  }

  ghost predicate RunFits(s: GovernorState, ops: seq<Op>)
    decreases |ops|
  {
    ops == [] || (FitOp(s, ops[0]) && RunFits(Step(s, ops[0]), ops[1..]))
  }

  predicate Recordable(rec: AllocationRecord, cap: u64, n: int) {
    ValidRecord(rec, cap) && TextsFit(rec) && rec.generation <= n
  }

  predicate AllRecordable(m: map<u64, AllocationRecord>, cap: u64, n: int) {
    forall id | id in m :: Recordable(m[id], cap, n)
  }

  ghost predicate Sound(s: GovernorState, n: int) {
    AllRecordable(s.records, s.domain.managedCapacity, n) && AllRecordable(s.retired, s.domain.managedCapacity, n)
  }

  lemma RequestSound(s: GovernorState, req: AllocationRequest, n: int)
    requires Lockstep(s) && Sound(s, n) && FitRequest(req) && s.nextAllocId < MAX64 && n >= 1
    ensures Sound(Request(s, req).0, n)
  {
    var (t, r) := Request(s, req);
    if r.Ok? {
      var ar := ArenaRequest(req, s.nextAllocId);
      AllocateKeeps(s.arena, ar);
      var region := ArenaSpec.Allocate(s.arena, ar).1.value;
      assert IsPow2(req.alignment);
      NewRecordable(req, region, s.domain.managedCapacity, n);
    }
  }

  lemma NewRecordable(req: AllocationRequest, r: Region, cap: u64, n: int)
    requires FitRequest(req) && req.bytes > 0 && IsPow2(req.alignment) && n >= 1
    requires r.size >= req.bytes && r.offset + r.size <= cap && Aligned(r.offset, req.alignment)
    ensures Recordable(NewRecord(req, r), cap, n)
  {
  }

  lemma ReleaseSound(s: GovernorState, id: u64, gen: u64, wb: u64, sb: u64, n: int)
    requires Lockstep(s) && Sound(s, n)
    ensures Sound(Release(s, id, gen, wb, sb).0, n)
  {
    var (t, r) := Release(s, id, gen, wb, sb);
    if r.Ok? {
      ReleasedRecordable(s.records[id], s.domain.managedCapacity, n);
    }
  }

  lemma ReleasedRecordable(rec: AllocationRecord, cap: u64, n: int)
    requires Recordable(rec, cap, n)
    ensures Recordable(Released(rec), cap, n) && Recordable(Revalidated(rec), cap, n)
  {
  }

  lemma PinSound(s: GovernorState, id: u64, gen: u64, n: int)
    requires Lockstep(s) && Sound(s, n)
    ensures Sound(Pin(s, id, gen).0, n)
  {
    if CurrentRecord(s, id, gen) {
      var t := Pin(s, id, gen).0;
      var region := t.arena.live[id].(movability := PINNED);
      RepinnedRecordable(s.records[id], region, LIFECYCLE_PINNED, s.domain.managedCapacity, n);
    }
  }

  lemma UnpinSound(s: GovernorState, id: u64, gen: u64, n: int)
    requires Lockstep(s) && Sound(s, n)
    ensures Sound(Unpin(s, id, gen).0, n)
  {
    var (t, r) := Unpin(s, id, gen);
    if r.Ok? {
      assert InStep(s.records[id], s.arena.live[id]);
      var rec, region := s.records[id], t.arena.live[id];
      assert Recordable(rec, s.domain.managedCapacity, n);
      var lifecycle := if region.pinCount == 0 then LIFECYCLE_RESIDENT else LIFECYCLE_PINNED;
      RepinnedRecordable(rec, region, lifecycle, s.domain.managedCapacity, n);
      hide Lockstep, Recordable, InStep;
    }
  }

  lemma RepinnedRecordable(rec: AllocationRecord, r: Region, lifecycle: u8, cap: u64, n: int)
    requires Recordable(rec, cap, n) && r.movability <= NONMOVABLE && lifecycle <= LIFECYCLE_RETIRED
    ensures Recordable(rec.(movability := r.movability, pinCount := r.pinCount, lifecycle := lifecycle), cap, n)
  {
  }

  lemma RelocationSound(s: GovernorState, id: u64, gen: u64, offset: u64, size: u64, n: int)
    requires Lockstep(s) && Sound(s, n) && n < MAX64
    requires id in s.records ==> size >= s.records[id].requestedBytes
    ensures Sound(ApplyRelocation(s, id, gen, offset, size).0, n + 1)
  {
    var (t, r) := ApplyRelocation(s, id, gen, offset, size);
    if r.Ok? {
      assert InStep(s.records[id], s.arena.live[id]);
      var rec, cap := s.records[id], s.domain.managedCapacity;
      assert Recordable(rec, cap, n);
      MovedRecordable(rec, t.arena.live[id], cap, n);
      hide Lockstep, Recordable, InStep, ArenaSpec.SpanFree;
      RewrittenSound(s.records, id, Relocated(rec, t.arena.live[id]), cap, n);
    }
  }

  lemma RewrittenSound(m: map<u64, AllocationRecord>, id: u64, rec: AllocationRecord, cap: u64, n: int)
    requires AllRecordable(m, cap, n) && Recordable(rec, cap, n + 1)
    ensures AllRecordable(m[id := rec], cap, n + 1)
  {
  }

  lemma MovedRecordable(rec: AllocationRecord, r: Region, cap: u64, n: int)
    requires Recordable(rec, cap, n) && n < MAX64
    requires r.size >= rec.requestedBytes && r.offset + r.size <= cap && Aligned(r.offset, rec.alignment)
    requires r.allocGeneration == NextGeneration(rec.generation)
    ensures Recordable(Relocated(rec, r), cap, n + 1)
  {
  }

  lemma RecoverSound(s: GovernorState, n: int)
    requires Sound(s, n)
    ensures Sound(Recover(s), n)
  {
    var t := Recover(s);
    forall id | id in t.retired ensures Recordable(t.retired[id], t.domain.managedCapacity, n) {
      if id in s.records {
        ReleasedRecordable(s.records[id], s.domain.managedCapacity, n);
      }
      if id in s.retired {
        assert Recordable(s.retired[id], s.domain.managedCapacity, n);
      }
    }
  }

  lemma StepSound(s: GovernorState, op: Op, n: int)
    requires Lockstep(s) && Sound(s, n) && FitOp(s, op) && s.nextAllocId < MAX64 && 1 <= n < MAX64
    ensures Sound(Step(s, op), n + 1)
    ensures Step(s, op).domain.watermarks == s.domain.watermarks
  {
    hide Lockstep, Recordable, ArenaSpec.Allocate, ArenaSpec.Relocate, ArenaSpec.Free, ValidateRequest;
    Loosen(Step(s, op), n);
    match op
    case OpInitialize(b, a) =>
    case OpRequest(req) => RequestSound(s, req, n);
    case OpRelease(id, gen, wb, sb) => ReleaseSound(s, id, gen, wb, sb, n);
    case OpPin(id, gen) => PinSound(s, id, gen, n);
    case OpUnpin(id, gen) => UnpinSound(s, id, gen, n);
    case OpRelocate(id, gen, off, size) => RelocationSound(s, id, gen, off, size, n);
    case OpObserve =>
    case OpRecover => RecoverSound(s, n);
  }

  lemma Loosen(s: GovernorState, n: int)
    ensures Sound(s, n) ==> Sound(s, n + 1)
  {
  }

  lemma {:induction false} RunSound(s: GovernorState, ops: seq<Op>, n: int)
    requires Lockstep(s) && Sound(s, n) && RunFits(s, ops) && s.nextAllocId + |ops| <= MAX64
    requires 1 <= n && n + |ops| <= MAX64
    ensures Lockstep(Run(s, ops)) && Sound(Run(s, ops), n + |ops|)
    ensures Run(s, ops).domain.watermarks == s.domain.watermarks
    decreases |ops|
  {
    if ops != [] {
      StepKeeps(s, ops[0]);
      StepSound(s, ops[0], n);
      RunSound(Step(s, ops[0]), ops[1..], n + 1);
    }
  }

  // ------------------------------------------------------------ the snapshot

  lemma ListedSound(m: map<u64, AllocationRecord>, v: seq<AllocationRecord>, cap: u64, n: int)
    requires Listed(m, v) && AllRecordable(m, cap, n)
    ensures AllValid(v, cap) && AllTextsFit(v)
  {
    forall i | 0 <= i < |v| ensures ValidRecord(v[i], cap) && TextsFit(v[i]) {
      assert Recordable(m[v[i].id], cap, n);
    }
  }

  lemma ListedDistinct(s: GovernorState, p: PersistSnapshot)
    requires Lockstep(s) && IsSnapshot(s, p)
    ensures DistinctIds(p.records + p.retired)
  {
    var w := p.records + p.retired;
    forall i, j | 0 <= i < j < |w| ensures w[i].id != w[j].id {
      if j < |p.records| {
        assert p.records[i].id < p.records[j].id;
      } else if i < |p.records| {
        assert w[i].id in s.records && w[j].id in s.retired;
      } else {
        assert p.retired[i - |p.records|].id < p.retired[j - |p.records|].id;
      }
    }
  }

  lemma ListedApart(s: GovernorState, p: PersistSnapshot)
    requires Lockstep(s) && IsSnapshot(s, p)
    ensures PairwiseApart(p.records)
  {
    forall i, j | 0 <= i < j < |p.records| ensures RecordsApart(p.records[i], p.records[j]) {
      var x, y := p.records[i].id, p.records[j].id;
      assert x != y && InStep(s.records[x], s.arena.live[x]) && InStep(s.records[y], s.arena.live[y]);
      assert ArenaSpec.Apart(s.arena.live[x], s.arena.live[y].offset, s.arena.live[y].offset + s.arena.live[y].size);
    }
  }

  lemma SnapshotIsStorable(s: GovernorState, p: PersistSnapshot, n: int)
    requires Lockstep(s) && Sound(s, n) && IsSnapshot(s, p) && s.domain.watermarks.Valid()
    requires |p.records| <= SnapshotFormat.MAX_RECORDS && |p.retired| <= SnapshotFormat.MAX_RECORDS
    ensures Storable(p)
  {
    hide Lockstep, Recordable, Listed, ValidRecord, TextsFit, PairwiseApart, DistinctIds;
    ListedSound(s.records, p.records, s.domain.managedCapacity, n);
    ListedSound(s.retired, p.retired, s.domain.managedCapacity, n);
    ListedDistinct(s, p);
    ListedApart(s, p);
  }

  /** Any snapshot of any reachable state is accepted by the decoder and comes back
      unchanged, as long as the lists fit the format. */
  lemma ReachableSnapshotSurvives(domain: MemoryDomain, ops: seq<Op>, p: PersistSnapshot)
    requires domain.watermarks.Valid() && RunFits(Fresh(domain), ops) && 1 + |ops| <= MAX64
    requires IsSnapshot(Run(Fresh(domain), ops), p)
    requires |p.records| <= SnapshotFormat.MAX_RECORDS && |p.retired| <= SnapshotFormat.MAX_RECORDS
    ensures Decode(Encode(p)) == Ok(p)
  {
    FreshIsLockstep(domain);
    hide Run, Lockstep, Encode, Decode, Recordable, IsSnapshot, Storable;
    RunSound(Fresh(domain), ops, 1);
    SnapshotIsStorable(Run(Fresh(domain), ops), p, 1 + |ops|);
    RoundTrip(p);
  }

  // ------------------------------------------- what the decoder lets through

  lemma OneRetiredIsStorable(p: PersistSnapshot, rec: AllocationRecord)
    requires p.records == [] && p.retired == [rec] && ValidRecord(rec, p.domain.managedCapacity) && TextsFit(rec)
    requires p.domain.watermarks.Valid()
    ensures Decode(Encode(p)) == Ok(p)
  {
    RoundTrip(p);
    hide Encode, Decode, ValidRecord;
    assert p.records + p.retired == [rec];
  }

  function RetiredRecord(id: u64): AllocationRecord {
    AllocationRecord(id, 1, 1, 1, 0, 1, 1, 1, RECLAIM_UNKNOWN, MOVABLE, 0, NONRESIDENT, LIFECYCLE_RELEASED, 0,
                     Origin(CLASS_UNKNOWN, [], 0, 0, 0, 0, 0, 0, 0, 0, 0, [], PROVENANCE_UNKNOWN), false)
  }

  lemma RetiredRecordIsValid(id: u64)
    ensures ValidRecord(RetiredRecord(id), 1) && TextsFit(RetiredRecord(id))
  {
    assert BitAnd(1, 0) == 0;
  }

  /** A file whose id counter is not above its ids is accepted, and the first request
      after restoring it is granted the id of the retired record. */
  lemma CounterIsNotChecked() returns (p: PersistSnapshot)
    ensures Decode(Encode(p)) == Ok(p) && !IdsIssued(p) && !Lockstep(Restore(p))
    ensures p.retired != [] && Restore(p).retired.Keys == {p.retired[0].id}
    ensures var ops := [OpInitialize(true, true), OpRequest(Reissue.Simple(1))];
            CurrentRecord(Run(Restore(p), ops), p.retired[0].id, 1)
  {
    var watermarks := Watermarks(0, 0, 0, 1);
    var domain := MemoryDomain(DomainIdentity(1, 1, 1, 1, 1, 1, 0), 1, 0, 0, 0, 0, 0, 0, 0, 0, 0, 0, watermarks);
    p := PersistSnapshot(domain, [], [RetiredRecord(7)], 7, 1);
    assert p.retired[0].id == 7;
    RetiredRecordIsValid(7);
    ZeroWatermarks(1);
    hide *;
    OneRetiredIsStorable(p, RetiredRecord(7));
    RestoreIsLockstep(p);
    OneRetired(p, RetiredRecord(7));
    Reissue.FirstGrant(p);
  }

  lemma OneRetired(p: PersistSnapshot, rec: AllocationRecord)
    requires p.records == [] && p.retired == [rec]
    ensures Restore(p).retired.Keys == {rec.id}
  {
    assert RevalidatedAll([]) + [rec] == [rec];
    assert Collect([rec]) == Collect([rec][..0])[rec.id := rec] && [rec][..0] == [];
  }

  /** The values of a retired record whose flag byte is 2. */
  function OddVals(): seq<Wire.Val> {
    SnapshotFormat.RecordVals(RetiredRecord(7))[27 := Wire.V8(2)]
  }

  lemma OddValsRead()
    ensures Wire.Shaped(OddVals(), SnapshotFormat.RECORD) && Wire.AllFit(OddVals())
    ensures SnapshotFormat.RecordOf(OddVals()) == RetiredRecord(7) && SnapshotFormat.Byte(OddVals()[27]) == 2
  {
    var v := SnapshotFormat.RecordVals(RetiredRecord(7));
    SnapshotFormat.RecordOfVals(RetiredRecord(7));
    RecordFits(RetiredRecord(7));
    assert SnapshotFormat.RECORD[27] == Wire.K8;
    assert forall i | 0 <= i < |v| && i != 27 :: OddVals()[i] == v[i];
  }

  function OddDomain(): MemoryDomain {
    MemoryDomain(DomainIdentity(1, 1, 1, 1, 1, 1, 0), 1, 0, 0, 0, 0, 0, 0, 0, 0, 0, 0, Watermarks(0, 0, 0, 1))
  }

  function OddRaw(): SnapshotFormat.Raw {
    SnapshotFormat.Raw(SnapshotFormat.DomainVals(OddDomain()), [], [OddVals()], 8, 1, 0)
  }

  lemma OddRawIsSound()
    ensures var raw := OddRaw();
            && SnapshotFormat.Wellformed(raw) && |raw.domain| == |SnapshotFormat.DOMAIN|
            && SnapshotFormat.AllSized(raw.records) && SnapshotFormat.AllSized(raw.retired)
            && SnapshotOf(raw) == PersistSnapshot(OddDomain(), [], [RetiredRecord(7)], 8, 1)
  {
    OddValsRead();
    SnapshotFormat.DomainOfVals(OddDomain());
    SnapshotFormat.ShapedSize(OddVals(), SnapshotFormat.RECORD);
    hide OddVals, SnapshotFormat.RecordOf, SnapshotFormat.DomainVals, SnapshotFormat.DomainOf, Wire.AllFit,
         RetiredRecord;
    assert SnapshotFormat.RecordsOf([OddVals()]) == [RetiredRecord(7)];
  }

  /** An accepted file with a flag byte of 2: it reads as "not recoverable", and
      encoding what was read gives a different file. */
  lemma OddFlagIsAccepted() returns (b: Types.Bytes)
    ensures Decode(b).Ok? && Encode(Decode(b).value) != b
  {
    var raw := OddRaw();
    b := FileOf(raw);
    OddValsRead();
    OddRawIsSound();
    RetiredRecordIsValid(7);
    ZeroWatermarks(1);
    OneRetiredIsStructural(RetiredRecord(7), OddDomain());
    hide OddVals, OddRaw, RetiredRecord, Decode, Encode, FileOf, Structural, SnapshotOf, SnapshotFormat.Wellformed,
         SnapshotFormat.Parse;
    assert raw.retired[0] == OddVals();
    SoundRawIsAccepted(raw);
    CanonicalIffFlags(b);
  }

  lemma OneRetiredIsStructural(rec: AllocationRecord, domain: MemoryDomain)
    requires ValidRecord(rec, domain.managedCapacity)
    ensures Structural(PersistSnapshot(domain, [], [rec], 8, 1))
  {
    assert [] + [rec] == [rec];
  }
}
