/** The snapshot encoder and decoder as the source runs them: fields written and
    read one after another, then checked. */
module Persistence {
  import opened Machine
  import opened Types
  import opened Records
  import opened Pressure
  import opened Wire
  import opened Streams
  import opened Crc
  import opened SnapshotFormat
  import opened Snapshots
  import Validation

  // --------------------------------------------------------------- writing

  method WriteIdentity(w: Writer, r: AllocationRecord)
    requires w.Idle()
    modifies w
    ensures w.Idle() && w.Vals() == old(w.Vals()) + IdentityVals(r)
  {
    hide EncodeVals;
    w.Begin(IdentityVals(r));
    w.U64(r.id);
    w.U64(r.generation);
    w.U64(r.requestedBytes);
    w.U64(r.regionSize);
  }

  method WritePlace(w: Writer, r: AllocationRecord)
    requires w.Idle()
    modifies w
    ensures w.Idle() && w.Vals() == old(w.Vals()) + PlaceVals(r)
  {
    hide EncodeVals;
    w.Begin(PlaceVals(r));
    w.U64(r.offset);
    w.U64(r.alignment);
    w.U64(r.regionId);
    w.U64(r.regionGeneration);
  }

  method WriteClasses(w: Writer, r: AllocationRecord)
    requires w.Idle()
    modifies w
    ensures w.Idle() && w.Vals() == old(w.Vals()) + ClassVals(r)
  {
    hide EncodeVals;
    w.Begin(ClassVals(r));
    w.U8(r.origin.memClass);
    w.U8(r.reclaimability);
    w.U8(r.movability);
    w.U32(r.pinCount);
  }

  method WriteState(w: Writer, r: AllocationRecord)
    requires w.Idle()
    modifies w
    ensures w.Idle() && w.Vals() == old(w.Vals()) + StateVals(r)
  {
    hide EncodeVals;
    w.Begin(StateVals(r));
    w.U8(r.residency);
    w.U8(r.lifecycle);
    w.Str(r.origin.owner);
  }

  method WriteParties(w: Writer, r: AllocationRecord)
    requires w.Idle()
    modifies w
    ensures w.Idle() && w.Vals() == old(w.Vals()) + PartyVals(r)
  {
    hide EncodeVals;
    w.Begin(PartyVals(r));
    w.U64(r.origin.worker);
    w.U64(r.origin.workerBoot);
    w.U64(r.origin.sourceBoot);
    w.U64(r.origin.workload);
    w.U64(r.origin.execution);
  }

  method WriteGenerations(w: Writer, r: AllocationRecord)
    requires w.Idle()
    modifies w
    ensures w.Idle() && w.Vals() == old(w.Vals()) + GenerationVals(r)
  {
    hide EncodeVals;
    w.Begin(GenerationVals(r));
    w.U64(r.relocationGeneration);
    w.U64(r.origin.reservationGen);
    w.U64(r.origin.resourceClaimGen);
    w.U64(r.origin.placementGen);
    w.U64(r.origin.policyGen);
  }

  method WriteBacking(w: Writer, r: AllocationRecord)
    requires w.Idle()
    modifies w
    ensures w.Idle() && w.Vals() == old(w.Vals()) + BackingVals(r)
  {
    hide EncodeVals;
    w.Begin(BackingVals(r));
    w.Str(r.origin.backingRef);
    w.U8(r.origin.provenance);
    w.U8(Flag(r.recoverable));
  }

  method WriteRecord(w: Writer, r: AllocationRecord)
    requires w.Idle()
    modifies w
    ensures w.Idle() && w.Vals() == old(w.Vals()) + RecordVals(r)
  {
    hide EncodeVals, IdentityVals, PlaceVals, ClassVals, StateVals, PartyVals, GenerationVals, BackingVals;
    WriteIdentity(w, r);
    WritePlace(w, r);
    WriteClasses(w, r);
    WriteState(w, r);
    WriteParties(w, r);
    WriteGenerations(w, r);
    WriteBacking(w, r);
  }

  method WriteDomain(w: Writer, d: MemoryDomain)
    requires w.Idle()
    modifies w
    ensures w.Idle() && w.Vals() == old(w.Vals()) + DomainVals(d)
  {
    hide EncodeVals, DeviceVals, CapacityVals, CommitmentVals, CounterVals, ConditionVals, LevelVals;
    WriteDevice(w, d);
    WriteCapacities(w, d);
    WriteCommitments(w, d);
    WriteCounters(w, d);
    WriteCondition(w, d);
    WriteLevels(w, d);
  }

  method WriteDevice(w: Writer, d: MemoryDomain)
    requires w.Idle()
    modifies w
    ensures w.Idle() && w.Vals() == old(w.Vals()) + DeviceVals(d)
  {
    hide EncodeVals;
    w.Begin(DeviceVals(d));
    w.U64(d.identity.domainId);
    w.U64(d.identity.domainGeneration);
    w.U64(d.identity.deviceId);
    w.U64(d.identity.deviceGeneration);
  }

  method WriteCapacities(w: Writer, d: MemoryDomain)
    requires w.Idle()
    modifies w
    ensures w.Idle() && w.Vals() == old(w.Vals()) + CapacityVals(d)
  {
    hide EncodeVals;
    w.Begin(CapacityVals(d));
    w.U64(d.identity.totalCapacity);
    w.U64(d.identity.allocatorVisibleCapacity);
    w.U64(d.identity.reservedHeadroom);
    w.U64(d.managedCapacity);
  }

  method WriteCommitments(w: Writer, d: MemoryDomain)
    requires w.Idle()
    modifies w
    ensures w.Idle() && w.Vals() == old(w.Vals()) + CommitmentVals(d)
  {
    hide EncodeVals;
    w.Begin(CommitmentVals(d));
    w.U64(d.currentCommitted);
    w.U64(d.currentPhysicallyAllocated);
    w.U64(d.currentResident);
    w.U64(d.currentReclaimable);
  }

  method WriteCounters(w: Writer, d: MemoryDomain)
    requires w.Idle()
    modifies w
    ensures w.Idle() && w.Vals() == old(w.Vals()) + CounterVals(d)
  {
    hide EncodeVals;
    w.Begin(CounterVals(d));
    w.U64(d.currentMovable);
    w.U64(d.currentPinned);
    w.U64(d.externalFragmentation);
  }

  method WriteCondition(w: Writer, d: MemoryDomain)
    requires w.Idle()
    modifies w
    ensures w.Idle() && w.Vals() == old(w.Vals()) + ConditionVals(d)
  {
    hide EncodeVals;
    w.Begin(ConditionVals(d));
    w.U8(d.pressure);
    w.U8(d.health);
    w.U8(d.provenance);
  }

  method WriteLevels(w: Writer, d: MemoryDomain)
    requires w.Idle()
    modifies w
    ensures w.Idle() && w.Vals() == old(w.Vals()) + LevelVals(d)
  {
    hide EncodeVals;
    w.Begin(LevelVals(d));
    w.U64(d.watermarks.generation);
    w.U64(d.watermarks.low);
    w.U64(d.watermarks.high);
    w.U64(d.watermarks.critical);
  }

  /** A count and the records. */
  method WriteList(w: Writer, v: seq<AllocationRecord>)
    requires w.Idle()
    modifies w
    ensures w.Idle() && w.Vals() == old(w.Vals()) + ListVals(RecordsVals(v))
  {
    hide EncodeVals, RecordVals;
    ghost var rs := RecordsVals(v);
    w.Begin([V32(|v| % TWO32)]);
    w.U32(|v| % TWO32);
    ghost var before := w.Vals();
    for i := 0 to |v|
      invariant w.Idle() && w.Vals() == before + Flat(rs[..i])
    {
      WriteRecord(w, v[i]);
      FlatAppend(rs[..i], rs[i]);
      assert rs[..i + 1] == rs[..i] + [rs[i]];
      assert (before + Flat(rs[..i])) + rs[i] == before + (Flat(rs[..i]) + rs[i]);
    }
    assert rs[..|v|] == rs;
  }

  lemma {:induction false} FlatAppend(rs: seq<seq<Val>>, r: seq<Val>)
    ensures Flat(rs + [r]) == Flat(rs) + r
  {
    if rs == [] {
      assert Flat([r]) == r + Flat([]);
    } else {
      assert (rs + [r])[1..] == rs[1..] + [r];
      FlatAppend(rs[1..], r);
      assert rs[0] + (Flat(rs[1..]) + r) == (rs[0] + Flat(rs[1..])) + r;
    }
  }

  /** The file of a snapshot is its body, then the checksum. */
  lemma EncodeByParts(p: PersistSnapshot)
    ensures Encode(p) == EncodeVals(BodyVals(RawOf(p, 0)) + [V32(WordValue(Crc32(Body(p))))])
  {
    EncodeIsFile(p);
    BodyIgnoresStored(RawOf(p, WordValue(Crc32(Body(p)))));
    hide EncodeVals, BodyVals, Encode, Body, Crc32, WordValue;
  }

  method EncodeSnapshot(p: PersistSnapshot) returns (b: Bytes)
    ensures b == Encode(p)
  {
    hide EncodeVals, Encode, Body, Crc32, WordValue, BodyVals, RawOf;
    var w := WriteBody(p);
    var crc := Checksum(w.buf);
    w.Begin([V32(WordValue(crc))]);
    w.U32(WordValue(crc));
    b := w.buf;
    EncodeByParts(p);
    assert w.Vals() == BodyVals(RawOf(p, 0)) + [V32(WordValue(crc))];
  }

  method WriteBody(p: PersistSnapshot) returns (w: Writer)
    ensures fresh(w) && w.Idle() && w.Vals() == BodyVals(RawOf(p, 0)) && w.buf == Body(p)
  {
    hide EncodeVals, DomainVals, ListVals, RecordsVals;
    w := new Writer();
    w.Begin([V32(MAGIC), V32(VERSION)]);
    w.U32(MAGIC);
    w.U32(VERSION);
    assert w.Vals() == [V32(MAGIC), V32(VERSION)];
    WriteDomain(w, p.domain);
    WriteList(w, p.records);
    WriteList(w, p.retired);
    w.Begin([V64(p.nextAllocId), V64(p.historyCount)]);
    w.U64(p.nextAllocId);
    w.U64(p.historyCount);
    assert w.Vals() == BodyVals(RawOf(p, 0));
  }

  // --------------------------------------------------------------- reading

  /** `ks` was read from `s` and left `rest`. */
  ghost predicate Took(ks: seq<Kind>, s: Bytes, rest: Bytes) {
    DecodeVals(ks, s).Some? && DecodeVals(ks, s).value.1 == rest
  }

  ghost function Values(ks: seq<Kind>, s: Bytes): (v: seq<Val>)
    requires DecodeVals(ks, s).Some?
    ensures |v| == |ks|
  {
    DecodeVals(ks, s).value.0
  }

  ghost predicate Cannot(ks: seq<Kind>, s: Bytes) {
    DecodeVals(ks, s) == None
  }

  function WithIdentity(rec: AllocationRecord, v: seq<Val>): AllocationRecord
    requires |v| == |IDENTITY|
  {
    rec.(id := Quad(v[0]), generation := Quad(v[1]), requestedBytes := Quad(v[2]), regionSize := Quad(v[3]))
  }

  method ReadIdentity(r: Reader, rec: AllocationRecord) returns (o: Option<AllocationRecord>)
    requires r.Valid()
    modifies r
    ensures r.pos <= |r.b|
    ensures o.None? ==> Cannot(IDENTITY, old(r.Rest()))
    ensures o.Some? ==> r.Valid() && Took(IDENTITY, old(r.Rest()), r.Rest())
                        && o.value == WithIdentity(rec, Values(IDENTITY, old(r.Rest())))
  {
    hide Progress, DecodeVals;
    r.Begin(IDENTITY);
    var id :- r.U64();
    var generation :- r.U64();
    var requestedBytes :- r.U64();
    var regionSize :- r.U64();
    ProgressEnds(r.plan, r.start, r.got, r.Rest());
    return Some(rec.(id := id, generation := generation, requestedBytes := requestedBytes, regionSize :=
        regionSize));
  }

  function WithPlace(rec: AllocationRecord, v: seq<Val>): AllocationRecord
    requires |v| == |PLACE|
  {
    rec.(offset := Quad(v[0]), alignment := Quad(v[1]), regionId := Quad(v[2]), regionGeneration := Quad(v[3]))
  }

  method ReadPlace(r: Reader, rec: AllocationRecord) returns (o: Option<AllocationRecord>)
    requires r.Valid()
    modifies r
    ensures r.pos <= |r.b|
    ensures o.None? ==> Cannot(PLACE, old(r.Rest()))
    ensures o.Some? ==> r.Valid() && Took(PLACE, old(r.Rest()), r.Rest())
                        && o.value == WithPlace(rec, Values(PLACE, old(r.Rest())))
  {
    hide Progress, DecodeVals;
    r.Begin(PLACE);
    var offset :- r.U64();
    var alignment :- r.U64();
    var regionId :- r.U64();
    var regionGeneration :- r.U64();
    ProgressEnds(r.plan, r.start, r.got, r.Rest());
    return Some(rec.(offset := offset, alignment := alignment, regionId := regionId, regionGeneration :=
        regionGeneration));
  }

  function WithClasses(rec: AllocationRecord, v: seq<Val>): AllocationRecord
    requires |v| == |CLASSES|
  {
    rec.(reclaimability := Byte(v[1]), movability := Byte(v[2]), pinCount := Word(v[3]), origin :=
        rec.origin.(memClass := Byte(v[0])))
  }

  method ReadClasses(r: Reader, rec: AllocationRecord) returns (o: Option<AllocationRecord>)
    requires r.Valid()
    modifies r
    ensures r.pos <= |r.b|
    ensures o.None? ==> Cannot(CLASSES, old(r.Rest()))
    ensures o.Some? ==> r.Valid() && Took(CLASSES, old(r.Rest()), r.Rest())
                        && o.value == WithClasses(rec, Values(CLASSES, old(r.Rest())))
  {
    hide Progress, DecodeVals;
    r.Begin(CLASSES);
    var memClass :- r.U8();
    var reclaimability :- r.U8();
    var movability :- r.U8();
    var pinCount :- r.U32();
    ProgressEnds(r.plan, r.start, r.got, r.Rest());
    return Some(rec.(reclaimability := reclaimability, movability := movability, pinCount := pinCount, origin :=
        rec.origin.(memClass := memClass)));
  }

  function WithState(rec: AllocationRecord, v: seq<Val>): AllocationRecord
    requires |v| == |STATE|
  {
    rec.(residency := Byte(v[0]), lifecycle := Byte(v[1]), origin := rec.origin.(owner := Text(v[2])))
  }

  method ReadState(r: Reader, rec: AllocationRecord) returns (o: Option<AllocationRecord>)
    requires r.Valid()
    modifies r
    ensures r.pos <= |r.b|
    ensures o.None? ==> Cannot(STATE, old(r.Rest()))
    ensures o.Some? ==> r.Valid() && Took(STATE, old(r.Rest()), r.Rest())
                        && o.value == WithState(rec, Values(STATE, old(r.Rest())))
  {
    hide Progress, DecodeVals;
    r.Begin(STATE);
    var residency :- r.U8();
    var lifecycle :- r.U8();
    var owner :- r.Str();
    ProgressEnds(r.plan, r.start, r.got, r.Rest());
    return Some(rec.(residency := residency, lifecycle := lifecycle, origin := rec.origin.(owner := owner)));
  }

  function WithParties(rec: AllocationRecord, v: seq<Val>): AllocationRecord
    requires |v| == |PARTIES|
  {
    rec.(origin := rec.origin.(worker := Quad(v[0]), workerBoot := Quad(v[1]), sourceBoot := Quad(v[2]),
      workload := Quad(v[3]), execution := Quad(v[4])))
  }

  method ReadParties(r: Reader, rec: AllocationRecord) returns (o: Option<AllocationRecord>)
    requires r.Valid()
    modifies r
    ensures r.pos <= |r.b|
    ensures o.None? ==> Cannot(PARTIES, old(r.Rest()))
    ensures o.Some? ==> r.Valid() && Took(PARTIES, old(r.Rest()), r.Rest())
                        && o.value == WithParties(rec, Values(PARTIES, old(r.Rest())))
  {
    hide Progress, DecodeVals;
    r.Begin(PARTIES);
    var worker :- r.U64();
    var workerBoot :- r.U64();
    var sourceBoot :- r.U64();
    var workload :- r.U64();
    var execution :- r.U64();
    ProgressEnds(r.plan, r.start, r.got, r.Rest());
    return Some(rec.(origin := rec.origin.(worker := worker, workerBoot := workerBoot,
                  sourceBoot := sourceBoot, workload := workload, execution := execution)));
  }

  function WithGenerations(rec: AllocationRecord, v: seq<Val>): AllocationRecord
    requires |v| == |GENERATIONS|
  {
    rec.(relocationGeneration := Quad(v[0]), origin := rec.origin.(reservationGen := Quad(v[1]),
      resourceClaimGen := Quad(v[2]), placementGen := Quad(v[3]), policyGen := Quad(v[4])))
  }

  method ReadGenerations(r: Reader, rec: AllocationRecord) returns (o: Option<AllocationRecord>)
    requires r.Valid()
    modifies r
    ensures r.pos <= |r.b|
    ensures o.None? ==> Cannot(GENERATIONS, old(r.Rest()))
    ensures o.Some? ==> r.Valid() && Took(GENERATIONS, old(r.Rest()), r.Rest())
                        && o.value == WithGenerations(rec, Values(GENERATIONS, old(r.Rest())))
  {
    hide Progress, DecodeVals;
    r.Begin(GENERATIONS);
    var relocationGeneration :- r.U64();
    var reservationGen :- r.U64();
    var resourceClaimGen :- r.U64();
    var placementGen :- r.U64();
    var policyGen :- r.U64();
    ProgressEnds(r.plan, r.start, r.got, r.Rest());
    return Some(rec.(relocationGeneration := relocationGeneration,
                  origin := rec.origin.(reservationGen := reservationGen,
                  resourceClaimGen := resourceClaimGen, placementGen := placementGen, policyGen := policyGen)));
  }

  function WithBacking(rec: AllocationRecord, v: seq<Val>): AllocationRecord
    requires |v| == |BACKING|
  {
    rec.(recoverable := Byte(v[2]) == 1, origin := rec.origin.(backingRef := Text(v[0]),
      provenance := Byte(v[1])))
  }

  method ReadBacking(r: Reader, rec: AllocationRecord) returns (o: Option<AllocationRecord>)
    requires r.Valid()
    modifies r
    ensures r.pos <= |r.b|
    ensures o.None? ==> Cannot(BACKING, old(r.Rest()))
    ensures o.Some? ==> r.Valid() && Took(BACKING, old(r.Rest()), r.Rest())
                        && o.value == WithBacking(rec, Values(BACKING, old(r.Rest())))
  {
    hide Progress, DecodeVals;
    r.Begin(BACKING);
    var backingRef :- r.Str();
    var provenance :- r.U8();
    var recoverable :- r.U8();
    ProgressEnds(r.plan, r.start, r.got, r.Rest());
    return Some(rec.(recoverable := recoverable == 1, origin := rec.origin.(backingRef := backingRef,
                  provenance := provenance)));
  }

  function WithDevice(d: MemoryDomain, v: seq<Val>): MemoryDomain
    requires |v| == |DEVICE|
  {
    d.(identity := d.identity.(domainId := Quad(v[0]), domainGeneration := Quad(v[1]), deviceId := Quad(v[2]),
        deviceGeneration := Quad(v[3])))
  }

  method ReadDevice(r: Reader, d: MemoryDomain) returns (o: Option<MemoryDomain>)
    requires r.Valid()
    modifies r
    ensures r.pos <= |r.b|
    ensures o.None? ==> Cannot(DEVICE, old(r.Rest()))
    ensures o.Some? ==> r.Valid() && Took(DEVICE, old(r.Rest()), r.Rest())
                        && o.value == WithDevice(d, Values(DEVICE, old(r.Rest())))
  {
    hide Progress, DecodeVals;
    r.Begin(DEVICE);
    var domainId :- r.U64();
    var domainGeneration :- r.U64();
    var deviceId :- r.U64();
    var deviceGeneration :- r.U64();
    ProgressEnds(r.plan, r.start, r.got, r.Rest());
    return Some(d.(identity := d.identity.(domainId := domainId, domainGeneration := domainGeneration, deviceId :=
        deviceId, deviceGeneration := deviceGeneration)));
  }

  function WithCapacities(d: MemoryDomain, v: seq<Val>): MemoryDomain
    requires |v| == |CAPACITIES|
  {
    d.(managedCapacity := Quad(v[3]), identity := d.identity.(totalCapacity := Quad(v[0]), allocatorVisibleCapacity
        := Quad(v[1]), reservedHeadroom := Quad(v[2])))
  }

  method ReadCapacities(r: Reader, d: MemoryDomain) returns (o: Option<MemoryDomain>)
    requires r.Valid()
    modifies r
    ensures r.pos <= |r.b|
    ensures o.None? ==> Cannot(CAPACITIES, old(r.Rest()))
    ensures o.Some? ==> r.Valid() && Took(CAPACITIES, old(r.Rest()), r.Rest())
                        && o.value == WithCapacities(d, Values(CAPACITIES, old(r.Rest())))
  {
    hide Progress, DecodeVals;
    r.Begin(CAPACITIES);
    var totalCapacity :- r.U64();
    var allocatorVisibleCapacity :- r.U64();
    var reservedHeadroom :- r.U64();
    var managedCapacity :- r.U64();
    ProgressEnds(r.plan, r.start, r.got, r.Rest());
    return Some(d.(managedCapacity := managedCapacity, identity := d.identity.(totalCapacity := totalCapacity,
        allocatorVisibleCapacity := allocatorVisibleCapacity, reservedHeadroom := reservedHeadroom)));
  }

  function WithCommitments(d: MemoryDomain, v: seq<Val>): MemoryDomain
    requires |v| == |COMMITMENTS|
  {
    d.(currentCommitted := Quad(v[0]), currentPhysicallyAllocated := Quad(v[1]), currentResident := Quad(v[2]),
        currentReclaimable := Quad(v[3]))
  }

  method ReadCommitments(r: Reader, d: MemoryDomain) returns (o: Option<MemoryDomain>)
    requires r.Valid()
    modifies r
    ensures r.pos <= |r.b|
    ensures o.None? ==> Cannot(COMMITMENTS, old(r.Rest()))
    ensures o.Some? ==> r.Valid() && Took(COMMITMENTS, old(r.Rest()), r.Rest())
                        && o.value == WithCommitments(d, Values(COMMITMENTS, old(r.Rest())))
  {
    hide Progress, DecodeVals;
    r.Begin(COMMITMENTS);
    var currentCommitted :- r.U64();
    var currentPhysicallyAllocated :- r.U64();
    var currentResident :- r.U64();
    var currentReclaimable :- r.U64();
    ProgressEnds(r.plan, r.start, r.got, r.Rest());
    return Some(d.(currentCommitted := currentCommitted, currentPhysicallyAllocated := currentPhysicallyAllocated,
        currentResident := currentResident, currentReclaimable := currentReclaimable));
  }

  function WithCounters(d: MemoryDomain, v: seq<Val>): MemoryDomain
    requires |v| == |COUNTERS|
  {
    d.(currentMovable := Quad(v[0]), currentPinned := Quad(v[1]), externalFragmentation := Quad(v[2]))
  }

  method ReadCounters(r: Reader, d: MemoryDomain) returns (o: Option<MemoryDomain>)
    requires r.Valid()
    modifies r
    ensures r.pos <= |r.b|
    ensures o.None? ==> Cannot(COUNTERS, old(r.Rest()))
    ensures o.Some? ==> r.Valid() && Took(COUNTERS, old(r.Rest()), r.Rest())
                        && o.value == WithCounters(d, Values(COUNTERS, old(r.Rest())))
  {
    hide Progress, DecodeVals;
    r.Begin(COUNTERS);
    var currentMovable :- r.U64();
    var currentPinned :- r.U64();
    var externalFragmentation :- r.U64();
    ProgressEnds(r.plan, r.start, r.got, r.Rest());
    return Some(d.(currentMovable := currentMovable, currentPinned := currentPinned, externalFragmentation :=
        externalFragmentation));
  }

  function WithCondition(d: MemoryDomain, v: seq<Val>): MemoryDomain
    requires |v| == |CONDITION|
  {
    d.(pressure := Byte(v[0]), health := Byte(v[1]), provenance := Byte(v[2]))
  }

  method ReadCondition(r: Reader, d: MemoryDomain) returns (o: Option<MemoryDomain>)
    requires r.Valid()
    modifies r
    ensures r.pos <= |r.b|
    ensures o.None? ==> Cannot(CONDITION, old(r.Rest()))
    ensures o.Some? ==> r.Valid() && Took(CONDITION, old(r.Rest()), r.Rest())
                        && o.value == WithCondition(d, Values(CONDITION, old(r.Rest())))
  {
    hide Progress, DecodeVals;
    r.Begin(CONDITION);
    var pressure :- r.U8();
    var health :- r.U8();
    var provenance :- r.U8();
    ProgressEnds(r.plan, r.start, r.got, r.Rest());
    return Some(d.(pressure := pressure, health := health, provenance := provenance));
  }

  function WithLevels(d: MemoryDomain, v: seq<Val>): MemoryDomain
    requires |v| == |LEVELS|
  {
    d.(watermarks := d.watermarks.(generation := Quad(v[0]), low := Quad(v[1]), high := Quad(v[2]), critical :=
        Quad(v[3])))
  }

  method ReadLevels(r: Reader, d: MemoryDomain) returns (o: Option<MemoryDomain>)
    requires r.Valid()
    modifies r
    ensures r.pos <= |r.b|
    ensures o.None? ==> Cannot(LEVELS, old(r.Rest()))
    ensures o.Some? ==> r.Valid() && Took(LEVELS, old(r.Rest()), r.Rest())
                        && o.value == WithLevels(d, Values(LEVELS, old(r.Rest())))
  {
    hide Progress, DecodeVals;
    r.Begin(LEVELS);
    var generation :- r.U64();
    var low :- r.U64();
    var high :- r.U64();
    var critical :- r.U64();
    ProgressEnds(r.plan, r.start, r.got, r.Rest());
    return Some(d.(watermarks := d.watermarks.(generation := generation, low := low, high := high, critical :=
        critical)));
  }

  const BLANK_RECORD := AllocationRecord(
    0, 0, 0, 0, 0, 0, 0, 0, 0, 0, 0, 0, 0, 0, Origin(0, [], 0, 0, 0, 0, 0, 0, 0, 0, 0, [], 0), false)

  /** The record that seven groups of values make up. */
  function RecordFrom(a: seq<Val>, b: seq<Val>, c: seq<Val>, d: seq<Val>, e: seq<Val>, f: seq<Val>, g: seq<Val>)
      : AllocationRecord
    requires |a| == |IDENTITY| && |b| == |PLACE| && |c| == |CLASSES| && |d| == |STATE| && |e| == |PARTIES|
    requires |f| == |GENERATIONS| && |g| == |BACKING|
  {
    var placed := WithPlace(WithIdentity(BLANK_RECORD, a), b);
    var described := WithParties(WithState(WithClasses(placed, c), d), e);
    WithBacking(WithGenerations(described, f), g)
  }

  lemma RecordFromGroups(a: seq<Val>, b: seq<Val>, c: seq<Val>, d: seq<Val>, e: seq<Val>, f: seq<Val>, g: seq<Val>)
    requires |a| == |IDENTITY| && |b| == |PLACE| && |c| == |CLASSES| && |d| == |STATE| && |e| == |PARTIES|
    requires |f| == |GENERATIONS| && |g| == |BACKING|
    ensures RecordOf(a + b + c + d + e + f + g) == RecordFrom(a, b, c, d, e, f, g)
  {
  }

  /** A record is read group by group. */
  function RecordByGroups(s: Bytes): Option<(AllocationRecord, Bytes)> {
    var (a, s1) :- DecodeVals(IDENTITY, s);
    var (b, s2) :- DecodeVals(PLACE, s1);
    var (c, s3) :- DecodeVals(CLASSES, s2);
    var (d, s4) :- DecodeVals(STATE, s3);
    var (e, s5) :- DecodeVals(PARTIES, s4);
    var (f, s6) :- DecodeVals(GENERATIONS, s5);
    var (g, s7) :- DecodeVals(BACKING, s6);
    Some((RecordFrom(a, b, c, d, e, f, g), s7))
  }

  lemma GroupsAreRecord(s: Bytes)
    ensures RecordByGroups(s) == ParseRecord(s)
  {
    hide DecodeVals, RecordOf, RecordFrom;
    DecodeConcat(IDENTITY, PLACE, s);
    DecodeConcat(IDENTITY + PLACE, CLASSES, s);
    DecodeConcat(IDENTITY + PLACE + CLASSES, STATE, s);
    DecodeConcat(IDENTITY + PLACE + CLASSES + STATE, PARTIES, s);
    DecodeConcat(IDENTITY + PLACE + CLASSES + STATE + PARTIES, GENERATIONS, s);
    DecodeConcat(IDENTITY + PLACE + CLASSES + STATE + PARTIES + GENERATIONS, BACKING, s);
    if RecordByGroups(s).Some? {
      var (a, s1) := DecodeVals(IDENTITY, s).value;
      var (b, s2) := DecodeVals(PLACE, s1).value;
      var (c, s3) := DecodeVals(CLASSES, s2).value;
      var (d, s4) := DecodeVals(STATE, s3).value;
      var (e, s5) := DecodeVals(PARTIES, s4).value;
      var (f, s6) := DecodeVals(GENERATIONS, s5).value;
      var (g, s7) := DecodeVals(BACKING, s6).value;
      RecordFromGroups(a, b, c, d, e, f, g);
    }
  }

  method ReadRecord(r: Reader) returns (o: Option<AllocationRecord>)
    requires r.Valid()
    modifies r
    ensures r.pos <= |r.b|
    ensures o.None? ==> ParseRecord(old(r.Rest())) == None
    ensures o.Some? ==> r.Valid() && ParseRecord(old(r.Rest())) == Some((o.value, r.Rest()))
  {
    GroupsAreRecord(r.Rest());
    hide DecodeVals, Progress, ParseRecord, WithIdentity, WithPlace, WithClasses, WithState, WithParties,
         WithGenerations, WithBacking;
    var withIdentity :- ReadIdentity(r, BLANK_RECORD);
    var withPlace :- ReadPlace(r, withIdentity);
    var withClasses :- ReadClasses(r, withPlace);
    var withState :- ReadState(r, withClasses);
    var withParties :- ReadParties(r, withState);
    var withGenerations :- ReadGenerations(r, withParties);
    var rec :- ReadBacking(r, withGenerations);
    return Some(rec);
  }

  const BLANK_DOMAIN := MemoryDomain(
    DomainIdentity(0, 0, 0, 0, 0, 0, 0), 0, 0, 0, 0, 0, 0, 0, 0, 0, 0, 0, Watermarks(0, 0, 0, 0))

  /** The domain that six groups of values make up. */
  function DomainFrom(a: seq<Val>, b: seq<Val>, c: seq<Val>, d: seq<Val>, e: seq<Val>, f: seq<Val>): MemoryDomain
    requires |a| == |DEVICE| && |b| == |CAPACITIES| && |c| == |COMMITMENTS| && |d| == |COUNTERS|
    requires |e| == |CONDITION| && |f| == |LEVELS|
  {
    var sized := WithCapacities(WithDevice(BLANK_DOMAIN, a), b);
    WithLevels(WithCondition(WithCounters(WithCommitments(sized, c), d), e), f)
  }

  lemma DomainFromGroups(a: seq<Val>, b: seq<Val>, c: seq<Val>, d: seq<Val>, e: seq<Val>, f: seq<Val>)
    requires |a| == |DEVICE| && |b| == |CAPACITIES| && |c| == |COMMITMENTS| && |d| == |COUNTERS|
    requires |e| == |CONDITION| && |f| == |LEVELS|
    ensures DomainOf(a + b + c + d + e + f) == DomainFrom(a, b, c, d, e, f)
  {
  }

  function DomainByGroups(s: Bytes): Option<(MemoryDomain, Bytes)> {
    var (a, s1) :- DecodeVals(DEVICE, s);
    var (b, s2) :- DecodeVals(CAPACITIES, s1);
    var (c, s3) :- DecodeVals(COMMITMENTS, s2);
    var (d, s4) :- DecodeVals(COUNTERS, s3);
    var (e, s5) :- DecodeVals(CONDITION, s4);
    var (f, s6) :- DecodeVals(LEVELS, s5);
    Some((DomainFrom(a, b, c, d, e, f), s6))
  }

  lemma GroupsAreDomain(s: Bytes)
    ensures DomainByGroups(s) ==
            match DecodeVals(DOMAIN, s)
            case None => None
            case Some((v, rest)) => Some((DomainOf(v), rest))
  {
    hide DecodeVals, DomainOf, DomainFrom;
    DecodeConcat(DEVICE, CAPACITIES, s);
    DecodeConcat(DEVICE + CAPACITIES, COMMITMENTS, s);
    DecodeConcat(DEVICE + CAPACITIES + COMMITMENTS, COUNTERS, s);
    DecodeConcat(DEVICE + CAPACITIES + COMMITMENTS + COUNTERS, CONDITION, s);
    DecodeConcat(DEVICE + CAPACITIES + COMMITMENTS + COUNTERS + CONDITION, LEVELS, s);
    if DomainByGroups(s).Some? {
      var (a, s1) := DecodeVals(DEVICE, s).value;
      var (b, s2) := DecodeVals(CAPACITIES, s1).value;
      var (c, s3) := DecodeVals(COMMITMENTS, s2).value;
      var (d, s4) := DecodeVals(COUNTERS, s3).value;
      var (e, s5) := DecodeVals(CONDITION, s4).value;
      var (f, s6) := DecodeVals(LEVELS, s5).value;
      DomainFromGroups(a, b, c, d, e, f);
    }
  }

  method ReadDomain(r: Reader) returns (o: Option<MemoryDomain>)
    requires r.Valid()
    modifies r
    ensures r.pos <= |r.b|
    ensures o.None? ==> Cannot(DOMAIN, old(r.Rest()))
    ensures o.Some? ==> r.Valid() && Took(DOMAIN, old(r.Rest()), r.Rest())
                        && o.value == DomainOf(Values(DOMAIN, old(r.Rest())))
  {
    GroupsAreDomain(r.Rest());
    hide DecodeVals, Progress, WithDevice, WithCapacities, WithCommitments, WithCounters, WithCondition, WithLevels,
         DomainOf;
    var withDevice :- ReadDevice(r, BLANK_DOMAIN);
    var withCapacities :- ReadCapacities(r, withDevice);
    var withCommitments :- ReadCommitments(r, withCapacities);
    var withCounters :- ReadCounters(r, withCommitments);
    var withCondition :- ReadCondition(r, withCounters);
    var d :- ReadLevels(r, withCondition);
    return Some(d);
  }

  /** The magic number, the version and the domain. */
  method ReadHead(r: Reader) returns (o: Option<MemoryDomain>)
    requires r.Valid()
    modifies r
    ensures r.pos <= |r.b|
    ensures o.None? ==> ParseDomain(old(r.Rest())) == None
    ensures o.Some? ==> r.Valid() && ParseDomain(old(r.Rest())).Some?
                        && ParseDomain(old(r.Rest())).value.1 == r.Rest()
                        && DomainOf(ParseDomain(old(r.Rest())).value.0) == o.value
  {
    hide DecodeVals, Progress, DomainOf;
    r.Begin([K32, K32]);
    var magic :- r.U32();
    if magic != MAGIC {
      return None;
    }
    var version :- r.U32();
    if version != VERSION {
      return None;
    }
    ProgressEnds(r.plan, r.start, r.got, r.Rest());
    var d :- ReadDomain(r);
    return Some(d);
  }

  /** A record count, then that many records. */
  method ReadList(r: Reader) returns (o: Option<seq<AllocationRecord>>)
    requires r.Valid()
    modifies r
    ensures r.pos <= |r.b|
    ensures o.None? ==> ParseList(old(r.Rest())) == None
    ensures o.Some? ==> r.Valid() && ParseList(old(r.Rest())).Some?
                        && ParseList(old(r.Rest())).value.1 == r.Rest()
                        && RecordsOf(ParseList(old(r.Rest())).value.0) == o.value
  {
    hide DecodeVals, Progress, RecordOf, ParseRecord, ParseRecords;
    r.Begin([K32]);
    var count :- r.U32();
    if count > MAX_RECORDS {
      return None;
    }
    ProgressEnds(r.plan, r.start, r.got, r.Rest());
    ghost var s := r.Rest();
    var v: seq<AllocationRecord> := [];
    RecordsStart(count, s);
    for i := 0 to count
      invariant r.Valid() && RecordsSoFar(count, s, v, r.Rest()) && |v| == i
    {
      ghost var before := r.Rest();
      RecordsStep(count, s, v, before);
      var rec :- ReadRecord(r);
      v := v + [rec];
    }
    RecordsEnd(count, s, v, r.Rest());
    return Some(v);
  }

  /** `v` are the first records of `n` to be read from `s`; the rest are in `rest`. */
  ghost predicate RecordsSoFar(n: nat, s: Bytes, v: seq<AllocationRecord>, rest: Bytes) {
    |v| <= n &&
    match ParseRecords(n - |v|, rest)
    case None => ParseRecords(n, s) == None
    case Some((rs, end)) => ParseRecords(n, s).Some? && ParseRecords(n, s).value.1 == end
                            && RecordsOf(ParseRecords(n, s).value.0) == v + RecordsOf(rs)
  }

  lemma RecordsStart(n: nat, s: Bytes)
    ensures RecordsSoFar(n, s, [], s)
  {
    hide ParseRecords, RecordOf;
    match ParseRecords(n, s)
    case None =>
    case Some((rs, _)) => assert [] + RecordsOf(rs) == RecordsOf(rs);
  }

  lemma RecordsStep(n: nat, s: Bytes, v: seq<AllocationRecord>, rest: Bytes)
    requires RecordsSoFar(n, s, v, rest) && |v| < n
    ensures match ParseRecord(rest)
            case None => ParseRecords(n, s) == None
            case Some((rec, mid)) => RecordsSoFar(n, s, v + [rec], mid)
  {
    hide DecodeVals, RecordOf;
    match DecodeVals(RECORD, rest)
    case None =>
    case Some((w, mid)) =>
      match ParseRecords(n - |v| - 1, mid)
      case None =>
      case Some((rs, end)) => RecordsShift(v, w, rs);
  }

  lemma RecordsShift(v: seq<AllocationRecord>, w: seq<Val>, rs: seq<seq<Val>>)
    requires |w| == |RECORD| && AllSized(rs)
    ensures v + RecordsOf([w] + rs) == (v + [RecordOf(w)]) + RecordsOf(rs)
  {
    hide RecordOf;
    assert RecordsOf([w] + rs) == [RecordOf(w)] + RecordsOf(rs);
  }

  lemma RecordsEnd(n: nat, s: Bytes, v: seq<AllocationRecord>, rest: Bytes)
    requires RecordsSoFar(n, s, v, rest) && |v| == n
    ensures ParseRecords(n, s).Some? && ParseRecords(n, s).value.1 == rest && RecordsOf(ParseRecords(n, s).value.0) == v
  {
    assert v + RecordsOf([]) == v;
  }

  /** A file is read part by part. */
  function FileByParts(s: Bytes): Option<(PersistSnapshot, u32, Bytes)> {
    var (domain, s1) :- ParseDomain(s);
    var (records, s2) :- ParseList(s1);
    var (retired, s3) :- ParseList(s2);
    var (tail, rest) :- DecodeVals([K64, K64, K32], s3);
    Some((PersistSnapshot(DomainOf(domain), RecordsOf(records), RecordsOf(retired), Quad(tail[0]), Quad(tail[1])),
          Word(tail[2]), rest))
  }

  lemma PartsAreFile(s: Bytes)
    ensures FileByParts(s) ==
            match Parse(s)
            case None => None
            case Some((raw, rest)) => Some((SnapshotOf(raw), raw.stored, rest))
  {
    hide ParseDomain, ParseList, DecodeVals, DomainOf, RecordsOf;
  }

  /** The two counters and the stored checksum. */
  method ReadTail(r: Reader) returns (o: Option<(u64, u64, u32)>)
    requires r.Valid()
    modifies r
    ensures r.pos <= |r.b|
    ensures o.None? ==> Cannot([K64, K64, K32], old(r.Rest()))
    ensures o.Some? ==> r.Valid() && Took([K64, K64, K32], old(r.Rest()), r.Rest())
                        && var v := Values([K64, K64, K32], old(r.Rest()));
                           o.value == (Quad(v[0]), Quad(v[1]), Word(v[2]))
  {
    hide Progress, DecodeVals;
    r.Begin([K64, K64, K32]);
    var nextAllocId :- r.U64();
    var historyCount :- r.U64();
    var stored :- r.U32();
    ProgressEnds(r.plan, r.start, r.got, r.Rest());
    return Some((nextAllocId, historyCount, stored));
  }

  /** Everything up to and including the stored checksum; files with invalid
      watermarks are refused as soon as the domain is read. */
  method ReadParts(r: Reader) returns (o: Option<(PersistSnapshot, u32)>)
    requires r.Valid()
    modifies r
    ensures r.pos <= |r.b|
    ensures o.None? ==> FileByParts(old(r.Rest())).None?
                        || !FileByParts(old(r.Rest())).value.0.domain.watermarks.Valid()
    ensures o.Some? ==> r.Valid() && FileByParts(old(r.Rest())) == Some((o.value.0, o.value.1, r.Rest()))
                        && o.value.0.domain.watermarks.Valid()
  {
    hide DecodeVals, Progress, DomainOf, RecordsOf, ParseDomain, ParseList;
    var domain :- ReadHead(r);
    if !domain.watermarks.Valid() {
      return None;
    }
    var records :- ReadList(r);
    var retired :- ReadList(r);
    var tail :- ReadTail(r);
    return Some((PersistSnapshot(domain, records, retired, tail.0, tail.1), tail.2));
  }

  method ReadFile(b: Bytes) returns (o: Option<(PersistSnapshot, u32)>)
    ensures o.None? ==> Decode(b).Err?
    ensures o.Some? ==> |b| >= 4 && FileByParts(b) == Some((o.value.0, o.value.1, []))
                        && o.value.0.domain.watermarks.Valid()
  {
    PartsAreFile(b);
    hide FileByParts, Parse, Structural, Checked, SnapshotOf;
    var r := new Reader(b);
    var p :- ReadParts(r);
    var left := r.Remaining();
    if left != 0 {
      return None;
    }
    EndsInFour(b);
    return Some(p);
  }

  lemma EndsInFour(b: Bytes)
    requires Parse(b).Some?
    ensures |b| >= 4
  {
    FileParse(b);
    FileIsBodyAndStored(Parse(b).value.0);
  }

  method DecodeSnapshot(b: Bytes) returns (r: Result<PersistSnapshot>)
    ensures r == Decode(b)
  {
    PartsAreFile(b);
    hide FileByParts, Parse, Structural, SnapshotOf, Crc32, WordValue;
    var o := ReadFile(b);
    if o.None? {
      return Err(INTERNAL_ERROR);
    }
    var (p, stored) := o.value;
    var crc := Checksum(b[..|b| - 4]);
    if stored != WordValue(crc) {
      return Err(INTERNAL_ERROR);
    }
    var sound := Validation.CheckStructure(p);
    if !sound {
      return Err(INTERNAL_ERROR);
    }
    return Ok(p);
  }
}
