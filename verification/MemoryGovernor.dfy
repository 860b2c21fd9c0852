/** The governor object: one arena, the records bound to it, and the retired
    records, updated in place; each method proved against the state machine. */
module MemoryGovernance {
  import opened Machine
  import opened Types
  import opened Records
  import opened Pressure
  import opened Ordering
  import opened RegionAllocation
  import opened GovernorInvariants
  import opened Compaction
  import PlanSearch
  import opened Reclaim
  import ArenaSpec
  import Tiling
  import GovernorSpec
  import opened HandleSafety

  class MemoryGovernor {
    var domain: MemoryDomain
    var arena: RegionAllocator
    var records: map<u64, AllocationRecord>
    var retired: map<u64, AllocationRecord>
    var initialized: bool
    var nextAllocId: u64
    var historyCount: u64

    ghost function State(): GovernorSpec.GovernorState
      reads this, arena
      requires Tiling.Indexed(arena.regions, arena.allocOffset)
    {
      GovernorSpec.GovernorState(domain, arena.Model(), records, retired, initialized, nextAllocId, historyCount)
    }

    ghost predicate Valid()
      reads this, arena
    {
      arena.Valid() && Lockstep(State())
    }

    constructor (domain: MemoryDomain)
      ensures Valid() && fresh(arena) && State() == GovernorSpec.Fresh(domain)
    {
      this.domain := domain;
      this.arena := new RegionAllocator(domain.managedCapacity);
      this.records, this.retired := map[], map[];
      this.initialized, this.nextAllocId, this.historyCount := false, 1, 0;
    }

    method Initialize(hasBackend: bool, arenaAllocated: bool) returns (r: Result<()>)
      requires Valid()
      modifies this
      ensures Valid() && arena == old(arena)
      ensures (State(), r) == GovernorSpec.Initialize(old(State()), hasBackend, arenaAllocated)
    {
      if initialized {
        return Ok(());
      }
      if !hasBackend {
        return Err(INTERNAL_ERROR);
      }
      if domain.managedCapacity == 0 {
        return Err(INVALID_REQUEST);
      }
      if !arenaAllocated {
        return Err(PHYSICAL_OOM);
      }
      initialized := true;
      domain := domain.(health := HEALTHY);
      return Ok(());
    }

    method Record(id: u64, req: AllocationRequest, region: Region)
      modifies this`records, this`domain
      ensures records == old(records)[id := GovernorSpec.NewRecord(req, region)]
      ensures domain == GovernorSpec.Charge(old(domain), region.size, region.movability)
    {
      records := records[id := GovernorSpec.NewRecord(req, region)];
      domain := GovernorSpec.Charge(domain, region.size, region.movability);
    }

    /** A valid request: take the next id, then ask the arena. */
    method Grant(req: AllocationRequest) returns (r: Result<GovernorSpec.AllocationHandle>)
      requires arena.Valid() && nextAllocId !in arena.Model().live
      modifies this`records, this`domain, this`nextAllocId, arena
      ensures arena.Valid()
      ensures (State(), r) == GovernorSpec.Grant(old(State()), req)
    {
      hide ArenaSpec.BestRun, ArenaSpec.PlaceIn, ArenaSpec.CanAllocate, AlignUp, IsPow2, ArenaSpec.FreeBytes,
           GovernorSpec.Charge;
      var id := nextAllocId;
      nextAllocId := Add64(nextAllocId, 1);
      var a := arena.Allocate(GovernorSpec.ArenaRequest(req, id));
      match a {
        case Err(reason) => r := Err(reason);
        case Ok(region) =>
          Record(id, req, region);
          r := Ok(GovernorSpec.AllocationHandle(id, 1, region.offset, region.size, req.alignment));
      }
    }

    /** The object stays consistent unless the id counter wraps. */
    method Request(req: AllocationRequest) returns (r: Result<GovernorSpec.AllocationHandle>)
      requires Valid()
      modifies this, arena
      ensures arena.Valid() && arena == old(arena)
      ensures (State(), r) == GovernorSpec.Request(old(State()), req)
      ensures old(nextAllocId) < MAX64 ==> Valid()
    {
      hide Tiling.Canonical, Tiling.Indexed, Tiling.LiveView, Tiling.SlotsOf, LiveCount, LargestSize;
      if nextAllocId < MAX64 {
        RequestKeeps(State(), req);
      }
      hide ArenaSpec.Allocate, GovernorSpec.Charge, AlignUpChecked, ValidateRequest;
      assert nextAllocId !in arena.Model().live;
      var vf := ValidateRequest(req, domain.managedCapacity);
      var regionSize := AlignUpChecked(req.bytes, req.alignment);
      if vf.Err? {
        r := Err(vf.reason);
      } else if !initialized {
        r := Err(INTERNAL_ERROR);
      } else if regionSize == 0 || regionSize < req.bytes {
        r := Err(SIZE_OVERFLOW);
      } else {
        r := Grant(req);
      }
      if old(nextAllocId) < MAX64 {
        StillLockstep(GovernorSpec.Request(old(State()), req).0, State());
      }
    }

    method Retire(id: u64) returns (rel: AllocationRecord)
      requires id in records
      modifies this`records, this`retired, this`domain, this`historyCount
      ensures rel == GovernorSpec.Released(old(records)[id])
      ensures retired == old(retired)[id := rel] && records == ArenaSpec.Without(old(records), id)
      ensures domain == GovernorSpec.Discharge(old(domain), rel.regionSize, rel.movability)
      ensures historyCount == Add64(old(historyCount), 1)
    {
      rel := GovernorSpec.Released(records[id]);
      retired := retired[id := rel];
      records := ArenaSpec.Without(records, id);
      domain := GovernorSpec.Discharge(domain, rel.regionSize, rel.movability);
      historyCount := Add64(historyCount, 1);
    }

    method ReleaseCurrent(id: u64, gen: u64, ghost workerBoot: u64, ghost sourceBoot: u64)
        returns (r: Result<AllocationRecord>)
      requires arena.Valid() && GovernorSpec.ReleaseRefusal(State(), id, gen, workerBoot, sourceBoot).Ok?
      modifies this`records, this`retired, this`domain, this`historyCount, arena
      ensures arena.Valid()
      ensures (State(), r) == GovernorSpec.Release(old(State()), id, gen, workerBoot, sourceBoot)
    {
      hide Tiling.Canonical, Tiling.Indexed, Tiling.LiveView, Tiling.SlotsOf, LiveCount, LargestSize;
      var fr := arena.Free(id, gen);
      match fr {
        case Err(reason) => r := Err(reason);
        case Ok(_) =>
          var rel := Retire(id);
          r := Ok(rel);
      }
    }

    /** `release` passes unset authorities (0). */
    method Release(id: u64, gen: u64, workerBoot: u64, sourceBoot: u64) returns (r: Result<AllocationRecord>)
      requires Valid()
      modifies this, arena
      ensures Valid() && arena == old(arena)
      ensures (State(), r) == GovernorSpec.Release(old(State()), id, gen, workerBoot, sourceBoot)
    {
      hide Tiling.Canonical, Tiling.Indexed, Tiling.LiveView, Tiling.SlotsOf, LiveCount, LargestSize, Lockstep;
      ReleaseKeeps(State(), id, gen, workerBoot, sourceBoot);
      if id !in records {
        if id in retired && retired[id].generation == gen {
          r := Err(DOUBLE_FREE);
        } else {
          r := Err(STALE_GENERATION);
        }
      } else if records[id].generation != gen {
        r := Err(STALE_GENERATION);
      } else if workerBoot != 0 && workerBoot != records[id].origin.workerBoot {
        r := Err(STALE_AUTHORITY);
      } else if sourceBoot != 0 && sourceBoot != records[id].origin.sourceBoot {
        r := Err(STALE_AUTHORITY);
      } else if records[id].pinCount > 0 || records[id].residency == ACTIVE {
        r := Err(FREE_OF_ACTIVE_OR_PINNED);
      } else {
        r := ReleaseCurrent(id, gen, workerBoot, sourceBoot);
      }
      StillLockstep(GovernorSpec.Release(old(State()), id, gen, workerBoot, sourceBoot).0, State());
    }

    method NotePinned(id: u64, region: Region)
      requires id in records
      modifies this`records, this`domain
      ensures records == old(records)[id := GovernorSpec.PinnedRecord(old(records)[id], region)]
      ensures domain == GovernorSpec.NotePinned(old(domain), old(records)[id].regionSize)
    {
      var rec := GovernorSpec.PinnedRecord(records[id], region);
      records := records[id := rec];
      domain := domain.(currentMovable := SatSub(domain.currentMovable, rec.regionSize));
      domain := domain.(currentPinned := SatSub(domain.currentPinned, 0));
      domain := domain.(currentPinned := Add64(domain.currentPinned, rec.regionSize));
    }

    method PinCurrent(id: u64, gen: u64) returns (r: Result<()>)
      requires arena.Valid() && GovernorSpec.CurrentRecord(State(), id, gen)
      modifies this`records, this`domain, arena
      ensures arena.Valid()
      ensures (State(), r) == GovernorSpec.Pin(old(State()), id, gen)
    {
      hide Tiling.Canonical, Tiling.Indexed, Tiling.LiveView, Tiling.SlotsOf, LiveCount, LargestSize;
      var p := arena.Pin(id, gen);
      match p {
        case Err(reason) => r := Err(reason);
        case Ok(region) =>
          NotePinned(id, region);
          r := Ok(());
      }
    }

    method Pin(id: u64, gen: u64) returns (r: Result<()>)
      requires Valid()
      modifies this, arena
      ensures Valid() && arena == old(arena)
      ensures (State(), r) == GovernorSpec.Pin(old(State()), id, gen)
    {
      hide Tiling.Canonical, Tiling.Indexed, Tiling.LiveView, Tiling.SlotsOf, LiveCount, LargestSize, Lockstep;
      PinKeeps(State(), id, gen);
      if id !in records || records[id].generation != gen {
        r := Err(STALE_GENERATION);
      } else {
        r := PinCurrent(id, gen);
      }
      StillLockstep(GovernorSpec.Pin(old(State()), id, gen).0, State());
    }

    method NoteUnpinned(id: u64, region: Region)
      requires id in records
      modifies this`records, this`domain
      ensures records == old(records)[id := GovernorSpec.UnpinnedRecord(old(records)[id], region)]
      ensures domain == if region.pinCount == 0 then GovernorSpec.NoteUnpinned(old(domain), old(records)[id].regionSize)
                        else old(domain)
    {
      var rec := GovernorSpec.UnpinnedRecord(records[id], region);
      records := records[id := rec];
      if rec.pinCount == 0 {
        domain := domain.(currentPinned := SatSub(domain.currentPinned, rec.regionSize));
        domain := domain.(currentMovable := Add64(domain.currentMovable, rec.regionSize));
      }
    }

    method UnpinCurrent(id: u64, gen: u64) returns (r: Result<()>)
      requires arena.Valid() && GovernorSpec.CurrentRecord(State(), id, gen)
      modifies this`records, this`domain, arena
      ensures arena.Valid()
      ensures (State(), r) == GovernorSpec.Unpin(old(State()), id, gen)
    {
      hide Tiling.Canonical, Tiling.Indexed, Tiling.LiveView, Tiling.SlotsOf, LiveCount, LargestSize;
      var u := arena.Unpin(id, gen);
      match u {
        case Err(reason) => r := Err(reason);
        case Ok(region) =>
          NoteUnpinned(id, region);
          r := Ok(());
      }
    }

    method Unpin(id: u64, gen: u64) returns (r: Result<()>)
      requires Valid()
      modifies this, arena
      ensures Valid() && arena == old(arena)
      ensures (State(), r) == GovernorSpec.Unpin(old(State()), id, gen)
    {
      hide Tiling.Canonical, Tiling.Indexed, Tiling.LiveView, Tiling.SlotsOf, LiveCount, LargestSize, Lockstep;
      UnpinKeeps(State(), id, gen);
      if id !in records || records[id].generation != gen {
        r := Err(STALE_GENERATION);
      } else {
        r := UnpinCurrent(id, gen);
      }
      StillLockstep(GovernorSpec.Unpin(old(State()), id, gen).0, State());
    }

    method Get(id: u64, gen: u64) returns (r: Result<AllocationRecord>)
      requires Valid()
      ensures r == GovernorSpec.Get(State(), id, gen)
    {
      if id !in records || records[id].generation != gen {
        return Err(STALE_GENERATION);
      }
      var a := arena.Get(id, gen);
      match a {
        case Err(reason) => return Err(reason);
        case Ok(_) => return Ok(records[id]);
      }
    }

    method RelocateCurrent(id: u64, gen: u64, newOffset: u64, newSize: u64)
        returns (r: Result<GovernorSpec.AllocationHandle>)
      requires arena.Valid() && GovernorSpec.CurrentRecord(State(), id, gen) && records[id].pinCount == 0
      modifies this`records, arena
      ensures arena.Valid()
      ensures (State(), r) == GovernorSpec.ApplyRelocation(old(State()), id, gen, newOffset, newSize)
    {
      hide Tiling.Canonical, Tiling.Indexed, Tiling.LiveView, Tiling.SlotsOf, LiveCount, LargestSize;
      var m := arena.Relocate(id, gen, newOffset, newSize, records[id].alignment);
      match m {
        case Err(reason) => r := Err(reason);
        case Ok(region) =>
          var rec := GovernorSpec.Relocated(records[id], region);
          records := records[id := rec];
          r := Ok(GovernorSpec.AllocationHandle(id, rec.generation, region.offset, region.size, rec.alignment));
      }
    }

    method ApplyRelocation(id: u64, gen: u64, newOffset: u64, newSize: u64)
        returns (r: Result<GovernorSpec.AllocationHandle>)
      requires Valid()
      modifies this, arena
      ensures Valid() && arena == old(arena)
      ensures (State(), r) == GovernorSpec.ApplyRelocation(old(State()), id, gen, newOffset, newSize)
    {
      hide Tiling.Canonical, Tiling.Indexed, Tiling.LiveView, Tiling.SlotsOf, LiveCount, LargestSize, Lockstep;
      RelocationKeeps(State(), id, gen, newOffset, newSize);
      if id !in records || records[id].generation != gen {
        r := Err(STALE_GENERATION);
      } else if records[id].pinCount > 0 {
        r := Err(BLOCKED_BY_PINNED);
      } else {
        r := RelocateCurrent(id, gen, newOffset, newSize);
      }
      StillLockstep(GovernorSpec.ApplyRelocation(old(State()), id, gen, newOffset, newSize).0, State());
    }

    method ObservePressure() returns (p: u8)
      requires Valid()
      modifies this
      ensures Valid() && arena == old(arena)
      ensures State() == GovernorSpec.ObservePressure(old(State())) && p == State().domain.pressure
    {
      LiveBytesIgnoreIds(arena.Model(), 0);
      p := Evaluate(domain.managedCapacity, arena.liveBytes, domain.watermarks, domain.pressure);
      domain := domain.(pressure := p);
    }

    // ------------------------------------------------------------ reclaim

    method ReclaimableBytes() returns (total: u64)
      requires Valid()
      ensures total == |Covered(State().arena, ReclaimableIds(records))|
    {
      hide Lockstep, Covered, Reclaimable;
      var keys := SortedKeys(records.Keys);
      total := 0;
      ghost var done: set<u64> := {};
      CoverNone(State().arena);
      for i := 0 to |keys|
        invariant forall id :: id in done <==> id in keys[..i] && Reclaimable(records[id])
        invariant total == |Covered(State().arena, done)|
      {
        var id := keys[i];
        assert id in keys && id in records;
        assert keys[..i + 1] == keys[..i] + [id];
        if Reclaimable(records[id]) {
          assert id !in keys[..i];
          CoverRecord(State(), done, id);
          total := Add64(total, records[id].regionSize);
          done := done + {id};
        }
      }
      assert keys[..|keys|] == keys;
      assert done == ReclaimableIds(records);
    }

    method ReclaimCandidates(max: nat) returns (out: seq<u64>)
      requires Valid()
      ensures IsSelection(records, max, out)
    {
      out := SelectCandidates(records, max);
    }

    // --------------------------------------------------------- compaction

    method PlanCompaction() returns (plan: CompactionPlan)
      requires Valid()
      modifies arena`freeCount, arena`largestFree, arena`summaryDirty
      ensures Valid() && State() == old(State())
      ensures IsPlan(State().arena, plan)
    {
      plan := PlanSearch.PlanFor(arena);
    }

    // -------------------------------------------------------- persistence

    method Snapshot() returns (p: PersistSnapshot)
      requires Valid()
      ensures GovernorSpec.IsSnapshot(State(), p)
    {
      var live := ListRecords(records);
      var old_ := ListRecords(retired);
      p := PersistSnapshot(domain, live, old_, nextAllocId, historyCount);
    }

    method Reset(p: PersistSnapshot)
      modifies this
      ensures arena.Valid() && fresh(arena)
      ensures State() == GovernorSpec.Restore(p)
    {
      hide Tiling.Canonical, Tiling.Indexed, Tiling.SlotsOf, LiveCount, LargestSize, GovernorSpec.Collect;
      domain := p.domain;
      records := map[];
      nextAllocId, historyCount := p.nextAllocId, p.historyCount;
      retired := CollectRetired(p);
      arena := new RegionAllocator(domain.managedCapacity);
      domain := domain.(currentCommitted := 0, currentResident := 0, currentMovable := 0, currentPinned := 0);
      initialized := false;
      domain := domain.(health := HEALTH_UNKNOWN, pressure := PRESSURE_REVALIDATION_REQUIRED);
    }

    method Restore(p: PersistSnapshot)
      modifies this
      ensures arena.Valid() && fresh(arena)
      ensures State() == GovernorSpec.Restore(p)
      ensures Valid() <==> IdsIssued(p)
    {
      Reset(p);
      RestoreIsLockstep(p);
    }
  }

  lemma StillLockstep(s: GovernorSpec.GovernorState, t: GovernorSpec.GovernorState)
    requires Lockstep(s) && s == t
    ensures Lockstep(t)
  {
  }

  /** Surviving records are retired as needing revalidation, then the retired ones are added. */
  method CollectRetired(p: PersistSnapshot) returns (retired: map<u64, AllocationRecord>)
    ensures retired == GovernorSpec.Collect(GovernorSpec.RevalidatedAll(p.records) + p.retired)
  {
    hide GovernorSpec.Collect, GovernorSpec.Revalidated;
    retired := map[];
    ghost var v := GovernorSpec.RevalidatedAll(p.records) + p.retired;
    CollectNone();
    assert v[..0] == [];
    for i := 0 to |p.records|
      invariant retired == GovernorSpec.Collect(v[..i])
    {
      var rec := GovernorSpec.Revalidated(p.records[i]);
      CollectStep(v, i);
      retired := retired[rec.id := rec];
    }
    for i := 0 to |p.retired|
      invariant retired == GovernorSpec.Collect(v[..|p.records| + i])
    {
      CollectStep(v, |p.records| + i);
      retired := retired[p.retired[i].id := p.retired[i]];
    }
    assert v[..|v|] == v;
  }

  lemma CoverNone(a: ArenaSpec.ArenaState)
    ensures Covered(a, {}) == {}
  {
  }

  /** A record's size is what its block adds to the covered bytes. */
  lemma CoverRecord(s: GovernorSpec.GovernorState, done: set<u64>, id: u64)
    requires Lockstep(s) && id in s.records && id !in done
    ensures |Covered(s.arena, done + {id})| == |Covered(s.arena, done)| + s.records[id].regionSize <= s.arena.capacity
  {
    assert InStep(s.records[id], s.arena.live[id]);
    CoverAdd(s.arena, done, id);
  }

  lemma CollectNone()
    ensures GovernorSpec.Collect([]) == map[]
  {
  }

  lemma CollectStep(v: seq<AllocationRecord>, i: nat)
    requires i < |v|
    ensures GovernorSpec.Collect(v[..i + 1]) == GovernorSpec.Collect(v[..i])[v[i].id := v[i]]
  {
    assert v[..i + 1][..i] == v[..i];
  }

  ghost predicate SortedCandidates(m: map<u64, AllocationRecord>, c: seq<u64>) {
    && (forall i | 0 <= i < |c| :: c[i] in m && m[c[i]].id == c[i])
    && (forall i, j | 0 <= i < j < |c| :: Before(m[c[i]], m[c[j]]))
  }

  /** Insertion into an ordered candidate list. */
  function InsertCandidate(m: map<u64, AllocationRecord>, c: seq<u64>, id: u64): (r: seq<u64>)
    requires SortedCandidates(m, c) && id in m && m[id].id == id && id !in c
    ensures SortedCandidates(m, r)
    ensures forall x :: x in r <==> x in c || x == id
  {
    if c == [] then [id]
    else if Before(m[id], m[c[0]]) then [id] + c
    else
      BeforeIsStrict(m[id], m[c[0]]);
      assert forall x | x in c[1..] :: Before(m[c[0]], m[x]);
      [c[0]] + InsertCandidate(m, c[1..], id)
  }

  method SelectCandidates(m: map<u64, AllocationRecord>, max: nat) returns (out: seq<u64>)
    requires forall id | id in m :: m[id].id == id
    ensures IsSelection(m, max, out)
  {
    var keys := SortedKeys(m.Keys);
    var c: seq<u64> := [];
    for i := 0 to |keys|
      invariant SortedCandidates(m, c)
      invariant forall id :: id in c <==> id in keys[..i] && Selectable(m[id])
    {
      var id := keys[i];
      assert id in keys && id in m;
      assert keys[..i + 1] == keys[..i] + [id];
      if Selectable(m[id]) {
        assert id !in keys[..i];
        c := InsertCandidate(m, c, id);
      }
    }
    assert keys[..|keys|] == keys;
    out := if |c| <= max then c else c[..max];
    SelectionTaken(m, max, c, out);
  }

  lemma SelectionTaken(m: map<u64, AllocationRecord>, max: nat, c: seq<u64>, out: seq<u64>)
    requires SortedCandidates(m, c) && forall id :: id in c <==> id in m && Selectable(m[id])
    requires out == if |c| <= max then c else c[..max]
    ensures IsSelection(m, max, out)
  {
    forall i | 0 <= i < |out| ensures out[i] in m && Selectable(m[out[i]]) {
      assert out[i] == c[i] && c[i] in c;
    }
    forall id | id in m && Selectable(m[id]) && id !in out
      ensures |out| == max && forall i | 0 <= i < |out| :: Before(m[out[i]], m[id])
    {
      assert id in c;
      var k :| 0 <= k < |c| && c[k] == id;
      assert k >= max;
    }
  }

  method ListRecords(m: map<u64, AllocationRecord>) returns (v: seq<AllocationRecord>)
    requires forall id | id in m :: m[id].id == id
    ensures GovernorSpec.Listed(m, v)
  {
    var keys := SortedKeys(m.Keys);
    v := [];
    for i := 0 to |keys|
      invariant |v| == i && forall j | 0 <= j < i :: keys[j] in m && v[j] == m[keys[j]]
    {
      assert keys[i] in keys;
      v := v + [m[keys[i]]];
    }
    DistinctSize(keys);
    assert (set k | 0 <= k < |keys| :: keys[k]) == m.Keys by {
      forall x ensures x in (set k | 0 <= k < |keys| :: keys[k]) <==> x in m.Keys {
        assert x in keys <==> x in m.Keys;
      }
    }
  }
}
