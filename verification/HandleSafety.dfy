/** Stale handles stay dead over whole runs, including crashes and recovery. */
module HandleSafety {
  import opened Machine
  import opened Records
  import opened GovernorSpec
  import opened GovernorInvariants
  import opened ArenaSpec

  /** The handle was issued, and its allocation is gone or has a newer generation. */
  ghost predicate Dead(s: GovernorState, id: u64, gen: u64) {
    id < s.nextAllocId && (id in s.records ==> gen < s.records[id].generation)
  }

  /** `n` more steps exhaust neither the id counter nor any generation. */
  ghost predicate Headroom(s: GovernorState, n: nat) {
    s.nextAllocId + n <= MAX64 && forall id | id in s.records :: s.records[id].generation + n <= MAX64
  }

  /** Nothing accepts a dead handle, and trying changes nothing. */
  lemma DeadIsRejected(s: GovernorState, id: u64, gen: u64)
    requires Lockstep(s) && Dead(s, id, gen)
    ensures Get(s, id, gen).Err?
    ensures forall wb, sb :: Release(s, id, gen, wb, sb).1.Err? && Release(s, id, gen, wb, sb).0 == s
    ensures Pin(s, id, gen).1.Err? && Pin(s, id, gen).0 == s
    ensures Unpin(s, id, gen).1.Err? && Unpin(s, id, gen).0 == s
    ensures forall off, size ::
              ApplyRelocation(s, id, gen, off, size).1.Err? && ApplyRelocation(s, id, gen, off, size).0 == s
  {
    assert !CurrentRecord(s, id, gen);
    forall wb: u64, sb: u64 ensures ReleaseRefusal(s, id, gen, wb, sb).Err? {
    }
  }

  /** A released allocation is dead under every generation. */
  lemma ReleaseKills(s: GovernorState, id: u64, gen: u64, wb: u64, sb: u64, g: u64)
    requires Lockstep(s) && Release(s, id, gen, wb, sb).1.Ok?
    ensures Dead(Release(s, id, gen, wb, sb).0, id, g)
  {
    ReleaseKeeps(s, id, gen, wb, sb);
  }

  /** A relocation kills the handle it was given and makes the returned one current. */
  lemma RelocationKills(s: GovernorState, id: u64, gen: u64, off: u64, size: u64)
    requires Lockstep(s) && gen < MAX64 && ApplyRelocation(s, id, gen, off, size).1.Ok?
    ensures var (t, h) := ApplyRelocation(s, id, gen, off, size);
            && Dead(t, id, gen) && h.value.id == id && h.value.generation == gen + 1
            && Get(t, id, gen + 1).Ok?
  {
    assert InStep(s.records[id], s.arena.live[id]);
  }

  lemma StepKeepsHeadroom(s: GovernorState, op: Op, n: nat)
    requires Lockstep(s) && Headroom(s, n + 1)
    ensures Headroom(Step(s, op), n)
  {
    var t := Step(s, op);
    hide Step, Lockstep;
    StepKeeps(s, op);
    forall id | id in t.records ensures t.records[id].generation + n <= MAX64 {
      GenerationStep(s, op, id);
    }
  }

  /** Generations only advance, and by at most one a step. */
  lemma GenerationStep(s: GovernorState, op: Op, id: u64)
    requires Lockstep(s) && Headroom(s, 1) && id in Step(s, op).records
    ensures GenerationAdvanced(s, Step(s, op), id)
  {
    hide ArenaSpec.Allocate, ArenaSpec.Relocate, Lockstep, GenerationAdvanced, Request, ApplyRelocation;
    match op
    case OpRequest(req) => RequestGeneration(s, req, id);
    case OpRelocate(i, gen, off, size) => RelocationGeneration(s, i, gen, off, size, id);
    case _ => OtherGeneration(s, op, id);
  }

  ghost predicate GenerationAdvanced(s: GovernorState, t: GovernorState, id: u64) {
    id in t.records
    && if id in s.records then s.records[id].generation <= t.records[id].generation <= s.records[id].generation + 1
       else id == s.nextAllocId && t.records[id].generation == 1
  }

  lemma OtherGeneration(s: GovernorState, op: Op, id: u64)
    requires Lockstep(s) && id in Step(s, op).records && !op.OpRequest? && !op.OpRelocate?
    ensures GenerationAdvanced(s, Step(s, op), id)
  {
    hide Lockstep, ArenaSpec.PinRegion, ArenaSpec.UnpinRegion, ArenaSpec.Free;
    match op
    case OpInitialize(b, a) =>
    case OpRelease(i, gen, wb, sb) =>
    case OpPin(i, gen) =>
    case OpUnpin(i, gen) =>
    case OpObserve =>
    case OpRecover =>
  }

  lemma RequestGeneration(s: GovernorState, req: AllocationRequest, id: u64)
    requires Lockstep(s) && id in Request(s, req).0.records
    ensures GenerationAdvanced(s, Request(s, req).0, id)
  {
    assert s.nextAllocId !in s.records;
    hide Lockstep, ArenaSpec.Allocate, ValidateRequest;
  }

  lemma RelocationGeneration(s: GovernorState, i: u64, gen: u64, off: u64, size: u64, id: u64)
    requires Lockstep(s) && Headroom(s, 1) && id in ApplyRelocation(s, i, gen, off, size).0.records
    ensures GenerationAdvanced(s, ApplyRelocation(s, i, gen, off, size).0, id)
  {
    if i in s.records {
      assert InStep(s.records[i], s.arena.live[i]);
    }
  }

  lemma DeadStep(s: GovernorState, op: Op, id: u64, gen: u64)
    requires Lockstep(s) && Headroom(s, 1) && Dead(s, id, gen)
    ensures Dead(Step(s, op), id, gen)
  {
    StepKeeps(s, op);
    if id in Step(s, op).records {
      GenerationStep(s, op, id);
    }
  }

  /** A dead handle never revives, over any run of requests, releases, pins,
      unpins, relocations, observations and recoveries. */
  lemma {:induction false} DeadForever(s: GovernorState, ops: seq<Op>, id: u64, gen: u64)
    requires Lockstep(s) && Headroom(s, |ops|) && Dead(s, id, gen)
    ensures Lockstep(Run(s, ops)) && Dead(Run(s, ops), id, gen)
    ensures Get(Run(s, ops), id, gen).Err?
    decreases |ops|
  {
    if ops == [] {
      DeadIsRejected(s, id, gen);
    } else {
      StepKeeps(s, ops[0]);
      assert Headroom(s, 1);
      DeadStep(s, ops[0], id, gen);
      StepKeepsHeadroom(s, ops[0], |ops| - 1);
      DeadForever(Step(s, ops[0]), ops[1..], id, gen);
    }
  }

  // ---------------------------------------------------------- recovery

  lemma {:induction false} CollectListed(v: seq<AllocationRecord>)
    requires forall i, j | 0 <= i < j < |v| :: v[i].id != v[j].id
    ensures forall id: u64 :: id in Collect(v) <==> exists i :: 0 <= i < |v| && v[i].id == id
    ensures forall i | 0 <= i < |v| :: v[i].id in Collect(v) && Collect(v)[v[i].id] == v[i]
  {
    if v != [] {
      var w := v[..|v| - 1];
      CollectListed(w);
      forall id: u64 ensures id in Collect(v) <==> exists i :: 0 <= i < |v| && v[i].id == id {
        if id in Collect(w) {
          var i :| 0 <= i < |w| && w[i].id == id;
          assert v[i].id == id;
        }
        if i :| 0 <= i < |v| && v[i].id == id {
          assert i < |w| ==> w[i].id == id;
        }
      }
      forall i | 0 <= i < |v| ensures v[i].id in Collect(v) && Collect(v)[v[i].id] == v[i] {
        if i < |w| {
          assert w[i] == v[i];
        }
      }
    }
  }

  /** A listing enumerates the whole map. */
  lemma ListedCovers(m: map<u64, AllocationRecord>, v: seq<AllocationRecord>, id: u64) returns (i: nat)
    requires Listed(m, v) && id in m
    ensures i < |v| && v[i].id == id
  {
    var ids := seq(|v|, k requires 0 <= k < |v| => v[k].id);
    DistinctSize(ids);
    var s := set k | 0 <= k < |v| :: ids[k];
    assert s <= m.Keys;
    assert |m.Keys| == |v|;
    SubsetFull(s, m.Keys);
    assert id in s;
    i :| 0 <= i < |v| && ids[i] == id;
  }

  lemma {:induction false} DistinctSize(ids: seq<u64>)
    requires forall i, j | 0 <= i < j < |ids| :: ids[i] < ids[j]
    ensures |set k | 0 <= k < |ids| :: ids[k]| == |ids|
  {
    var s := set k | 0 <= k < |ids| :: ids[k];
    if ids == [] {
      assert s == {};
    } else {
      var w := ids[..|ids| - 1];
      DistinctSize(w);
      var s' := set k | 0 <= k < |w| :: w[k];
      forall x ensures x in s <==> x in s' || x == ids[|ids| - 1] {
        if x in s' {
          var k :| 0 <= k < |w| && w[k] == x;
          assert ids[k] == x;
        }
        if x in s {
          var k :| 0 <= k < |ids| && ids[k] == x;
          assert k < |w| ==> w[k] == x;
        }
      }
      assert s == s' + {ids[|ids| - 1]};
    }
  }

  lemma {:induction false} SubsetFull(s: set<u64>, t: set<u64>)
    requires s <= t && |s| == |t|
    ensures s == t
  {
    assert t == s + (t - s);
    assert |t - s| == 0;
  }

  /** Restoring a state's own snapshot is exactly conservative recovery. */
  lemma RestoreIsRecover(s: GovernorState, p: PersistSnapshot)
    requires Lockstep(s) && IsSnapshot(s, p)
    ensures Restore(p) == Recover(s)
  {
    assert s.records.Keys !! s.retired.Keys;
    CollectedAll(s, p);
  }

  lemma CollectedAll(s: GovernorState, p: PersistSnapshot)
    requires s.records.Keys !! s.retired.Keys && IsSnapshot(s, p)
    ensures Collect(RevalidatedAll(p.records) + p.retired)
            == (map id | id in s.records :: Revalidated(s.records[id])) + s.retired
  {
    hide Collect, RevalidatedAll, Revalidated, IsSnapshot;
    forall id: u64 {
      CollectedAt(s, p, id);
    }
  }

  lemma SnapshotIdsDistinct(s: GovernorState, p: PersistSnapshot, v: seq<AllocationRecord>)
    requires s.records.Keys !! s.retired.Keys && IsSnapshot(s, p) && v == RevalidatedAll(p.records) + p.retired
    ensures forall i, j | 0 <= i < j < |v| :: v[i].id != v[j].id
  {
    var n := |p.records|;
    forall i, j | 0 <= i < j < |v| ensures v[i].id != v[j].id {
      if i < n <= j {
        assert v[i].id == p.records[i].id && p.records[i].id in s.records;
        assert v[j] == p.retired[j - n] && p.retired[j - n].id in s.retired;
      }
    }
  }

  lemma CollectedAt(s: GovernorState, p: PersistSnapshot, id: u64)
    requires s.records.Keys !! s.retired.Keys && IsSnapshot(s, p)
    ensures var c := Collect(RevalidatedAll(p.records) + p.retired);
            && (id in c <==> id in s.records || id in s.retired)
            && (id in s.records ==> c[id] == Revalidated(s.records[id]))
            && (id in s.retired ==> c[id] == s.retired[id])
  {
    var v := RevalidatedAll(p.records) + p.retired;
    SnapshotIdsDistinct(s, p, v);
    CollectListed(v);
    hide Collect, RevalidatedAll, Revalidated;
    if id in Collect(v) {
      var i :| 0 <= i < |v| && v[i].id == id;
      ListedFrom(s, p, v, i);
    }
    if id in s.records {
      var i := RecordListed(s, p, v, id);
    }
    if id in s.retired {
      var i := RetiredListed(s, p, v, id);
    }
  }

  lemma ListedFrom(s: GovernorState, p: PersistSnapshot, v: seq<AllocationRecord>, i: nat)
    requires IsSnapshot(s, p) && v == RevalidatedAll(p.records) + p.retired && i < |v|
    ensures v[i].id in s.records || v[i].id in s.retired
  {
    if i < |p.records| {
      assert v[i].id == p.records[i].id;
    } else {
      assert v[i] == p.retired[i - |p.records|];
    }
  }

  lemma RecordListed(s: GovernorState, p: PersistSnapshot, v: seq<AllocationRecord>, id: u64) returns (i: nat)
    requires IsSnapshot(s, p) && v == RevalidatedAll(p.records) + p.retired && id in s.records
    ensures i < |v| && v[i].id == id && v[i] == Revalidated(s.records[id])
  {
    i := ListedCovers(s.records, p.records, id);
    assert v[i] == Revalidated(p.records[i]);
  }

  lemma RetiredListed(s: GovernorState, p: PersistSnapshot, v: seq<AllocationRecord>, id: u64) returns (i: nat)
    requires IsSnapshot(s, p) && v == RevalidatedAll(p.records) + p.retired && id in s.retired
    ensures i < |v| && v[i].id == id && v[i] == s.retired[id]
  {
    i := ListedCovers(s.retired, p.retired, id);
    assert v[|p.records| + i] == p.retired[i];
    i := |p.records| + i;
  }

  /** Every id of a snapshot is below its counter. */
  ghost predicate IdsIssued(p: PersistSnapshot) {
    && (forall i | 0 <= i < |p.records| :: p.records[i].id < p.nextAllocId)
    && (forall i | 0 <= i < |p.retired| :: p.retired[i].id < p.nextAllocId)
  }

  lemma {:induction false} CollectKeyed(v: seq<AllocationRecord>)
    ensures forall id :: id in Collect(v) <==> exists i :: 0 <= i < |v| && v[i].id == id
    ensures forall id | id in Collect(v) :: Collect(v)[id].id == id
  {
    if v != [] {
      var w, last := v[..|v| - 1], v[|v| - 1];
      CollectKeyed(w);
      forall id ensures id in Collect(v) <==> exists i :: 0 <= i < |v| && v[i].id == id {
        if id in Collect(w) {
          var i :| 0 <= i < |w| && w[i].id == id;
          assert v[i].id == id;
        }
        if exists i :: 0 <= i < |v| && v[i].id == id {
          var i :| 0 <= i < |v| && v[i].id == id;
          assert i < |w| ==> w[i].id == id;
        }
      }
    }
  }

  /** Restoring a snapshot gives a consistent governor exactly when the snapshot's
      id counter is above every id it contains; nothing checks that it is. */
  lemma RestoreIsLockstep(p: PersistSnapshot)
    ensures Lockstep(Restore(p)) <==> IdsIssued(p)
  {
    var v := RevalidatedAll(p.records) + p.retired;
    var n := |p.records|;
    CollectKeyed(v);
    if IdsIssued(p) {
      forall i | 0 <= i < |v| ensures v[i].id < p.nextAllocId {
        assert i < n ==> v[i].id == p.records[i].id;
        assert i >= n ==> v[i] == p.retired[i - n];
      }
    }
    if Lockstep(Restore(p)) {
      forall i | 0 <= i < |p.records| ensures p.records[i].id < p.nextAllocId {
        assert v[i].id == p.records[i].id && v[i].id in Collect(v);
      }
      forall i | 0 <= i < |p.retired| ensures p.retired[i].id < p.nextAllocId {
        assert v[n + i] == p.retired[i] && v[n + i].id in Collect(v);
      }
    }
  }

  /** No handle issued before a snapshot is accepted at any point after that
      snapshot is restored. */
  lemma RestoredHandlesStayDead(s: GovernorState, p: PersistSnapshot, ops: seq<Op>, id: u64, gen: u64)
    requires Lockstep(s) && IsSnapshot(s, p) && id < s.nextAllocId && s.nextAllocId + |ops| <= MAX64
    ensures Dead(Run(Restore(p), ops), id, gen) && Get(Run(Restore(p), ops), id, gen).Err?
  {
    RestoreIsRecover(s, p);
    RecoverKeeps(s);
    DeadForever(Recover(s), ops, id, gen);
  }
}
