/** The movable and pinned counters against the arena: when they follow it, and which
    operations make them drift. */
module ClassAccounting {
  import opened Machine
  import opened Types
  import opened Records
  import opened GovernorSpec
  import opened GovernorInvariants
  import opened ArenaSpec
  import opened Accounting
  import opened Reclaim
  import opened Handles
  import opened Bookkeeping

  ghost function InClass(a: ArenaState, c: u8): set<u64> {
    set id | id in a.live && a.live[id].movability == c
  }

  /** The number of bytes held by blocks of one movability. */
  ghost function ClassBytes(a: ArenaState, c: u8): nat {
    |Covered(a, InClass(a, c))|
  }

  function Share(live: map<u64, Region>, id: u64, c: u8): nat {
    if id in live && live[id].movability == c then live[id].size else 0
  }

  ghost predicate SameElsewhere(a: ArenaState, b: ArenaState, id: u64) {
    && a.capacity == b.capacity
    && forall i: u64 | i != id :: (i in a.live <==> i in b.live) && (i in a.live ==> a.live[i] == b.live[i])
  }

  lemma SameCover(a: ArenaState, b: ArenaState, id: u64, ids: set<u64>)
    requires SameElsewhere(a, b, id) && id !in ids
    ensures Covered(a, ids) == Covered(b, ids)
  {
    forall j ensures HeldBySome(a, ids, j) <==> HeldBySome(b, ids, j) {
      if HeldBySome(a, ids, j) {
        var i :| i in ids && i in a.live && !Apart(a.live[i], j, j + 1);
        assert i != id && i in b.live && b.live[i] == a.live[i];
      }
      if HeldBySome(b, ids, j) {
        var i :| i in ids && i in b.live && !Apart(b.live[i], j, j + 1);
        assert i != id && i in a.live && b.live[i] == a.live[i];
      }
    }
  }

  lemma ClassShare(a: ArenaState, id: u64, c: u8)
    requires Invariant(a)
    ensures ClassBytes(a, c) == |Covered(a, InClass(a, c) - {id})| + Share(a.live, id, c) <= a.capacity
  {
    hide Covered, Invariant;
    CoverBounded(a, InClass(a, c));
    var rest := InClass(a, c) - {id};
    if id in InClass(a, c) {
      CoverAdd(a, rest, id);
      assert InClass(a, c) == rest + {id};
    } else {
      assert InClass(a, c) == rest;
    }
  }

  /** One class total changes by the shares of the block that changed. */
  ghost predicate Shifted(a: ArenaState, b: ArenaState, id: u64, c: u8) {
    && ClassBytes(b, c) == ClassBytes(a, c) - Share(a.live, id, c) + Share(b.live, id, c)
    && Share(a.live, id, c) <= ClassBytes(a, c) && ClassBytes(b, c) <= b.capacity
  }

  lemma OneChanged(a: ArenaState, b: ArenaState, id: u64, c: u8)
    requires Invariant(a) && Invariant(b) && SameElsewhere(a, b, id)
    ensures Shifted(a, b, id, c)
  {
    ClassShare(a, id, c);
    ClassShare(b, id, c);
    SameCover(a, b, id, InClass(a, c) - {id});
    assert InClass(a, c) - {id} == InClass(b, c) - {id};
    hide Covered, Invariant, InClass;
  }

  ghost predicate ClassesMatch(s: GovernorState) {
    s.domain.currentMovable == ClassBytes(s.arena, MOVABLE) && s.domain.currentPinned == ClassBytes(s.arena, PINNED)
  }

  /** What a change at one block does to both totals. */
  lemma BothChanged(s: GovernorState, t: GovernorState, id: u64)
    requires Invariant(s.arena) && Invariant(t.arena) && SameElsewhere(s.arena, t.arena, id)
    ensures Shifted(s.arena, t.arena, id, MOVABLE) && Shifted(s.arena, t.arena, id, PINNED)
  {
    hide Invariant, SameElsewhere, Shifted;
    OneChanged(s.arena, t.arena, id, MOVABLE);
    OneChanged(s.arena, t.arena, id, PINNED);
  }

  lemma WrittenElsewhere(a: ArenaState, b: ArenaState, id: u64, r: Region)
    requires b.live == a.live[id := r] && b.capacity == a.capacity
    ensures SameElsewhere(a, b, id)
  {
  }

  /** A new block, charged to its class. */
  lemma ChargedClasses(s: GovernorState, t: GovernorState, id: u64, r: Region)
    requires ClassesMatch(s) && Invariant(s.arena) && Invariant(t.arena) && id !in s.arena.live
    requires t.arena.live == s.arena.live[id := r] && t.arena.capacity == s.arena.capacity
    requires t.domain == Charge(s.domain, r.size, r.movability)
    ensures ClassesMatch(t)
  {
    hide ClassBytes, Invariant, SameElsewhere;
    WrittenElsewhere(s.arena, t.arena, id, r);
    BothChanged(s, t, id);
  }

  lemma RequestEffect(s: GovernorState, req: AllocationRequest)
    requires Lockstep(s) && s.nextAllocId < MAX64 && Request(s, req).1.Ok?
    ensures var t := Request(s, req).0; var r := ArenaSpec.Allocate(s.arena, ArenaRequest(req, s.nextAllocId)).1;
            && r.Ok? && s.nextAllocId !in s.arena.live && t.arena.live == s.arena.live[s.nextAllocId := r.value]
            && t.arena.capacity == s.arena.capacity && Invariant(t.arena)
            && t.domain == Charge(s.domain, r.value.size, r.value.movability)
  {
    assert s.nextAllocId !in s.arena.live;
    AllocateKeeps(s.arena, ArenaRequest(req, s.nextAllocId));
    hide ArenaSpec.Allocate, Charge, Invariant, ValidateRequest, AlignUpChecked, NewRecord, InStep, SpanFree;
  }

  lemma RequestClasses(s: GovernorState, req: AllocationRequest)
    requires Lockstep(s) && s.nextAllocId < MAX64 && ClassesMatch(s)
    ensures ClassesMatch(Request(s, req).0)
  {
    if Request(s, req).1.Ok? {
      RequestEffect(s, req);
      hide Request, ArenaSpec.Allocate, ClassesMatch, Charge, Invariant;
      ChargedClasses(s, Request(s, req).0, s.nextAllocId,
                     ArenaSpec.Allocate(s.arena, ArenaRequest(req, s.nextAllocId)).1.value);
    } else {
      RefusedKeepsBooks(s, req);
      RefusedKeepsDomain(s, req);
      hide Request;
    }
  }

  lemma RefusedKeepsDomain(s: GovernorState, req: AllocationRequest)
    requires Request(s, req).1.Err?
    ensures Request(s, req).0.domain == s.domain
  {
    hide ValidateRequest, ArenaSpec.Allocate, AlignUpChecked;
  }

  /** A block given back, discharged from its class. */
  lemma DischargedClasses(s: GovernorState, t: GovernorState, id: u64)
    requires ClassesMatch(s) && Invariant(s.arena) && Invariant(t.arena) && id in s.arena.live
    requires t.arena.live == Without(s.arena.live, id) && t.arena.capacity == s.arena.capacity
    requires t.domain == Discharge(s.domain, s.arena.live[id].size, s.arena.live[id].movability)
    ensures ClassesMatch(t)
  {
    assert SameElsewhere(s.arena, t.arena, id);
    hide ClassBytes, Invariant, SameElsewhere;
    BothChanged(s, t, id);
  }

  lemma ReleaseEffect(s: GovernorState, id: u64, gen: u64, wb: u64, sb: u64)
    requires Lockstep(s) && Release(s, id, gen, wb, sb).1.Ok?
    ensures var t := Release(s, id, gen, wb, sb).0;
            && id in s.arena.live && Invariant(s.arena) && Invariant(t.arena)
            && t.arena.live == Without(s.arena.live, id) && t.arena.capacity == s.arena.capacity
            && t.domain == Discharge(s.domain, s.arena.live[id].size, s.arena.live[id].movability)
  {
    ReleaseKeeps(s, id, gen, wb, sb);
    assert InStep(s.records[id], s.arena.live[id]);
    hide Invariant, Discharge;
  }

  lemma ReleaseClasses(s: GovernorState, id: u64, gen: u64, wb: u64, sb: u64)
    requires Lockstep(s) && ClassesMatch(s)
    ensures ClassesMatch(Release(s, id, gen, wb, sb).0)
  {
    if Release(s, id, gen, wb, sb).1.Ok? {
      ReleaseEffect(s, id, gen, wb, sb);
      hide Release, ClassesMatch, Discharge, Invariant, Lockstep;
      DischargedClasses(s, Release(s, id, gen, wb, sb).0, id);
    } else {
      ReleaseKeeps(s, id, gen, wb, sb);
      hide Release, Lockstep;
    }
  }

  /** A block rewritten in place, or moved. */
  lemma RewrittenClasses(s: GovernorState, t: GovernorState, id: u64, q: Region)
    requires ClassesMatch(s) && Invariant(s.arena) && Invariant(t.arena) && id in s.arena.live
    requires t.arena.live == s.arena.live[id := q] && t.arena.capacity == s.arena.capacity
    ensures var r, d := s.arena.live[id], t.domain;
            && (r.movability == MOVABLE ==> r.size <= s.domain.currentMovable)
            && (r.movability == PINNED ==> r.size <= s.domain.currentPinned)
            && 0 < q.size
            && (q.movability == PINNED && r.movability != PINNED ==> s.domain.currentPinned + q.size < TWO64)
            && (q.movability == MOVABLE && r.movability != MOVABLE ==> s.domain.currentMovable + q.size < TWO64)
            && (ClassesMatch(t) <==>
                  && d.currentMovable == s.domain.currentMovable - (if r.movability == MOVABLE then r.size else 0)
                                         + (if q.movability == MOVABLE then q.size else 0)
                  && d.currentPinned == s.domain.currentPinned - (if r.movability == PINNED then r.size else 0)
                                        + (if q.movability == PINNED then q.size else 0))
  {
    assert LiveBlock(t.arena, id);
    hide ClassBytes, Invariant, SameElsewhere;
    WrittenElsewhere(s.arena, t.arena, id, q);
    BothChanged(s, t, id);
  }

  lemma PinEffect(s: GovernorState, id: u64, gen: u64)
    requires Lockstep(s) && CurrentRecord(s, id, gen)
    ensures var t := Pin(s, id, gen).0;
            && id in s.arena.live && id in t.arena.live && Invariant(s.arena) && Invariant(t.arena)
            && t.arena.live == s.arena.live[id := t.arena.live[id]] && t.arena.capacity == s.arena.capacity
            && t.arena.live[id].movability == PINNED && t.arena.live[id].size == s.arena.live[id].size
            && s.records[id].movability == s.arena.live[id].movability
            && t.domain == NotePinned(s.domain, s.arena.live[id].size)
  {
    PinKeeps(s, id, gen);
    assert InStep(s.records[id], s.arena.live[id]);
    hide Invariant, NotePinned;
  }

  /** After a pin the counters still match exactly if the block was movable, or if it was
      not pinned and no movable bytes were counted: pinning a pinned block adds its size
      again, and pinning a non-movable one takes it away from the movable bytes. */
  lemma PinClasses(s: GovernorState, id: u64, gen: u64)
    requires Lockstep(s) && ClassesMatch(s) && CurrentRecord(s, id, gen)
    ensures ClassesMatch(Pin(s, id, gen).0) <==>
            || s.records[id].movability == MOVABLE
            || (s.records[id].movability != PINNED && s.domain.currentMovable == 0)
  {
    PinEffect(s, id, gen);
    hide Pin, ClassesMatch, Invariant, Lockstep;
    RewrittenClasses(s, Pin(s, id, gen).0, id, Pin(s, id, gen).0.arena.live[id]);
  }

  lemma UnpinEffect(s: GovernorState, id: u64, gen: u64)
    requires Lockstep(s) && AllOrderly(s) && Unpin(s, id, gen).1.Ok?
    ensures var t := Unpin(s, id, gen).0;
            && id in s.arena.live && id in t.arena.live && Invariant(s.arena) && Invariant(t.arena)
            && t.arena.live == s.arena.live[id := t.arena.live[id]] && t.arena.capacity == s.arena.capacity
            && t.arena.live[id].size == s.arena.live[id].size && s.arena.live[id].movability == PINNED
            && t.arena.live[id].movability == (if t.arena.live[id].pinCount == 0 then MOVABLE else PINNED)
            && t.domain == if t.arena.live[id].pinCount == 0 then NoteUnpinned(s.domain, s.arena.live[id].size)
                           else s.domain
  {
    UnpinKeeps(s, id, gen);
    assert InStep(s.records[id], s.arena.live[id]) && OrderlyAt(s, id);
    hide Invariant, NoteUnpinned, AllOrderly, Lockstep, UnpinRegion;
    UnpinnedRegion(s.arena, id, gen);
  }

  /** An unpin never makes them drift. */
  lemma UnpinClasses(s: GovernorState, id: u64, gen: u64)
    requires Lockstep(s) && AllOrderly(s) && ClassesMatch(s)
    ensures ClassesMatch(Unpin(s, id, gen).0)
  {
    if Unpin(s, id, gen).1.Ok? {
      UnpinEffect(s, id, gen);
      hide Unpin, ClassesMatch, Invariant, Lockstep, AllOrderly;
      RewrittenClasses(s, Unpin(s, id, gen).0, id, Unpin(s, id, gen).0.arena.live[id]);
    } else {
      UnpinKeeps(s, id, gen);
      hide Unpin, Lockstep, AllOrderly;
    }
  }

  lemma RelocationEffect(s: GovernorState, id: u64, gen: u64, off: u64, size: u64)
    requires Lockstep(s) && ApplyRelocation(s, id, gen, off, size).1.Ok?
    ensures var t := ApplyRelocation(s, id, gen, off, size).0;
            && id in s.arena.live && id in t.arena.live && Invariant(s.arena) && Invariant(t.arena)
            && t.arena.live == s.arena.live[id := t.arena.live[id]] && t.arena.capacity == s.arena.capacity
            && t.arena.live[id].size == size && t.arena.live[id].movability == s.arena.live[id].movability
            && id in s.records && s.records[id].regionSize == s.arena.live[id].size
            && s.records[id].movability == s.arena.live[id].movability && t.domain == s.domain
  {
    RelocationKeeps(s, id, gen, off, size);
    assert InStep(s.records[id], s.arena.live[id]);
    var align := s.records[id].alignment;
    hide Invariant, Relocate, Relocated;
    RelocatedRegion(s.arena, id, gen, off, size, align);
  }

  /** A relocation leaves the counters alone, so they still match exactly if the size is
      kept or the block is of neither class. */
  lemma RelocationClasses(s: GovernorState, id: u64, gen: u64, off: u64, size: u64)
    requires Lockstep(s) && ClassesMatch(s) && ApplyRelocation(s, id, gen, off, size).1.Ok?
    ensures ClassesMatch(ApplyRelocation(s, id, gen, off, size).0) <==>
            size == s.records[id].regionSize || s.records[id].movability !in {MOVABLE, PINNED}
  {
    RelocationEffect(s, id, gen, off, size);
    hide ApplyRelocation, ClassesMatch, Invariant, Lockstep;
    RewrittenClasses(s, ApplyRelocation(s, id, gen, off, size).0, id,
                     ApplyRelocation(s, id, gen, off, size).0.arena.live[id]);
  }

  lemma RecoverClasses(s: GovernorState)
    ensures ClassesMatch(Recover(s))
  {
    assert InClass(Recover(s).arena, MOVABLE) == {} && InClass(Recover(s).arena, PINNED) == {};
    CoverNothing(Recover(s).arena);
  }

  lemma CoverNothing(a: ArenaState)
    ensures Covered(a, {}) == {}
  {
  }

  /** Relocations keep sizes, and only movable blocks are pinned. */
  ghost predicate KeepsClasses(s: GovernorState, op: Op) {
    && KeepsSize(s, op)
    && (op.OpPin? && CurrentRecord(s, op.id, op.gen) ==> s.records[op.id].movability == MOVABLE)
  }

  lemma StepClasses(s: GovernorState, op: Op)
    requires Lockstep(s) && AllOrderly(s) && s.nextAllocId < MAX64 && ClassesMatch(s) && KeepsClasses(s, op)
    ensures ClassesMatch(Step(s, op))
  {
    hide Lockstep, AllOrderly, ClassBytes, Request, Release, ArenaSpec.PinRegion, ArenaSpec.UnpinRegion, Relocate;
    match op
    case OpRequest(req) => RequestClasses(s, req);
    case OpRelease(id, gen, wb, sb) => ReleaseClasses(s, id, gen, wb, sb);
    case OpPin(id, gen) =>
      if CurrentRecord(s, id, gen) {
        PinClasses(s, id, gen);
      }
    case OpUnpin(id, gen) => UnpinClasses(s, id, gen);
    case OpRelocate(id, gen, off, size) =>
      if ApplyRelocation(s, id, gen, off, size).1.Ok? {
        RelocationClasses(s, id, gen, off, size);
      }
    case OpRecover => RecoverClasses(s);
    case _ =>
  }

  ghost predicate RunKeepsClasses(s: GovernorState, ops: seq<Op>)
    decreases |ops|
  {
    ops == [] || (KeepsClasses(s, ops[0]) && RunKeepsClasses(Step(s, ops[0]), ops[1..]))
  }

  /** Over any run whose relocations keep sizes and whose pins are of movable blocks,
      crashes included, both counters are the bytes the arena holds in that class. */
  lemma {:induction false} RunClasses(s: GovernorState, ops: seq<Op>)
    requires Lockstep(s) && AllOrderly(s) && Room(s, |ops|) && |ops| < TWO32
    requires ClassesMatch(s) && RunKeepsClasses(s, ops)
    ensures ClassesMatch(Run(s, ops))
    decreases |ops|
  {
    if ops != [] {
      RoomLess(s, |ops|);
      hide Step, Lockstep, AllOrderly, Room, ClassesMatch, KeepsClasses;
      StepKeeps(s, ops[0]);
      StepOrderly(s, ops[0]);
      StepKeepsRoom(s, ops[0], |ops| - 1);
      StepClasses(s, ops[0]);
      RunClasses(Step(s, ops[0]), ops[1..]);
    }
  }
}
