/** What pinning protects, and what unpinning undoes. */
module Pinning {
  import opened Machine
  import opened Types
  import opened Records
  import opened GovernorSpec
  import opened GovernorInvariants
  import opened ArenaSpec
  import opened AllocationTheorems

  /** An authority of 0 is not set; one that is set must be the record's. */
  predicate Authorized(rec: AllocationRecord, workerBoot: u64, sourceBoot: u64) {
    workerBoot in {0, rec.origin.workerBoot} && sourceBoot in {0, rec.origin.sourceBoot}
  }

  /** A release succeeds exactly on a current handle that nothing pins, under authorities
      that are unset or the record's own; every refusal has its reason. */
  lemma ReleasableIff(s: GovernorState, id: u64, gen: u64, workerBoot: u64, sourceBoot: u64)
    requires Lockstep(s)
    ensures var r := Release(s, id, gen, workerBoot, sourceBoot).1; var current := CurrentRecord(s, id, gen);
            && (r.Ok? <==> current && Authorized(s.records[id], workerBoot, sourceBoot) && s.records[id].pinCount == 0)
            && (r == Err(STALE_AUTHORITY) <==> current && !Authorized(s.records[id], workerBoot, sourceBoot))
            && (r == Err(FREE_OF_ACTIVE_OR_PINNED) <==>
                  current && Authorized(s.records[id], workerBoot, sourceBoot) && s.records[id].pinCount > 0)
            && (r == Err(DOUBLE_FREE) <==> id in s.retired && s.retired[id].generation == gen)
            && (r == Err(STALE_GENERATION) <==> !current && !(id in s.retired && s.retired[id].generation == gen))
  {
    ReleaseKeeps(s, id, gen, workerBoot, sourceBoot);
    assert id in s.records ==> InStep(s.records[id], s.arena.live[id]);
    hide Invariant;
  }

  /** A handle can be moved exactly when it is current, nothing pins its record, and the
      target is an aligned, non-empty stretch of free bytes. */
  lemma MovableIff(s: GovernorState, id: u64, gen: u64, offset: u64, size: u64)
    requires Lockstep(s)
    ensures ApplyRelocation(s, id, gen, offset, size).1.Ok? <==>
            && CurrentRecord(s, id, gen) && s.records[id].pinCount == 0 && size > 0
            && RoomAt(s.arena, size, s.records[id].alignment, offset)
  {
    if CurrentRecord(s, id, gen) {
      assert InStep(s.records[id], s.arena.live[id]) && LiveBlock(s.arena, id);
      RelocateIffRoom(s.arena, id, gen, offset, size, s.records[id].alignment, 0);
    }
    hide Invariant, RoomAt, Relocate;
  }

  /** Whether a block is what `unpin` would leave behind. */
  predicate PinNeutral(r: Region) {
    r.movability == if r.pinCount == 0 then MOVABLE else PINNED
  }

  function AfterPinAndUnpin(r: Region): Region {
    r.(movability := if r.pinCount == 0 then MOVABLE else PINNED)
  }

  lemma ArenaUnpinUndoesPin(a: ArenaState, id: u64, gen: u64)
    requires Current(a, id, gen) && a.live[id].pinCount + 1 < TWO32
    ensures var b := PinRegion(a, id, gen).0;
            var (c, r) := UnpinRegion(b, id, gen);
            r == Ok(AfterPinAndUnpin(a.live[id])) && c == a.(live := a.live[id := AfterPinAndUnpin(a.live[id])])
  {
    var b := PinRegion(a, id, gen).0;
    var c := UnpinRegion(b, id, gen).0;
    assert c.live == a.live[id := c.live[id]];
  }

  lemma SameEntry(m: map<u64, Region>, id: u64, r: Region)
    requires id in m
    ensures m[id := r] == m <==> m[id] == r
  {
  }

  lemma GovernorUnpin(s: GovernorState, id: u64, gen: u64)
    requires Lockstep(s) && CurrentRecord(s, id, gen)
    ensures var p := Pin(s, id, gen).0; p.arena == PinRegion(s.arena, id, gen).0 && CurrentRecord(p, id, gen)
    ensures Current(s.arena, id, gen)
  {
    assert InStep(s.records[id], s.arena.live[id]);
    hide Invariant;
  }

  /** Unpinning right after pinning always succeeds.  It restores the arena exactly
      when the block was movable (or already pinned): a non-movable block comes back
      movable, and a pin taken by the request itself is forgotten by the record. */
  lemma UnpinUndoesPin(s: GovernorState, id: u64, gen: u64)
    requires Lockstep(s) && CurrentRecord(s, id, gen) && id in s.arena.live && s.arena.live[id].pinCount + 1 < TWO32
    ensures var (t, r) := Unpin(Pin(s, id, gen).0, id, gen);
            && r.Ok? && id in t.records
            && (t.arena == s.arena <==> PinNeutral(s.arena.live[id]))
            && t.records[id].pinCount == s.arena.live[id].pinCount
  {
    GovernorUnpin(s, id, gen);
    ArenaUnpinUndoesPin(s.arena, id, gen);
    SameEntry(s.arena.live, id, AfterPinAndUnpin(s.arena.live[id]));
    hide Lockstep, Pin, PinRegion, UnpinRegion;
  }

  /** A pin taken by the request is counted by the record but not by the arena:
      the new record can be neither unpinned nor released. */
  lemma RequestedPinIsStuck(s: GovernorState, req: AllocationRequest)
    requires Lockstep(s) && s.nextAllocId < MAX64 && req.requiresPin && Request(s, req).1.Ok?
    ensures var (t, h) := Request(s, req);
            && CurrentRecord(t, h.value.id, h.value.generation)
            && Unpin(t, h.value.id, h.value.generation).1 == Err(INVALID_REQUEST)
            && Release(t, h.value.id, h.value.generation, 0, 0).1 == Err(FREE_OF_ACTIVE_OR_PINNED)
  {
    var ar := ArenaRequest(req, s.nextAllocId);
    AllocateKeeps(s.arena, ar);
    GrantedRegion(s.arena, ar);
    hide ArenaSpec.Allocate, Invariant, SpanFree, ValidateRequest;
  }
}
