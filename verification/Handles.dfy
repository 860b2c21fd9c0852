/** What the governor's answers mean: the bytes a handle names, the record behind
    it, why a request is refused, and who may release an allocation. */
module Handles {
  import opened Machine
  import opened Types
  import opened Records
  import opened GovernorSpec
  import opened GovernorInvariants
  import opened ArenaSpec
  import opened AllocationTheorems

  /** The bytes a handle names. */
  ghost function Span(h: AllocationHandle): set<int> {
    Interval(h.offset, h.offset + h.size)
  }

  ghost predicate HeldBy(a: ArenaState, id: u64, j: int) {
    id in a.live && !Apart(a.live[id], j, j + 1)
  }

  /** The bytes a block holds. */
  ghost function BytesOf(a: ArenaState, id: u64): set<int> {
    set j | 0 <= j < a.capacity && HeldBy(a, id, j)
  }

  lemma BytesOfBlock(a: ArenaState, id: u64)
    requires Invariant(a) && id in a.live
    ensures BytesOf(a, id) == Interval(a.live[id].offset, a.live[id].offset + a.live[id].size)
  {
    assert LiveBlock(a, id);
  }

  // ------------------------------------------------------------ initialization

  /** Initialization succeeds once there is a backend that provides an arena for a domain
      with capacity, and again whenever it has succeeded; a failure changes nothing, and
      the first success only opens the governor for requests and notes it healthy. */
  lemma InitializedIff(s: GovernorState, hasBackend: bool, arenaAllocated: bool)
    ensures var (t, r) := Initialize(s, hasBackend, arenaAllocated);
            && (r.Ok? <==> s.initialized || (hasBackend && s.domain.managedCapacity > 0 && arenaAllocated))
            && (r == Err(INTERNAL_ERROR) <==> !s.initialized && !hasBackend)
            && (r == Err(INVALID_REQUEST) <==> !s.initialized && hasBackend && s.domain.managedCapacity == 0)
            && (r == Err(PHYSICAL_OOM) <==>
                  !s.initialized && hasBackend && s.domain.managedCapacity > 0 && !arenaAllocated)
            && (r.Ok? <==> t.initialized)
            && t == if r.Err? || s.initialized then s
                    else s.(initialized := true, domain := s.domain.(health := HEALTHY))
  {
  }

  // --------------------------------------------------------------- request

  /** `n` is the least multiple of `align` not below `bytes`. */
  predicate RoundsUpTo(n: int, bytes: int, align: int) {
    align > 0 && n % align == 0 && bytes <= n < bytes + align
  }

  lemma RoundUpIsLeast(v: nat, align: u64)
    requires align > 0
    ensures RoundsUpTo(RoundUp(v, align), v, align)
  {
    RoundDown(v + align - 1, align);
  }

  lemma AddedBytes(a: ArenaState, b: ArenaState, id: u64, r: Region)
    requires id !in a.live && b.live == a.live[id := r] && b.capacity == a.capacity
    requires r.size > 0 && r.offset + r.size <= a.capacity
    ensures LiveBytes(b) == LiveBytes(a) + Interval(r.offset, r.offset + r.size)
  {
    forall j ensures j in LiveBytes(b) <==> j in LiveBytes(a) || Holds(r, j) {
      AddedByte(a, b, id, r, j);
    }
  }

  /** A granted handle names free bytes: as many as the request rounded up to its
      alignment, from an aligned offset on.  Afterwards exactly these bytes are
      taken as well, and the new block holds them. */
  lemma GrantedHandle(s: GovernorState, req: AllocationRequest)
    requires Lockstep(s) && Request(s, req).1.Ok?
    ensures var (t, r) := Request(s, req); var h := r.value;
            && h.id == s.nextAllocId && h.generation == 1 && h.alignment == req.alignment
            && RoundsUpTo(h.size, req.bytes, req.alignment) && Aligned(h.offset, h.alignment)
            && Span(h) <= FreeBytes(s.arena)
            && LiveBytes(t.arena) == LiveBytes(s.arena) + Span(h)
            && BytesOf(t.arena, h.id) == Span(h)
  {
    var ar := ArenaRequest(req, s.nextAllocId);
    assert s.nextAllocId !in s.arena.live;
    AllocateKeeps(s.arena, ar);
    GrantHasRoom(s.arena, ar);
    RoundUpIsLeast(req.bytes, req.alignment);
    var (b, r) := ArenaSpec.Allocate(s.arena, ar);
    BytesOfBlock(b, s.nextAllocId);
    hide ArenaSpec.Allocate, Invariant, LiveBytes, BytesOf, RoundUp, RoundsUpTo, ValidateRequest, Charge, NewRecord;
    AddedBytes(s.arena, b, s.nextAllocId, r.value);
  }

  /** The free run that was chosen is the least one, by (size, offset), with room for
      the rounded size at an aligned offset, and the handle starts at its first. */
  lemma GrantedPlace(s: GovernorState, req: AllocationRequest) returns (lo: u64, hi: int)
    requires Lockstep(s) && Request(s, req).1.Ok?
    ensures var h := Request(s, req).1.value;
            && FreeRun(s.arena, lo, hi) && h.alignment > 0
            && RoundsUpTo(h.offset, lo, h.alignment) && h.offset + h.size <= hi
            && forall l: u64, k: int | FreeRun(s.arena, l, k) && RunCanHold(l, k, h.size, h.alignment) ::
                 !SlotLess(k - l, l, hi - lo, lo)
  {
    var ar := ArenaRequest(req, s.nextAllocId);
    assert s.nextAllocId !in s.arena.live;
    lo, hi := AllocateIsBestFit(s.arena, ar);
    GrantHasRoom(s.arena, ar);
    RoundUpIsLeast(lo, req.alignment);
    hide ArenaSpec.Allocate, Invariant, RoundUp, RoundsUpTo, ValidateRequest, Charge, NewRecord, RunCanHold,
         SlotLess, FreeRun, RoomAt;
  }

  /** What validation asks of a request. */
  ghost predicate Sensible(req: AllocationRequest) {
    && req.bytes > 0 && PowerOfTwo(req.alignment) && req.minBytes <= req.bytes
    && !(req.requiresPin && req.movability == MOVABLE && req.reclaimability == NEVER_RECLAIM)
  }

  lemma ValidationMeaning(req: AllocationRequest, capacity: u64)
    ensures ValidateRequest(req, capacity).Ok? <==> Sensible(req) && req.bytes <= capacity
  {
    PowerTest(req.alignment);
    assert Sensible(req) ==> PowerOfTwo(req.alignment);
  }

  /** A request is granted exactly when it makes sense, the governor is initialized,
      and an aligned stretch of its rounded size is free. */
  lemma GrantedIff(s: GovernorState, req: AllocationRequest)
    requires Lockstep(s)
    ensures Request(s, req).1.Ok? <==>
            s.initialized && Sensible(req) && Room(s.arena, RoundUp(req.bytes, req.alignment), req.alignment)
  {
    ValidationMeaning(req, s.domain.managedCapacity);
    PowerTest(req.alignment);
    AllocateIffRoom(s.arena, ArenaRequest(req, s.nextAllocId));
    if Sensible(req) {
      RoundedSize(req.bytes, req.alignment);
      RoundUpIsLeast(req.bytes, req.alignment);
      if Room(s.arena, RoundUp(req.bytes, req.alignment), req.alignment) {
        var off: int :| RoomAt(s.arena, RoundUp(req.bytes, req.alignment), req.alignment, off);
      }
    }
    hide ArenaSpec.Allocate, Invariant, RoundUp, AlignUp, IsPow2, RoundsUpTo, ValidateRequest, Charge, NewRecord,
         Room, RoomAt, Sensible;
  }

  /** Why a request is refused before the arena is asked. */
  lemma InvalidRequest(s: GovernorState, req: AllocationRequest)
    requires Lockstep(s)
    ensures var r := Request(s, req).1; var cap := s.domain.managedCapacity;
            && (r == Err(ZERO_BYTES) <==> req.bytes == 0)
            && (r == Err(REQUEST_EXCEEDS_CAPACITY) <==> req.bytes > cap)
            && (r == Err(IMPOSSIBLE_ALIGNMENT) <==> 0 < req.bytes <= cap && req.alignment == 0)
            && (r == Err(NON_POWER_OF_TWO_ALIGNMENT) <==>
                  0 < req.bytes <= cap && req.alignment > 0 && !PowerOfTwo(req.alignment))
            && (r == Err(MALFORMED_LIFETIME) <==>
                  0 < req.bytes <= cap && PowerOfTwo(req.alignment) && req.minBytes > req.bytes)
            && (r == Err(CONTRADICTORY_MOVABILITY) <==>
                  && 0 < req.bytes <= cap && PowerOfTwo(req.alignment) && req.minBytes <= req.bytes
                  && req.requiresPin && req.movability == MOVABLE && req.reclaimability == NEVER_RECLAIM)
            && (r == Err(INTERNAL_ERROR) <==> Sensible(req) && req.bytes <= cap && !s.initialized)
  {
    PowerTest(req.alignment);
    PowerTest(0);
    hide PowerOfTwo, IsPow2, AlignUp, CanAllocate, FreeBytes, Invariant;
  }

  /** Why the arena refuses a request that makes sense, and when an id is spent on it. */
  lemma RefusedRequest(s: GovernorState, req: AllocationRequest)
    requires Lockstep(s) && s.initialized && Sensible(req) && req.bytes <= s.domain.managedCapacity
    ensures var (t, r) := Request(s, req); var n := RoundUp(req.bytes, req.alignment);
            && (r == Err(SIZE_OVERFLOW) <==> n >= TWO64)
            && (r == Err(INSUFFICIENT_TOTAL_CAPACITY) <==> n < TWO64 && n > |FreeBytes(s.arena)|)
            && (r == Err(INSUFFICIENT_CONTIGUOUS_CAPACITY) <==>
                  n <= |FreeBytes(s.arena)| && !Room(s.arena, n, req.alignment))
            && t.nextAllocId == if n < TWO64 then Add64(s.nextAllocId, 1) else s.nextAllocId
  {
    ValidationMeaning(req, s.domain.managedCapacity);
    PowerTest(req.alignment);
    RoundedSize(req.bytes, req.alignment);
    FailureReason(s.arena, ArenaRequest(req, s.nextAllocId));
    BytesSplit(s.arena);
    hide ArenaSpec.Allocate, Invariant, RoundUp, AlignUp, IsPow2, ValidateRequest, Charge, NewRecord, Room, Sensible,
         FreeBytes;
  }

  /** The new record says what the request and the handle say, and nothing else changes
      in the books. */
  lemma GrantedRecord(s: GovernorState, req: AllocationRequest)
    requires Lockstep(s) && Request(s, req).1.Ok?
    ensures var (t, r) := Request(s, req); var h := r.value;
            && h.id in t.records && t.records == s.records[h.id := t.records[h.id]] && t.retired == s.retired
            && t.historyCount == s.historyCount && Get(t, h.id, h.generation) == Ok(t.records[h.id])
            && var rec := t.records[h.id];
               && rec.id == h.id && rec.generation == h.generation
               && rec.offset == h.offset && rec.regionSize == h.size && rec.alignment == h.alignment
               && rec.requestedBytes == req.bytes && rec.origin == req.origin
               && rec.reclaimability == req.reclaimability
               && rec.movability == (if req.requiresPin then PINNED else req.movability)
               && rec.pinCount == (if req.requiresPin then 1 else 0)
               && rec.lifecycle == (if req.requiresPin then LIFECYCLE_PINNED else LIFECYCLE_RESIDENT)
               && rec.residency == RESIDENT && rec.relocationGeneration == 0 && rec.regionGeneration == 1
               && (rec.recoverable <==> req.origin.backingRef != [])
  {
    var ar := ArenaRequest(req, s.nextAllocId);
    assert s.nextAllocId !in s.arena.live;
    AllocateKeeps(s.arena, ar);
    GrantedRegion(s.arena, ar);
    hide ArenaSpec.Allocate, Invariant, ValidateRequest, Charge, SpanFree;
  }

  // --------------------------------------------------------------- release

  /** A release gives back exactly the bytes of the block. */
  lemma VacatedBytes(a: ArenaState, id: u64, gen: u64)
    requires Invariant(a) && Current(a, id, gen)
    ensures BytesOf(a, id) <= LiveBytes(a)
    ensures LiveBytes(ArenaSpec.Free(a, id, gen).0) == LiveBytes(a) - BytesOf(a, id)
  {
    var b := ArenaSpec.Free(a, id, gen).0;
    BytesOfBlock(a, id);
    forall j ensures j in LiveBytes(b) <==> j in LiveBytes(a) - BytesOf(a, id) {
      FreeVacates(a, id, gen, j);
    }
  }

  // ------------------------------------------------------------ relocation

  lemma MovedBytes(a: ArenaState, b: ArenaState, id: u64)
    requires Invariant(a) && Invariant(b) && id in a.live && id in b.live && b.capacity == a.capacity
    requires forall j :: ByteFree(b, j) <==> (ByteFree(a, j) || Holds(a.live[id], j)) && !Holds(b.live[id], j)
    ensures LiveBytes(b) == LiveBytes(a) - BytesOf(a, id) + BytesOf(b, id)
  {
    assert LiveBlock(a, id) && LiveBlock(b, id);
    BytesOfBlock(a, id);
    BytesOfBlock(b, id);
    hide Invariant, LiveBlock, BytesOf, ByteFree;
    forall j ensures j in LiveBytes(b) <==> j in LiveBytes(a) - BytesOf(a, id) + BytesOf(b, id) {
      assert Holds(a.live[id], j) <==> j in BytesOf(a, id);
      assert Holds(b.live[id], j) <==> j in BytesOf(b, id);
    }
  }

  /** The arena's side of a relocation, as sets of bytes. */
  lemma RelocatedBytes(a: ArenaState, id: u64, gen: u64, offset: u64, size: u64, align: u64)
    requires Invariant(a) && Relocate(a, id, gen, offset, size, align).1.Ok?
    ensures var (b, r) := Relocate(a, id, gen, offset, size, align); var target := Interval(offset, offset + size);
            && r.value.offset == offset && r.value.size == size && Aligned(offset, align)
            && target <= FreeBytes(a) && BytesOf(b, id) == target
            && LiveBytes(b) == LiveBytes(a) - BytesOf(a, id) + target
            && forall i | i in a.live && i != id :: i in b.live && b.live[i] == a.live[i]
  {
    var (b, r) := Relocate(a, id, gen, offset, size, align);
    RelocateKeeps(a, id, gen, offset, size, align);
    assert b.live[id] == r.value && b.capacity == a.capacity && r.value.offset == offset && r.value.size == size;
    hide Relocate, Invariant, LiveBytes, BytesOf, RoomAt, Interval, FreeBytes, ByteFree, Holds;
    RelocateIffRoom(a, id, gen, offset, size, align, 0);
    forall j ensures ByteFree(b, j) <==> (ByteFree(a, j) || Holds(a.live[id], j)) && !Holds(b.live[id], j) {
      RelocateIffRoom(a, id, gen, offset, size, align, j);
    }
    MovedBytes(a, b, id);
    BytesOfBlock(b, id);
    RoomIsFree(a, size, align, offset);
  }

  /** An accepted relocation answers with the target and the record's own alignment.
      The target was free; afterwards the block holds exactly those bytes, its old
      bytes are free, and nothing else in the arena changed. */
  lemma RelocatedHandle(s: GovernorState, id: u64, gen: u64, offset: u64, size: u64)
    requires Lockstep(s) && ApplyRelocation(s, id, gen, offset, size).1.Ok?
    ensures var (t, r) := ApplyRelocation(s, id, gen, offset, size); var h := r.value;
            && id in s.records && h.id == id && h.offset == offset && h.size == size
            && h.alignment == s.records[id].alignment && Aligned(h.offset, h.alignment)
            && Span(h) <= FreeBytes(s.arena) && BytesOf(t.arena, id) == Span(h)
            && LiveBytes(t.arena) == LiveBytes(s.arena) - BytesOf(s.arena, id) + Span(h)
            && forall i | i in s.arena.live && i != id :: i in t.arena.live && t.arena.live[i] == s.arena.live[i]
  {
    hide Relocate, Invariant, LiveBytes, BytesOf, RoomAt, Interval, FreeBytes;
    RelocatedBytes(s.arena, id, gen, offset, size, s.records[id].alignment);
  }

  lemma RoomIsFree(a: ArenaState, n: u64, align: int, off: u64)
    requires RoomAt(a, n, align, off)
    ensures Aligned(off, align) && Interval(off, off + n) <= FreeBytes(a)
  {
  }

  /** The moved record: a new place, every generation one step on, everything else kept. */
  lemma RelocatedRecord(s: GovernorState, id: u64, gen: u64, offset: u64, size: u64)
    requires Lockstep(s) && gen < MAX64 && ApplyRelocation(s, id, gen, offset, size).1.Ok?
    ensures var (t, r) := ApplyRelocation(s, id, gen, offset, size);
            && id in s.records && id in t.records && t == s.(arena := t.arena, records := t.records)
            && t.records == s.records[id := t.records[id]]
            && r.value.generation == t.records[id].generation
            && var rec := s.records[id];
               t.records[id] == rec.(offset := offset, regionSize := size, generation := gen + 1,
                                     regionGeneration := NextGeneration(rec.regionGeneration),
                                     relocationGeneration := if rec.relocationGeneration == 0 then 1
                                                             else NextGeneration(rec.relocationGeneration),
                                     lifecycle := LIFECYCLE_RESIDENT)
  {
    assert InStep(s.records[id], s.arena.live[id]);
    hide SpanFree, Invariant;
  }

  /** Why a relocation is refused: a stale handle, a pin, a target beyond the arena, or an
      empty, unaligned or taken one. */
  lemma RefusedRelocation(s: GovernorState, id: u64, gen: u64, offset: u64, size: u64)
    requires Lockstep(s)
    ensures var r := ApplyRelocation(s, id, gen, offset, size).1;
            if !CurrentRecord(s, id, gen) then r == Err(STALE_GENERATION)
            else if s.records[id].pinCount > 0 then r == Err(BLOCKED_BY_PINNED)
            else
              && s.records[id].alignment > 0
              && var aligned := size > 0 && offset % s.records[id].alignment == 0;
                 && (r == Err(SIZE_OVERFLOW) <==> aligned && offset + size > s.arena.capacity)
                 && (r == Err(INVALID_REQUEST) <==>
                       !aligned || (offset + size <= s.arena.capacity
                                    && exists j :: offset <= j < offset + size && !ByteFree(s.arena, j)))
                 && (r.Err? ==> r.reason in {SIZE_OVERFLOW, INVALID_REQUEST})
  {
    if CurrentRecord(s, id, gen) {
      assert InStep(s.records[id], s.arena.live[id]) && LiveBlock(s.arena, id);
      PowerTest(s.records[id].alignment);
      RelocateReason(s.arena, id, gen, offset, size, s.records[id].alignment);
      RelocateReasons(s.arena, id, gen, offset, size, s.records[id].alignment);
    }
    hide Invariant, ByteFree, Relocate, PowerOfTwo, IsPow2;
  }

  lemma RelocateReasons(a: ArenaState, id: u64, gen: u64, offset: u64, size: u64, align: u64)
    ensures var r := Relocate(a, id, gen, offset, size, align).1;
            r.Err? ==> r.reason in {STALE_GENERATION, IMPOSSIBLE_ALIGNMENT, SIZE_OVERFLOW, INVALID_REQUEST}
  {
    hide SpanFree, Moved;
  }

  // ---------------------------------------------------------- pins, queries

  lemma PinnedRegion(a: ArenaState, id: u64, gen: u64)
    requires Current(a, id, gen)
    ensures var (b, r) := PinRegion(a, id, gen); var q := a.live[id];
            && r.Ok? && b.live == a.live[id := r.value]
            && r.value == q.(pinCount := r.value.pinCount, movability := PINNED)
            && (q.pinCount + 1 < TWO32 ==> r.value.pinCount == q.pinCount + 1)
  {
  }

  lemma UnpinnedRegion(a: ArenaState, id: u64, gen: u64)
    requires UnpinRegion(a, id, gen).1.Ok?
    ensures var (b, r) := UnpinRegion(a, id, gen);
            && id in a.live && b.live == a.live[id := r.value] && b.capacity == a.capacity
            && var q := a.live[id];
               && q.pinCount > 0 && r.value.pinCount == q.pinCount - 1
               && r.value == q.(pinCount := r.value.pinCount, movability := r.value.movability)
               && r.value.movability == (if r.value.pinCount > 0 then q.movability else MOVABLE)
  {
  }

  lemma RelocatedRegion(a: ArenaState, id: u64, gen: u64, off: u64, size: u64, align: u64)
    requires Relocate(a, id, gen, off, size, align).1.Ok?
    ensures var (b, r) := Relocate(a, id, gen, off, size, align);
            && id in a.live && b.live == a.live[id := r.value] && b.capacity == a.capacity
            && r.value == Moved(a.live[id], off, size, align)
  {
    hide SpanFree, Moved;
  }

  /** A pin succeeds exactly on a current handle and adds one to the arena's count, which
      the record takes over. */
  lemma PinAnswer(s: GovernorState, id: u64, gen: u64)
    requires Lockstep(s)
    ensures var (t, r) := Pin(s, id, gen);
            && r == (if CurrentRecord(s, id, gen) then Ok(()) else Err(STALE_GENERATION))
            && (r.Ok? ==>
                  && id in s.arena.live && id in t.arena.live && id in t.records
                  && t.records[id].movability == PINNED && t.records[id].pinCount == t.arena.live[id].pinCount
                  && (s.arena.live[id].pinCount + 1 < TWO32 ==>
                        t.arena.live[id].pinCount == s.arena.live[id].pinCount + 1))
  {
    if CurrentRecord(s, id, gen) {
      assert InStep(s.records[id], s.arena.live[id]);
      hide PinRegion, Lockstep;
      PinnedRegion(s.arena, id, gen);
    }
  }

  /** An unpin succeeds exactly on a current handle that the arena counts a pin of; the last
      one makes the block movable. */
  lemma UnpinAnswer(s: GovernorState, id: u64, gen: u64)
    requires Lockstep(s)
    ensures var (t, r) := Unpin(s, id, gen);
            && (r == Err(STALE_GENERATION) <==> !CurrentRecord(s, id, gen))
            && (CurrentRecord(s, id, gen) ==>
                  && id in s.arena.live && (r == Err(INVALID_REQUEST) <==> s.arena.live[id].pinCount == 0)
                  && (r.Err? ==> r == Err(INVALID_REQUEST)))
            && (r.Ok? ==>
                  && id in t.arena.live && id in t.records
                  && t.arena.live[id].pinCount == s.arena.live[id].pinCount - 1 == t.records[id].pinCount
                  && (t.records[id].pinCount == 0 ==> t.records[id].movability == MOVABLE))
  {
    assert id in s.records ==> InStep(s.records[id], s.arena.live[id]);
    hide Invariant;
  }

  /** A query answers with the record of a current handle and refuses any other. */
  lemma GetAnswer(s: GovernorState, id: u64, gen: u64)
    requires Lockstep(s)
    ensures Get(s, id, gen) == if CurrentRecord(s, id, gen) then Ok(s.records[id]) else Err(STALE_GENERATION)
  {
    assert id in s.records ==> InStep(s.records[id], s.arena.live[id]);
    hide Invariant;
  }
}
