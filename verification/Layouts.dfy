/** Arena layouts built by runs: blocks stacked from the bottom, moved and dropped. */
module Layouts {
  import opened Machine
  import opened Types
  import opened Records
  import opened GovernorSpec
  import opened GovernorInvariants
  import opened ArenaSpec
  import opened AllocationTheorems
  import opened Reachability

  /** A request with nothing special about it. */
  function Plain(n: u64, alignment: u64, movability: u8): AllocationRequest {
    AllocationRequest(n, 0, alignment, RECLAIM_UNKNOWN, movability, false,
                      Origin(0, [], 0, 0, 0, 0, 0, 0, 0, 0, 0, [], DERIVED))
  }

  /** A block that such a request left behind, unpinned since. */
  predicate Block(r: Region, offset: int, size: int, alignment: u64, movability: u8) {
    && r.offset == offset && r.size == size && r.alignment == alignment && r.movability == movability
    && r.pinCount == 0 && r.tag.residency == RESIDENT && r.tag.reclaimability == RECLAIM_UNKNOWN
  }

  lemma NoRounding(v: u64)
    ensures IsPow2(1) && AlignUp(v, 1) == v && AlignUpChecked(v, 1) == v
  {
    assert BitAnd(1, 0) == 0;
    AlignUpArithmetic(v, 1);
  }

  /** The first `p` bytes are taken, and nothing lies above them. */
  ghost predicate Filled(s: GovernorState, p: int) {
    Lockstep(s) && s.initialized && FilledArena(s.arena, p)
  }

  ghost predicate FilledArena(a: ArenaState, p: int) {
    && 0 <= p <= a.capacity
    && (forall id | id in a.live :: a.live[id].offset + a.live[id].size <= p)
    && (forall j | 0 <= j < p :: !ByteFree(a, j))
  }

  lemma StartIsFilled(domain: MemoryDomain)
    requires domain.managedCapacity > 0
    ensures var s := Step(Fresh(domain), OpInitialize(true, true));
            && Filled(s, 0) && s.arena == Fresh(domain).arena && s.arena.live == map[] && s.nextAllocId == 1
            && s.arena.capacity == domain.managedCapacity
  {
    FreshIsLockstep(domain);
    DomainOnlyKeeps(Fresh(domain), Step(Fresh(domain), OpInitialize(true, true)));
    hide Lockstep;
  }

  /** The rest of the arena is the only free run. */
  lemma FilledRun(a: ArenaState, p: int, lo: int, hi: int)
    requires Invariant(a) && FilledArena(a, p) && FreeRun(a, lo, hi)
    ensures lo == p && hi == a.capacity
  {
    FreeRunIsMaximal(a, lo, hi);
    assert ByteFree(a, lo) && lo >= p;
    forall id | id in a.live ensures a.live[id].offset < hi {
      assert LiveBlock(a, id);
    }
  }

  lemma TopIsFree(a: ArenaState, p: int, size: int)
    requires Invariant(a) && FilledArena(a, p) && 0 < size && p + size <= a.capacity
    ensures SpanFree(a, p, p + size)
  {
  }

  /** Placing a block on top. */
  lemma FilledHigher(a: ArenaState, b: ArenaState, p: int, id: u64, r: Region)
    requires FilledArena(a, p) && id !in a.live && b.live == a.live[id := r] && b.capacity == a.capacity
    requires r.offset == p && r.size > 0 && p + r.size <= a.capacity
    ensures FilledArena(b, p + r.size)
  {
    forall j | 0 <= j < p + r.size ensures !ByteFree(b, j) {
      if j < p {
        assert !ByteFree(a, j);
        var i :| i in a.live && !Apart(a.live[i], j, j + 1);
        assert i in b.live && b.live[i] == a.live[i];
      } else {
        assert id in b.live && !Apart(b.live[id], j, j + 1);
      }
    }
  }

  /** The arena grants the first bytes of its only free run. */
  lemma TopIsGranted(a: ArenaState, p: int, req: AllocRequest)
    requires Invariant(a) && FilledArena(a, p) && req.allocId !in a.live
    requires req.bytes > 0 && IsPow2(req.alignment) && Aligned(p, req.alignment)
    requires req.bytes <= AlignUp(req.bytes, req.alignment) && p + AlignUp(req.bytes, req.alignment) <= a.capacity
    ensures Allocate(a, req).1.Ok?
    ensures var r := Allocate(a, req).1.value; r.offset == p && r.size == AlignUp(req.bytes, req.alignment)
  {
    var size := AlignUp(req.bytes, req.alignment);
    TopIsFree(a, p, size);
    SpanFreeIsBytewise(a, p, p + size);
    RoundedSize(req.bytes, req.alignment);
    assert RoomAt(a, RoundUp(req.bytes, req.alignment), req.alignment, p);
    hide ByteFree, SpanFree, Invariant, Allocate, RoomAt, AlignUp, IsPow2, FreeRun, RunCanHold, RoundUp;
    AllocateIffRoom(a, req);
    AllocateKeeps(a, req);
    var lo, hi := AllocateIsBestFit(a, req);
    FilledRun(a, p, lo, hi);
    RoundedAligned(p, req.alignment);
  }

  lemma RoundedAligned(p: int, align: int)
    requires align > 0 && p % align == 0
    ensures RoundUp(p, align) == p
  {
    var q := Quotient(p, align);
    ModUnique(p + align - 1, align, q, align - 1);
  }

  /** What granting a plain request does to the arena. */
  ghost predicate Granted(a: ArenaState, b: ArenaState, id: u64, p: int, size: int, alignment: u64, movability: u8) {
    && id !in a.live && id in b.live && b.live == a.live[id := b.live[id]] && b.capacity == a.capacity
    && Block(b.live[id], p, size, alignment, movability) && b.live[id].allocGeneration == 1
  }

  /** Requests stack blocks on top of each other. */
  lemma GrantOnTop(s: GovernorState, p: int, n: u64, alignment: u64, movability: u8)
    requires Filled(s, p) && s.nextAllocId < MAX64 && n > 0 && IsPow2(alignment) && Aligned(p, alignment)
    requires n <= AlignUp(n, alignment) && p + AlignUp(n, alignment) <= s.arena.capacity
    ensures var t := Step(s, OpRequest(Plain(n, alignment, movability)));
            && Filled(t, p + AlignUp(n, alignment)) && t.nextAllocId == s.nextAllocId + 1
            && Granted(s.arena, t.arena, s.nextAllocId, p, AlignUp(n, alignment), alignment, movability)
  {
    assert s.nextAllocId !in s.arena.live && Invariant(s.arena) && s.arena.capacity == s.domain.managedCapacity;
    hide Lockstep, Invariant, Step, Allocate, FilledArena, IsPow2, Aligned, AlignUp, SpanFree, Request;
    hide Granted;
    var req := Plain(n, alignment, movability);
    ArenaGrants(s.arena, p, req, s.nextAllocId);
    StepGrants(s, n, alignment, movability);
    RequestKeeps(s, req);
  }

  lemma ArenaGrants(a: ArenaState, p: int, req: AllocationRequest, id: u64)
    requires Invariant(a) && FilledArena(a, p) && id !in a.live && req.bytes > 0 && IsPow2(req.alignment)
    requires Aligned(p, req.alignment) && req == Plain(req.bytes, req.alignment, req.movability)
    requires req.bytes <= AlignUp(req.bytes, req.alignment) && p + AlignUp(req.bytes, req.alignment) <= a.capacity
    ensures var (b, r) := Allocate(a, ArenaRequest(req, id)); var size := AlignUp(req.bytes, req.alignment);
            && r.Ok? && FilledArena(b, p + size) && Granted(a, b, id, p, size, req.alignment, req.movability)
  {
    var ar := ArenaRequest(req, id);
    hide Invariant, Allocate, FilledArena, IsPow2, Aligned, AlignUp, SpanFree;
    TopIsGranted(a, p, ar);
    AllocateKeeps(a, ar);
    GrantedRegion(a, ar);
    FilledHigher(a, Allocate(a, ar).0, p, id, Allocate(a, ar).1.value);
  }

  lemma StepGrants(s: GovernorState, n: u64, alignment: u64, movability: u8)
    requires s.initialized && s.nextAllocId < MAX64 && 0 < n <= s.domain.managedCapacity && IsPow2(alignment)
    requires n <= AlignUp(n, alignment)
    requires Allocate(s.arena, ArenaRequest(Plain(n, alignment, movability), s.nextAllocId)).1.Ok?
    ensures var req := Plain(n, alignment, movability);
            var t := Step(s, OpRequest(req));
            && t == Request(s, req).0 && t.initialized && t.nextAllocId == s.nextAllocId + 1
            && t.arena == Allocate(s.arena, ArenaRequest(req, s.nextAllocId)).0
  {
    assert alignment != 0;
    hide Allocate, AlignUp, IsPow2;
  }

  /** Moving an unpinned block to free space. */
  lemma MoveTo(s: GovernorState, id: u64, offset: u64, size: u64)
    requires Lockstep(s) && id in s.arena.live
    requires var r := s.arena.live[id];
             && r.pinCount == 0 && r.movability != PINNED && Aligned(offset, r.alignment)
             && offset + size <= s.arena.capacity && SpanFree(s.arena, offset, offset + size)
    ensures var r := s.arena.live[id];
            var t := Step(s, OpRelocate(id, r.allocGeneration, offset, size));
            && Lockstep(t) && t.initialized == s.initialized && t.nextAllocId == s.nextAllocId
            && t.arena.capacity == s.arena.capacity
            && t.arena.live == s.arena.live[id := Moved(r, offset, size, r.alignment)]
  {
    var r := s.arena.live[id];
    assert InStep(s.records[id], r) && LiveBlock(s.arena, id);
    ArenaMoves(s.arena, id, offset, size);
    StepMoves(s, id, r.allocGeneration, offset, size);
    hide Lockstep, Step, Invariant, ApplyRelocation, Relocate, SpanFree, InStep;
    RelocationKeeps(s, id, r.allocGeneration, offset, size);
  }

  lemma ArenaMoves(a: ArenaState, id: u64, offset: u64, size: u64)
    requires id in a.live && LiveBlock(a, id) && Aligned(offset, a.live[id].alignment)
    requires offset + size <= a.capacity && SpanFree(a, offset, offset + size)
    ensures var m := a.live[id]; var (b, r) := Relocate(a, id, m.allocGeneration, offset, size, m.alignment);
            && r.Ok? && b.capacity == a.capacity && b.live == a.live[id := Moved(m, offset, size, m.alignment)]
  {
  }

  lemma StepMoves(s: GovernorState, id: u64, gen: u64, offset: u64, size: u64)
    requires CurrentRecord(s, id, gen) && s.records[id].pinCount == 0
    requires Relocate(s.arena, id, gen, offset, size, s.records[id].alignment).1.Ok?
    ensures var t := Step(s, OpRelocate(id, gen, offset, size));
            && t == ApplyRelocation(s, id, gen, offset, size).0
            && t.arena == Relocate(s.arena, id, gen, offset, size, s.records[id].alignment).0
            && t.initialized == s.initialized && t.nextAllocId == s.nextAllocId
  {
    hide Relocate;
  }

  /** Dropping an unpinned block. */
  lemma Drop(s: GovernorState, id: u64)
    requires Lockstep(s) && id in s.arena.live
    requires s.arena.live[id].pinCount == 0 && s.arena.live[id].movability != PINNED
    ensures var t := Step(s, OpRelease(id, s.arena.live[id].allocGeneration, 0, 0));
            && Lockstep(t) && t.initialized == s.initialized && t.nextAllocId == s.nextAllocId
            && t.arena.capacity == s.arena.capacity && t.arena.live == Without(s.arena.live, id)
  {
    var gen := s.arena.live[id].allocGeneration;
    assert InStep(s.records[id], s.arena.live[id]);
    StepDrops(s, id, gen);
    hide Lockstep, Step, Invariant, Release, InStep;
    ReleaseKeeps(s, id, gen, 0, 0);
  }

  lemma StepDrops(s: GovernorState, id: u64, gen: u64)
    requires ReleaseRefusal(s, id, gen, 0, 0).Ok? && ArenaSpec.Free(s.arena, id, gen).1.Ok?
    ensures var t := Step(s, OpRelease(id, gen, 0, 0));
            && t == Release(s, id, gen, 0, 0).0 && t.arena == ArenaSpec.Free(s.arena, id, gen).0
            && t.initialized == s.initialized && t.nextAllocId == s.nextAllocId
  {
    hide ArenaSpec.Free;
  }

  // ------------------------------------------------- stacks of blocks

  datatype Place = Place(offset: int, size: int, movability: u8)

  function Top(v: seq<Place>): int {
    if v == [] then 0 else v[|v| - 1].offset + v[|v| - 1].size
  }

  /** The ids from 1 on are at the places of `v`, except those in `gone`. */
  ghost predicate Stands(a: ArenaState, v: seq<Place>, gone: set<u64>) {
    && (forall id :: id in a.live <==> 1 <= id <= |v| && id !in gone)
    && (forall id | id in a.live :: Block(a.live[id], v[id - 1].offset, v[id - 1].size, 1, v[id - 1].movability))
  }

  /** The blocks of `v` fill the arena from the bottom. */
  ghost predicate Piled(s: GovernorState, v: seq<Place>) {
    Filled(s, Top(v)) && s.nextAllocId == |v| + 1 && Stands(s.arena, v, {})
  }

  lemma PileStarts(domain: MemoryDomain)
    requires domain.managedCapacity > 0
    ensures var s := Step(Fresh(domain), OpInitialize(true, true));
            Reaches(Fresh(domain), s, 1) && Piled(s, []) && s.arena.capacity == domain.managedCapacity
  {
    hide Step, Reaches, Lockstep, FilledArena;
    StartIsFilled(domain);
    ReachesNext(Fresh(domain), OpInitialize(true, true));
  }

  lemma StandsHigher(a: ArenaState, b: ArenaState, v: seq<Place>, size: int, movability: u8)
    requires Stands(a, v, {}) && |v| + 1 <= MAX64 && Granted(a, b, |v| + 1, Top(v), size, 1, movability)
    ensures Stands(b, v + [Place(Top(v), size, movability)], {}) && b.capacity == a.capacity
  {
    var w := v + [Place(Top(v), size, movability)];
    forall id | id in b.live ensures Block(b.live[id], w[id - 1].offset, w[id - 1].size, 1, w[id - 1].movability) {
      if id <= |v| {
        assert id in a.live && b.live[id] == a.live[id];
      }
    }
  }

  /** One more block on the pile. */
  lemma Pile(r: GovernorState, s: GovernorState, v: seq<Place>, size: u64, movability: u8) returns (t: GovernorState)
    requires Reaches(r, s, |v| + 1) && Piled(s, v) && |v| + 1 < MAX64 && size > 0 && Top(v) + size <= s.arena.capacity
    ensures Reaches(r, t, |v| + 2) && Piled(t, v + [Place(Top(v), size, movability)])
    ensures t.arena.capacity == s.arena.capacity
  {
    hide Step, Reaches, Filled, Lockstep, Stands, Granted, IsPow2, AlignUp, Aligned;
    var take := OpRequest(Plain(size, 1, movability));
    t := Step(s, take);
    NoRounding(size);
    FilledCapacity(s, Top(v));
    GrantOnTop(s, Top(v), size, 1, movability);
    StandsHigher(s.arena, t.arena, v, size, movability);
    ReachesMore(r, s, |v| + 1, take);
  }

  lemma FilledCapacity(s: GovernorState, p: int)
    requires Filled(s, p)
    ensures Aligned(p, 1) && Lockstep(s) && 0 <= p <= s.arena.capacity
  {
    hide Lockstep;
  }

  lemma StandsWithout(a: ArenaState, b: ArenaState, v: seq<Place>, gone: set<u64>, id: u64)
    requires Stands(a, v, gone) && 1 <= id <= |v| && id !in gone
    ensures id in a.live && Block(a.live[id], v[id - 1].offset, v[id - 1].size, 1, v[id - 1].movability)
    ensures b.live == Without(a.live, id) ==> Stands(b, v, gone + {id})
  {
  }

  /** Take one block out of the pile. */
  lemma TakeOut(r: GovernorState, s: GovernorState, n: nat, v: seq<Place>, gone: set<u64>, id: u64)
      returns (t: GovernorState)
    requires Reaches(r, s, n) && Lockstep(s) && Stands(s.arena, v, gone)
    requires 1 <= id <= |v| && id !in gone && v[id - 1].movability != PINNED
    ensures Reaches(r, t, n + 1) && Lockstep(t) && Stands(t.arena, v, gone + {id})
    ensures t.arena.capacity == s.arena.capacity
  {
    StandsWithout(s.arena, s.arena, v, gone, id);
    var op := OpRelease(id, s.arena.live[id].allocGeneration, 0, 0);
    t := Step(s, op);
    hide Step, Reaches, Lockstep, Stands, Without;
    StandsWithout(s.arena, t.arena, v, gone, id);
    Drop(s, id);
    ReachesMore(r, s, n, op);
  }
}
