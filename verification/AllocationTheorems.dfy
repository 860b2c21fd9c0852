/** What allocation and release achieve, in terms of bytes and intervals alone. */
module AllocationTheorems {
  import opened Machine
  import opened Types
  import opened ArenaSpec
  import opened Tiling
  import GovernorInvariants

  /** The least multiple of `align` that is not below `v`, over the integers. */
  function RoundUp(v: int, align: int): int
    requires align > 0
  {
    var s := v + align - 1;
    s - s % align
  }

  ghost predicate RoomAt(a: ArenaState, n: int, align: int, off: int) {
    0 <= off && off + n <= a.capacity && Aligned(off, align) && forall j | off <= j < off + n :: ByteFree(a, j)
  }

  /** Some multiple of `align` starts `n` free bytes inside the arena. */
  ghost predicate Room(a: ArenaState, n: int, align: int) {
    exists off: int :: RoomAt(a, n, align, off)
  }

  // ------------------------------------------------------- completeness

  /** The rounded size is the mathematical one whenever that fits a word, and
      the overflow signal otherwise. */
  lemma RoundedSize(v: u64, align: u64)
    requires IsPow2(align) && v > 0
    ensures v <= RoundUp(v, align) && RoundUp(v, align) % align == 0
    ensures AlignUp(v, align) == if RoundUp(v, align) < TWO64 then RoundUp(v, align) else 0
  {
    AlignUpArithmetic(v, align);
    RoundDown(v + align - 1, align);
    var up := RoundUp(v, align);
    if v + align - 1 >= TWO64 {
      Pow2DividesWord(align);
      hide RoundUp, AlignUp, IsPow2;
      if up < TWO64 {
        MultiplesGap(up, TWO64, align);
      }
    }
  }

  /** A granted request lies in an aligned stretch of free bytes. */
  lemma GrantHasRoom(a: ArenaState, req: AllocRequest)
    requires Invariant(a) && Allocate(a, req).1.Ok?
    ensures req.bytes > 0 && IsPow2(req.alignment)
    ensures var r := Allocate(a, req).1.value;
            r.size == RoundUp(req.bytes, req.alignment) && RoomAt(a, r.size, req.alignment, r.offset)
  {
    var need := AlignUp(req.bytes, req.alignment);
    var run := BestRun(a, need, req.alignment);
    var at := AlignUp(run.0, req.alignment);
    RoundedSize(req.bytes, req.alignment);
    AlignUpMeaning(run.0, req.alignment);
    GovernorInvariants.RunHolds(a, run.0, run.1, at, at + need);
    SpanFreeIsBytewise(a, at, at + need);
  }

  /** Wherever there is room, some free run can hold the request. */
  lemma RoomIsFound(a: ArenaState, need: u64, align: u64, off: int)
    requires Invariant(a) && IsPow2(align) && need > 0 && RoomAt(a, need, align, off)
    ensures CanAllocate(a, need, align)
  {
    SpanFreeIsBytewise(a, off, off + need);
    var lo, hi := RunAround(a, off, off + need);
    AlignUpMeaning(lo, align);
    assert AlignUp(lo, align) <= off;
    var l, h := BestFitExists(a, need, align, lo, hi);
  }

  /** Allocation is sound and complete against the byte map, for every request. */
  lemma AllocateIffRoom(a: ArenaState, req: AllocRequest)
    requires Invariant(a)
    ensures Allocate(a, req).1.Ok? <==>
            req.bytes > 0 && IsPow2(req.alignment) && Room(a, RoundUp(req.bytes, req.alignment), req.alignment)
  {
    if Allocate(a, req).1.Ok? {
      GrantHasRoom(a, req);
    }
    if req.bytes > 0 && IsPow2(req.alignment) && Room(a, RoundUp(req.bytes, req.alignment), req.alignment) {
      var n := RoundUp(req.bytes, req.alignment);
      var off: int :| RoomAt(a, n, req.alignment, off);
      RoundedSize(req.bytes, req.alignment);
      RoomIsFound(a, n, req.alignment, off);
    }
  }

  /** An aligned stretch of free bytes is part of the free bytes. */
  lemma RoomNeedsBytes(a: ArenaState, n: int, align: int)
    requires n >= 0 && Room(a, n, align)
    ensures n <= |FreeBytes(a)|
  {
    var off: int :| RoomAt(a, n, align, off);
    var mine := Interval(off, off + n);
    IntervalSize(off, off + n);
    assert FreeBytes(a) == mine + (FreeBytes(a) - mine);
  }

  /** Why a well-formed request fails: the rounded size does not fit a word, or too
      few bytes are free, or enough bytes are free but nowhere together. */
  lemma FailureReason(a: ArenaState, req: AllocRequest)
    requires Invariant(a) && req.bytes > 0 && IsPow2(req.alignment)
    ensures var r, n := Allocate(a, req).1, RoundUp(req.bytes, req.alignment);
            && (r == Err(SIZE_OVERFLOW) <==> req.bytes <= a.capacity && n >= TWO64)
            && (r == Err(INSUFFICIENT_TOTAL_CAPACITY) <==>
                  req.bytes > a.capacity || (n < TWO64 && n > |FreeBytes(a)|))
            && (r == Err(INSUFFICIENT_CONTIGUOUS_CAPACITY) <==>
                  n <= |FreeBytes(a)| && !Room(a, n, req.alignment))
  {
    var n := RoundUp(req.bytes, req.alignment);
    RoundedSize(req.bytes, req.alignment);
    AllocateIffRoom(a, req);
    BytesSplit(a);
    if Room(a, n, req.alignment) {
      RoomNeedsBytes(a, n, req.alignment);
    }
  }

  /** Why a malformed request fails. */
  lemma MalformedReason(a: ArenaState, req: AllocRequest)
    ensures var r := Allocate(a, req).1;
            && (r == Err(ZERO_BYTES) <==> req.bytes == 0)
            && (r == Err(IMPOSSIBLE_ALIGNMENT) <==> req.bytes > 0 && req.alignment == 0)
            && (r == Err(NON_POWER_OF_TWO_ALIGNMENT) <==>
                  req.bytes > 0 && req.alignment > 0 && !PowerOfTwo(req.alignment))
  {
    PowerTest(req.alignment);
    hide IsPow2, PowerOfTwo, AlignUp, CanAllocate, FreeBytes;
  }

  /** The run [lo, hi) has room for `n` aligned bytes. */
  ghost predicate RunCanHold(lo: int, hi: int, n: int, align: int) {
    exists off: int :: Includes(lo, hi, off, n) && Aligned(off, align)
  }

  predicate Includes(lo: int, hi: int, off: int, n: int) {
    lo <= off && off + n <= hi
  }

  lemma FitsIsCanHold(a: ArenaState, lo: u64, hi: int, n: u64, align: u64)
    requires IsPow2(align) && n > 0 && FreeRun(a, lo, hi)
    ensures Fits(lo, hi, n, align) <==> RunCanHold(lo, hi, n, align)
  {
    AlignUpMeaning(lo, align);
    if Fits(lo, hi, n, align) {
      assert Includes(lo, hi, AlignUp(lo, align), n);
    }
    if RunCanHold(lo, hi, n, align) {
      var off: int :| Includes(lo, hi, off, n) && Aligned(off, align);
      assert AlignUp(lo, align) <= off;
    }
  }

  /** Best fit: the request goes to the first aligned offset of the free run that
      is least by (size, offset) among all free runs with room for it. */
  lemma AllocateIsBestFit(a: ArenaState, req: AllocRequest) returns (lo: u64, hi: int)
    requires Invariant(a) && Allocate(a, req).1.Ok?
    ensures req.bytes > 0 && IsPow2(req.alignment)
    ensures var r, n := Allocate(a, req).1.value, RoundUp(req.bytes, req.alignment);
            && FreeRun(a, lo, hi) && r.offset == RoundUp(lo, req.alignment) && r.offset + r.size <= hi
            && forall l: u64, h: int | FreeRun(a, l, h) && RunCanHold(l, h, n, req.alignment) ::
                 !SlotLess(h - l, l, hi - lo, lo)
  {
    var n, align := AlignUp(req.bytes, req.alignment), req.alignment;
    RoundedSize(req.bytes, align);
    var run := BestRun(a, n, align);
    lo, hi := run.0, run.1;
    FittingOffset(lo, hi, n, align);
    BestAmongRuns(a, n, align, lo, hi);
    hide FreeRun, SlotLess, RunCanHold, Invariant, IsPow2, CanAllocate, FreeBytes, AlignUp, RoundUp;
  }

  lemma FittingOffset(lo: u64, hi: int, n: u64, align: u64)
    requires IsPow2(align) && Fits(lo, hi, n, align)
    ensures AlignUp(lo, align) == RoundUp(lo, align)
  {
    AlignUpArithmetic(lo, align);
  }

  lemma BestAmongRuns(a: ArenaState, n: u64, align: u64, lo: u64, hi: int)
    requires n > 0 && IsPow2(align) && BestFit(a, n, align, lo, hi)
    ensures forall l: u64, h: int | FreeRun(a, l, h) && RunCanHold(l, h, n, align) :: !SlotLess(h - l, l, hi - lo, lo)
  {
    forall l: u64, h: int | FreeRun(a, l, h) && RunCanHold(l, h, n, align)
      ensures !SlotLess(h - l, l, hi - lo, lo)
    {
      FitsIsCanHold(a, l, h, n, align);
    }
  }

  // -------------------------------------- what happens to the byte map

  predicate Holds(r: Region, j: int) {
    r.offset <= j < r.offset + r.size
  }

  /** Granting a request occupies exactly the bytes of the returned region. */
  lemma AllocateOccupies(a: ArenaState, req: AllocRequest, j: int)
    requires Invariant(a) && req.allocId !in a.live && Allocate(a, req).1.Ok?
    ensures var (b, r) := Allocate(a, req); ByteFree(b, j) <==> ByteFree(a, j) && !Holds(r.value, j)
  {
    GovernorInvariants.AllocateKeeps(a, req);
    var (b, r) := Allocate(a, req);
    hide Allocate;
    AddedByte(a, b, req.allocId, r.value, j);
  }

  lemma AddedByte(a: ArenaState, b: ArenaState, id: u64, r: Region, j: int)
    requires id !in a.live && b.live == a.live[id := r] && b.capacity == a.capacity && r.size > 0
    ensures ByteFree(b, j) <==> ByteFree(a, j) && !Holds(r, j)
  {
    if ByteFree(b, j) {
      assert Apart(b.live[id], j, j + 1);
      assert forall i | i in a.live :: b.live[i] == a.live[i] && Apart(b.live[i], j, j + 1);
    }
  }

  /** Releasing a block frees exactly its bytes. */
  lemma FreeVacates(a: ArenaState, id: u64, gen: u64, j: int)
    requires Invariant(a) && Current(a, id, gen)
    ensures ByteFree(Free(a, id, gen).0, j) <==> ByteFree(a, j) || Holds(a.live[id], j)
  {
    var b := Free(a, id, gen).0;
    assert LiveBlock(a, id);
    assert a.live == b.live[id := a.live[id]];
    AddedByte(b, a, id, a.live[id], j);
    if Holds(a.live[id], j) {
      forall i | i in b.live ensures Apart(b.live[i], j, j + 1) {
        assert Apart(a.live[i], a.live[id].offset, a.live[id].offset + a.live[id].size);
      }
    }
  }

  /** Relocation is all or nothing.  It is accepted exactly when the handle is
      current and the aligned target consists of free bytes; then the target is
      taken, the old bytes are freed, and every other block stays as it was. */
  lemma RelocateIffRoom(a: ArenaState, id: u64, gen: u64, offset: u64, size: u64, align: u64, j: int)
    requires Invariant(a)
    ensures var (b, r) := Relocate(a, id, gen, offset, size, align);
            && (r.Ok? <==> Current(a, id, gen) && IsPow2(align) && size > 0 && RoomAt(a, size, align, offset))
            && (r.Err? ==> b == a)
            && (r.Ok? ==>
                  && b.live.Keys == a.live.Keys && (forall i | i in a.live && i != id :: b.live[i] == a.live[i])
                  && b.live[id].offset == offset && b.live[id].size == size
                  && (ByteFree(b, j) <==> (ByteFree(a, j) || Holds(a.live[id], j)) && !Holds(b.live[id], j)))
  {
    var (b, r) := Relocate(a, id, gen, offset, size, align);
    if size > 0 && offset + size <= a.capacity {
      SpanFreeIsBytewise(a, offset, offset + size);
    }
    if r.Ok? {
      var c := Free(a, id, gen).0;
      FreeVacates(a, id, gen, j);
      assert b.live == c.live[id := b.live[id]];
      AddedByte(c, b, id, b.live[id], j);
    }
  }

  /** Why a relocation is refused, in the order of the checks. */
  lemma RelocateReason(a: ArenaState, id: u64, gen: u64, offset: u64, size: u64, align: u64)
    requires Invariant(a)
    ensures var r, current := Relocate(a, id, gen, offset, size, align).1, Current(a, id, gen);
            && (r == Err(STALE_GENERATION) <==> !current)
            && (r == Err(IMPOSSIBLE_ALIGNMENT) <==> current && !PowerOfTwo(align))
            && (r == Err(SIZE_OVERFLOW) <==>
                  current && PowerOfTwo(align) && size > 0 && offset % align == 0 && offset + size > a.capacity)
            && (r == Err(INVALID_REQUEST) <==>
                  && current && PowerOfTwo(align)
                  && (size == 0 || offset % align != 0
                      || (offset + size <= a.capacity
                          && exists j :: offset <= j < offset + size && !ByteFree(a, j))))
  {
    PowerTest(align);
    assert IsPow2(align) ==> align > 0;
    hide IsPow2, PowerOfTwo;
    if size > 0 && offset + size <= a.capacity {
      SpanFreeIsBytewise(a, offset, offset + size);
    }
    hide ByteFree, SpanFree, Invariant, Moved;
  }

  /** An accepted target lies inside exactly one free run. */
  lemma TargetInOneRun(a: ArenaState, offset: u64, size: u64, align: u64) returns (lo: int, hi: int)
    requires Invariant(a) && size > 0 && RoomAt(a, size, align, offset)
    ensures FreeRun(a, lo, hi) && lo <= offset && offset + size <= hi
    ensures forall l: int, h: int | FreeRun(a, l, h) && l <= offset && offset + size <= h :: l == lo && h == hi
  {
    SpanFreeIsBytewise(a, offset, offset + size);
    lo, hi := RunAround(a, offset, offset + size);
    forall l: int, h: int | FreeRun(a, l, h) && l <= offset && offset + size <= h ensures l == lo && h == hi {
      FreeRunsDisjoint(a, lo, hi, l, h);
    }
  }

  // ------------------------------------------------- layout and history

  /** Releasing a block right after it was allocated restores the live intervals. */
  lemma FreeUndoesAllocate(a: ArenaState, req: AllocRequest)
    requires Invariant(a) && req.allocId !in a.live && Allocate(a, req).1.Ok?
    ensures var (b, r) := Free(Allocate(a, req).0, req.allocId, req.allocGeneration);
            r.Ok? && b.live == a.live && b.capacity == a.capacity
  {
    hide Invariant, CanAllocate, BestFit, Fits, AlignUp, IsPow2, FreeBytes, FreeRun;
    var (b, r) := Allocate(a, req);
    assert b.live == a.live[req.allocId := r.value] && r.value.allocGeneration == req.allocGeneration;
    assert Without(b.live, req.allocId) == a.live;
  }

  /** Release the listed blocks one after another. */
  ghost function FreeAll(a: ArenaState, ids: seq<u64>): ArenaState
    decreases |ids|
  {
    if ids == [] then a
    else
      var b := if ids[0] in a.live then Free(a, ids[0], a.live[ids[0]].allocGeneration).0 else a;
      FreeAll(b, ids[1..])
  }

  lemma {:induction false} FreeAllMeaning(a: ArenaState, ids: seq<u64>)
    ensures FreeAll(a, ids).live == map id | id in a.live && id !in ids :: a.live[id]
    ensures FreeAll(a, ids).capacity == a.capacity
    decreases |ids|
  {
    if ids != [] {
      var b := if ids[0] in a.live then Free(a, ids[0], a.live[ids[0]].allocGeneration).0 else a;
      FreeAllMeaning(b, ids[1..]);
    }
  }

  /** Two tilings reached by releasing the same blocks in different orders have the
      same offsets, sizes and free index. */
  lemma ReleaseOrderIsIrrelevant(a: ArenaState, ids: seq<u64>, ids': seq<u64>, m: Tiles, index: map<u64, u64>,
                                 m': Tiles, index': map<u64, u64>, k: u64)
    requires a.capacity > 0 && forall x :: x in ids <==> x in ids'
    requires Canonical(m, a.capacity) && Indexed(m, index) && LiveView(m, index) == FreeAll(a, ids).live
    requires Canonical(m', a.capacity) && Indexed(m', index') && LiveView(m', index') == FreeAll(a, ids').live
    ensures k in m <==> k in m'
    ensures k in m ==> m[k].size == m'[k].size && m[k].live == m'[k].live
    ensures SlotsOf(m) == SlotsOf(m') && index == index'
  {
    FreeAllMeaning(a, ids);
    FreeAllMeaning(a, ids');
    LayoutDetermined(m, index, m', index', a.capacity, k);
  }

  lemma LiveIsViewed(m: Tiles, index: map<u64, u64>, cap: u64, k: u64)
    requires Canonical(m, cap) && Indexed(m, index) && k in m
    ensures m[k].live ==> m[k].allocId in LiveView(m, index)
  {
  }

  /** Releasing everything leaves one free region that spans the arena. */
  lemma ReleasingEverything(a: ArenaState, ids: seq<u64>, m: Tiles, index: map<u64, u64>)
    requires a.capacity > 0 && forall id | id in a.live :: id in ids
    requires Canonical(m, a.capacity) && Indexed(m, index) && LiveView(m, index) == FreeAll(a, ids).live
    ensures m.Keys == {0} && m[0].size == a.capacity && !m[0].live
    ensures SlotsOf(m) == {Slot(a.capacity, 0)}
  {
    FreeAllMeaning(a, ids);
    var b := ArenaState(a.capacity, map[], 0);
    assert LiveView(m, index) == map[];
    assert FreeRun(b, 0, a.capacity);
    FreeRegionsAreRuns(m, index, b, 0, a.capacity);
    forall k | k in m ensures k == 0 {
      var e := End(m, k);
      LiveIsViewed(m, index, a.capacity, k);
      FreeRegionsAreRuns(m, index, b, k, e);
      assert !m[k].live && k < e;
    }
    forall s ensures s in SlotsOf(m) <==> s == Slot(a.capacity, 0) {
      SlotsAreRuns(m, index, b, s);
    }
  }
}
