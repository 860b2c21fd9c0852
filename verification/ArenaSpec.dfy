/** The arena as a set of live intervals.

    Everything else the allocator keeps (the tiling, the free index, the id
    index, the counters) is determined by this: the free regions are exactly the
    maximal runs of free bytes.  Each operation is given here as a function of
    the live intervals. */
module ArenaSpec {
  import opened Machine
  import opened Types

  datatype ArenaState = ArenaState(capacity: u64, live: map<u64, Region>, nextRegionId: u64)

  predicate Apart(r: Region, lo: int, hi: int) {
    r.offset + r.size <= lo || hi <= r.offset
  }

  ghost predicate Invariant(a: ArenaState) {
    && (forall id | id in a.live :: LiveBlock(a, id))
    && Disjoint(a.live)
  }

  ghost predicate LiveBlock(a: ArenaState, id: u64)
    requires id in a.live
  {
    var r := a.live[id];
    r.live && r.allocId == id && r.size > 0 && r.offset + r.size <= a.capacity
    && IsPow2(r.alignment) && Aligned(r.offset, r.alignment)
  }

  ghost predicate Disjoint(live: map<u64, Region>) {
    forall i, j | i in live && j in live && i != j :: Apart(live[i], live[j].offset, live[j].offset + live[j].size)
  }

  /** [lo, hi) is a non-empty stretch of the arena that no live block touches. */
  ghost predicate SpanFree(a: ArenaState, lo: int, hi: int) {
    0 <= lo < hi <= a.capacity && forall id | id in a.live :: Apart(a.live[id], lo, hi)
  }

  ghost predicate LiveEndsAt(a: ArenaState, x: int) {
    exists id | id in a.live :: a.live[id].offset + a.live[id].size == x
  }

  ghost predicate LiveStartsAt(a: ArenaState, x: int) {
    exists id | id in a.live :: a.live[id].offset == x
  }

  /** A free span that cannot be extended on either side. */
  ghost predicate FreeRun(a: ArenaState, lo: int, hi: int) {
    SpanFree(a, lo, hi) && (lo == 0 || LiveEndsAt(a, lo)) && (hi == a.capacity || LiveStartsAt(a, hi))
  }

  // ---------------------------------------------------------------- bytes

  /** The plain per-byte occupancy map. */
  ghost predicate ByteFree(a: ArenaState, j: int) {
    0 <= j < a.capacity && forall id | id in a.live :: Apart(a.live[id], j, j + 1)
  }

  ghost function LiveBytes(a: ArenaState): set<int> {
    set j | 0 <= j < a.capacity && !ByteFree(a, j)
  }

  ghost function FreeBytes(a: ArenaState): set<int> {
    set j | 0 <= j < a.capacity && ByteFree(a, j)
  }

  lemma SpanFreeIsBytewise(a: ArenaState, lo: int, hi: int)
    requires Invariant(a) && 0 <= lo < hi <= a.capacity
    ensures SpanFree(a, lo, hi) <==> forall j | lo <= j < hi :: ByteFree(a, j)
  {
    if forall j | lo <= j < hi :: ByteFree(a, j) {
      forall id | id in a.live ensures Apart(a.live[id], lo, hi) {
        var r := a.live[id];
        assert LiveBlock(a, id);
        var j := Max(lo, r.offset);
        assert lo <= j < hi ==> ByteFree(a, j) && Apart(r, j, j + 1);
      }
    }
  }

  /** A free run is a maximal interval of free bytes. */
  lemma FreeRunIsMaximal(a: ArenaState, lo: int, hi: int)
    requires Invariant(a) && 0 <= lo < hi <= a.capacity
    ensures FreeRun(a, lo, hi) <==>
            (forall j | lo <= j < hi :: ByteFree(a, j)) && !ByteFree(a, lo - 1) && !ByteFree(a, hi)
  {
    SpanFreeIsBytewise(a, lo, hi);
    if SpanFree(a, lo, hi) {
      EdgeBelow(a, lo, hi);
      EdgeAbove(a, lo, hi);
    }
    hide Invariant, ByteFree, SpanFree, LiveEndsAt, LiveStartsAt;
  }

  /** The byte below a free span is taken exactly by a block that ends there, if it
      is a byte of the arena at all. */
  lemma EdgeBelow(a: ArenaState, lo: int, hi: int)
    requires Invariant(a) && SpanFree(a, lo, hi)
    ensures !ByteFree(a, lo - 1) <==> lo == 0 || LiveEndsAt(a, lo)
  {
    if lo > 0 && !ByteFree(a, lo - 1) {
      var id :| id in a.live && !Apart(a.live[id], lo - 1, lo);
      assert Apart(a.live[id], lo, hi) && LiveBlock(a, id);
    }
    if lo > 0 && LiveEndsAt(a, lo) {
      var id :| id in a.live && a.live[id].offset + a.live[id].size == lo;
      assert LiveBlock(a, id) && !Apart(a.live[id], lo - 1, lo);
    }
  }

  lemma EdgeAbove(a: ArenaState, lo: int, hi: int)
    requires Invariant(a) && SpanFree(a, lo, hi)
    ensures !ByteFree(a, hi) <==> hi == a.capacity || LiveStartsAt(a, hi)
  {
    if hi < a.capacity && !ByteFree(a, hi) {
      var id :| id in a.live && !Apart(a.live[id], hi, hi + 1);
      assert Apart(a.live[id], lo, hi) && LiveBlock(a, id);
    }
    if hi < a.capacity && LiveStartsAt(a, hi) {
      var id :| id in a.live && a.live[id].offset == hi;
      assert LiveBlock(a, id) && !Apart(a.live[id], hi, hi + 1);
    }
  }

  /** Two free runs that share a byte are the same run. */
  lemma FreeRunsDisjoint(a: ArenaState, lo: int, hi: int, lo': int, hi': int)
    requires Invariant(a) && FreeRun(a, lo, hi) && FreeRun(a, lo', hi')
    requires lo < hi' && lo' < hi
    ensures lo == lo' && hi == hi'
  {
    FreeRunIsMaximal(a, lo, hi);
    FreeRunIsMaximal(a, lo', hi');
    assert lo < lo' ==> ByteFree(a, lo' - 1);
    assert lo' < lo ==> ByteFree(a, lo - 1);
    assert hi < hi' ==> ByteFree(a, hi);
    assert hi' < hi ==> ByteFree(a, hi');
  }

  lemma {:induction false} RunStart(a: ArenaState, j: int) returns (lo: int)
    requires Invariant(a) && ByteFree(a, j)
    ensures 0 <= lo <= j && !ByteFree(a, lo - 1) && forall x | lo <= x <= j :: ByteFree(a, x)
    decreases j
  {
    if ByteFree(a, j - 1) {
      lo := RunStart(a, j - 1);
    } else {
      lo := j;
    }
  }

  lemma {:induction false} RunEnd(a: ArenaState, j: int) returns (hi: int)
    requires Invariant(a) && ByteFree(a, j)
    ensures j < hi <= a.capacity && !ByteFree(a, hi) && forall x | j <= x < hi :: ByteFree(a, x)
    decreases a.capacity - j
  {
    if ByteFree(a, j + 1) {
      hi := RunEnd(a, j + 1);
    } else {
      hi := j + 1;
    }
  }

  /** Every free span lies inside exactly one free run. */
  lemma RunAround(a: ArenaState, lo: int, hi: int) returns (rlo: int, rhi: int)
    requires Invariant(a) && SpanFree(a, lo, hi)
    ensures FreeRun(a, rlo, rhi) && rlo <= lo && hi <= rhi
  {
    SpanFreeIsBytewise(a, lo, hi);
    rlo := RunStart(a, lo);
    rhi := RunEnd(a, hi - 1);
    FreeRunIsMaximal(a, rlo, rhi);
  }

  // ----------------------------------------------------- byte accounting

  ghost function Interval(lo: int, hi: int): set<int> {
    set j {:trigger j in Interval(lo, hi)} | lo <= j < hi
  }

  lemma {:induction false} IntervalSize(lo: int, hi: int)
    requires lo <= hi
    ensures |Interval(lo, hi)| == hi - lo
    decreases hi - lo
  {
    if lo < hi {
      IntervalSize(lo, hi - 1);
      assert Interval(lo, hi) == Interval(lo, hi - 1) + {hi - 1};
    } else {
      assert Interval(lo, hi) == {};
    }
  }

  lemma SubsetSize<T>(s: set<T>, t: set<T>)
    requires s <= t
    ensures |s| <= |t|
  {
    assert t == s + (t - s);
  }

  lemma DisjointUnion<T(!new)>(u: set<T>, s: set<T>, t: set<T>)
    requires forall j: T :: j in u <==> j in s || j in t
    requires forall j: T :: !(j in s && j in t)
    ensures |u| == |s| + |t|
  {
    assert u == s + t && s !! t;
  }

  lemma BytesSplit(a: ArenaState)
    ensures |LiveBytes(a)| + |FreeBytes(a)| == a.capacity
  {
    assert LiveBytes(a) + FreeBytes(a) == Interval(0, a.capacity);
    assert LiveBytes(a) !! FreeBytes(a);
    IntervalSize(0, a.capacity);
  }

  lemma LiveBytesAddAt(a: ArenaState, b: ArenaState, id: u64, r: Region, j: int)
    requires id !in a.live && b == a.(live := a.live[id := r], nextRegionId := b.nextRegionId)
    requires r.size > 0 && SpanFree(a, r.offset, r.offset + r.size)
    ensures j in LiveBytes(b) <==> j in LiveBytes(a) || r.offset <= j < r.offset + r.size
    ensures r.offset <= j < r.offset + r.size ==> j !in LiveBytes(a)
  {
    if r.offset <= j < r.offset + r.size {
      assert id in b.live && !Apart(b.live[id], j, j + 1);
      assert forall i | i in a.live :: Apart(a.live[i], j, j + 1);
    } else {
      assert forall i | i in a.live :: i in b.live && b.live[i] == a.live[i];
    }
  }

  /** A block placed on free bytes adds exactly its own size to the live bytes. */
  lemma LiveBytesAdd(a: ArenaState, b: ArenaState, id: u64, r: Region)
    requires id !in a.live && b == a.(live := a.live[id := r], nextRegionId := b.nextRegionId)
    requires r.size > 0 && SpanFree(a, r.offset, r.offset + r.size)
    ensures |LiveBytes(b)| == |LiveBytes(a)| + r.size
  {
    var mine := Interval(r.offset, r.offset + r.size);
    IntervalSize(r.offset, r.offset + r.size);
    hide LiveBytes, SpanFree;
    forall j
      ensures j in LiveBytes(b) <==> j in LiveBytes(a) || j in mine
      ensures !(j in LiveBytes(a) && j in mine)
    {
      LiveBytesAddAt(a, b, id, r, j);
    }
    DisjointUnion(LiveBytes(b), LiveBytes(a), mine);
  }

  // ------------------------------------------------------------ best fit

  /** The first aligned offset of [lo, hi) leaves room for `need` bytes. */
  predicate Fits(lo: u64, hi: int, need: u64, align: u64) {
    var at := AlignUp(lo, align);
    lo <= at && at + need <= hi
  }

  predicate SlotLess(size: int, offset: int, size': int, offset': int) {
    size < size' || (size == size' && offset < offset')
  }

  /** The least free run, by (size, offset), among those that can hold the request. */
  ghost predicate BestFit(a: ArenaState, need: u64, align: u64, lo: u64, hi: int) {
    && FreeRun(a, lo, hi) && Fits(lo, hi, need, align)
    && forall l: u64, h: int | FreeRun(a, l, h) && Fits(l, h, need, align) :: !SlotLess(h - l, l, hi - lo, lo)
  }

  lemma BestFitUnique(a: ArenaState, need: u64, align: u64, lo: u64, hi: int, lo': u64, hi': int)
    requires BestFit(a, need, align, lo, hi) && BestFit(a, need, align, lo', hi')
    ensures lo == lo' && hi == hi'
  {
    assert !SlotLess(hi - lo, lo, hi' - lo', lo') && !SlotLess(hi' - lo', lo', hi - lo, lo);
  }

  lemma {:induction false} BestFitExists(a: ArenaState, need: u64, align: u64, lo: u64, hi: int)
      returns (bestLo: u64, bestHi: int)
    requires FreeRun(a, lo, hi) && Fits(lo, hi, need, align)
    ensures BestFit(a, need, align, bestLo, bestHi)
    decreases hi - lo, lo
  {
    if BestFit(a, need, align, lo, hi) {
      bestLo, bestHi := lo, hi;
    } else {
      var l: u64, h: int :| FreeRun(a, l, h) && Fits(l, h, need, align) && SlotLess(h - l, l, hi - lo, lo);
      bestLo, bestHi := BestFitExists(a, need, align, l, h);
    }
  }

  // ---------------------------------------------------------- operations

  ghost predicate CanAllocate(a: ArenaState, need: u64, align: u64) {
    exists lo: u64, hi: int :: BestFit(a, need, align, lo, hi)
  }

  ghost function BestRun(a: ArenaState, need: u64, align: u64): (run: (u64, int))
    requires CanAllocate(a, need, align)
    ensures BestFit(a, need, align, run.0, run.1)
  {
    var lo: u64, hi: int :| BestFit(a, need, align, lo, hi);
    (lo, hi)
  }

  /** The state after placing a request at the first aligned offset of [lo, hi);
      each non-empty piece of the split run takes a fresh region id. */
  ghost function PlaceIn(a: ArenaState, req: AllocRequest, need: u64, lo: u64, hi: int): (ArenaState, Region)
    requires FreeRun(a, lo, hi) && Fits(lo, hi, need, req.alignment)
  {
    var at := AlignUp(lo, req.alignment);
    var id := if at > lo then Add64(a.nextRegionId, 1) else a.nextRegionId;
    var next := Add64(id, 1);
    var r := LiveRegion(req, at, need, id);
    (ArenaState(a.capacity, a.live[req.allocId := r], if at + need < hi then Add64(next, 1) else next), r)
  }

  ghost function Allocate(a: ArenaState, req: AllocRequest): (ArenaState, Result<Region>) {
    if req.bytes == 0 then (a, Err(ZERO_BYTES))
    else if req.alignment == 0 then (a, Err(IMPOSSIBLE_ALIGNMENT))
    else if !IsPow2(req.alignment) then (a, Err(NON_POWER_OF_TWO_ALIGNMENT))
    else if req.bytes > a.capacity then (a, Err(INSUFFICIENT_TOTAL_CAPACITY))
    else
      var need := AlignUp(req.bytes, req.alignment);
      if need == 0 || need < req.bytes then (a, Err(SIZE_OVERFLOW))
      else if need > a.capacity then (a, Err(INSUFFICIENT_TOTAL_CAPACITY))
      else if CanAllocate(a, need, req.alignment) then
        var run := BestRun(a, need, req.alignment);
        var placed := PlaceIn(a, req, need, run.0, run.1);
        (placed.0, Ok(placed.1))
      else if |FreeBytes(a)| < need then (a, Err(INSUFFICIENT_TOTAL_CAPACITY))
      else (a, Err(INSUFFICIENT_CONTIGUOUS_CAPACITY))
  }

  function Without<V>(m: map<u64, V>, id: u64): map<u64, V> {
    m - {id}
  }

  predicate Current(a: ArenaState, id: u64, gen: u64) {
    id in a.live && a.live[id].allocGeneration == gen
  }

  ghost function Free(a: ArenaState, id: u64, gen: u64): (ArenaState, Result<()>) {
    if !Current(a, id, gen) then (a, Err(STALE_GENERATION))
    else (ArenaState(a.capacity, Without(a.live, id), Add64(a.nextRegionId, 1)), Ok(()))
  }

  /** A moved region: new place, advanced generations. */
  function Moved(r: Region, offset: u64, size: u64, align: u64): Region {
    r.(offset := offset, size := size, alignment := align, allocGeneration := NextGeneration(r.allocGeneration),
       tag := r.tag.(regionGeneration := NextGeneration(r.tag.regionGeneration), lifecycle := LIFECYCLE_RESIDENT))
  }

  ghost function Relocate(a: ArenaState, id: u64, gen: u64, offset: u64, size: u64, align: u64)
      : (ArenaState, Result<Region>)
  {
    if !Current(a, id, gen) then (a, Err(STALE_GENERATION))
    else if !IsPow2(align) then (a, Err(IMPOSSIBLE_ALIGNMENT))
    else if size == 0 || !Aligned(offset, align) then (a, Err(INVALID_REQUEST))
    else if offset + size > a.capacity then (a, Err(SIZE_OVERFLOW))
    else if !SpanFree(a, offset, offset + size) then (a, Err(INVALID_REQUEST))
    else
      var r := Moved(a.live[id], offset, size, align);
      (ArenaState(a.capacity, a.live[id := r], Add64(a.nextRegionId, 1)), Ok(r))
  }

  ghost function PinRegion(a: ArenaState, id: u64, gen: u64): (ArenaState, Result<Region>) {
    if !Current(a, id, gen) then (a, Err(STALE_GENERATION))
    else
      var r := a.live[id].(movability := PINNED, pinCount := (a.live[id].pinCount + 1) % TWO32);
      (a.(live := a.live[id := r]), Ok(r))
  }

  ghost function UnpinRegion(a: ArenaState, id: u64, gen: u64): (ArenaState, Result<Region>) {
    if !Current(a, id, gen) then (a, Err(STALE_GENERATION))
    else if a.live[id].pinCount == 0 then (a, Err(INVALID_REQUEST))
    else
      var count := a.live[id].pinCount - 1;
      var r := a.live[id].(pinCount := count, movability := if count == 0 then MOVABLE else a.live[id].movability);
      (a.(live := a.live[id := r]), Ok(r))
  }

  function GetRegion(a: ArenaState, id: u64, gen: u64): Result<Region> {
    if Current(a, id, gen) then Ok(a.live[id]) else Err(STALE_GENERATION)
  }

  /** The size of the largest free run. */
  ghost predicate IsLargestFree(a: ArenaState, n: int) {
    && (forall lo: int, hi: int | FreeRun(a, lo, hi) :: hi - lo <= n)
    && (n == 0 || exists lo: int, hi: int :: FreeRun(a, lo, hi) && hi - lo == n)
    && n >= 0
  }

  lemma LargestFreeUnique(a: ArenaState, m: int, n: int)
    requires IsLargestFree(a, m) && IsLargestFree(a, n)
    ensures m == n
  {
  }
}
