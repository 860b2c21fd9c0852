/** The offset-keyed tiling of live and free regions, and the three ways the
    allocator edits it: placing a block inside a free region, returning a span
    to free space, and rewriting one block in place. */
module Tiling {
  import opened Machine
  import opened Types
  import opened ArenaSpec

  type Tiles = map<u64, Region>

  datatype Slot = Slot(size: u64, offset: u64)

  /** `FreeSlot::operator<`: by size, then by offset. */
  predicate SlotBefore(s: Slot, t: Slot) {
    SlotLess(s.size, s.offset, t.size, t.offset)
  }

  function End(m: Tiles, k: u64): int
    requires k in m
  {
    k + m[k].size
  }

  ghost predicate InBounds(m: Tiles, cap: u64) {
    forall k {:trigger End(m, k)} | k in m :: m[k].offset == k && End(m, k) <= cap && (m[k].size > 0 || cap == 0)
  }

  ghost predicate Linked(m: Tiles, cap: u64) {
    0 in m && forall k {:trigger End(m, k)} | k in m :: End(m, k) == cap || End(m, k) in m
  }

  ghost predicate Ordered(m: Tiles) {
    forall k, l {:trigger End(m, k), m[l]} | k in m && l in m && k < l :: End(m, k) <= l
  }

  /** No two free regions touch. */
  ghost predicate Merged(m: Tiles) {
    forall k {:trigger m[End(m, k)]} | k in m && !m[k].live && End(m, k) in m && End(m, k) != k :: m[End(m, k)].live
  }

  ghost predicate LiveAligned(m: Tiles) {
    forall k {:trigger m[k]} | k in m && m[k].live :: WellAligned(m[k], k)
  }

  ghost predicate WellAligned(r: Region, k: int) {
    r.size > 0 && IsPow2(r.alignment) && Aligned(k, r.alignment)
  }

  /** The regions tile [0, cap) in canonical form. */
  ghost predicate Canonical(m: Tiles, cap: u64) {
    InBounds(m, cap) && Linked(m, cap) && Ordered(m) && Merged(m) && LiveAligned(m)
  }

  /** The id index is a bijection onto the live regions. */
  ghost predicate Indexed(m: Tiles, index: map<u64, u64>) {
    && (forall id | id in index :: index[id] in m && m[index[id]].live && m[index[id]].allocId == id)
    && (forall k | k in m && m[k].live :: m[k].allocId in index && index[m[k].allocId] == k)
  }

  /** The free index a tiling calls for. */
  ghost function SlotsOf(m: Tiles): set<Slot> {
    set k | k in m && !m[k].live && m[k].size > 0 :: Slot(m[k].size, k)
  }

  ghost function LiveView(m: Tiles, index: map<u64, u64>): map<u64, Region>
    requires Indexed(m, index)
  {
    map id | id in index :: m[index[id]]
  }

  // ------------------------------------------------- tiling versus intervals

  /** Every byte of the arena lies in some region. */
  lemma {:induction false} RegionAt(m: Tiles, cap: u64, j: int) returns (k: u64)
    requires Canonical(m, cap) && 0 <= j < cap
    ensures k in m && k <= j < End(m, k)
    decreases j
  {
    if j == 0 {
      k := 0;
    } else {
      k := RegionAt(m, cap, j - 1);
      if End(m, k) == j {
        k := j;
      }
    }
  }

  lemma LiveViewInvariant(m: Tiles, index: map<u64, u64>, a: ArenaState)
    requires Canonical(m, a.capacity) && Indexed(m, index) && a.live == LiveView(m, index)
    ensures Invariant(a)
  {
    forall id | id in a.live ensures LiveBlock(a, id) {
      assert End(m, index[id]) <= a.capacity;
    }
    forall i, j | i in a.live && j in a.live && i != j
      ensures Apart(a.live[i], a.live[j].offset, a.live[j].offset + a.live[j].size)
    {
      var k, l := index[i], index[j];
      assert m[k].offset == k && End(m, k) > k;
      assert m[l].offset == l && End(m, l) > l;
      assert k != l;
      assert k < l ==> End(m, k) <= l;
      assert l < k ==> End(m, l) <= k;
    }
  }

  /** The free regions are exactly the free runs of the live intervals. */
  lemma FreeRegionsAreRuns(m: Tiles, index: map<u64, u64>, a: ArenaState, lo: u64, hi: int)
    requires Canonical(m, a.capacity) && Indexed(m, index) && a.live == LiveView(m, index)
    ensures FreeRun(a, lo, hi) <==> (lo in m && !m[lo].live && lo < hi && End(m, lo) == hi)
  {
    LiveViewInvariant(m, index, a);
    if lo in m && !m[lo].live && lo < hi && End(m, lo) == hi {
      FreeRegionIsRun(m, index, a, lo);
    }
    if FreeRun(a, lo, hi) {
      RunIsFreeRegion(m, index, a, lo, hi);
    }
  }

  lemma FreeRegionIsRun(m: Tiles, index: map<u64, u64>, a: ArenaState, lo: u64)
    requires Canonical(m, a.capacity) && Indexed(m, index) && a.live == LiveView(m, index) && Invariant(a)
    requires lo in m && !m[lo].live && m[lo].size > 0
    ensures FreeRun(a, lo, End(m, lo))
  {
    var hi := End(m, lo);
    forall id | id in a.live ensures Apart(a.live[id], lo, hi) {
      var k := index[id];
      assert End(m, k) > k && m[k].offset == k;
      assert k < lo ==> End(m, k) <= lo;
      assert lo < k ==> hi <= k;
    }
    if hi < a.capacity {
      assert m[End(m, lo)].live;
      assert End(m, hi) > hi;
      var id := m[hi].allocId;
      assert id in a.live && a.live[id] == m[hi];
      assert LiveStartsAt(a, hi);
    }
    if lo > 0 {
      var k := RegionAt(m, a.capacity, lo - 1);
      assert k < lo && End(m, k) == lo;
      assert m[k].live;
      var id := m[k].allocId;
      assert id in a.live && a.live[id] == m[k];
      assert LiveEndsAt(a, lo);
    }
  }

  lemma RunIsFreeRegion(m: Tiles, index: map<u64, u64>, a: ArenaState, lo: u64, hi: int)
    requires Canonical(m, a.capacity) && Indexed(m, index) && a.live == LiveView(m, index) && Invariant(a)
    requires FreeRun(a, lo, hi)
    ensures lo in m && !m[lo].live && End(m, lo) == hi
  {
    var k := RegionAt(m, a.capacity, lo);
    assert m[k].live ==> k == a.live[m[k].allocId].offset;
    FreeRegionIsRun(m, index, a, k);
    FreeRunsDisjoint(a, k, End(m, k), lo, hi);
  }

  lemma SlotsAreRuns(m: Tiles, index: map<u64, u64>, a: ArenaState, s: Slot)
    requires Canonical(m, a.capacity) && Indexed(m, index) && a.live == LiveView(m, index)
    ensures s in SlotsOf(m) <==> FreeRun(a, s.offset, s.offset + s.size)
  {
    FreeRegionsAreRuns(m, index, a, s.offset, s.offset + s.size);
    assert s in SlotsOf(m) <==>
      s.offset in m && !m[s.offset].live && m[s.offset].size > 0 && m[s.offset].size == s.size;
  }

  /** Two canonical tilings of the same live intervals have the same intervals
      throughout: the layout carries no history. */
  lemma LayoutDetermined(m: Tiles, index: map<u64, u64>, m': Tiles, index': map<u64, u64>, cap: u64, k: u64)
    requires cap > 0
    requires Canonical(m, cap) && Indexed(m, index) && Canonical(m', cap) && Indexed(m', index')
    requires LiveView(m, index) == LiveView(m', index')
    ensures k in m <==> k in m'
    ensures k in m ==> m[k].size == m'[k].size && m[k].live == m'[k].live
    ensures SlotsOf(m) == SlotsOf(m') && index == index'
  {
    var a := ArenaState(cap, LiveView(m, index), 0);
    forall id: u64 ensures id in index <==> id in index' {
      assert id in index <==> id in LiveView(m, index);
      assert id in index' <==> id in LiveView(m', index');
    }
    assert index == index' by {
      forall id | id in index ensures index[id] == index'[id] {
        assert End(m, index[id]) >= index[id] && End(m', index'[id]) >= index'[id];
        assert LiveView(m, index)[id].offset == index[id];
        assert LiveView(m', index')[id].offset == index'[id];
      }
    }
    if k in m { LayoutContained(m, index, m', index', a, k); }
    if k in m' { LayoutContained(m', index', m, index, a, k); }
    forall s ensures s in SlotsOf(m) <==> s in SlotsOf(m') {
      SlotsAreRuns(m, index, a, s);
      SlotsAreRuns(m', index', a, s);
    }
  }

  lemma LayoutContained(m: Tiles, index: map<u64, u64>, m': Tiles, index': map<u64, u64>, a: ArenaState, k: u64)
    requires a.capacity > 0
    requires Canonical(m, a.capacity) && Indexed(m, index) && a.live == LiveView(m, index)
    requires Canonical(m', a.capacity) && Indexed(m', index') && a.live == LiveView(m', index')
    requires k in m
    ensures k in m' && m[k].size == m'[k].size && m[k].live == m'[k].live
  {
    if m[k].live {
      var id := m[k].allocId;
      assert id in a.live && a.live[id] == m[k];
      assert id in index' && m'[index'[id]] == m[k];
      assert End(m, k) > k && End(m', index'[id]) > index'[id];
    } else {
      assert End(m, k) > k;
      FreeRegionsAreRuns(m, index, a, k, End(m, k));
      FreeRegionsAreRuns(m', index', a, k, End(m, k));
    }
  }

  // ------------------------------------------------------- placing a block

  /** Split the free region at `k` into a front piece, a block and a tail piece;
      empty pieces are not inserted. */
  function Place(m: Tiles, k: u64, front: Region, mid: Region, tail: Region): Tiles {
    var m1 := m - {k};
    var m2 := if front.size > 0 then m1[front.offset := front] else m1;
    var m3 := m2[mid.offset := mid];
    if tail.size > 0 then m3[tail.offset := tail] else m3
  }

  ghost predicate Splits(m: Tiles, k: u64, front: Region, mid: Region, tail: Region) {
    && k in m && !m[k].live && !front.live && mid.live && !tail.live
    && mid.size > 0 && WellAligned(mid, mid.offset)
    && front.offset == k && k + front.size == mid.offset
    && mid.offset + mid.size + tail.size == End(m, k)
    && (tail.size > 0 ==> tail.offset == mid.offset + mid.size)
  }

  /** `r` agrees with `m` outside the window [lo, hi). */
  ghost predicate SameOutside(m: Tiles, r: Tiles, lo: int, hi: int) {
    forall x: u64 | x < lo || hi <= x :: (x in r <==> x in m) && (x in r ==> r[x] == m[x])
  }

  ghost predicate Window(r: Tiles, lo: u64, hi: int) {
    lo in r && WindowTiles(r, lo, hi) && WindowOrdered(r, lo, hi) && WindowMerged(r, lo, hi) && WindowAligned(r, lo, hi)
  }

  ghost predicate WindowTiles(r: Tiles, lo: u64, hi: int) {
    forall x {:trigger End(r, x)} | x in r && lo <= x < hi ::
      r[x].offset == x && r[x].size > 0 && End(r, x) <= hi && (End(r, x) == hi || End(r, x) in r)
  }

  ghost predicate WindowOrdered(r: Tiles, lo: u64, hi: int) {
    forall x, y {:trigger End(r, x), r[y]} | x in r && y in r && lo <= x < y < hi :: End(r, x) <= y
  }

  ghost predicate WindowMerged(r: Tiles, lo: u64, hi: int) {
    forall x {:trigger r[End(r, x)]} | x in r && lo <= x < hi && !r[x].live && End(r, x) < hi && End(r, x) in r ::
      r[End(r, x)].live
  }

  ghost predicate WindowAligned(r: Tiles, lo: u64, hi: int) {
    forall x {:trigger r[x]} | x in r && lo <= x < hi && r[x].live :: WellAligned(r[x], x)
  }

  /** The two regions meeting at an edge of the window are not both free. */
  ghost predicate EdgesLive(m: Tiles, r: Tiles, lo: u64, hi: int)
    requires lo in r
  {
    && (forall x {:trigger End(r, x)} | x in r && lo <= x < hi && !r[x].live && End(r, x) == hi && hi in m ::
          m[hi].live)
    && (!r[lo].live ==> forall x {:trigger End(m, x)} | x in m && x < lo && End(m, x) == lo :: m[x].live)
  }

  /** Replacing the contents of a window by a canonical piece keeps the whole
      tiling canonical, provided no free regions meet at its two edges. */
  lemma EditCanonical(m: Tiles, r: Tiles, cap: u64, lo: u64, hi: int)
    requires Canonical(m, cap) && lo < hi <= cap && lo in m && (hi == cap || hi in m)
    requires SameOutside(m, r, lo, hi) && Window(r, lo, hi) && EdgesLive(m, r, lo, hi)
    ensures Canonical(r, cap)
  {
    EditBounds(m, r, cap, lo, hi);
    EditAligned(m, r, lo, hi);
    EditOrdered(m, r, cap, lo, hi);
    assert 0 < lo ==> 0 in r;
    forall x | x in r
      ensures End(r, x) == cap || End(r, x) in r
    {
      EditLinkedAt(m, r, cap, lo, hi, x);
    }
    forall x | x in r && !r[x].live && End(r, x) in r && End(r, x) != x
      ensures r[End(r, x)].live
    {
      EditMergedAt(m, r, cap, lo, hi, x);
    }
  }

  lemma EditBounds(m: Tiles, r: Tiles, cap: u64, lo: u64, hi: int)
    requires InBounds(m, cap) && lo < hi <= cap
    requires SameOutside(m, r, lo, hi) && WindowTiles(r, lo, hi)
    ensures InBounds(r, cap)
  {
    forall x | x in r
      ensures r[x].offset == x && x < End(r, x) <= cap
    {
      if x < lo || hi <= x {
        assert r[x] == m[x];
        assert End(m, x) <= cap;
      } else {
        assert End(r, x) <= hi;
      }
    }
  }

  lemma EditAligned(m: Tiles, r: Tiles, lo: u64, hi: int)
    requires LiveAligned(m) && SameOutside(m, r, lo, hi) && WindowAligned(r, lo, hi)
    ensures LiveAligned(r)
  {
    forall x | x in r && r[x].live
      ensures WellAligned(r[x], x)
    {
      assert x < lo || hi <= x ==> m[x] == r[x];
    }
  }

  lemma EditOrdered(m: Tiles, r: Tiles, cap: u64, lo: u64, hi: int)
    requires Ordered(m) && lo < hi <= cap && lo in m
    requires SameOutside(m, r, lo, hi) && WindowTiles(r, lo, hi) && WindowOrdered(r, lo, hi)
    ensures Ordered(r)
  {
    forall x, y | x in r && y in r && x < y
      ensures End(r, x) <= y
    {
      if x < lo {
        assert End(m, x) <= lo;
        if y < lo || hi <= y {
          assert End(m, x) <= y;
        }
      } else if hi <= x {
        assert m[y] == r[y];
        assert End(m, x) <= y;
      } else {
        assert End(r, x) <= hi;
      }
    }
  }

  lemma EditLinkedAt(m: Tiles, r: Tiles, cap: u64, lo: u64, hi: int, x: u64)
    requires Linked(m, cap) && Ordered(m) && lo < hi <= cap && lo in m && (hi == cap || hi in m)
    requires SameOutside(m, r, lo, hi) && WindowTiles(r, lo, hi)
    requires x in r && lo in r
    ensures End(r, x) == cap || End(r, x) in r
  {
    if lo <= x < hi {
      assert End(r, x) > x;
      assert End(r, x) == hi ==> hi == cap || hi in r;
    } else {
      OutsideLinked(m, r, cap, lo, hi, x);
    }
  }

  lemma OutsideLinked(m: Tiles, r: Tiles, cap: u64, lo: u64, hi: int, x: u64)
    requires Linked(m, cap) && Ordered(m) && lo < hi <= cap && lo in m && lo in r
    requires SameOutside(m, r, lo, hi)
    requires x in r && (x < lo || hi <= x)
    ensures End(r, x) == cap || End(r, x) in r
  {
    assert x in m && r[x] == m[x];
    var e := End(m, x);
    assert x < lo ==> e <= lo by {
      assert m[lo] == m[lo];
    }
    assert e == cap || e in m;
    if e != cap && e != lo {
      assert e in r;
    }
  }

  lemma EditMergedAt(m: Tiles, r: Tiles, cap: u64, lo: u64, hi: int, x: u64)
    requires Ordered(m) && Merged(m) && lo < hi <= cap && lo in m && lo in r
    requires SameOutside(m, r, lo, hi) && WindowTiles(r, lo, hi) && WindowMerged(r, lo, hi) && EdgesLive(m, r, lo, hi)
    requires x in r && !r[x].live && End(r, x) in r && End(r, x) != x
    ensures r[End(r, x)].live
  {
    var e := End(r, x);
    if x < lo {
      assert x in m && m[x] == r[x];
      assert m[lo].live || true;
      assert End(m, x) <= lo;
      if e < lo {
        assert e in m && m[End(m, x)].live;
      }
    } else if x < hi {
      assert End(r, x) > x;
    } else {
      assert x in m && m[x] == r[x] && e in m;
      assert m[End(m, x)].live;
    }
  }

  lemma PlacePointwise(m: Tiles, cap: u64, k: u64, front: Region, mid: Region, tail: Region, x: u64)
    requires Canonical(m, cap) && Splits(m, k, front, mid, tail)
    ensures var r := Place(m, k, front, mid, tail);
            if x < k || End(m, k) <= x then (x in r <==> x in m) && (x in r ==> r[x] == m[x])
            else if x == mid.offset then x in r && r[x] == mid
            else if x == k then x in r && r[x] == front
            else if x == tail.offset && tail.size > 0 then x in r && r[x] == tail
            else x !in r
  {
    assert x in m && x > k ==> x >= End(m, k);
  }

  lemma PlaceWindow(m: Tiles, cap: u64, k: u64, front: Region, mid: Region, tail: Region)
    requires Canonical(m, cap) && Splits(m, k, front, mid, tail)
    ensures var r := Place(m, k, front, mid, tail);
            ThreePieces(r, k, End(m, k), front, mid, tail) && SameOutside(m, r, k, End(m, k))
  {
    var r := Place(m, k, front, mid, tail);
    forall x: u64
      ensures x < k || End(m, k) <= x ==> (x in r <==> x in m) && (x in r ==> r[x] == m[x])
      ensures x in r && k <= x < End(m, k) ==>
          x == mid.offset || (x == k && k < mid.offset) || (x == tail.offset && tail.size > 0)
    {
      PlacePointwise(m, cap, k, front, mid, tail, x);
    }
    PlacePointwise(m, cap, k, front, mid, tail, k);
    PlacePointwise(m, cap, k, front, mid, tail, mid.offset);
    if tail.size > 0 {
      PlacePointwise(m, cap, k, front, mid, tail, tail.offset);
    }
  }

  /** Splitting a free region around an aligned block keeps the tiling canonical. */
  lemma PlaceCanonical(m: Tiles, cap: u64, k: u64, front: Region, mid: Region, tail: Region)
    requires Canonical(m, cap) && Splits(m, k, front, mid, tail)
    ensures Canonical(Place(m, k, front, mid, tail), cap)
  {
    var r := Place(m, k, front, mid, tail);
    var hi := End(m, k);
    PlaceWindow(m, cap, k, front, mid, tail);
    PlaceIsWindow(m, r, k, hi, front, mid, tail);
    PlaceEdges(m, r, cap, k, hi, front, mid, tail);
    assert End(m, k) == hi;
    EditCanonical(m, r, cap, k, hi);
  }

  ghost predicate ThreePieces(r: Tiles, k: u64, hi: int, front: Region, mid: Region, tail: Region) {
    && (k < mid.offset ==> k in r && r[k] == front)
    && mid.offset in r && r[mid.offset] == mid
    && (tail.size > 0 ==> tail.offset in r && r[tail.offset] == tail)
    && forall x {:trigger r[x]} | x in r && k <= x < hi ::
          x == mid.offset || (x == k && k < mid.offset) || (x == tail.offset && tail.size > 0)
  }

  lemma PlaceIsWindow(m: Tiles, r: Tiles, k: u64, hi: int, front: Region, mid: Region, tail: Region)
    requires Splits(m, k, front, mid, tail) && hi == End(m, k) && ThreePieces(r, k, hi, front, mid, tail)
    ensures Window(r, k, hi)
  {
    assert WindowAligned(r, k, hi);
    PlaceWindowTiles(m, r, k, hi, front, mid, tail);
    assert WindowMerged(r, k, hi);
    forall x, y | x in r && y in r && k <= x < y < hi
      ensures End(r, x) <= y
    {
      assert r[x] == front || r[x] == mid;
      assert y == mid.offset || y == tail.offset;
    }
  }

  lemma PlaceWindowTiles(m: Tiles, r: Tiles, k: u64, hi: int, front: Region, mid: Region, tail: Region)
    requires Splits(m, k, front, mid, tail) && hi == End(m, k) && ThreePieces(r, k, hi, front, mid, tail)
    ensures WindowTiles(r, k, hi)
  {
    forall x | x in r && k <= x < hi
      ensures r[x].offset == x && r[x].size > 0 && End(r, x) <= hi && (End(r, x) == hi || End(r, x) in r)
    {
      assert r[x] == front || r[x] == mid || r[x] == tail;
    }
  }

  lemma PlaceEdges(m: Tiles, r: Tiles, cap: u64, k: u64, hi: int, front: Region, mid: Region, tail: Region)
    requires Merged(m)
    requires Splits(m, k, front, mid, tail) && hi == End(m, k) && ThreePieces(r, k, hi, front, mid, tail)
    ensures EdgesLive(m, r, k, hi)
  {
    assert hi in m ==> m[End(m, k)].live;
    forall x | x in m && x < k && End(m, x) == k ensures m[x].live {
      assert m[End(m, x)] == m[k];
    }
  }

  // --------------------------------------------------- returning a span

  /** A free region ending exactly at `off`. */
  ghost predicate LeftFree(m: Tiles, off: u64, p: u64) {
    p in m && !m[p].live && p < off && End(m, p) == off
  }

  ghost predicate RightFree(m: Tiles, hi: int) {
    hi in m && !m[hi].live
  }

  /** Where the free region created by returning the block at `off` starts and ends. */
  ghost function MergedLow(m: Tiles, off: u64): (lo: u64)
    ensures lo == off || LeftFree(m, off, lo)
    ensures lo == off ==> forall p: u64 :: !LeftFree(m, off, p)
  {
    if p: u64 :| LeftFree(m, off, p) then p else off
  }

  ghost function MergedHigh(m: Tiles, hi: int): int {
    if RightFree(m, hi) then End(m, hi) else hi
  }

  /** The tiling after the block at `off` became free and merged with its neighbours. */
  ghost function Coalesce(m: Tiles, off: u64, f: Region): Tiles
    requires off in m
  {
    var gone := if RightFree(m, End(m, off)) then {off, MergedLow(m, off), End(m, off)}
                else {off, MergedLow(m, off)};
    (map x | x in m && x !in gone :: m[x])[MergedLow(m, off) := f]
  }

  ghost predicate CoalescedRegion(m: Tiles, off: u64, f: Region)
    requires off in m
  {
    f.offset == MergedLow(m, off) && !f.live && f.offset + f.size == MergedHigh(m, End(m, off))
  }

  lemma MergedBounds(m: Tiles, cap: u64, off: u64)
    requires Canonical(m, cap) && off in m && m[off].live
    ensures MergedLow(m, off) <= off < End(m, off) <= MergedHigh(m, End(m, off)) <= cap
  {
    var hi := End(m, off);
    assert m[off].size > 0;
    if RightFree(m, hi) {
      assert End(m, hi) <= cap;
    }
  }

  /** The free region that returning the block at `off` produces. */
  ghost function Returned(m: Tiles, cap: u64, off: u64, regionId: u64): (f: Region)
    requires Canonical(m, cap) && LiveAt(m, off)
    ensures CoalescedRegion(m, off, f)
  {
    MergedBounds(m, cap, off);
    FreeRegion(MergedLow(m, off), MergedHigh(m, End(m, off)) - MergedLow(m, off), regionId, DERIVED)
  }

  lemma CoalesceBounds(m: Tiles, cap: u64, off: u64, f: Region)
    requires Canonical(m, cap) && off in m && m[off].live && CoalescedRegion(m, off, f)
    ensures f.offset <= off < End(m, off) <= f.offset + f.size <= cap
    ensures f.offset in m && (f.offset + f.size == cap || f.offset + f.size in m)
  {
    var hi := End(m, off);
    assert m[off].size > 0;
    if RightFree(m, hi) {
      assert m[hi] == m[hi];
      assert End(m, hi) == cap || End(m, hi) in m;
    }
  }

  lemma CoalescePointwise(m: Tiles, cap: u64, off: u64, f: Region, x: u64)
    requires Canonical(m, cap) && off in m && m[off].live && CoalescedRegion(m, off, f)
    ensures var r := Coalesce(m, off, f);
            if x == f.offset then x in r && r[x] == f
            else if f.offset <= x < f.offset + f.size then x !in r
            else (x in r <==> x in m) && (x in r ==> r[x] == m[x])
  {
    CoalesceBounds(m, cap, off, f);
    if x in m && f.offset < x < f.offset + f.size {
      CoalescedKeys(m, cap, off, f, x);
    }
  }

  /** Only the block and its two free neighbours lie in the merged span. */
  lemma CoalescedKeys(m: Tiles, cap: u64, off: u64, f: Region, x: u64)
    requires Canonical(m, cap) && off in m && m[off].live && CoalescedRegion(m, off, f)
    requires x in m && f.offset < x < f.offset + f.size
    ensures x == off || (x == End(m, off) && RightFree(m, x))
  {
    var lo, hi := f.offset, End(m, off);
    assert lo == off || End(m, lo) == off;
    assert lo == off || End(m, lo) <= x;
    assert x <= off || hi <= x;
    if RightFree(m, hi) {
      assert End(m, hi) > hi;
    }
  }

  lemma CoalesceRightEdge(m: Tiles, cap: u64, off: u64, f: Region)
    requires Canonical(m, cap) && off in m && m[off].live && CoalescedRegion(m, off, f)
    requires f.offset + f.size in m
    ensures m[f.offset + f.size].live
  {
    var end := End(m, off);
    if RightFree(m, end) {
      assert End(m, end) > end;
      assert m[End(m, end)].live;
    }
  }

  lemma CoalesceLeftEdge(m: Tiles, cap: u64, off: u64, f: Region, x: u64)
    requires Canonical(m, cap) && off in m && m[off].live && CoalescedRegion(m, off, f)
    requires x in m && x < f.offset && End(m, x) == f.offset
    ensures m[x].live
  {
    if f.offset == off {
      assert !LeftFree(m, off, x);
    } else {
      assert m[End(m, x)] == m[f.offset];
    }
  }

  lemma SingletonWindow(r: Tiles, lo: u64, hi: int, f: Region)
    requires lo in r && r[lo] == f && f.offset == lo && lo < hi == lo + f.size
    requires f.live ==> WellAligned(f, lo)
    requires forall x | x in r && lo <= x < hi :: x == lo
    ensures Window(r, lo, hi)
  {
  }

  lemma CoalesceWindow(m: Tiles, cap: u64, off: u64, f: Region)
    requires Canonical(m, cap) && off in m && m[off].live && CoalescedRegion(m, off, f)
    ensures var r, hi := Coalesce(m, off, f), f.offset + f.size;
            SameOutside(m, r, f.offset, hi) && Window(r, f.offset, hi)
    ensures var r := Coalesce(m, off, f); f.offset in r && r[f.offset] == f
    ensures forall x | x in Coalesce(m, off, f) && f.offset <= x < f.offset + f.size :: x == f.offset
  {
    var r, lo, hi := Coalesce(m, off, f), f.offset, f.offset + f.size;
    CoalesceBounds(m, cap, off, f);
    forall x: u64
      ensures x in r && lo <= x < hi ==> x == lo
      ensures x < lo || hi <= x ==> (x in r <==> x in m) && (x in r ==> r[x] == m[x])
    {
      CoalescePointwise(m, cap, off, f, x);
    }
    CoalescePointwise(m, cap, off, f, lo);
    SingletonWindow(r, lo, hi, f);
  }

  lemma CoalesceEdges(m: Tiles, r: Tiles, cap: u64, off: u64, f: Region)
    requires Canonical(m, cap) && off in m && m[off].live && CoalescedRegion(m, off, f)
    requires f.offset in r && r[f.offset] == f
    requires forall x | x in r && f.offset <= x < f.offset + f.size :: x == f.offset
    ensures EdgesLive(m, r, f.offset, f.offset + f.size)
  {
    forall x | x in m && x < f.offset && End(m, x) == f.offset ensures m[x].live {
      CoalesceLeftEdge(m, cap, off, f, x);
    }
    if f.offset + f.size in m {
      CoalesceRightEdge(m, cap, off, f);
    }
  }

  /** Returning a live block and merging it with both neighbours keeps the tiling canonical. */
  lemma CoalesceCanonical(m: Tiles, cap: u64, off: u64, f: Region)
    requires Canonical(m, cap) && off in m && m[off].live && CoalescedRegion(m, off, f)
    ensures Canonical(Coalesce(m, off, f), cap)
  {
    var r := Coalesce(m, off, f);
    CoalesceBounds(m, cap, off, f);
    CoalesceWindow(m, cap, off, f);
    CoalesceEdges(m, r, cap, off, f);
    EditCanonical(m, r, cap, f.offset, f.offset + f.size);
  }

  // ------------------------------------------------ the views after an edit

  predicate LiveAt(m: Tiles, x: u64) {
    x in m && m[x].live
  }

  /** The live regions of `r` are those of `m` other than `gone`, and `added`. */
  ghost predicate LiveChange(m: Tiles, r: Tiles, gone: set<u64>, added: Region) {
    && LiveAt(r, added.offset) && r[added.offset] == added && added.offset !in gone
    && !LiveAt(m, added.offset)
    && forall x: u64 {:trigger LiveAt(r, x)} {:trigger LiveAt(m, x)} | x != added.offset ::
          (LiveAt(r, x) <==> LiveAt(m, x) && x !in gone) && (LiveAt(r, x) ==> r[x] == m[x])
  }

  lemma ReindexAdd(m: Tiles, index: map<u64, u64>, r: Tiles, added: Region)
    requires Indexed(m, index) && LiveChange(m, r, {}, added) && added.allocId !in index
    ensures var index' := index[added.allocId := added.offset];
            Indexed(r, index') && LiveView(r, index') == LiveView(m, index)[added.allocId := added]
  {
    var index' := index[added.allocId := added.offset];
    forall k | k in r && r[k].live ensures r[k].allocId in index' && index'[r[k].allocId] == k {
      assert LiveAt(r, k);
      assert k == added.offset || LiveAt(m, k);
    }
    forall id | id in index ensures index[id] in r && r[index[id]] == m[index[id]] {
      assert LiveAt(m, index[id]);
    }
  }

  lemma ReindexMove(m: Tiles, index: map<u64, u64>, r: Tiles, off: u64, added: Region)
    requires Indexed(m, index) && LiveChange(m, r, {off}, added) && LiveAt(m, off) && added.allocId == m[off].allocId
    ensures var index' := index[added.allocId := added.offset];
            Indexed(r, index') && LiveView(r, index') == LiveView(m, index)[added.allocId := added]
  {
    var index' := index[added.allocId := added.offset];
    forall k | k in r && r[k].live ensures r[k].allocId in index' && index'[r[k].allocId] == k {
      assert LiveAt(r, k);
      assert k == added.offset || LiveAt(m, k);
    }
    forall id | id in index && id != added.allocId ensures index[id] in r && r[index[id]] == m[index[id]] {
      assert LiveAt(m, index[id]);
    }
  }

  lemma ReindexRemove(m: Tiles, index: map<u64, u64>, r: Tiles, off: u64)
    requires Indexed(m, index) && LiveAt(m, off)
    requires forall x: u64 {:trigger LiveAt(r, x)} {:trigger LiveAt(m, x)} ::
               (LiveAt(r, x) <==> LiveAt(m, x) && x != off) && (LiveAt(r, x) ==> r[x] == m[x])
    ensures var index' := Without(index, m[off].allocId);
            Indexed(r, index') && LiveView(r, index') == Without(LiveView(m, index), m[off].allocId)
  {
    var index' := Without(index, m[off].allocId);
    forall k | k in r && r[k].live ensures r[k].allocId in index' && index'[r[k].allocId] == k {
      assert LiveAt(r, k) && LiveAt(m, k);
    }
    forall id | id in index' ensures index[id] in r && r[index[id]] == m[index[id]] {
      assert LiveAt(m, index[id]);
    }
  }

  lemma PlaceIsLiveChange(m: Tiles, cap: u64, k: u64, front: Region, mid: Region, tail: Region)
    requires Canonical(m, cap) && Splits(m, k, front, mid, tail)
    ensures LiveChange(m, Place(m, k, front, mid, tail), {}, mid)
  {
    forall x: u64 {
      PlaceLive(m, cap, k, front, mid, tail, x);
    }
    PlacePointwise(m, cap, k, front, mid, tail, mid.offset);
    PlaceLive(m, cap, k, front, mid, tail, mid.offset);
  }

  lemma PlaceLive(m: Tiles, cap: u64, k: u64, front: Region, mid: Region, tail: Region, x: u64)
    requires Canonical(m, cap) && Splits(m, k, front, mid, tail)
    ensures var r := Place(m, k, front, mid, tail);
            && (x in r && r[x].live <==> x == mid.offset || (x in m && m[x].live))
            && (x in m && m[x].live ==> x in r && r[x] == m[x] && x != mid.offset)
  {
    PlacePointwise(m, cap, k, front, mid, tail, x);
    if x in m && m[x].live {
      assert End(m, x) > x;
      assert x < k || End(m, k) <= x;
    }
  }

  function Optional(s: Slot): set<Slot> {
    if s.size > 0 then {s} else {}
  }

  lemma PlaceSlots(m: Tiles, cap: u64, k: u64, front: Region, mid: Region, tail: Region)
    requires Canonical(m, cap) && Splits(m, k, front, mid, tail)
    ensures SlotsOf(Place(m, k, front, mid, tail)) ==
            SlotsOf(m) - {Slot(m[k].size, k)} + Optional(Slot(front.size, k)) + Optional(Slot(tail.size, tail.offset))
  {
    var r := Place(m, k, front, mid, tail);
    forall s: Slot
      ensures s in SlotsOf(r) <==>
        s in SlotsOf(m) - {Slot(m[k].size, k)} + Optional(Slot(front.size, k)) + Optional(Slot(tail.size, tail.offset))
    {
      PlacePointwise(m, cap, k, front, mid, tail, s.offset);
      SlotIn(r, s);
      SlotIn(m, s);
      assert End(m, k) > k;
      if s.offset in m {
        assert End(m, s.offset) > s.offset;
        assert s.offset > k ==> End(m, k) <= s.offset;
      }
    }
  }

  lemma SlotIn(m: Tiles, s: Slot)
    ensures s in SlotsOf(m) <==> s.offset in m && !m[s.offset].live && m[s.offset].size == s.size > 0
  {
  }

  lemma CoalesceLive(m: Tiles, cap: u64, off: u64, f: Region, x: u64)
    requires Canonical(m, cap) && off in m && m[off].live && CoalescedRegion(m, off, f)
    ensures var r := Coalesce(m, off, f);
            && (x in r && r[x].live <==> x in m && m[x].live && x != off)
            && (x in r && r[x].live ==> r[x] == m[x])
  {
    CoalescePointwise(m, cap, off, f, x);
    CoalesceBounds(m, cap, off, f);
    if x in m && f.offset < x < f.offset + f.size {
      CoalescedKeys(m, cap, off, f, x);
    }
  }

  /** The index entries of the free neighbours that a returned block absorbs. */
  ghost function LeftSlot(m: Tiles, off: u64): set<Slot> {
    var lo := MergedLow(m, off);
    if lo < off then {Slot(m[lo].size, lo)} else {}
  }

  ghost function RightSlot(m: Tiles, hi: int): set<Slot> {
    if RightFree(m, hi) then {Slot(m[hi].size, hi)} else {}
  }

  lemma CoalesceSlots(m: Tiles, cap: u64, off: u64, f: Region)
    requires Canonical(m, cap) && off in m && m[off].live && CoalescedRegion(m, off, f)
    ensures SlotsOf(Coalesce(m, off, f)) ==
            SlotsOf(m) - LeftSlot(m, off) - RightSlot(m, End(m, off)) + {Slot(f.size, f.offset)}
  {
    var r, lo, hi := Coalesce(m, off, f), f.offset, End(m, off);
    CoalesceBounds(m, cap, off, f);
    assert RightFree(m, hi) ==> End(m, hi) > hi;
    forall s: Slot
      ensures s in SlotsOf(r) <==> s in SlotsOf(m) - LeftSlot(m, off) - RightSlot(m, hi) + {Slot(f.size, f.offset)}
    {
      CoalescePointwise(m, cap, off, f, s.offset);
      SlotIn(r, s);
      SlotIn(m, s);
      if s.offset in m && lo < s.offset < lo + f.size {
        CoalescedKeys(m, cap, off, f, s.offset);
      }
    }
  }

  /** Rewriting a region without touching its interval, liveness or owner. */
  ghost predicate SameShape(p: Region, q: Region) {
    p.offset == q.offset && p.size == q.size && p.alignment == q.alignment && p.live == q.live && p.allocId == q.allocId
  }

  lemma RewriteCanonical(m: Tiles, cap: u64, k: u64, r: Region)
    requires Canonical(m, cap) && k in m && m[k].live && SameShape(m[k], r)
    ensures Canonical(m[k := r], cap)
  {
    var m' := m[k := r];
    var hi := End(m, k);
    assert hi > k && m[k].offset == k && WellAligned(m[k], k);
    forall x | x in m' && k <= x < hi ensures x == k {
      assert m[x] == m[x];
    }
    SingletonWindow(m', k, hi, r);
    assert SameOutside(m, m', k, hi);
    EditCanonical(m, m', cap, k, hi);
  }

  lemma RewriteSlots(m: Tiles, k: u64, r: Region)
    requires k in m && m[k].live && SameShape(m[k], r)
    ensures SlotsOf(m[k := r]) == SlotsOf(m)
  {
    forall s: Slot ensures s in SlotsOf(m[k := r]) <==> s in SlotsOf(m) {
      SlotIn(m, s);
      SlotIn(m[k := r], s);
    }
  }

  lemma RewriteKeeps(m: Tiles, cap: u64, index: map<u64, u64>, id: u64, r: Region)
    requires Canonical(m, cap) && Indexed(m, index) && id in index && SameShape(m[index[id]], r)
    ensures var m' := m[index[id] := r];
            Canonical(m', cap) && Indexed(m', index) && SlotsOf(m') == SlotsOf(m)
            && LiveView(m', index) == LiveView(m, index)[id := r]
  {
    var m' := m[index[id] := r];
    RewriteCanonical(m, cap, index[id], r);
    RewriteSlots(m, index[id], r);
  }

  // ---------------------------------------------------- carving a target

  function FrontPiece(r: Region, lo: u64): Region
    requires r.offset <= lo
  {
    r.(size := lo - r.offset)
  }

  function TailPiece(r: Region, hi: u64): Region
    requires r.offset <= hi <= r.offset + r.size
  {
    r.(offset := hi, size := r.offset + r.size - hi)
  }

  /** The visited part of a tiling, with the target cut out of region `k`. */
  ghost function CarvedPart(m: Tiles, done: set<u64>, k: u64, front: Region, tail: Region): Tiles {
    var kept := map x | x in m && x in done && x != k :: m[x];
    if k !in done then kept else WithPieces(kept, k, front, tail)
  }

  ghost function WithPieces(m: Tiles, k: u64, front: Region, tail: Region): Tiles {
    var withFront := if front.size > 0 then m[k := front] else m;
    if tail.size > 0 then withFront[tail.offset := tail] else withFront
  }

  lemma CarveNone(m: Tiles, k: u64, front: Region, tail: Region)
    ensures CarvedPart(m, {}, k, front, tail) == map[]
  {
  }

  lemma CarveOther(m: Tiles, done: set<u64>, k: u64, front: Region, tail: Region, s: u64)
    requires s in m && s !in done && s != k && (tail.size > 0 ==> tail.offset !in m)
    ensures CarvedPart(m, done + {s}, k, front, tail) == CarvedPart(m, done, k, front, tail)[s := m[s]]
  {
  }

  lemma CarveSelf(m: Tiles, done: set<u64>, k: u64, front: Region, tail: Region)
    requires k in m && k !in done
    ensures CarvedPart(m, done + {k}, k, front, tail) == WithPieces(CarvedPart(m, done, k, front, tail), k, front, tail)
  {
    assert CarvedPart(m, done, k, front, tail) == map x | x in m && x in done + {k} && x != k :: m[x];
  }

  /** Carving out of the tiling without the moved block is placing the block and forgetting both places. */
  lemma CarveIsPlace(m: Tiles, from: u64, k: u64, front: Region, mid: Region, tail: Region)
    requires from in m && k in m && from != k && front.offset == k && mid.offset !in m - {k} && mid.offset != from
    requires front.size == 0 <==> mid.offset == k
    requires tail.size > 0 ==> tail.offset !in m && tail.offset != mid.offset
    ensures CarvedPart(m - {from}, (m - {from}).Keys, k, front, tail)
            == Place(m, k, front, mid, tail) - {from, mid.offset}
  {
    var c := CarvedPart(m - {from}, (m - {from}).Keys, k, front, tail);
    var p := Place(m, k, front, mid, tail) - {from, mid.offset};
    forall x: u64 ensures x in c <==> x in p ensures x in c ==> c[x] == p[x] {
      assert x in m - {from} <==> x in m && x != from;
    }
  }

  // ---------------------------------------------- finding the neighbours

  /** Some live blocks of a canonical tiling are missing from the map. */
  ghost predicate Holes(g: Tiles, holes: set<u64>, m: Tiles) {
    m == g - holes && forall h | h in holes :: LiveAt(g, h)
  }

  lemma LeftNeighbour(g: Tiles, cap: u64, holes: set<u64>, m: Tiles, off: u64, found: bool, p: u64)
    requires Canonical(g, cap) && Holes(g, holes, m) && LiveAt(g, off)
    requires found <==> exists y :: y in m && y < off
    requires found ==> p in m && p < off && forall y | y in m && y < off :: y <= p
    ensures found && !m[p].live && p + m[p].size == off ==> LeftFree(g, off, p) && MergedLow(g, off) == p
    ensures !(found && !m[p].live && p + m[p].size == off) ==> MergedLow(g, off) == off
  {
    var q := MergedLow(g, off);
    if LeftFree(g, off, q) {
      assert q in m;
      assert End(g, q) == off;
      assert p == q;
    }
    if found && !m[p].live && p + m[p].size == off {
      assert LeftFree(g, off, p);
    }
  }

  lemma RightNeighbour(g: Tiles, cap: u64, holes: set<u64>, m: Tiles, off: u64, found: bool, n: u64)
    requires Canonical(g, cap) && Holes(g, holes, m) && LiveAt(g, off) && off in holes
    requires found <==> exists y :: y in m && off <= y
    requires found ==> n in m && off <= n && forall y | y in m && off <= y :: n <= y
    ensures (found && !m[n].live && n == End(g, off)) <==> RightFree(g, End(g, off))
  {
    var hi := End(g, off);
    if RightFree(g, hi) {
      assert hi in m;
      assert End(g, off) <= n;
    }
  }

  ghost function DropIf(c: bool, k: int, m: Tiles): Tiles {
    if c then map x | x in m && x != k :: m[x] else m
  }

  lemma CoalesceAssembled(g: Tiles, cap: u64, holes: set<u64>, m: Tiles, off: u64, f: Region)
    requires Canonical(g, cap) && Holes(g, holes, m) && LiveAt(g, off) && off in holes && CoalescedRegion(g, off, f)
    ensures var left := DropIf(f.offset < off, f.offset, m);
            DropIf(RightFree(g, End(g, off)), End(g, off), left)[f.offset := f]
            == Coalesce(g, off, f) - (holes - {off})
  {
    var hi := End(g, off);
    var a := DropIf(RightFree(g, hi), hi, DropIf(f.offset < off, f.offset, m))[f.offset := f];
    var b := Coalesce(g, off, f) - (holes - {off});
    assert f.offset !in holes - {off};
    forall x: u64 ensures x in a <==> x in b ensures x in a ==> a[x] == b[x] {
      assert x in m <==> x in g && x !in holes;
    }
  }
}
