/** The allocator object: three redundant indexes over one arena, updated in
    place, each operation proved against its meaning on the live intervals. */
module RegionAllocation {
  import opened Machine
  import opened Types
  import opened ArenaSpec
  import opened Tiling
  import opened Ordering

  datatype Drift =
    | Sound
    | GapOrOverlap
    | AdjacentFree
    | BadAlignment
    | Misaligned
    | Uncovered
    | LiveBytesMismatch
    | IndexDrift

  ghost predicate FirstSlotOf(slots: set<Slot>, s: Slot) {
    s in slots && forall t | t in slots :: !SlotBefore(t, s)
  }

  lemma {:induction false} FirstSlotExists(slots: set<Slot>) returns (s: Slot)
    requires slots != {}
    ensures FirstSlotOf(slots, s)
  {
    var t :| t in slots;
    if slots == {t} {
      s := t;
    } else {
      var rest := FirstSlotExists(slots - {t});
      s := if SlotBefore(t, rest) then t else rest;
      assert forall x | x in slots :: x == t || x in slots - {t};
    }
  }

  method FirstSlot(slots: set<Slot>) returns (s: Slot)
    requires slots != {}
    ensures FirstSlotOf(slots, s)
  {
    ghost var w := FirstSlotExists(slots);
    s :| s in slots && forall t | t in slots :: !SlotBefore(t, s);
  }

  /** The size of the last slot in (size, offset) order, or 0. */
  ghost predicate LargestSize(slots: set<Slot>, n: u64) {
    && (forall s | s in slots :: s.size <= n) && (slots == {} ==> n == 0)
    && (slots != {} ==> exists s :: s in slots && s.size == n)
  }

  /** The concrete state stands for a set of live intervals. */
  ghost predicate Represents(cap: u64, m: Tiles, index: map<u64, u64>, slots: set<Slot>, bytes: int, count: nat) {
    && Canonical(m, cap) && Indexed(m, index) && slots == SlotsOf(m)
    && bytes == LiveCount(cap, LiveView(m, index)) && count == |index|
  }

  ghost function LiveCount(cap: u64, live: map<u64, Region>): nat {
    |LiveBytes(ArenaState(cap, live, 0))|
  }

  /** Live bytes do not depend on region ids. */
  lemma LiveBytesIgnoreIds(a: ArenaState, next: u64)
    ensures LiveBytes(a.(nextRegionId := next)) == LiveBytes(a)
  {
    var b := a.(nextRegionId := next);
    assert forall j :: ByteFree(a, j) <==> ByteFree(b, j);
  }

  class RegionAllocator {
    const capacity: u64
    var liveBytes: u64
    var liveCount: nat
    var nextRegionId: u64
    var regions: map<u64, Region>
    var allocOffset: map<u64, u64>
    var freeSlots: set<Slot>
    var summaryDirty: bool
    var freeCount: nat
    var largestFree: u64

    /** The live intervals this object stands for. */
    ghost function Model(): ArenaState
      reads this
      requires Indexed(regions, allocOffset)
    {
      ArenaState(capacity, LiveView(regions, allocOffset), nextRegionId)
    }

    ghost predicate Valid()
      reads this
    {
      Represents(capacity, regions, allocOffset, freeSlots, liveBytes, liveCount) && SummaryValid()
    }

    ghost predicate SummaryValid()
      reads this
    {
      !summaryDirty ==> freeCount == |freeSlots| && LargestSize(freeSlots, largestFree)
    }

    constructor (cap: u64)
      ensures Valid() && Model() == ArenaState(cap, map[], 1)
    {
      capacity := cap;
      liveBytes, liveCount, nextRegionId := 0, 0, 1;
      regions := map[0 := FreeRegion(0, cap, 1, DERIVED)];
      allocOffset := map[];
      freeSlots := if cap > 0 then {Slot(cap, 0)} else {};
      summaryDirty, freeCount, largestFree := true, 0, 0;
      new;
      forall s: Slot ensures s in freeSlots <==> s in SlotsOf(regions) {
        SlotIn(regions, s);
      }
      assert LiveBytes(ArenaState(cap, map[], 0)) == {};
    }

    function FreeBytesLeft(): int
      reads this
    {
      capacity - liveBytes
    }

    lemma FreeBytesCounted()
      requires Valid()
      ensures FreeBytesLeft() == |FreeBytes(Model())| && Invariant(Model())
    {
      BytesSplit(Model());
      LiveBytesIgnoreIds(Model(), 0);
      LiveViewInvariant(regions, allocOffset, Model());
    }

    method FindBestFit(need: u64, align: u64) returns (found: bool, slot: Slot)
      requires Valid() && IsPow2(align) && need > 0
      ensures found ==> slot in freeSlots && BestFit(Model(), need, align, slot.offset, slot.offset + slot.size)
      ensures !found ==> !CanAllocate(Model(), need, align)
    {
      SlotsBounded();
      found, slot := FirstFit(freeSlots, need, align, capacity);
      ghost var found', slot' := found, slot;
      FirstFitIsBestFit(found', slot', need, align);
    }

    lemma SlotsBounded()
      requires Valid()
      ensures forall s | s in freeSlots :: s.offset + s.size <= capacity
    {
      forall s | s in freeSlots ensures s.offset + s.size <= capacity {
        SlotIn(regions, s);
        assert End(regions, s.offset) <= capacity;
      }
    }

    lemma FirstFitIsBestFit(found: bool, slot: Slot, need: u64, align: u64)
      requires Valid()
      requires found ==> IsFirstFit(freeSlots, slot, need, align)
      requires !found ==> forall s | s in freeSlots :: !SlotHolds(s, need, align)
      ensures found ==> BestFit(Model(), need, align, slot.offset, slot.offset + slot.size)
      ensures !found ==> !CanAllocate(Model(), need, align)
    {
      if found {
        SlotsAreRuns(regions, allocOffset, Model(), slot);
        forall l: u64, h: int | FreeRun(Model(), l, h) && Fits(l, h, need, align)
          ensures !SlotLess(h - l, l, slot.size, slot.offset)
        {
          SlotsAreRuns(regions, allocOffset, Model(), Slot(h - l, l));
          assert SlotHolds(Slot(h - l, l), need, align);
          assert !SlotBefore(Slot(h - l, l), slot);
        }
      } else {
        forall lo: u64, hi: int ensures !BestFit(Model(), need, align, lo, hi) {
          if FreeRun(Model(), lo, hi) {
            SlotsAreRuns(regions, allocOffset, Model(), Slot(hi - lo, lo));
            assert !SlotHolds(Slot(hi - lo, lo), need, align);
          }
        }
      }
    }

    method Allocate(req: AllocRequest) returns (r: Result<Region>)
      requires Valid() && req.allocId !in Model().live
      modifies this
      ensures Valid()
      ensures (Model(), r) == ArenaSpec.Allocate(old(Model()), req)
    {
      hide Canonical, Indexed, LiveView, SlotsOf, LiveCount, LargestSize, BestFit, FreeBytes, AlignUp, IsPow2, PlaceIn;
      if req.bytes == 0 {
        return Err(ZERO_BYTES);
      }
      if req.alignment == 0 || !IsPow2(req.alignment) {
        return Err(if req.alignment == 0 then IMPOSSIBLE_ALIGNMENT else NON_POWER_OF_TWO_ALIGNMENT);
      }
      if req.bytes > capacity {
        return Err(INSUFFICIENT_TOTAL_CAPACITY);
      }
      var aligned := AlignUp(req.bytes, req.alignment);
      if aligned == 0 || aligned < req.bytes {
        return Err(SIZE_OVERFLOW);
      }
      if aligned > capacity {
        return Err(INSUFFICIENT_TOTAL_CAPACITY);
      }
      var found, slot := FindBestFit(aligned, req.alignment);
      if found {
        BestRunIs(Model(), aligned, req.alignment, slot.offset, slot.offset + slot.size);
        var live := SplitSlot(req, aligned, slot);
        return Ok(live);
      }
      FreeBytesCounted();
      if FreeBytesLeft() < aligned {
        return Err(INSUFFICIENT_TOTAL_CAPACITY);
      }
      return Err(INSUFFICIENT_CONTIGUOUS_CAPACITY);
    }

    /** Replace a free region by a front piece, the new live region and a tail piece. */
    method SplitSlot(req: AllocRequest, need: u64, slot: Slot) returns (live: Region)
      requires Valid() && req.allocId !in Model().live && slot in freeSlots
      requires need > 0 && IsPow2(req.alignment)
      requires SlotHolds(slot, need, req.alignment)
      modifies this
      ensures Valid()
      ensures FreeRun(old(Model()), slot.offset, slot.offset + slot.size)
      ensures (Model(), live) == PlaceIn(old(Model()), req, need, slot.offset, slot.offset + slot.size)
    {
      var at := AlignUp(slot.offset, req.alignment);
      SplitPlan(req, need, slot);
      live := PlaceBlock(req, need, at, slot);
    }

    /** What the split gives, and that it can be carried out. */
    lemma SplitPlan(req: AllocRequest, need: u64, slot: Slot)
      requires Valid() && req.allocId !in Model().live && slot in freeSlots
      requires need > 0 && IsPow2(req.alignment) && SlotHolds(slot, need, req.alignment)
      ensures FreeRun(Model(), slot.offset, slot.offset + slot.size)
      ensures slot.offset in regions && slot.offset <= AlignUp(slot.offset, req.alignment)
      ensures AlignUp(slot.offset, req.alignment) + need <= slot.offset + slot.size <= capacity
      ensures liveBytes + need <= capacity
      ensures var at := AlignUp(slot.offset, req.alignment);
              var (f, mid, t) := PiecesOf(req, need, at, slot, regions[slot.offset].tag.provenance, nextRegionId);
              var m, index := Place(regions, slot.offset, f, mid, t), allocOffset[req.allocId := at];
              && Represents(capacity, m, index, SplitIndex(freeSlots, slot, f, t), liveBytes + need, liveCount + 1)
              && LiveView(m, index) == Model().live[req.allocId := mid]
    {
      var at := AlignUp(slot.offset, req.alignment);
      SlotSplits(slot, req, need);
      var (f, mid, t) := PiecesOf(req, need, at, slot, regions[slot.offset].tag.provenance, nextRegionId);
      PiecesSplit(regions, req, need, at, slot, nextRegionId);
      PlaceRepresents(capacity, regions, allocOffset, freeSlots, liveBytes, liveCount, slot.offset, f, mid, t);
      assert Slot(regions[slot.offset].size, slot.offset) == slot;
    }

    method PlaceBlock(req: AllocRequest, need: u64, at: u64, slot: Slot) returns (live: Region)
      requires slot.offset in regions && slot.offset <= at && at + need <= slot.offset + slot.size < TWO64
      requires liveBytes + need < TWO64
      modifies this`regions, this`freeSlots, this`nextRegionId, this`summaryDirty
      modifies this`allocOffset, this`liveBytes, this`liveCount
      ensures var (f, mid, t) :=
                PiecesOf(req, need, at, slot, old(regions)[slot.offset].tag.provenance, old(nextRegionId));
              && live == mid
              && regions == Place(old(regions), slot.offset, f, mid, t)
              && freeSlots == SplitIndex(old(freeSlots), slot, f, t)
              && nextRegionId == if t.size > 0 then Add64(t.tag.regionId, 1) else t.tag.regionId
      ensures liveBytes == old(liveBytes) + need && liveCount == old(liveCount) + 1 && summaryDirty
      ensures allocOffset == old(allocOffset)[req.allocId := at]
    {
      live := CarveSlot(req, need, at, slot);
      liveBytes := liveBytes + need;
      liveCount := liveCount + 1;
      allocOffset := allocOffset[req.allocId := at];
      summaryDirty := true;
    }

    method CarveSlot(req: AllocRequest, need: u64, at: u64, slot: Slot) returns (live: Region)
      requires slot.offset in regions && slot.offset <= at && at + need <= slot.offset + slot.size < TWO64
      modifies this`regions, this`freeSlots, this`nextRegionId
      ensures var (f, mid, t) :=
                PiecesOf(req, need, at, slot, old(regions)[slot.offset].tag.provenance, old(nextRegionId));
              && live == mid
              && regions == Place(old(regions), slot.offset, f, mid, t)
              && freeSlots == SplitIndex(old(freeSlots), slot, f, t)
              && nextRegionId == if t.size > 0 then Add64(t.tag.regionId, 1) else t.tag.regionId
    {
      var k, front, tail := slot.offset, at - slot.offset, slot.offset + slot.size - at - need;
      var frec := regions[k];
      regions := regions - {k};
      freeSlots := freeSlots - {slot};
      AddFreePiece(k, front, frec.tag.provenance);
      live := LiveRegion(req, at, need, nextRegionId);
      regions := regions[at := live];
      nextRegionId := Add64(nextRegionId, 1);
      AddFreePiece(at + need, tail, frec.tag.provenance);
    }

    /** Return the span [off, off + size) to free space, merging it with its free
        neighbours.  The ghost tiling `g` is the arena as it was with the missing
        blocks (`holes`) still in place. */
    method CanonicalizeFree(off: u64, size: u64, ghost g: Tiles, ghost holes: set<u64>) returns (r: Result<Region>)
      requires size > 0 && off + size <= capacity ==>
                 && Canonical(g, capacity) && Holes(g, holes, regions) && freeSlots == SlotsOf(g)
                 && off in holes && LiveAt(g, off) && g[off].size == size
      modifies this`regions, this`freeSlots, this`nextRegionId, this`summaryDirty
      ensures size == 0 ==> r == Err(ZERO_BYTES)
      ensures size > 0 && off + size > capacity ==> r == Err(SIZE_OVERFLOW)
      ensures r.Err? ==> unchanged(this)
      ensures size > 0 && off + size <= capacity ==>
                && r == Ok(Returned(g, capacity, off, old(nextRegionId)))
                && regions == Coalesce(g, off, r.value) - (holes - {off})
                && freeSlots == SlotsOf(Coalesce(g, off, r.value))
                && nextRegionId == Add64(old(nextRegionId), 1) && summaryDirty
    {
      if size == 0 {
        return Err(ZERO_BYTES);
      }
      if off > capacity || size > capacity - off {
        return Err(SIZE_OVERFLOW);
      }
      hide Canonical, Holes, SlotsOf, Returned, Coalesce;
      r := MergeSpan(off, size, g, holes);
    }

    method MergeSpan(off: u64, size: u64, ghost g: Tiles, ghost holes: set<u64>) returns (r: Result<Region>)
      requires size > 0 && off + size <= capacity
      requires Canonical(g, capacity) && Holes(g, holes, regions) && freeSlots == SlotsOf(g)
      requires off in holes && LiveAt(g, off) && g[off].size == size
      modifies this`regions, this`freeSlots, this`nextRegionId, this`summaryDirty
      ensures r == Ok(Returned(g, capacity, off, old(nextRegionId)))
      ensures regions == Coalesce(g, off, r.value) - (holes - {off})
      ensures freeSlots == SlotsOf(Coalesce(g, off, r.value))
      ensures nextRegionId == Add64(old(nextRegionId), 1) && summaryDirty
    {
      ghost var m := regions;
      hide Canonical, Holes, SlotsOf, Coalesce, Returned, MergedLow, MergedHigh, DropIf, LeftSlot, RightSlot,
           CoalescedRegion;
      var lo := MergeLeft(off, g, holes);
      var hi := MergeRight(off, off + size, g, holes, m);
      ReturnedIs(g, capacity, off, nextRegionId);
      var f := FreeRegion(lo, hi - lo, nextRegionId, DERIVED);
      CoalesceSlots(g, capacity, off, f);
      CoalesceAssembled(g, capacity, holes, m, off, f);
      nextRegionId := Add64(nextRegionId, 1);
      regions := regions[lo := f];
      freeSlots := freeSlots + {Slot(hi - lo, lo)};
      summaryDirty := true;
      return Ok(f);
    }

    method MergeLeft(off: u64, ghost g: Tiles, ghost holes: set<u64>) returns (lo: u64)
      requires Canonical(g, capacity) && Holes(g, holes, regions) && LiveAt(g, off)
      modifies this`regions, this`freeSlots
      ensures lo == MergedLow(g, off)
      ensures regions == DropIf(lo < off, lo, old(regions))
      ensures freeSlots == old(freeSlots) - LeftSlot(g, off)
    {
      lo := off;
      var found, p := Predecessor(regions.Keys, off);
      LeftNeighbour(g, capacity, holes, regions, off, found, p);
      if found && !regions[p].live && p + regions[p].size == off {
        freeSlots := freeSlots - {Slot(regions[p].size, p)};
        lo := p;
        regions := regions - {p};
      }
    }

    method MergeRight(off: u64, end: u64, ghost g: Tiles, ghost holes: set<u64>, ghost m: Tiles) returns (hi: u64)
      requires Canonical(g, capacity) && Holes(g, holes, m) && LiveAt(g, off) && off in holes && end == End(g, off)
      requires regions == DropIf(MergedLow(g, off) < off, MergedLow(g, off), m)
      modifies this`regions, this`freeSlots
      ensures hi == MergedHigh(g, end) <= capacity
      ensures regions == DropIf(RightFree(g, end), end, old(regions))
      ensures freeSlots == old(freeSlots) - RightSlot(g, end)
    {
      hi := end;
      var found, n := LowerBound(regions.Keys, off);
      assert forall y | off <= y :: y in regions <==> y in m;
      RightNeighbour(g, capacity, holes, m, off, found, n);
      assert End(g, off) <= capacity;
      if found && !regions[n].live && n == hi {
        assert End(g, n) <= capacity;
        freeSlots := freeSlots - {Slot(regions[n].size, n)};
        hi := n + regions[n].size;
        regions := regions - {n};
      }
    }

    /** `regions_.emplace` and `index_free` for a piece that may be empty. */
    method AddFreePiece(off: u64, size: u64, provenance: u8)
      modifies this`regions, this`freeSlots, this`nextRegionId
      ensures regions == if size > 0 then old(regions)[off := FreeRegion(off, size, old(nextRegionId), provenance)]
                         else old(regions)
      ensures freeSlots == old(freeSlots) + Optional(Slot(size, off))
      ensures nextRegionId == if size > 0 then Add64(old(nextRegionId), 1) else old(nextRegionId)
    {
      if size > 0 {
        regions := regions[off := FreeRegion(off, size, nextRegionId, provenance)];
        freeSlots := freeSlots + {Slot(size, off)};
        nextRegionId := Add64(nextRegionId, 1);
      }
    }

    lemma SlotSplits(slot: Slot, req: AllocRequest, need: u64)
      requires Valid() && slot in freeSlots && need > 0 && IsPow2(req.alignment)
      requires SlotHolds(slot, need, req.alignment)
      ensures var k, at := slot.offset, AlignUp(slot.offset, req.alignment);
              && k in regions && !regions[k].live && regions[k].size == slot.size && End(regions, k) <= capacity
              && k <= at && at + need <= k + slot.size && Aligned(at, req.alignment)
      ensures FreeRun(Model(), slot.offset, slot.offset + slot.size)
    {
      SlotsAreRuns(regions, allocOffset, Model(), slot);
      AlignUpMeaning(slot.offset, req.alignment);
      SlotIn(regions, slot);
      assert End(regions, slot.offset) <= capacity;
    }

    method Free(id: u64, gen: u64) returns (r: Result<Region>)
      requires Valid()
      modifies this
      ensures Valid()
      ensures Model() == ArenaSpec.Free(old(Model()), id, gen).0
      ensures r.Err? ==> ArenaSpec.Free(old(Model()), id, gen).1 == Err(r.reason)
      ensures r.Ok? ==> ArenaSpec.Free(old(Model()), id, gen).1.Ok?
                        && FreeRun(Model(), r.value.offset, r.value.offset + r.value.size)
    {
      if id !in allocOffset || !regions[allocOffset[id]].live || regions[allocOffset[id]].allocGeneration != gen {
        return Err(STALE_GENERATION);
      }
      r := ReleaseBlock(id);
    }

    method ReleaseBlock(id: u64) returns (r: Result<Region>)
      requires Valid() && id in allocOffset
      modifies this
      ensures Represents(capacity, regions, allocOffset, freeSlots, liveBytes, liveCount) && summaryDirty
      ensures Model() == ArenaState(capacity, Without(old(Model()).live, id), Add64(old(nextRegionId), 1))
      ensures r.Ok? && FreeRun(Model(), r.value.offset, r.value.offset + r.value.size)
    {
      hide Canonical, Indexed, LiveView, SlotsOf, LiveCount, LargestSize, Coalesce;
      ReleasePlan(id);
      r := DropBlock(id);
    }

    method DropBlock(id: u64) returns (r: Result<Region>)
      requires Canonical(regions, capacity) && freeSlots == SlotsOf(regions)
      requires id in allocOffset && LiveAt(regions, allocOffset[id]) && liveCount > 0
      requires allocOffset[id] + regions[allocOffset[id]].size <= capacity
      requires 0 < regions[allocOffset[id]].size <= liveBytes
      modifies this`regions, this`freeSlots, this`nextRegionId, this`summaryDirty
      modifies this`allocOffset, this`liveBytes, this`liveCount
      ensures r == Ok(Returned(old(regions), capacity, old(allocOffset)[id], old(nextRegionId)))
      ensures regions == Coalesce(old(regions), old(allocOffset)[id], r.value) && freeSlots == SlotsOf(regions)
      ensures nextRegionId == Add64(old(nextRegionId), 1) && summaryDirty
      ensures allocOffset == Without(old(allocOffset), id) && liveCount == old(liveCount) - 1
      ensures liveBytes == old(liveBytes) - old(regions)[old(allocOffset)[id]].size
    {
      var off := allocOffset[id];
      var size := regions[off].size;
      r := ReturnSpan(off);
      allocOffset := Without(allocOffset, id);
      liveBytes := liveBytes - size;
      liveCount := liveCount - 1;
    }

    /** What merging the released span gives, and that the merge can be carried out. */
    lemma ReleasePlan(id: u64)
      requires Valid() && id in allocOffset
      ensures var off := allocOffset[id];
              var f := Returned(regions, capacity, off, nextRegionId);
              var m, index := Coalesce(regions, off, f), Without(allocOffset, id);
              && Canonical(regions, capacity) && freeSlots == SlotsOf(regions) && LiveAt(regions, off)
              && off + regions[off].size <= capacity && 0 < regions[off].size <= liveBytes && liveCount > 0
              && Represents(capacity, m, index, SlotsOf(m), liveBytes - regions[off].size, liveCount - 1)
              && Indexed(m, index) && LiveView(m, index) == Without(LiveView(regions, allocOffset), id)
              && FreeRun(ArenaState(capacity, LiveView(m, index), Add64(nextRegionId, 1)), f.offset, f.offset + f.size)
    {
      var f := Returned(regions, capacity, allocOffset[id], nextRegionId);
      LiveFacts(id);
      CoalesceRepresents(capacity, regions, allocOffset, freeSlots, liveBytes, liveCount, id, f);
      ReleasedRun(capacity, regions, allocOffset, id, f, Add64(nextRegionId, 1));
    }

    method ReturnSpan(off: u64) returns (r: Result<Region>)
      requires Canonical(regions, capacity) && freeSlots == SlotsOf(regions) && LiveAt(regions, off)
      requires off + regions[off].size <= capacity && regions[off].size > 0
      modifies this`regions, this`freeSlots, this`nextRegionId, this`summaryDirty
      ensures r == Ok(Returned(old(regions), capacity, off, old(nextRegionId)))
      ensures regions == Coalesce(old(regions), off, r.value) && freeSlots == SlotsOf(regions)
      ensures nextRegionId == Add64(old(nextRegionId), 1) && summaryDirty
    {
      var size := regions[off].size;
      ghost var m := regions;
      DropNone(Coalesce(m, off, Returned(m, capacity, off, nextRegionId)), {off} - {off});
      regions := regions - {off};
      r := CanonicalizeFree(off, size, m, {off});
    }

    lemma LiveFacts(id: u64)
      requires Valid() && id in allocOffset
      ensures var off := allocOffset[id];
              && LiveAt(regions, off) && regions[off].offset == off && 0 < regions[off].size <= liveBytes
              && off + regions[off].size <= capacity && liveCount > 0
    {
      var off := allocOffset[id];
      assert End(regions, off) > off;
      OneBlockBytes(capacity, regions, allocOffset, freeSlots, liveBytes, liveCount, id);
    }

    /** No live region overlaps [lo, hi): the greatest region starting below `lo`,
        then every region starting inside. */
    method TargetIsClear(lo: u64, hi: u64) returns (clear: bool)
      requires Valid() && lo < hi <= capacity
      ensures clear <==> SpanFree(Model(), lo, hi)
    {
      var found, p := Predecessor(regions.Keys, lo);
      if found && regions[p].live && p + regions[p].size > lo {
        LiveOverlaps(p, lo, hi);
        return false;
      }
      var todo := set k | k in regions && lo <= k < hi;
      ghost var all := todo;
      while todo != {}
        invariant todo <= all && forall k | k in all && k !in todo :: !regions[k].live
        decreases |todo|
      {
        var c := Least(todo);
        if regions[c].live {
          LiveOverlaps(c, lo, hi);
          return false;
        }
        todo := todo - {c};
      }
      NoneOverlaps(found, p, lo, hi);
      return true;
    }

    lemma LiveOverlaps(k: u64, lo: u64, hi: u64)
      requires Valid() && LiveAt(regions, k) && k < hi && lo < k + regions[k].size
      ensures !SpanFree(Model(), lo, hi)
    {
      var id := regions[k].allocId;
      assert id in Model().live && Model().live[id] == regions[k];
      assert End(regions, k) > k;
    }

    lemma NoneOverlaps(found: bool, p: u64, lo: u64, hi: u64)
      requires Valid() && lo < hi <= capacity
      requires found <==> exists y :: y in regions && y < lo
      requires found ==> p in regions && p < lo && forall y | y in regions && y < lo :: y <= p
      requires !(found && regions[p].live && p + regions[p].size > lo)
      requires forall k | k in regions && lo <= k < hi :: !regions[k].live
      ensures SpanFree(Model(), lo, hi)
    {
      forall id | id in Model().live ensures Apart(Model().live[id], lo, hi) {
        var k := allocOffset[id];
        assert End(regions, k) > k;
        if k < lo {
          assert k <= p;
          assert k < p ==> End(regions, k) <= p;
        }
      }
    }

    method Relocate(id: u64, gen: u64, newOffset: u64, newSize: u64, newAlignment: u64) returns (r: Result<Region>)
      requires Valid()
      modifies this
      ensures Valid()
      ensures (Model(), r) == ArenaSpec.Relocate(old(Model()), id, gen, newOffset, newSize, newAlignment)
    {
      if id !in allocOffset || !regions[allocOffset[id]].live || regions[allocOffset[id]].allocGeneration != gen {
        return Err(STALE_GENERATION);
      }
      if newAlignment == 0 || !IsPow2(newAlignment) {
        return Err(IMPOSSIBLE_ALIGNMENT);
      }
      if newSize == 0 || newOffset % newAlignment != 0 {
        return Err(INVALID_REQUEST);
      }
      if newOffset > capacity || newSize > capacity - newOffset {
        return Err(SIZE_OVERFLOW);
      }
      var from := allocOffset[id];
      var newHi := newOffset + newSize;
      LiveFacts(id);
      if newOffset < from + regions[from].size && from < newHi {
        LiveOverlaps(from, newOffset, newHi);
        return Err(INVALID_REQUEST);
      }
      var clear := TargetIsClear(newOffset, newHi);
      if !clear {
        return Err(INVALID_REQUEST);
      }
      var moved := MoveBlock(id, newOffset, newSize, newAlignment);
      return Ok(moved);
    }

    /** The mutation, after every check has passed: drop the block, carve the target
        out of free space, return the old span, insert the moved block. */
    method MoveBlock(id: u64, newOffset: u64, newSize: u64, newAlignment: u64) returns (moved: Region)
      requires Valid() && id in allocOffset && newSize > 0 && IsPow2(newAlignment) && Aligned(newOffset, newAlignment)
      requires newOffset + newSize <= capacity && SpanFree(Model(), newOffset, newOffset + newSize)
      modifies this
      ensures Valid()
      ensures moved == Moved(old(Model()).live[id], newOffset, newSize, newAlignment)
      ensures Model() == ArenaState(capacity, old(Model()).live[id := moved], Add64(old(nextRegionId), 1))
    {
      var from := allocOffset[id];
      var previous := regions[from];
      moved := Moved(previous, newOffset, newSize, newAlignment);
      assert previous == Model().live[id] && previous.allocId == id && previous.live;
      hide Represents, Canonical, Indexed, LiveView, SlotsOf, LargestSize, SpanFree, IsPow2, Aligned, Replaced;
      ReplaceBlock(id, moved);
      ReplacedFacts(capacity, old(regions), old(allocOffset), liveBytes, liveCount, id, moved,
                    regions, allocOffset, freeSlots);
      liveBytes := if newSize >= previous.size then liveBytes + (newSize - previous.size)
                   else liveBytes - (previous.size - newSize);
    }

    /** The tiling and the indexes with the block at its new place; the byte counter follows. */
    method ReplaceBlock(id: u64, moved: Region)
      requires Valid() && id in allocOffset && moved.live && moved.allocId == id && moved.size > 0
      requires IsPow2(moved.alignment) && Aligned(moved.offset, moved.alignment)
      requires moved.offset + moved.size <= capacity && SpanFree(Model(), moved.offset, moved.offset + moved.size)
      modifies this`regions, this`allocOffset, this`freeSlots, this`nextRegionId, this`summaryDirty
      ensures Replaced(capacity, old(regions), old(allocOffset), liveBytes, liveCount, id, moved,
                       regions, allocOffset, freeSlots)
      ensures nextRegionId == Add64(old(nextRegionId), 1) && summaryDirty
    {
      var from := allocOffset[id];
      hide Represents, SummaryValid, Canonical, Indexed, LiveView, SlotsOf, Splits, Moves, MoveResult, SpanFree, IsPow2,
           Aligned, FrontPiece, TailPiece, End, Replaced;
      ghost var k := MovePlan(id, moved);
      ghost var front := FrontPiece(regions[k], moved.offset);
      ghost var tail := TailPiece(regions[k], moved.offset + moved.size);
      MoveRepresents(capacity, regions, allocOffset, freeSlots, liveBytes, liveCount, id, k, front, moved, tail,
                     nextRegionId);
      MoveInPlace(id, from, k, moved, front, tail);
    }

    /** The free region from which the target is carved. */
    lemma MovePlan(id: u64, moved: Region) returns (k: u64)
      requires Valid() && id in allocOffset && moved.live && moved.allocId == id && moved.size > 0
      requires IsPow2(moved.alignment) && Aligned(moved.offset, moved.alignment)
      requires moved.offset + moved.size <= capacity && SpanFree(Model(), moved.offset, moved.offset + moved.size)
      ensures k in regions && k <= moved.offset && moved.offset + moved.size <= End(regions, k) <= capacity
      ensures regions[k].offset == k
      ensures var front, tail := FrontPiece(regions[k], moved.offset), TailPiece(regions[k], moved.offset + moved.size);
              Splits(regions, k, front, moved, tail) && Moves(regions, allocOffset, id, k, front, moved, tail)
      ensures Canonical(regions, capacity) && freeSlots == SlotsOf(regions) && LiveAt(regions, allocOffset[id])
    {
      k := TargetRegion(moved.offset, moved.offset + moved.size);
      var front, tail := FrontPiece(regions[k], moved.offset), TailPiece(regions[k], moved.offset + moved.size);
      MoveIsSplit(id, k, front, moved, tail);
    }

    lemma MoveIsSplit(id: u64, k: u64, front: Region, mid: Region, tail: Region)
      requires Valid() && id in allocOffset && k in regions && !regions[k].live && regions[k].offset == k
      requires k <= mid.offset && mid.offset + mid.size <= End(regions, k) <= capacity
      requires front == FrontPiece(regions[k], mid.offset) && tail == TailPiece(regions[k], mid.offset + mid.size)
      requires mid.live && mid.size > 0 && mid.allocId == id
      requires IsPow2(mid.alignment) && Aligned(mid.offset, mid.alignment)
      ensures Moves(regions, allocOffset, id, k, front, mid, tail)
    {
    }

    method MoveInPlace(id: u64, from: u64, ghost k: u64, moved: Region, ghost front: Region, ghost tail: Region)
      requires Canonical(regions, capacity) && freeSlots == SlotsOf(regions)
      requires id in allocOffset && from == allocOffset[id]
      requires LiveAt(regions, from) && Splits(regions, k, front, moved, tail)
      requires front == FrontPiece(regions[k], moved.offset) && tail == TailPiece(regions[k], moved.offset + moved.size)
      modifies this`regions, this`allocOffset, this`freeSlots, this`nextRegionId, this`summaryDirty
      ensures regions == old(MoveResult(capacity, regions, from, k, front, moved, tail, nextRegionId))
      ensures freeSlots == SlotsOf(regions)
      ensures allocOffset == old(allocOffset)[id := moved.offset]
      ensures nextRegionId == Add64(old(nextRegionId), 1) && summaryDirty
    {
      ghost var r := MoveResult(capacity, regions, from, k, front, moved, tail, nextRegionId);
      hide *;
      MovedStays(capacity, regions, from, k, front, moved, tail, nextRegionId);
      Reinsert(r, {from, moved.offset} - {from}, moved.offset, moved);
      IndexMoved(allocOffset, id, moved.offset);
      CutAndReturn(id, from, k, moved, front, tail);
      regions := regions[moved.offset := moved];
      allocOffset := allocOffset[id := moved.offset];
      summaryDirty := true;
    }

    /** Everything but entering the block at its new place. */
    method CutAndReturn(id: u64, from: u64, ghost k: u64, moved: Region, ghost front: Region, ghost tail: Region)
      requires Canonical(regions, capacity) && freeSlots == SlotsOf(regions)
      requires LiveAt(regions, from) && Splits(regions, k, front, moved, tail)
      requires front == FrontPiece(regions[k], moved.offset) && tail == TailPiece(regions[k], moved.offset + moved.size)
      modifies this`regions, this`allocOffset, this`freeSlots, this`nextRegionId, this`summaryDirty
      ensures var r := old(MoveResult(capacity, regions, from, k, front, moved, tail, nextRegionId));
              regions == r - ({from, moved.offset} - {from}) && freeSlots == SlotsOf(r)
      ensures allocOffset == Without(old(allocOffset), id)
      ensures nextRegionId == Add64(old(nextRegionId), 1) && summaryDirty
    {
      var previous := regions[from];
      ghost var m := regions;
      ghost var g := Place(m, k, front, moved, tail);
      hide *;
      MoveFacts(m, capacity, from, k, front, moved, tail, nextRegionId);
      CutOut(id, from, k, moved, front, tail);
      var cf := CanonicalizeFree(from, previous.size, g, {from, moved.offset});
    }

    /** Forget the block at its old place and cut its target out of free space. */
    method CutOut(id: u64, from: u64, ghost k: u64, moved: Region, ghost front: Region, ghost tail: Region)
      requires Canonical(regions, capacity) && freeSlots == SlotsOf(regions)
      requires LiveAt(regions, from) && Splits(regions, k, front, moved, tail)
      requires front == FrontPiece(regions[k], moved.offset) && tail == TailPiece(regions[k], moved.offset + moved.size)
      modifies this`regions, this`allocOffset, this`freeSlots
      ensures Holes(old(Place(regions, k, front, moved, tail)), {from, moved.offset}, regions)
      ensures freeSlots == SlotsOf(old(Place(regions, k, front, moved, tail)))
      ensures allocOffset == Without(old(allocOffset), id)
    {
      ghost var m := regions;
      hide Canonical, SlotsOf, Holes, CarvedPart, Place, SplitIndex;
      CarvePreconditions(m, capacity, from, k, moved.offset, moved.offset + moved.size);
      TargetPlaced(capacity, m, freeSlots, from, k, front, moved, tail);
      regions := regions - {from};
      allocOffset := Without(allocOffset, id);
      CarveTarget(moved.offset, moved.offset + moved.size, k);
    }

    /** The free region that contains the relocation target. */
    lemma TargetRegion(lo: u64, hi: u64) returns (k: u64)
      requires Valid() && lo < hi <= capacity && SpanFree(Model(), lo, hi)
      ensures k in regions && !regions[k].live && k <= lo && hi <= End(regions, k) <= capacity
      ensures regions[k].offset == k && regions[k].size > 0
    {
      LiveViewInvariant(regions, allocOffset, Model());
      var rlo, rhi := RunAround(Model(), lo, hi);
      k := rlo;
      FreeRegionsAreRuns(regions, allocOffset, Model(), k, rhi);
    }

    /** Rebuild the map region by region, cutting the target out of the free space it meets. */
    method CarvedTiles(lo: u64, hi: u64, ghost k: u64) returns (next: Tiles)
      requires lo < hi && k in regions && !regions[k].live && k <= lo && hi <= End(regions, k) < TWO64
      requires regions[k].offset == k
      requires forall s | s in regions && s != k && !regions[s].live :: s + regions[s].size <= lo || hi <= s
      requires forall s | s in regions && s != k :: s < k || End(regions, k) <= s
      modifies this`freeSlots
      ensures var front, tail := FrontPiece(regions[k], lo), TailPiece(regions[k], hi);
              && next == CarvedPart(regions, regions.Keys, k, front, tail)
              && freeSlots == SplitIndex(old(freeSlots), Slot(regions[k].size, k), front, tail)
    {
      ghost var front, tail := FrontPiece(regions[k], lo), TailPiece(regions[k], hi);
      ghost var slots := freeSlots;
      assert tail.size > 0 ==> tail.offset !in regions;
      CarveNone(regions, k, front, tail);
      hide CarvedPart, WithPieces, SplitIndex, FrontPiece, TailPiece;
      next := map[];
      var todo := regions.Keys;
      ghost var done: set<u64> := {};
      while todo != {}
        invariant todo <= regions.Keys && done == regions.Keys - todo
        invariant next == CarvedPart(regions, done, k, front, tail)
        invariant freeSlots == if k in done then SplitIndex(slots, Slot(regions[k].size, k), front, tail) else slots
        modifies this`freeSlots
        decreases |todo|
      {
        var s := Least(todo);
        next := CarveOne(lo, hi, k, s, next, done);
        OneMoreDone(regions.Keys, todo, s);
        done := done + {s};
        todo := todo - {s};
      }
      assert done == regions.Keys;
    }

    /** One region of the rebuilt map. */
    method CarveOne(lo: u64, hi: u64, ghost k: u64, s: u64, next: Tiles, ghost done: set<u64>) returns (next': Tiles)
      requires lo < hi && k in regions && !regions[k].live && k <= lo && hi <= End(regions, k) < TWO64
      requires regions[k].offset == k && s in regions && s !in done
      requires forall x | x in regions && x != k && !regions[x].live :: x + regions[x].size <= lo || hi <= x
      requires TailPiece(regions[k], hi).size > 0 ==> TailPiece(regions[k], hi).offset !in regions
      requires next == CarvedPart(regions, done, k, FrontPiece(regions[k], lo), TailPiece(regions[k], hi))
      modifies this`freeSlots
      ensures var front, tail := FrontPiece(regions[k], lo), TailPiece(regions[k], hi);
              && next' == CarvedPart(regions, done + {s}, k, front, tail)
              && freeSlots == if s == k then SplitIndex(old(freeSlots), Slot(regions[k].size, k), front, tail)
                              else old(freeSlots)
    {
      ghost var front, tail := FrontPiece(regions[k], lo), TailPiece(regions[k], hi);
      hide CarvedPart, WithPieces, SplitIndex, FrontPiece, TailPiece;
      var e := s + regions[s].size;
      var from, to := Max(s, lo), Min(e, hi);
      MeetsOnlyItsRun(regions, k, lo, hi, s);
      if regions[s].live || from >= to {
        CarveOther(regions, done, k, front, tail, s);
        next' := next[s := regions[s]];
      } else {
        CarveSelf(regions, done, k, front, tail);
        next' := CutRegion(next, regions[s], from, to);
      }
    }

    /** Only the free region around the target meets it. */
    lemma MeetsOnlyItsRun(m: Tiles, k: u64, lo: u64, hi: u64, s: u64)
      requires lo < hi && k in m && !m[k].live && k <= lo && hi <= End(m, k) < TWO64 && s in m
      requires forall s | s in m && s != k && !m[s].live :: s + m[s].size <= lo || hi <= s
      ensures m[s].live || Max(s, lo) >= Min(s + m[s].size, hi) <==> s != k
      ensures s == k ==> Max(s, lo) == lo && Min(s + m[s].size, hi) == hi
    {
    }

    method CarveTarget(lo: u64, hi: u64, ghost k: u64)
      requires lo < hi && k in regions && !regions[k].live && k <= lo && hi <= End(regions, k) < TWO64
      requires regions[k].offset == k
      requires forall s | s in regions && s != k && !regions[s].live :: s + regions[s].size <= lo || hi <= s
      requires forall s | s in regions && s != k :: s < k || End(regions, k) <= s
      modifies this`regions, this`freeSlots
      ensures var m := old(regions);
              && regions == CarvedPart(m, m.Keys, k, FrontPiece(m[k], lo), TailPiece(m[k], hi))
              && freeSlots == SplitIndex(old(freeSlots), Slot(m[k].size, k), FrontPiece(m[k], lo), TailPiece(m[k], hi))
    {
      regions := CarvedTiles(lo, hi, k);
    }

    /** Replace the index entry of `r` by those of what is left of it around [from, to). */
    method CutRegion(next: Tiles, r: Region, from: u64, to: u64) returns (next': Tiles)
      requires r.offset <= from < to <= r.offset + r.size < TWO64
      modifies this`freeSlots
      ensures next' == WithPieces(next, r.offset, FrontPiece(r, from), TailPiece(r, to))
      ensures freeSlots == SplitIndex(old(freeSlots), Slot(r.size, r.offset), FrontPiece(r, from), TailPiece(r, to))
    {
      next' := next;
      freeSlots := freeSlots - {Slot(r.size, r.offset)};
      if r.offset < from {
        next' := next'[r.offset := FrontPiece(r, from)];
        freeSlots := freeSlots + {Slot(from - r.offset, r.offset)};
      }
      if to < r.offset + r.size {
        next' := next'[to := TailPiece(r, to)];
        freeSlots := freeSlots + {Slot(r.offset + r.size - to, to)};
      }
    }

    method Pin(id: u64, gen: u64) returns (r: Result<Region>)
      requires Valid()
      modifies this`regions
      ensures Valid()
      ensures (Model(), r) == ArenaSpec.PinRegion(old(Model()), id, gen)
    {
      hide Represents, SummaryValid, Indexed, LiveView;
      CurrentTile(id, gen);
      if id !in allocOffset || !regions[allocOffset[id]].live || regions[allocOffset[id]].allocGeneration != gen {
        return Err(STALE_GENERATION);
      }
      var p := regions[allocOffset[id]];
      var q := p.(movability := PINNED, pinCount := (p.pinCount + 1) % TWO32);
      Rewrite(id, q);
      return Ok(q);
    }

    method Unpin(id: u64, gen: u64) returns (r: Result<Region>)
      requires Valid()
      modifies this`regions
      ensures Valid()
      ensures (Model(), r) == ArenaSpec.UnpinRegion(old(Model()), id, gen)
    {
      hide Represents, SummaryValid, Indexed, LiveView;
      CurrentTile(id, gen);
      if id !in allocOffset || !regions[allocOffset[id]].live || regions[allocOffset[id]].allocGeneration != gen {
        return Err(STALE_GENERATION);
      }
      var p := regions[allocOffset[id]];
      if p.pinCount == 0 {
        return Err(INVALID_REQUEST);
      }
      var q := p.(pinCount := p.pinCount - 1);
      if q.pinCount == 0 {
        q := q.(movability := MOVABLE);
      }
      Rewrite(id, q);
      return Ok(q);
    }

    /** A current handle names a live region of the map. */
    lemma CurrentTile(id: u64, gen: u64)
      requires Valid()
      ensures id in allocOffset ==>
                && allocOffset[id] in regions && id in Model().live && Model().live[id] == regions[allocOffset[id]]
      ensures Current(Model(), id, gen) <==>
              id in allocOffset && regions[allocOffset[id]].live && regions[allocOffset[id]].allocGeneration == gen
    {
    }

    method Rewrite(id: u64, q: Region)
      requires Valid() && id in allocOffset && SameShape(regions[allocOffset[id]], q)
      modifies this`regions
      ensures Valid() && Model() == old(Model()).(live := old(Model()).live[id := q])
    {
      RewriteRepresents(capacity, regions, allocOffset, freeSlots, liveBytes, liveCount, id, q);
      regions := regions[allocOffset[id] := q];
    }

    method Get(id: u64, gen: u64) returns (r: Result<Region>)
      requires Valid()
      ensures r == ArenaSpec.GetRegion(Model(), id, gen)
    {
      if id !in allocOffset || !regions[allocOffset[id]].live || regions[allocOffset[id]].allocGeneration != gen {
        return Err(STALE_GENERATION);
      }
      return Ok(regions[allocOffset[id]]);
    }

    /** Refresh the cached summary if it is out of date. */
    method EnsureSummary()
      requires Valid()
      modifies this`freeCount, this`largestFree, this`summaryDirty
      ensures Valid() && !summaryDirty
    {
      if !summaryDirty {
        return;
      }
      freeCount := |freeSlots|;
      largestFree := 0;
      if freeSlots != {} {
        var last := LastSlot(freeSlots);
        largestFree := last.size;
      }
      summaryDirty := false;
    }

    method LargestFreeRegion() returns (n: u64)
      requires Valid()
      modifies this`freeCount, this`largestFree, this`summaryDirty
      ensures Valid() && Model() == old(Model()) && IsLargestFree(Model(), n)
    {
      EnsureSummary();
      LargestIsLargestRun(largestFree);
      return largestFree;
    }

    lemma LargestIsLargestRun(n: u64)
      requires Valid() && LargestSize(freeSlots, n)
      ensures IsLargestFree(Model(), n)
    {
      forall lo: int, hi: int | FreeRun(Model(), lo, hi) ensures hi - lo <= n {
        SlotsAreRuns(regions, allocOffset, Model(), Slot(hi - lo, lo));
      }
      if freeSlots != {} {
        var s :| s in freeSlots && s.size == n;
        SlotsAreRuns(regions, allocOffset, Model(), s);
        assert FreeRun(Model(), s.offset, s.offset + s.size);
      }
    }

    /** `snapshot_live` and `snapshot_free`: the regions of one kind, by offset. */
    method Snapshot(live: bool) returns (v: seq<Region>)
      requires Valid()
      ensures forall i, j | 0 <= i < j < |v| :: v[i].offset < v[j].offset
      ensures live ==> forall r :: r in v <==> r in Model().live.Values
      ensures !live && capacity > 0 ==> forall r: Region | r in v :: FreeRun(Model(), r.offset, r.offset + r.size)
      ensures !live ==> forall lo: int, hi: int | FreeRun(Model(), lo, hi) ::
                exists r :: r in v && r.offset == lo && r.offset + r.size == hi
    {
      var keys := SortedKeys(regions.Keys);
      OffsetsAreKeys(regions, capacity);
      v := FilterRegions(regions, keys, live);
      SnapshotMeaning(keys, v, live);
    }

    lemma SnapshotMeaning(keys: seq<u64>, v: seq<Region>, live: bool)
      requires Valid() && (forall k :: k in keys <==> k in regions) && Filtered(regions, keys, live, v)
      ensures live ==> forall r :: r in v <==> r in Model().live.Values
      ensures !live && capacity > 0 ==> forall r: Region | r in v :: FreeRun(Model(), r.offset, r.offset + r.size)
      ensures !live ==> forall lo: int, hi: int | FreeRun(Model(), lo, hi) ::
                exists r :: r in v && r.offset == lo && r.offset + r.size == hi
    {
      if live {
        LiveListing(v);
      } else {
        FreeListing(v);
      }
    }

    lemma LiveListing(v: seq<Region>)
      requires Valid() && forall r :: r in v <==> exists k :: k in regions && r == regions[k] && r.live
      ensures forall r :: r in v <==> r in Model().live.Values
    {
      forall r ensures r in v <==> r in Model().live.Values {
        if r in v {
          var k :| k in regions && r == regions[k] && r.live;
          assert r.allocId in Model().live && Model().live[r.allocId] == r;
        }
        if r in Model().live.Values {
          var id :| id in Model().live && Model().live[id] == r;
          assert regions[allocOffset[id]] in v;
        }
      }
    }

    lemma FreeListing(v: seq<Region>)
      requires Valid() && forall r :: r in v <==> exists k :: k in regions && r == regions[k] && !r.live
      ensures capacity > 0 ==> forall r: Region | r in v :: FreeRun(Model(), r.offset, r.offset + r.size)
      ensures forall lo: int, hi: int | FreeRun(Model(), lo, hi) ::
                exists r :: r in v && r.offset == lo && r.offset + r.size == hi
    {
      hide FreeRun;
      forall r: Region | r in v && capacity > 0 ensures FreeRun(Model(), r.offset, r.offset + r.size) {
        var k :| k in regions && r == regions[k] && !r.live;
        FreeTileIsRun(k);
      }
      forall lo: int, hi: int | FreeRun(Model(), lo, hi)
        ensures exists r :: r in v && r.offset == lo && r.offset + r.size == hi
      {
        RunIsFreeTile(lo, hi);
        assert regions[lo] in v;
      }
    }

    lemma FreeTileIsRun(k: u64)
      requires Valid() && k in regions && !regions[k].live && capacity > 0
      ensures FreeRun(Model(), regions[k].offset, regions[k].offset + regions[k].size)
    {
      assert End(regions, k) > k && regions[k].offset == k;
      hide FreeRun;
      FreeRegionsAreRuns(regions, allocOffset, Model(), k, End(regions, k));
    }

    lemma RunIsFreeTile(lo: int, hi: int)
      requires Valid() && FreeRun(Model(), lo, hi)
      ensures lo in regions && !regions[lo].live && regions[lo].offset == lo && lo + regions[lo].size == hi
    {
      FreeRegionsAreRuns(regions, allocOffset, Model(), lo, hi);
      assert End(regions, lo) == hi;
    }

    /** Walk the tiling and recompute everything the indexes claim. */
    method Verify() returns (d: Drift)
      requires Valid()
      ensures d == if capacity > 0 then Sound else IndexDrift
    {
      hide Canonical, Indexed, LiveBelow, LiveView, SlotsOf, FreeBelow, LargestSize, LiveBytes;
      var keys := SortedKeys(regions.Keys);
      var expected: u64, liveSum: u64, freeRegions := 0, 0, 0;
      var previousFree, previousEnd: u64 := false, 0;
      ghost var a := ArenaState(capacity, LiveView(regions, allocOffset), 0);
      WalkStarts(a, regions, keys);
      for i := 0 to |keys|
        invariant i < |keys| ==> keys[i] == expected
        invariant i == |keys| ==> expected == capacity
        invariant liveSum == |LiveBelow(a, expected)|
        invariant freeRegions == FreeBelow(regions, capacity, expected, i)
        invariant i > 0 ==> previousEnd == expected && keys[i - 1] in regions && End(regions, keys[i - 1]) == expected
                            && previousFree == !regions[keys[i - 1]].live
      {
        var k := keys[i];
        WalkOne(regions, allocOffset, a, keys, i);
        if k != expected {
          return GapOrOverlap;
        }
        if i > 0 {
          if previousEnd > k {
            return GapOrOverlap;
          }
          if previousFree && !regions[k].live && previousEnd == k {
            return AdjacentFree;
          }
        }
        if regions[k].live {
          liveSum := Add64(liveSum, regions[k].size);
          if !IsPow2(regions[k].alignment) {
            return BadAlignment;
          }
          if k % regions[k].alignment != 0 {
            return Misaligned;
          }
        } else {
          freeRegions := freeRegions + 1;
        }
        previousEnd := Add64(k, regions[k].size);
        previousFree := !regions[k].live;
        expected := previousEnd;
      }
      WalkEnds(regions, allocOffset, a, keys);
      if expected != capacity {
        return Uncovered;
      }
      if liveSum != liveBytes {
        return LiveBytesMismatch;
      }
      if freeRegions != |freeSlots| {
        return IndexDrift;
      }
      return Sound;
    }
  }

  lemma OffsetsAreKeys(m: Tiles, cap: u64)
    requires Canonical(m, cap)
    ensures forall k | k in m :: m[k].offset == k
  {
    forall k | k in m ensures m[k].offset == k {
      assert End(m, k) >= k;
    }
  }

  method FilterRegions(m: Tiles, keys: seq<u64>, live: bool) returns (v: seq<Region>)
    requires Ascending(keys) && forall k | k in keys :: k in m && m[k].offset == k
    ensures Filtered(m, keys, live, v)
    ensures forall i, j | 0 <= i < j < |v| :: v[i].offset < v[j].offset
  {
    hide Filtered, Ascending;
    v := [];
    FilteredNone(m, live);
    for i := 0 to |keys|
      invariant Filtered(m, keys[..i], live, v)
      invariant forall a, b | 0 <= a < b < |v| :: v[a].offset < v[b].offset
      invariant i < |keys| ==> forall a | 0 <= a < |v| :: v[a].offset < keys[i]
    {
      var k := keys[i];
      assert k in keys;
      FilteredStep(m, keys, i, live, v);
      if m[k].live == live {
        v := v + [m[k]];
      }
    }
    assert keys[..|keys|] == keys;
  }

  lemma FilteredNone(m: Tiles, live: bool)
    ensures Filtered(m, [], live, [])
  {
  }

  lemma FilteredStep(m: Tiles, keys: seq<u64>, i: nat, live: bool, v: seq<Region>)
    requires i < |keys| && Ascending(keys) && keys[i] in m && Filtered(m, keys[..i], live, v)
    ensures Filtered(m, keys[..i + 1], live, if m[keys[i]].live == live then v + [m[keys[i]]] else v)
    ensures i + 1 < |keys| ==> keys[i] < keys[i + 1]
  {
    assert keys[..i + 1] == keys[..i] + [keys[i]];
    hide Filtered;
    FilteredAppend(m, keys[..i], keys[i], live, v);
  }

  lemma FilteredAppend(m: Tiles, keys: seq<u64>, k: u64, live: bool, v: seq<Region>)
    requires k in m && Filtered(m, keys, live, v)
    ensures Filtered(m, keys + [k], live, if m[k].live == live then v + [m[k]] else v)
  {
    var w := if m[k].live == live then v + [m[k]] else v;
    forall r | r in w ensures Listed(m, keys + [k], live, r) {
      if r in v {
        assert Listed(m, keys, live, r);
        var x :| x in keys && x in m && r == m[x] && r.live == live;
        assert x in keys + [k];
      } else {
        assert k in keys + [k];
      }
    }
  }

  /** `r` is one of the listed regions of the wanted kind. */
  ghost predicate Listed(m: Tiles, keys: seq<u64>, live: bool, r: Region) {
    exists k :: k in keys && k in m && r == m[k] && r.live == live
  }

  ghost predicate Filtered(m: Tiles, keys: seq<u64>, live: bool, v: seq<Region>) {
    && (forall k | k in keys && k in m && m[k].live == live :: m[k] in v)
    && (forall r | r in v :: Listed(m, keys, live, r))
  }

  ghost predicate LastSlotOf(slots: set<Slot>, s: Slot) {
    s in slots && forall t | t in slots :: !SlotBefore(s, t)
  }

  lemma {:induction false} LastSlotExists(slots: set<Slot>) returns (s: Slot)
    requires slots != {}
    ensures LastSlotOf(slots, s)
  {
    var t :| t in slots;
    if slots == {t} {
      s := t;
    } else {
      var rest := LastSlotExists(slots - {t});
      s := if SlotBefore(rest, t) then t else rest;
      assert forall x | x in slots :: x == t || x in slots - {t};
    }
  }

  /** `free_slots_.rbegin()` */
  method LastSlot(slots: set<Slot>) returns (s: Slot)
    requires slots != {}
    ensures LastSlotOf(slots, s)
  {
    ghost var w := LastSlotExists(slots);
    s :| s in slots && forall t | t in slots :: !SlotBefore(s, t);
  }

  // ------------------------------------------------ walking the tiling

  ghost function LiveBelow(a: ArenaState, x: int): set<int> {
    set j | 0 <= j < a.capacity && j < x && !ByteFree(a, j)
  }

  ghost function SlotsBelow(m: Tiles, x: int): set<Slot> {
    set s | s in SlotsOf(m) && s.offset < x
  }

  lemma WalkStarts(a: ArenaState, m: Tiles, keys: seq<u64>)
    requires Canonical(m, a.capacity) && Ascending(keys) && forall k :: k in keys <==> k in m
    ensures |keys| > 0 && keys[0] == 0
    ensures |LiveBelow(a, 0)| == 0 && FreeBelow(m, a.capacity, 0, 0) == 0
  {
    assert 0 in keys;
    assert LiveBelow(a, 0) == {} && SlotsBelow(m, 0) == {};
  }

  /** The next key is where the current region ends. */
  lemma WalkStep(cap: u64, m: Tiles, keys: seq<u64>, i: nat)
    requires Canonical(m, cap) && Ascending(keys) && (forall k :: k in keys <==> k in m) && i < |keys|
    ensures keys[i] in m && End(m, keys[i]) <= cap
    ensures i + 1 < |keys| ==> keys[i + 1] == End(m, keys[i])
    ensures i + 1 == |keys| ==> End(m, keys[i]) == cap
    ensures i > 0 && keys[i - 1] in m && End(m, keys[i - 1]) == keys[i] && !m[keys[i - 1]].live ==> m[keys[i]].live
    ensures m[keys[i]].live ==> WellAligned(m[keys[i]], keys[i])
  {
    var k := keys[i];
    var e := End(m, k);
    assert k in m && e <= cap;
    if i + 1 < |keys| {
      var n := keys[i + 1];
      assert n in m && n > k;
      assert e <= n;
      assert cap > 0 && n < cap by { assert End(m, n) > n || cap == 0; }
      assert e in keys;
      var j :| 0 <= j < |keys| && keys[j] == e;
      assert e > k;
      assert j > i;
    } else {
      assert forall x | x in keys :: x <= k;
      assert e > k || cap == 0;
    }
    if i > 0 && keys[i - 1] in m {
      assert keys[i - 1] < keys[i];
      assert End(m, keys[i - 1]) == keys[i] ==> m[End(m, keys[i - 1])] == m[keys[i]];
    }
  }

  lemma WalkBytes(m: Tiles, index: map<u64, u64>, a: ArenaState, k: u64)
    requires Canonical(m, a.capacity) && Indexed(m, index) && a.live == LiveView(m, index) && k in m
    ensures |LiveBelow(a, End(m, k))| == |LiveBelow(a, k)| + (if m[k].live then m[k].size else 0) <= a.capacity
  {
    var e := End(m, k);
    RegionBytes(m, index, a, k);
    BelowBounded(a, e);
    assert e <= a.capacity;
    IntervalSize(k, e);
    if m[k].live {
      assert LiveBelow(a, e) == LiveBelow(a, k) + Interval(k, e);
      assert LiveBelow(a, k) !! Interval(k, e);
    } else {
      assert LiveBelow(a, e) == LiveBelow(a, k);
    }
  }

  lemma WalkSlots(m: Tiles, cap: u64, k: u64)
    requires Canonical(m, cap) && k in m && cap > 0
    ensures |SlotsBelow(m, End(m, k))| == |SlotsBelow(m, k)| + (if m[k].live then 0 else 1)
  {
    RegionSlots(m, cap, k);
    assert End(m, k) > k;
    assert Slot(m[k].size, k) !in SlotsBelow(m, k);
  }

  /** The free regions below `x`, of which `i` regions have been walked. */
  ghost function FreeBelow(m: Tiles, cap: u64, x: int, i: nat): nat {
    if cap > 0 then |SlotsBelow(m, x)| else i
  }

  lemma WalkOne(m: Tiles, index: map<u64, u64>, a: ArenaState, keys: seq<u64>, i: nat)
    requires Canonical(m, a.capacity) && Indexed(m, index) && a.live == LiveView(m, index)
    requires Ascending(keys) && (forall k :: k in keys <==> k in m) && i < |keys|
    ensures var k := keys[i];
            && k in m && End(m, k) <= a.capacity
            && (i + 1 < |keys| ==> keys[i + 1] == End(m, k)) && (i + 1 == |keys| ==> End(m, k) == a.capacity)
            && (i > 0 && keys[i - 1] in m && End(m, keys[i - 1]) == k && !m[keys[i - 1]].live ==> m[k].live)
            && (m[k].live ==> WellAligned(m[k], k))
            && |LiveBelow(a, End(m, k))| == |LiveBelow(a, k)| + (if m[k].live then m[k].size else 0) <= a.capacity
            && FreeBelow(m, a.capacity, End(m, k), i + 1)
               == FreeBelow(m, a.capacity, k, i) + (if m[k].live then 0 else 1)
  {
    WalkStep(a.capacity, m, keys, i);
    WalkBytes(m, index, a, keys[i]);
    assert m[keys[i]].live ==> End(m, keys[i]) > keys[i];
    if a.capacity > 0 {
      WalkSlots(m, a.capacity, keys[i]);
    }
  }

  /** All bytes of a region are live, or all are free. */
  lemma RegionBytes(m: Tiles, index: map<u64, u64>, a: ArenaState, k: u64)
    requires Canonical(m, a.capacity) && Indexed(m, index) && a.live == LiveView(m, index) && k in m
    ensures forall j | k <= j < End(m, k) :: ByteFree(a, j) <==> !m[k].live
  {
    var e := End(m, k);
    assert e <= a.capacity && m[k].offset == k;
    if m[k].live {
      var id := m[k].allocId;
      assert id in a.live && a.live[id] == m[k];
      forall j | k <= j < e ensures !ByteFree(a, j) {
        assert !Apart(a.live[id], j, j + 1);
      }
    } else if e > k {
      FreeRegionsAreRuns(m, index, a, k, e);
      forall j | k <= j < e ensures ByteFree(a, j) {
        assert forall id | id in a.live :: Apart(a.live[id], k, e);
      }
    }
  }

  lemma RegionSlots(m: Tiles, cap: u64, k: u64)
    requires Canonical(m, cap) && k in m
    ensures var e := End(m, k);
            SlotsBelow(m, e) == SlotsBelow(m, k) + (if !m[k].live && e > k then {Slot(m[k].size, k)} else {})
  {
    var e := End(m, k);
    forall s
      ensures s in SlotsBelow(m, e) <==> s in SlotsBelow(m, k) || (s == Slot(m[k].size, k) && !m[k].live && e > k)
    {
      SlotIn(m, s);
      if s.offset in m && k < s.offset {
        assert e <= s.offset;
      }
    }
  }

  lemma BelowBounded(a: ArenaState, x: int)
    ensures |LiveBelow(a, x)| <= a.capacity
  {
    IntervalSize(0, a.capacity);
    assert LiveBelow(a, x) <= Interval(0, a.capacity);
    SubsetSize(LiveBelow(a, x), Interval(0, a.capacity));
  }

  lemma WalkEnds(m: Tiles, index: map<u64, u64>, a: ArenaState, keys: seq<u64>)
    requires Canonical(m, a.capacity) && Indexed(m, index) && a.live == LiveView(m, index) && |keys| > 0
    ensures |LiveBelow(a, a.capacity)| == |LiveBytes(a)|
    ensures FreeBelow(m, a.capacity, a.capacity, |keys|) == |SlotsOf(m)| <==> a.capacity > 0
  {
    forall s | s in SlotsOf(m) ensures s.offset < a.capacity {
      SlotIn(m, s);
      assert End(m, s.offset) <= a.capacity;
    }
    assert LiveBelow(a, a.capacity) == LiveBytes(a);
    assert a.capacity > 0 ==> SlotsBelow(m, a.capacity) == SlotsOf(m);
    assert a.capacity == 0 ==> SlotsOf(m) == {};
  }

  lemma IndexMoved(index: map<u64, u64>, id: u64, offset: u64)
    ensures Without(index, id)[id := offset] == index[id := offset]
  {
  }

  lemma DropNone(m: Tiles, s: set<u64>)
    requires s == {}
    ensures m - s == m
  {
  }

  lemma ReturnedIs(g: Tiles, cap: u64, off: u64, regionId: u64)
    requires Canonical(g, cap) && LiveAt(g, off)
    ensures var lo, hi := MergedLow(g, off), MergedHigh(g, End(g, off));
            0 <= lo < hi <= cap && Returned(g, cap, off, regionId) == FreeRegion(lo, hi - lo, regionId, DERIVED)
  {
    MergedBounds(g, cap, off);
  }

  lemma BestRunIs(a: ArenaState, need: u64, align: u64, lo: u64, hi: int)
    requires BestFit(a, need, align, lo, hi)
    ensures CanAllocate(a, need, align) && BestRun(a, need, align) == (lo, hi)
  {
    hide BestFit;
    var run := BestRun(a, need, align);
    BestFitUnique(a, need, align, run.0, run.1, lo, hi);
  }

  lemma Reinsert(t: Tiles, gone: set<u64>, k: u64, r: Region)
    requires gone == {k} && k in t && t[k] == r
    ensures (t - gone)[k := r] == t
  {
  }

  /** A live block is part of the byte total. */
  lemma OneBlockBytes(cap: u64, m: Tiles, index: map<u64, u64>, slots: set<Slot>, bytes: int, count: nat, id: u64)
    requires Represents(cap, m, index, slots, bytes, count) && id in index
    ensures var a := ArenaState(cap, LiveView(m, index), 0);
            && Invariant(a) && count > 0
            && bytes == LiveCount(cap, Without(a.live, id)) + m[index[id]].size
  {
    var a := ArenaState(cap, LiveView(m, index), 0);
    LiveViewInvariant(m, index, a);
    var b := a.(live := Without(a.live, id));
    assert LiveBlock(a, id);
    assert a.live == b.live[id := a.live[id]];
    LiveBytesAdd(b, a, id, a.live[id]);
    assert id in index.Keys && |index.Keys| > 0;
  }

  lemma OneMoreDone(keys: set<u64>, todo: set<u64>, s: u64)
    requires s in todo && todo <= keys
    ensures keys - todo + {s} == keys - (todo - {s}) && s !in keys - todo
  {
  }

  lemma CoalesceRepresents(cap: u64, m: Tiles, index: map<u64, u64>, slots: set<Slot>, bytes: int, count: nat,
                           id: u64, f: Region)
    requires Represents(cap, m, index, slots, bytes, count) && id in index && CoalescedRegion(m, index[id], f)
    ensures var r, index' := Coalesce(m, index[id], f), Without(index, id);
            && Represents(cap, r, index', SlotsOf(r), bytes - m[index[id]].size, count - 1)
            && LiveView(r, index') == Without(LiveView(m, index), id)
            && f.offset in r && r[f.offset] == f && f.offset + f.size <= cap && f.size > 0
  {
    var off := index[id];
    hide Canonical, Coalesce, CoalescedRegion, Indexed, LiveView, LiveCount, SlotsOf, Without, Invariant;
    CoalesceCanonical(m, cap, off, f);
    CoalesceBounds(m, cap, off, f);
    CoalesceReindexed(cap, m, index, id, f);
    OneBlockBytes(cap, m, index, slots, bytes, count, id);
    IndexShrinks(index, id);
    CoalescePointwise(m, cap, off, f, f.offset);
  }

  lemma IndexShrinks(index: map<u64, u64>, id: u64)
    requires id in index
    ensures |Without(index, id)| == |index| - 1
  {
    assert Without(index, id).Keys == index.Keys - {id};
  }

  lemma CoalesceReindexed(cap: u64, m: Tiles, index: map<u64, u64>, id: u64, f: Region)
    requires Canonical(m, cap) && Indexed(m, index) && id in index && CoalescedRegion(m, index[id], f)
    ensures var r, index' := Coalesce(m, index[id], f), Without(index, id);
            Indexed(r, index') && LiveView(r, index') == Without(LiveView(m, index), id)
  {
    var off := index[id];
    var r := Coalesce(m, off, f);
    forall x: u64 {
      CoalesceLive(m, cap, off, f, x);
    }
    hide Canonical, Coalesce, CoalescedRegion;
    ReindexRemove(m, index, r, off);
  }

  lemma ReleasedRun(cap: u64, m: Tiles, index: map<u64, u64>, id: u64, f: Region, next: u64)
    requires Canonical(m, cap) && Indexed(m, index) && id in index && CoalescedRegion(m, index[id], f)
    ensures FreeRun(ArenaState(cap, Without(LiveView(m, index), id), next), f.offset, f.offset + f.size)
  {
    var off := index[id];
    var r := Coalesce(m, off, f);
    CoalesceCanonical(m, cap, off, f);
    CoalesceBounds(m, cap, off, f);
    CoalesceReindexed(cap, m, index, id, f);
    CoalescePointwise(m, cap, off, f, f.offset);
    var a := ArenaState(cap, LiveView(r, Without(index, id)), next);
    FreeRegionsAreRuns(r, Without(index, id), a, f.offset, f.offset + f.size);
  }

  lemma RewriteRepresents(cap: u64, m: Tiles, index: map<u64, u64>, slots: set<Slot>, bytes: int, count: nat,
                          id: u64, q: Region)
    requires Represents(cap, m, index, slots, bytes, count) && id in index && SameShape(m[index[id]], q)
    ensures var m' := m[index[id] := q];
            Represents(cap, m', index, slots, bytes, count) && LiveView(m', index) == LiveView(m, index)[id := q]
  {
    RewriteKeeps(m, cap, index, id, q);
    var a, b := ArenaState(cap, LiveView(m, index), 0), ArenaState(cap, LiveView(m, index)[id := q], 0);
    forall j ensures ByteFree(a, j) <==> ByteFree(b, j) {
      assert a.live.Keys == b.live.Keys;
      assert forall i | i in a.live :: Apart(a.live[i], j, j + 1) == Apart(b.live[i], j, j + 1);
    }
    assert LiveBytes(a) == LiveBytes(b);
  }

  lemma PlaceRepresents(cap: u64, m: Tiles, index: map<u64, u64>, slots: set<Slot>, bytes: int, count: nat,
                        k: u64, front: Region, mid: Region, tail: Region)
    requires Represents(cap, m, index, slots, bytes, count)
    requires Splits(m, k, front, mid, tail) && mid.allocId !in index
    ensures var r, index' := Place(m, k, front, mid, tail), index[mid.allocId := mid.offset];
            && Represents(cap, r, index', SlotsOf(r), bytes + mid.size, count + 1)
            && LiveView(r, index') == LiveView(m, index)[mid.allocId := mid]
            && SlotsOf(r) == SplitIndex(slots, Slot(m[k].size, k), front, tail)
    ensures bytes + mid.size <= cap
  {
    var r, index' := Place(m, k, front, mid, tail), index[mid.allocId := mid.offset];
    PlaceCanonical(m, cap, k, front, mid, tail);
    PlaceIsLiveChange(m, cap, k, front, mid, tail);
    ReindexAdd(m, index, r, mid);
    PlaceSlots(m, cap, k, front, mid, tail);
    var a, b := ArenaState(cap, LiveView(m, index), 0), ArenaState(cap, LiveView(r, index'), 0);
    SplitSpanFree(m, index, a, k, mid);
    LiveBytesAdd(a, b, mid.allocId, mid);
    BytesSplit(b);
    assert |index'| == |index| + 1;
  }

  ghost predicate Moves(m: Tiles, index: map<u64, u64>, id: u64, k: u64, front: Region, mid: Region, tail: Region) {
    id in index && index[id] in m && mid.allocId == id && Splits(m, k, front, mid, tail)
  }

  /** Once the block is dropped and the target carved out, the map is the placed
      tiling without the two places of the block. */
  lemma TargetPlaced(cap: u64, m: Tiles, slots: set<Slot>, from: u64, k: u64,
                     front: Region, mid: Region, tail: Region)
    requires Canonical(m, cap) && slots == SlotsOf(m) && LiveAt(m, from) && Splits(m, k, front, mid, tail)
    ensures var g := Place(m, k, front, mid, tail);
            && Holes(g, {from, mid.offset}, CarvedPart(m - {from}, (m - {from}).Keys, k, front, tail))
            && SlotsOf(g) == SplitIndex(slots, Slot(m[k].size, k), front, tail)
            && Canonical(g, cap) && LiveAt(g, from) && g[from] == m[from]
  {
    PlaceCanonical(m, cap, k, front, mid, tail);
    PlaceSlots(m, cap, k, front, mid, tail);
    PlaceLive(m, cap, k, front, mid, tail, from);
    PlaceLive(m, cap, k, front, mid, tail, mid.offset);
    assert End(m, k) > k;
    CarveIsPlace(m, from, k, front, mid, tail);
  }

  /** The tiling after a block moved: placed at its target, its old span returned. */
  ghost function MoveResult(cap: u64, m: Tiles, from: u64, k: u64, front: Region, mid: Region, tail: Region, next: u64)
      : Tiles
    requires Canonical(m, cap) && LiveAt(m, from) && Splits(m, k, front, mid, tail)
  {
    var g := Place(m, k, front, mid, tail);
    PlaceCanonical(m, cap, k, front, mid, tail);
    PlaceLive(m, cap, k, front, mid, tail, from);
    Coalesce(g, from, Returned(g, cap, from, next))
  }

  /** `m'` and its indexes stand for the same blocks, except that `id` is now at `mid`. */
  ghost predicate Replaced(cap: u64, m: Tiles, index: map<u64, u64>, bytes: int, count: nat, id: u64, mid: Region,
                           m': Tiles, index': map<u64, u64>, slots': set<Slot>)
    requires Indexed(m, index) && id in index
  {
    var size := m[index[id]].size;
    && 0 <= size <= bytes && bytes - size + mid.size <= cap
    && Represents(cap, m', index', slots', bytes - size + mid.size, count)
    && Indexed(m', index') && LiveView(m', index') == LiveView(m, index)[id := mid]
  }

  lemma ReplacedFacts(cap: u64, m: Tiles, index: map<u64, u64>, bytes: int, count: nat, id: u64, mid: Region,
                      m': Tiles, index': map<u64, u64>, slots': set<Slot>)
    requires Indexed(m, index) && id in index && Replaced(cap, m, index, bytes, count, id, mid, m', index', slots')
    ensures var size := m[index[id]].size;
            && 0 <= size <= bytes && bytes - size + mid.size <= cap
            && Represents(cap, m', index', slots', bytes - size + mid.size, count)
            && Indexed(m', index') && LiveView(m', index') == LiveView(m, index)[id := mid]
  {
  }

  lemma MoveRepresents(cap: u64, m: Tiles, index: map<u64, u64>, slots: set<Slot>, bytes: int, count: nat,
                       id: u64, k: u64, front: Region, mid: Region, tail: Region, next: u64)
    requires Represents(cap, m, index, slots, bytes, count) && Moves(m, index, id, k, front, mid, tail)
    ensures var r := MoveResult(cap, m, index[id], k, front, mid, tail, next);
            var index' := index[id := mid.offset];
            Replaced(cap, m, index, bytes, count, id, mid, r, index', SlotsOf(r))
  {
    var from := index[id];
    var r := MoveResult(cap, m, from, k, front, mid, tail, next);
    MoveLiveChange(cap, m, from, k, front, mid, tail, next);
    ReindexMove(m, index, r, from, mid);
    OneBlockBytes(cap, m, index, slots, bytes, count, id);
    MoveBytes(cap, m, index, id, k, mid);
    assert index[id := mid.offset].Keys == index.Keys;
  }

  lemma MoveBytes(cap: u64, m: Tiles, index: map<u64, u64>, id: u64, k: u64, mid: Region)
    requires Canonical(m, cap) && Indexed(m, index) && id in index
    requires k in m && !m[k].live && k <= mid.offset && mid.size > 0 && mid.offset + mid.size <= End(m, k)
    ensures LiveCount(cap, LiveView(m, index)[id := mid])
            == LiveCount(cap, Without(LiveView(m, index), id)) + mid.size <= cap
  {
    var a := ArenaState(cap, LiveView(m, index), 0);
    SplitSpanFree(m, index, a, k, mid);
    var c, b := a.(live := Without(a.live, id)), a.(live := a.live[id := mid]);
    assert b.live == c.live[id := mid];
    LiveBytesAdd(c, b, id, mid);
    BytesSplit(b);
  }

  lemma MoveLiveChange(cap: u64, m: Tiles, from: u64, k: u64, front: Region, mid: Region, tail: Region, next: u64)
    requires Canonical(m, cap) && Splits(m, k, front, mid, tail) && LiveAt(m, from)
    ensures var r := MoveResult(cap, m, from, k, front, mid, tail, next);
            Canonical(r, cap) && LiveChange(m, r, {from}, mid)
  {
    var g := Place(m, k, front, mid, tail);
    PlaceCanonical(m, cap, k, front, mid, tail);
    PlaceLive(m, cap, k, front, mid, tail, from);
    var f := Returned(g, cap, from, next);
    var r := Coalesce(g, from, f);
    CoalesceCanonical(g, cap, from, f);
    forall x: u64
      ensures LiveAt(r, x) <==> (x == mid.offset || LiveAt(m, x)) && x != from
      ensures LiveAt(m, x) ==> x != mid.offset && LiveAt(g, x) && g[x] == m[x]
      ensures LiveAt(r, x) ==> r[x] == g[x]
    {
      PlaceLive(m, cap, k, front, mid, tail, x);
      CoalesceLive(g, cap, from, f, x);
    }
    PlacePointwise(m, cap, k, front, mid, tail, mid.offset);
  }

  lemma MoveFacts(m: Tiles, cap: u64, from: u64, k: u64, front: Region, mid: Region, tail: Region, next: u64)
    requires Canonical(m, cap) && Splits(m, k, front, mid, tail) && LiveAt(m, from)
    ensures var g := Place(m, k, front, mid, tail);
            && Canonical(g, cap) && LiveAt(g, from) && g[from] == m[from]
            && MoveResult(cap, m, from, k, front, mid, tail, next) == Coalesce(g, from, Returned(g, cap, from, next))
            && from in m && m[from].size > 0 && from + m[from].size <= cap
            && mid.size > 0 && k in m && !m[k].live && k <= mid.offset && mid.offset + mid.size <= End(m, k)
  {
    PlaceCanonical(m, cap, k, front, mid, tail);
    PlaceLive(m, cap, k, front, mid, tail, from);
    assert End(m, from) > from;
  }

  lemma CarvePreconditions(m: Tiles, cap: u64, from: u64, k: u64, lo: u64, hi: u64)
    requires Canonical(m, cap) && LiveAt(m, from) && k in m && !m[k].live && k <= lo < hi <= End(m, k)
    ensures k in m - {from} && (m - {from})[k] == m[k] && End(m - {from}, k) == End(m, k) <= cap && m[k].offset == k
    ensures forall s | s in m - {from} && s != k :: s < k || End(m, k) <= s
    ensures forall s | s in m - {from} && s != k && !m[s].live :: s + m[s].size <= lo || hi <= s
  {
    assert End(m, k) <= cap;
    forall s | s in m - {from} && s != k
      ensures s < k || End(m, k) <= s
      ensures s + m[s].size <= lo || hi <= s
    {
      assert s < k ==> End(m, s) <= k;
      assert k < s ==> End(m, k) <= s;
    }
  }

  lemma MovedStays(cap: u64, m: Tiles, from: u64, k: u64, front: Region, mid: Region, tail: Region, next: u64)
    requires Canonical(m, cap) && Splits(m, k, front, mid, tail) && LiveAt(m, from)
    ensures var r := MoveResult(cap, m, from, k, front, mid, tail, next);
            mid.offset in r && r[mid.offset] == mid && mid.offset != from
  {
    MoveLiveChange(cap, m, from, k, front, mid, tail, next);
  }

  lemma PiecesSplit(m: Tiles, req: AllocRequest, need: u64, at: u64, slot: Slot, next: u64)
    requires need > 0 && IsPow2(req.alignment) && Aligned(at, req.alignment)
    requires slot.offset in m && !m[slot.offset].live && m[slot.offset].size == slot.size
    requires slot.offset <= at && at + need <= slot.offset + slot.size < TWO64
    ensures var (f, mid, t) := PiecesOf(req, need, at, slot, m[slot.offset].tag.provenance, next);
            && Splits(m, slot.offset, f, mid, t)
            && mid.allocId == req.allocId && mid.offset == at && mid.size == need
            && t.offset == at + need
  {
  }

  lemma SplitSpanFree(m: Tiles, index: map<u64, u64>, a: ArenaState, k: u64, mid: Region)
    requires Canonical(m, a.capacity) && Indexed(m, index) && a.live == LiveView(m, index)
    requires k in m && !m[k].live && k <= mid.offset && mid.size > 0 && mid.offset + mid.size <= End(m, k)
    ensures SpanFree(a, mid.offset, mid.offset + mid.size)
  {
    FreeRegionsAreRuns(m, index, a, k, End(m, k));
    forall id | id in a.live ensures Apart(a.live[id], mid.offset, mid.offset + mid.size) {
      assert Apart(a.live[id], k, End(m, k));
    }
  }

  /** The free index after `slot` is replaced by the non-empty ones of two pieces. */
  function SplitIndex(slots: set<Slot>, slot: Slot, front: Region, tail: Region): set<Slot> {
    slots - {slot} + Optional(Slot(front.size, front.offset)) + Optional(Slot(tail.size, tail.offset))
  }

  /** The three pieces a slot is split into, with the region ids they take. */
  function PiecesOf(req: AllocRequest, need: u64, at: u64, slot: Slot, provenance: u8, next: u64)
      : (Region, Region, Region)
    requires slot.offset <= at && at + need <= slot.offset + slot.size < TWO64
  {
    var front, tail := at - slot.offset, slot.offset + slot.size - at - need;
    var id := if front > 0 then Add64(next, 1) else next;
    (FreeRegion(slot.offset, front, next, provenance), LiveRegion(req, at, need, id),
     FreeRegion(at + need, tail, Add64(id, 1), provenance))
  }

  predicate SlotHolds(s: Slot, need: u64, align: u64) {
    Fits(s.offset, s.offset + s.size, need, align)
  }

  /** The least slot, in index order, that can hold the request. */
  ghost predicate IsFirstFit(slots: set<Slot>, s: Slot, need: u64, align: u64) {
    s in slots && SlotHolds(s, need, align) && forall t | t in slots && SlotHolds(t, need, align) :: !SlotBefore(t, s)
  }

  /** Walk the size-ordered index from the first slot that is large enough. */
  method FirstFit(slots: set<Slot>, need: u64, align: u64, capacity: u64) returns (found: bool, slot: Slot)
    requires IsPow2(align) && need > 0
    requires forall s | s in slots :: s.offset + s.size <= capacity
    ensures found ==> IsFirstFit(slots, slot, need, align)
    ensures !found ==> forall s | s in slots :: !SlotHolds(s, need, align)
  {
    found, slot := false, Slot(0, 0);
    var rest := set s | s in slots && !SlotBefore(s, Slot(need, 0));
    forall s | s in slots && s !in rest ensures !SlotHolds(s, need, align) {
    }
    while rest != {}
      invariant rest <= slots
      invariant forall s | s in slots && s !in rest :: !SlotHolds(s, need, align)
      decreases |rest|
    {
      slot := FirstSlot(rest);
      var fits := FitsAfterPadding(slot, need, align, capacity);
      if fits {
        found := true;
        return;
      }
      rest := rest - {slot};
    }
  }

  /** The wrapped padding of an unrepresentable aligned offset never passes the size test. */
  method FitsAfterPadding(slot: Slot, need: u64, align: u64, capacity: u64) returns (fits: bool)
    requires IsPow2(align) && slot.offset + slot.size <= capacity && need > 0
    ensures fits <==> SlotHolds(slot, need, align)
  {
    var front := Sub64(AlignUp(slot.offset, align), slot.offset);
    AlignUpMeaning(slot.offset, align);
    fits := !(front > slot.size || need > slot.size - front);
  }
}
