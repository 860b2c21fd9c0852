/** The planner run on an allocator object. */
module PlanSearch {
  import opened Types
  import opened ArenaSpec
  import opened RegionAllocation
  import opened Compaction
  import Planner

  lemma ListsMeaning(a: ArenaState, live: seq<Region>, free: seq<Region>)
    requires forall i, j | 0 <= i < j < |live| :: live[i].offset < live[j].offset
    requires forall i, j | 0 <= i < j < |free| :: free[i].offset < free[j].offset
    requires forall r :: r in live <==> r in a.live.Values
    requires a.capacity > 0 ==> forall r: Region | r in free :: FreeRun(a, r.offset, r.offset + r.size)
    requires forall lo: int, hi: int | FreeRun(a, lo, hi) ::
               exists r :: r in free && r.offset == lo && r.offset + r.size == hi
    ensures Planner.LiveList(a, live) && Planner.FreeList(a, free)
  {
    hide FreeRun;
    forall lo: int, hi: int | FreeRun(a, lo, hi) ensures Planner.Includes(free, lo, hi) {
      var r :| r in free && r.offset == lo && r.offset + r.size == hi;
    }
  }

  /** The live blocks and the free runs of the arena. */
  method Lists(arena: RegionAllocator) returns (live: seq<Region>, free: seq<Region>)
    requires arena.Valid()
    ensures Planner.LiveList(arena.Model(), live) && Planner.FreeList(arena.Model(), free)
  {
    hide FreeRun, Planner.LiveList, Planner.FreeList;
    live := arena.Snapshot(true);
    free := arena.Snapshot(false);
    ListsMeaning(arena.Model(), live, free);
  }

  method PlanFor(arena: RegionAllocator) returns (plan: CompactionPlan)
    requires arena.Valid() && Invariant(arena.Model())
    modifies arena`freeCount, arena`largestFree, arena`summaryDirty
    ensures arena.Valid() && arena.Model() == old(arena.Model())
    ensures IsPlan(arena.Model(), plan)
  {
    hide FreeRun, Planner.LiveList, Planner.FreeList, IsLargestFree, IsPlan, Invariant;
    var before := arena.LargestFreeRegion();
    LargestFits(arena.Model(), before);
    var live, free := Lists(arena);
    plan := Planner.ChoosePlan(live, free, before, arena.Model());
  }
}
