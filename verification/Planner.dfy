/** The planner's nested search over live blocks and free regions. */
module Planner {
  import opened Machine
  import opened Types
  import opened ArenaSpec
  import opened Compaction
  import opened Doubles

  predicate Ordered(v: seq<Region>) {
    forall i, j | 0 <= i < j < |v| :: v[i].offset < v[j].offset
  }

  /** The live blocks, by ascending offset. */
  ghost predicate LiveList(a: ArenaState, live: seq<Region>) {
    Ordered(live) && forall r :: r in live <==> r in a.live.Values
  }

  /** The free runs, by ascending offset. */
  ghost predicate FreeList(a: ArenaState, free: seq<Region>) {
    && Ordered(free)
    && (a.capacity > 0 ==> forall r: Region | r in free :: FreeRun(a, r.offset, r.offset + r.size))
    && (forall lo: int, hi: int {:trigger Includes(free, lo, hi)} | FreeRun(a, lo, hi) :: Includes(free, lo, hi))
  }

  ghost predicate Includes(free: seq<Region>, lo: int, hi: int) {
    exists r :: r in free && r.offset == lo && r.offset + r.size == hi
  }

  predicate Pair(m: Region, f: Region) {
    Eligible(m) && TargetFits(m, f.offset, f.offset + f.size)
  }

  ghost function PairPrediction(a: ArenaState, before: nat, m: Region, f: Region): nat {
    Predicted(before, RunEndingAt(a, m.offset), RunStartingAt(a, m.offset + m.size), m, f.offset, f.offset + f.size)
  }

  predicate LexLess(i: int, j: int, x: int, y: int) {
    i < x || (i == x && j < y)
  }

  /** `plan` is the best over all pairs visited before (x, y). */
  ghost predicate Best(a: ArenaState, live: seq<Region>, free: seq<Region>, before: u64, x: int, y: int,
                       plan: CompactionPlan, gain: int, bestX: int, bestY: int)
  {
    && plan.largestFreeBefore == before && |plan.steps| <= 1
    && gain == (if plan.steps == [] then -1 else Gain(plan.largestFreeAfter, before))
    && (plan.steps == [] ==> plan.bytesMoved == 0 && plan.largestFreeAfter == before)
    && (plan.steps != [] ==>
          && 0 <= bestX < |live| && 0 <= bestY < |free| && LexLess(bestX, bestY, x, y)
          && IsBestPair(a, live, free, plan, bestX, bestY))
    && forall i, j {:trigger live[i], free[j]} |
         0 <= i < |live| && 0 <= j < |free| && LexLess(i, j, x, y) && Pair(live[i], free[j]) ::
         plan.steps != [] && NotBetter(a, live, free, plan, i, j, bestX, bestY)
  }

  ghost predicate IsBestPair(a: ArenaState, live: seq<Region>, free: seq<Region>, plan: CompactionPlan,
                             bestX: int, bestY: int)
    requires 0 <= bestX < |live| && 0 <= bestY < |free| && |plan.steps| == 1
  {
    && Pair(live[bestX], free[bestY])
    && plan.steps[0] == StepFor(live[bestX], free[bestY].offset)
    && plan.bytesMoved == live[bestX].size
    && plan.largestFreeAfter == PairPrediction(a, plan.largestFreeBefore, live[bestX], free[bestY])
  }

  ghost predicate NotBetter(a: ArenaState, live: seq<Region>, free: seq<Region>, plan: CompactionPlan,
                            i: int, j: int, bestX: int, bestY: int)
    requires 0 <= i < |live| && 0 <= j < |free|
  {
    var p := PairPrediction(a, plan.largestFreeBefore, live[i], free[j]);
    Beaten(p, plan.largestFreeBefore, plan.largestFreeAfter, !LexLess(i, j, bestX, bestY))
  }

  /** `n` is the size of the listed region that ends (starts) at `x`, or 0 if there is none. */
  predicate SizeEndingAt(free: seq<Region>, upTo: int, x: int, n: nat)
    requires 0 <= upTo <= |free|
  {
    if n == 0 then forall k | 0 <= k < upTo :: free[k].size > 0 ==> free[k].offset + free[k].size != x
    else exists k | 0 <= k < upTo :: free[k].offset + free[k].size == x && free[k].size == n
  }

  predicate SizeStartingAt(free: seq<Region>, upTo: int, x: int, n: nat)
    requires 0 <= upTo <= |free|
  {
    if n == 0 then forall k | 0 <= k < upTo :: free[k].size > 0 ==> free[k].offset != x
    else exists k | 0 <= k < upTo :: free[k].offset == x && free[k].size == n
  }

  /** The free sizes on either side of a block. */
  method Neighbours(free: seq<Region>, m: Region) returns (left: u64, right: u64)
    requires forall k | 0 <= k < |free| :: free[k].size > 0
    ensures SizeEndingAt(free, |free|, m.offset, left) && SizeStartingAt(free, |free|, m.offset + m.size, right)
  {
    left, right := 0, 0;
    for i := 0 to |free|
      invariant SizeEndingAt(free, i, m.offset, left) && SizeStartingAt(free, i, m.offset + m.size, right)
    {
      var f := free[i];
      if f.offset + f.size == m.offset {
        left := f.size;
      }
      if f.offset == m.offset + m.size {
        right := f.size;
      }
    }
  }

  lemma ListedIsRun(a: ArenaState, free: seq<Region>, k: int)
    requires a.capacity > 0 && FreeList(a, free) && 0 <= k < |free|
    ensures FreeRun(a, free[k].offset, free[k].offset + free[k].size)
  {
    assert free[k] in free;
  }

  lemma RunIsListed(a: ArenaState, free: seq<Region>, lo: int, hi: int) returns (k: int)
    requires FreeList(a, free) && FreeRun(a, lo, hi)
    ensures 0 <= k < |free| && free[k].offset == lo && free[k].offset + free[k].size == hi
  {
    assert Includes(free, lo, hi);
    var r :| r in free && r.offset == lo && r.offset + r.size == hi;
    k :| 0 <= k < |free| && free[k] == r;
  }

  lemma LeftIsRun(a: ArenaState, free: seq<Region>, x: int, n: nat)
    requires Invariant(a) && a.capacity > 0 && FreeList(a, free) && SizeEndingAt(free, |free|, x, n)
    ensures n == RunEndingAt(a, x)
  {
    var k := RunEndingAt(a, x);
    RunEnding(a, x);
    hide RunEndingAt, FreeRun, FreeList, Invariant;
    if n > 0 {
      var i :| 0 <= i < |free| && free[i].offset + free[i].size == x && free[i].size == n;
      ListedIsRun(a, free, i);
      FreeRunsDisjoint(a, x - n, x, x - k, x);
    } else if k > 0 {
      var i := RunIsListed(a, free, x - k, x);
    }
  }

  lemma RightIsRun(a: ArenaState, free: seq<Region>, x: int, n: nat)
    requires Invariant(a) && a.capacity > 0 && FreeList(a, free) && SizeStartingAt(free, |free|, x, n)
    ensures n == RunStartingAt(a, x)
  {
    var k := RunStartingAt(a, x);
    RunStarting(a, x);
    hide RunStartingAt, FreeRun, FreeList, Invariant;
    if n > 0 {
      var i :| 0 <= i < |free| && free[i].offset == x && free[i].size == n;
      ListedIsRun(a, free, i);
      FreeRunsDisjoint(a, x, x + n, x, x + k);
    } else if k > 0 {
      var i := RunIsListed(a, free, x, x + k);
    }
  }

  /** Predictions are arena sizes. */
  lemma PredictionBounded(a: ArenaState, before: nat, id: u64, f: Region, l: int, h: int)
    requires id in a.live && TargetFits(a.live[id], f.offset, f.offset + f.size) && Vacated(a, id, l, h)
    requires f.size <= before <= a.capacity && 0 <= l && h <= a.capacity
    ensures before <= PairPrediction(a, before, a.live[id], f) <= a.capacity
  {
    PredictionValue(a, before, id, f.offset, f.offset + f.size, l, h);
  }

  lemma BestSkips(a: ArenaState, live: seq<Region>, free: seq<Region>, before: u64, x: int, y: int,
                  plan: CompactionPlan, gain: int, bestX: int, bestY: int)
    requires Best(a, live, free, before, x, y, plan, gain, bestX, bestY) && 0 <= x < |live| && 0 <= y < |free|
    requires Pair(live[x], free[y]) ==> 0 <= Gain(PairPrediction(a, before, live[x], free[y]), before) <= gain
    ensures Best(a, live, free, before, x, y + 1, plan, gain, bestX, bestY)
  {
    hide Pair, PairPrediction, Gain, IsBestPair;
    forall i, j | 0 <= i < |live| && 0 <= j < |free| && LexLess(i, j, x, y + 1) && Pair(live[i], free[j])
      ensures plan.steps != [] && NotBetter(a, live, free, plan, i, j, bestX, bestY)
    {
      assert LexLess(i, j, x, y) || (i == x && j == y);
    }
  }

  lemma BestTakes(a: ArenaState, live: seq<Region>, free: seq<Region>, before: u64, x: int, y: int,
                  plan: CompactionPlan, gain: int, bestX: int, bestY: int, next: CompactionPlan)
    requires Best(a, live, free, before, x, y, plan, gain, bestX, bestY) && 0 <= x < |live| && 0 <= y < |free|
    requires |next.steps| == 1 && next.largestFreeBefore == before && IsBestPair(a, live, free, next, x, y)
    requires Gain(next.largestFreeAfter, before) > gain
    ensures Best(a, live, free, before, x, y + 1, next, Gain(next.largestFreeAfter, before), x, y)
  {
    hide Pair, PairPrediction, Gain, IsBestPair;
    forall i, j | 0 <= i < |live| && 0 <= j < |free| && LexLess(i, j, x, y + 1) && Pair(live[i], free[j])
      ensures NotBetter(a, live, free, next, i, j, x, y)
    {
      if LexLess(i, j, x, y) {
        assert NotBetter(a, live, free, plan, i, j, bestX, bestY);
      } else {
        SamePair(a, live, free, next, x, y);
      }
    }
  }

  lemma SamePair(a: ArenaState, live: seq<Region>, free: seq<Region>, plan: CompactionPlan, x: int, y: int)
    requires 0 <= x < |live| && 0 <= y < |free| && |plan.steps| == 1 && IsBestPair(a, live, free, plan, x, y)
    ensures NotBetter(a, live, free, plan, x, y, x, y)
  {
    hide PairPrediction, Gain;
  }

  lemma BestRow(a: ArenaState, live: seq<Region>, free: seq<Region>, before: u64, x: int, y: int,
                plan: CompactionPlan, gain: int, bestX: int, bestY: int)
    requires Best(a, live, free, before, x, y, plan, gain, bestX, bestY) && 0 <= x < |live| && 0 <= y <= |free|
    requires y == |free| || !Eligible(live[x])
    ensures Best(a, live, free, before, x + 1, 0, plan, gain, bestX, bestY)
  {
    forall i, j | 0 <= i < |live| && 0 <= j < |free| && LexLess(i, j, x + 1, 0) && Pair(live[i], free[j])
      ensures plan.steps != [] && NotBetter(a, live, free, plan, i, j, bestX, bestY)
    {
      assert LexLess(i, j, x, y);
    }
  }

  /** What the search needs to know about the block in row `x`. */
  lemma RowFacts(a: ArenaState, live: seq<Region>, free: seq<Region>, before: u64, x: int) returns (l: int, h: int)
    requires Invariant(a) && LiveList(a, live) && FreeList(a, free) && IsLargestFree(a, before) && 0 <= x < |live|
    ensures live[x].allocId in a.live && a.live[live[x].allocId] == live[x] && a.capacity > 0
    ensures Vacated(a, live[x].allocId, l, h) && 0 <= l && h <= a.capacity
    ensures forall k | 0 <= k < |free| :: 0 < free[k].size <= before
  {
    LiveMember(a, live, x);
    l, h := VacatedSpan(a, live[x].allocId);
    VacatedEdges(a, live[x].allocId, l, h);
    forall k | 0 <= k < |free| ensures 0 < free[k].size <= before {
      assert free[k] in free && FreeRun(a, free[k].offset, free[k].offset + free[k].size);
    }
  }

  lemma LiveMember(a: ArenaState, live: seq<Region>, x: int)
    requires Invariant(a) && LiveList(a, live) && 0 <= x < |live|
    ensures live[x].allocId in a.live && a.live[live[x].allocId] == live[x] && a.capacity > 0
  {
    assert live[x] in live;
    var id :| id in a.live && a.live[id] == live[x];
    assert LiveBlock(a, id);
  }

  method ChoosePlan(live: seq<Region>, free: seq<Region>, before: u64, ghost a: ArenaState)
      returns (plan: CompactionPlan)
    requires Invariant(a) && LiveList(a, live) && FreeList(a, free) && IsLargestFree(a, before) && before <= a.capacity
    ensures IsPlan(a, plan)
  {
    plan := CompactionPlan([], 0, before, before);
    var bestGain := -1;
    ghost var bestX, bestY := 0, 0;
    for x := 0 to |live|
      invariant Best(a, live, free, before, x, 0, plan, bestGain, bestX, bestY)
    {
      var m := live[x];
      if Eligible(m) {
        plan, bestGain, bestX, bestY := SearchTargets(live, free, before, a, x, plan, bestGain, bestX, bestY);
        BestRow(a, live, free, before, x, |free|, plan, bestGain, bestX, bestY);
      } else {
        BestRow(a, live, free, before, x, 0, plan, bestGain, bestX, bestY);
      }
    }
    BestIsPlan(a, live, free, before, plan, bestGain, bestX, bestY);
  }

  lemma PairIsPrediction(a: ArenaState, before: nat, id: u64, f: Region)
    requires id in a.live
    ensures PairPrediction(a, before, a.live[id], f) == Prediction(a, before, id, f.offset, f.offset + f.size)
  {
    hide Predicted, FreeRun;
  }

  /** With these neighbour sizes, the code's arithmetic gives the predictions for `m`. */
  ghost predicate RowReady(a: ArenaState, free: seq<Region>, before: u64, m: Region, left: u64, right: u64) {
    forall k | 0 <= k < |free| && TargetFits(m, free[k].offset, free[k].offset + free[k].size) ::
      TargetReady(a, before, m, free[k], left, right)
  }

  ghost predicate TargetReady(a: ArenaState, before: u64, m: Region, f: Region, left: u64, right: u64) {
    && PairPrediction(a, before, m, f) == Predicted(before, left, right, m, f.offset, f.offset + f.size)
    && before <= PairPrediction(a, before, m, f) <= a.capacity
  }

  lemma TargetIsReady(a: ArenaState, f: Region, before: u64, m: Region, left: u64, right: u64, l: int, h: int)
    requires m.allocId in a.live && a.live[m.allocId] == m && Vacated(a, m.allocId, l, h) && 0 <= l && h <= a.capacity
    requires left == RunEndingAt(a, m.offset) && right == RunStartingAt(a, m.offset + m.size) && before <= a.capacity
    requires 0 < f.size <= before && TargetFits(m, f.offset, f.offset + f.size)
    ensures TargetReady(a, before, m, f, left, right)
  {
    hide Predicted, FreeRun, Vacated, RunEndingAt, RunStartingAt, TargetFits;
    PredictionBounded(a, before, m.allocId, f, l, h);
  }

  lemma RowIsReady(a: ArenaState, free: seq<Region>, before: u64, m: Region, left: u64, right: u64, l: int, h: int)
    requires m.allocId in a.live && a.live[m.allocId] == m && Vacated(a, m.allocId, l, h) && 0 <= l && h <= a.capacity
    requires left == RunEndingAt(a, m.offset) && right == RunStartingAt(a, m.offset + m.size) && before <= a.capacity
    requires forall k | 0 <= k < |free| :: 0 < free[k].size <= before
    ensures RowReady(a, free, before, m, left, right)
  {
    hide TargetReady, FreeRun, Vacated, RunEndingAt, RunStartingAt, TargetFits;
    forall k | 0 <= k < |free| && TargetFits(m, free[k].offset, free[k].offset + free[k].size)
      ensures TargetReady(a, before, m, free[k], left, right)
    {
      TargetIsReady(a, free[k], before, m, left, right, l, h);
    }
  }

  lemma RowSizesReady(a: ArenaState, live: seq<Region>, free: seq<Region>, before: u64, x: int, left: u64, right: u64)
    requires Invariant(a) && LiveList(a, live) && FreeList(a, free) && IsLargestFree(a, before) && before <= a.capacity
    requires 0 <= x < |live|
    requires SizeEndingAt(free, |free|, live[x].offset, left)
    requires SizeStartingAt(free, |free|, live[x].offset + live[x].size, right)
    ensures RowReady(a, free, before, live[x], left, right)
  {
    hide *;
    var l, h := RowFacts(a, live, free, before, x);
    LeftIsRun(a, free, live[x].offset, left);
    RightIsRun(a, free, live[x].offset + live[x].size, right);
    RowIsReady(a, free, before, live[x], left, right, l, h);
  }

  lemma ListedSizes(a: ArenaState, live: seq<Region>, free: seq<Region>, x: int)
    requires Invariant(a) && LiveList(a, live) && FreeList(a, free) && 0 <= x < |live|
    ensures forall k | 0 <= k < |free| :: free[k].size > 0
  {
    LiveMember(a, live, x);
    forall k | 0 <= k < |free| ensures free[k].size > 0 {
      ListedIsRun(a, free, k);
    }
  }

  /** The free sizes around the block in row `x`. */
  method RowSizes(live: seq<Region>, free: seq<Region>, before: u64, ghost a: ArenaState, x: nat)
      returns (left: u64, right: u64)
    requires Invariant(a) && LiveList(a, live) && FreeList(a, free) && IsLargestFree(a, before) && before <= a.capacity
    requires x < |live|
    ensures RowReady(a, free, before, live[x], left, right)
  {
    hide *;
    ListedSizes(a, live, free, x);
    left, right := Neighbours(free, live[x]);
    RowSizesReady(a, live, free, before, x, left, right);
  }

  /** One target for one block. */
  method TryTarget(live: seq<Region>, free: seq<Region>, before: u64, ghost a: ArenaState, x: nat, y: nat,
                   left: u64, right: u64, plan0: CompactionPlan, gain0: int, ghost bestX0: int, ghost bestY0: int)
      returns (plan: CompactionPlan, bestGain: int, ghost bestX: int, ghost bestY: int)
    requires x < |live| && y < |free| && Eligible(live[x]) && RowReady(a, free, before, live[x], left, right)
    requires Best(a, live, free, before, x, y, plan0, gain0, bestX0, bestY0)
    ensures Best(a, live, free, before, x, y + 1, plan, bestGain, bestX, bestY)
  {
    hide Best, Predicted, PairPrediction, TargetFits, Eligible, Gain;
    var m, f := live[x], free[y];
    plan, bestGain, bestX, bestY := plan0, gain0, bestX0, bestY0;
    var fits := TargetFits(m, f.offset, f.offset + f.size);
    var after := if fits then Predicted(before, left, right, m, f.offset, f.offset + f.size) else before;
    assert fits ==> TargetReady(a, before, m, f, left, right);
    GainMonotone(after, after, before);
    if fits && Gain(after, before) > gain0 {
      plan := CompactionPlan([StepFor(m, f.offset)], m.size, before, after);
      bestGain, bestX, bestY := Gain(after, before), x, y;
      BestTakes(a, live, free, before, x, y, plan0, gain0, bestX0, bestY0, plan);
    } else {
      BestSkips(a, live, free, before, x, y, plan0, gain0, bestX0, bestY0);
    }
  }

  /** The inner loop: all targets for one block. */
  method SearchTargets(live: seq<Region>, free: seq<Region>, before: u64, ghost a: ArenaState, x: nat,
                       plan0: CompactionPlan, gain0: int, ghost bestX0: int, ghost bestY0: int)
      returns (plan: CompactionPlan, bestGain: int, ghost bestX: int, ghost bestY: int)
    requires Invariant(a) && LiveList(a, live) && FreeList(a, free) && IsLargestFree(a, before) && before <= a.capacity
    requires x < |live| && Eligible(live[x]) && Best(a, live, free, before, x, 0, plan0, gain0, bestX0, bestY0)
    ensures Best(a, live, free, before, x, |free|, plan, bestGain, bestX, bestY)
  {
    hide *;
    plan, bestGain, bestX, bestY := plan0, gain0, bestX0, bestY0;
    var left, right := RowSizes(live, free, before, a, x);
    for y := 0 to |free|
      invariant Best(a, live, free, before, x, y, plan, bestGain, bestX, bestY)
    {
      plan, bestGain, bestX, bestY := TryTarget(live, free, before, a, x, y, left, right, plan, bestGain, bestX, bestY);
    }
  }

  lemma BestIsPlan(a: ArenaState, live: seq<Region>, free: seq<Region>, before: u64,
                   plan: CompactionPlan, gain: int, bestX: int, bestY: int)
    requires Invariant(a) && LiveList(a, live) && FreeList(a, free) && IsLargestFree(a, before)
    requires Best(a, live, free, before, |live|, 0, plan, gain, bestX, bestY)
    ensures IsPlan(a, plan)
  {
    if plan.steps == [] {
      forall id: u64, lo: u64, hi: int ensures !Candidate(a, id, lo, hi) {
        if Candidate(a, id, lo, hi) {
          var i, j := PairOf(a, live, free, id, lo, hi);
        }
      }
    } else {
      BestIsChosen(a, live, free, before, plan, gain, bestX, bestY);
    }
  }

  lemma BestIsCandidate(a: ArenaState, live: seq<Region>, free: seq<Region>, before: u64,
                        plan: CompactionPlan, gain: int, bestX: int, bestY: int)
    requires Invariant(a) && LiveList(a, live) && FreeList(a, free) && plan.steps != []
    requires Best(a, live, free, before, |live|, 0, plan, gain, bestX, bestY)
    ensures 0 <= bestX < |live| && 0 <= bestY < |free| && |plan.steps| == 1 && plan.largestFreeBefore == before
    ensures IsBestPair(a, live, free, plan, bestX, bestY)
    ensures live[bestX].allocId in a.live && a.live[live[bestX].allocId] == live[bestX]
    ensures Candidate(a, live[bestX].allocId, free[bestY].offset, free[bestY].offset + free[bestY].size)
  {
    LiveMember(a, live, bestX);
    ListedIsRun(a, free, bestY);
    hide FreeRun, FreeList, LiveList, Invariant, PairPrediction, Eligible, TargetFits, NotBetter;
  }

  lemma BestIsChosen(a: ArenaState, live: seq<Region>, free: seq<Region>, before: u64,
                     plan: CompactionPlan, gain: int, bestX: int, bestY: int)
    requires Invariant(a) && LiveList(a, live) && FreeList(a, free) && plan.steps != []
    requires Best(a, live, free, before, |live|, 0, plan, gain, bestX, bestY)
    ensures 0 <= bestX < |live| && 0 <= bestY < |free| && |plan.steps| == 1
    ensures Chosen(a, plan, live[bestX].allocId, free[bestY].offset, free[bestY].offset + free[bestY].size)
  {
    hide FreeRun, FreeList, LiveList, Prediction, PairPrediction, Candidate, Invariant, Best, Pair, Gain;
    BestIsCandidate(a, live, free, before, plan, gain, bestX, bestY);
    var id, lo := live[bestX].allocId, free[bestY].offset;
    forall i: u64, l: u64, h: int | Candidate(a, i, l, h)
      ensures i in a.live
      ensures Beaten(Prediction(a, before, i, l, h), before, plan.largestFreeAfter,
                     !Earlier(a.live[i], l, a.live[id], lo))
    {
      NoneBetter(a, live, free, before, plan, gain, bestX, bestY, i, l, h);
    }
    PairIsPrediction(a, before, id, free[bestY]);
  }

  lemma ListsOrdered(a: ArenaState, live: seq<Region>, free: seq<Region>)
    requires LiveList(a, live) && FreeList(a, free)
    ensures Ordered(live) && Ordered(free)
  {
  }

  lemma NoneBetter(a: ArenaState, live: seq<Region>, free: seq<Region>, before: u64,
                   plan: CompactionPlan, gain: int, bestX: int, bestY: int, i: u64, l: u64, h: int)
    requires LiveList(a, live) && FreeList(a, free) && Candidate(a, i, l, h)
    requires plan.steps != [] && Best(a, live, free, before, |live|, 0, plan, gain, bestX, bestY)
    ensures i in a.live
    ensures Beaten(Prediction(a, before, i, l, h), before, plan.largestFreeAfter,
                   !Earlier(a.live[i], l, live[bestX], free[bestY].offset))
  {
    hide *;
    var x, y := PairOf(a, live, free, i, l, h);
    ListsOrdered(a, live, free);
    BestAt(a, live, free, before, plan, gain, bestX, bestY, x, y);
    PairIsPrediction(a, before, i, free[y]);
    OrderAgrees(live, free, x, y, bestX, bestY);
  }

  lemma BestAt(a: ArenaState, live: seq<Region>, free: seq<Region>, before: u64,
               plan: CompactionPlan, gain: int, bestX: int, bestY: int, x: int, y: int)
    requires Best(a, live, free, before, |live|, 0, plan, gain, bestX, bestY) && plan.steps != []
    requires 0 <= x < |live| && 0 <= y < |free| && Pair(live[x], free[y])
    ensures 0 <= bestX < |live| && 0 <= bestY < |free|
    ensures Beaten(PairPrediction(a, before, live[x], free[y]), before, plan.largestFreeAfter,
                   !LexLess(x, y, bestX, bestY))
  {
    hide PairPrediction, Gain, Pair, Beaten, IsBestPair, LexLess;
    assert LexLess(x, y, |live|, 0) by { LexBefore(x, y, |live|); }
    assert NotBetter(a, live, free, plan, x, y, bestX, bestY);
  }

  lemma LexBefore(x: int, y: int, n: int)
    requires x < n
    ensures LexLess(x, y, n, 0)
  {
  }

  lemma PairOf(a: ArenaState, live: seq<Region>, free: seq<Region>, id: u64, lo: u64, hi: int) returns (i: int, j: int)
    requires LiveList(a, live) && FreeList(a, free) && Candidate(a, id, lo, hi)
    ensures 0 <= i < |live| && 0 <= j < |free| && id in a.live && live[i] == a.live[id]
    ensures free[j].offset == lo && free[j].offset + free[j].size == hi && Pair(live[i], free[j])
  {
    assert a.live[id] in a.live.Values;
    i :| 0 <= i < |live| && live[i] == a.live[id];
    j := RunIsListed(a, free, lo, hi);
  }

  lemma OrderAgrees(live: seq<Region>, free: seq<Region>, i: int, j: int, x: int, y: int)
    requires Ordered(live) && Ordered(free) && 0 <= i < |live| && 0 <= j < |free| && 0 <= x < |live| && 0 <= y < |free|
    ensures Earlier(live[i], free[j].offset, live[x], free[y].offset) <==> LexLess(i, j, x, y)
  {
    assert i < x ==> live[i].offset < live[x].offset;
    assert x < i ==> live[x].offset < live[i].offset;
    assert j < y ==> free[j].offset < free[y].offset;
    assert y < j ==> free[y].offset < free[j].offset;
  }
}
