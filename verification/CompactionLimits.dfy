/** How far the planner's promises reach: runs after which a plan is refused or misses
    the best move, and exactly which capacities rule that out. */
module CompactionLimits {
  import opened Machine
  import opened Types
  import opened Records
  import opened GovernorSpec
  import opened GovernorInvariants
  import opened ArenaSpec
  import opened Compaction
  import opened CompactionRuns
  import opened Doubles
  import opened Layouts
  import opened Reachability

  // ------------------------------------------------- two one-byte blocks

  /** Blocks `i` and `j` hold one byte each, in address order, with room between and
      after them; from `limit` on the arena is full of blocks that stay put. */
  ghost predicate Gaps(a: ArenaState, i: u64, j: u64, limit: int) {
    && i != j && i in a.live && j in a.live
    && a.live[i].size == 1 && a.live[j].size == 1
    && a.live[i].offset + 1 < a.live[j].offset && a.live[j].offset + 1 < limit <= a.capacity
    && (limit < a.capacity ==> LiveStartsAt(a, limit))
    && (forall k | k in a.live && k != i && k != j :: a.live[k].offset >= limit && !Eligible(a.live[k]))
    && (forall lo: int, hi: int | SpanFree(a, lo, hi) :: hi <= limit)
  }

  lemma GapsRuns(a: ArenaState, i: u64, j: u64, limit: int, lo: int, hi: int)
    requires Invariant(a) && Gaps(a, i, j, limit)
    ensures var x, y := a.live[i].offset, a.live[j].offset;
            FreeRun(a, lo, hi) <==>
            (lo == 0 && hi == x && x > 0) || (lo == x + 1 && hi == y) || (lo == y + 1 && hi == limit)
  {
    var x, y := a.live[i].offset, a.live[j].offset;
    if FreeRun(a, lo, hi) {
      assert Apart(a.live[i], lo, hi) && Apart(a.live[j], lo, hi) && hi <= limit;
      GapEdges(a, i, j, limit, lo, hi);
    } else if (lo == 0 && hi == x && x > 0) || (lo == x + 1 && hi == y) || (lo == y + 1 && hi == limit) {
      forall k | k in a.live ensures Apart(a.live[k], lo, hi) {
        assert k == i || k == j || a.live[k].offset >= limit;
      }
    }
  }

  lemma GapEdges(a: ArenaState, i: u64, j: u64, limit: int, lo: int, hi: int)
    requires Invariant(a) && Gaps(a, i, j, limit) && FreeRun(a, lo, hi) && hi <= limit
    ensures lo == 0 || lo == a.live[i].offset + 1 || lo == a.live[j].offset + 1
    ensures hi == limit || hi == a.live[i].offset || hi == a.live[j].offset
  {
    if LiveEndsAt(a, lo) {
      var k :| k in a.live && a.live[k].offset + a.live[k].size == lo;
      assert LiveBlock(a, k) && (k == i || k == j || a.live[k].offset >= limit);
    }
    if LiveStartsAt(a, hi) {
      var k :| k in a.live && a.live[k].offset == hi;
      assert k == i || k == j || a.live[k].offset >= limit;
    }
  }

  lemma GapsLargest(a: ArenaState, i: u64, j: u64, limit: int, n: int)
    requires Invariant(a) && Gaps(a, i, j, limit)
    requires var x, y := a.live[i].offset, a.live[j].offset;
             n >= x && n == y - x - 1 >= limit - y - 1
    ensures IsLargestFree(a, n)
  {
    var x, y := a.live[i].offset, a.live[j].offset;
    forall lo: int, hi: int | FreeRun(a, lo, hi) ensures hi - lo <= n {
      GapsRuns(a, i, j, limit, lo, hi);
    }
    GapsRuns(a, i, j, limit, x + 1, y);
    assert FreeRun(a, x + 1, y);
  }

  /** The sizes of the free runs on either side of `z`. */
  lemma GapsSizes(a: ArenaState, i: u64, j: u64, limit: int, z: int)
    requires Invariant(a) && Gaps(a, i, j, limit)
    ensures var x, y := a.live[i].offset, a.live[j].offset;
            && (z == x ==> RunEndingAt(a, z) == x)
            && (z == y ==> RunEndingAt(a, z) == y - x - 1)
            && (z == x + 1 ==> RunStartingAt(a, z) == y - x - 1)
            && (z == y + 1 ==> RunStartingAt(a, z) == limit - y - 1)
  {
    var x, y := a.live[i].offset, a.live[j].offset;
    assert x + 1 < y && y + 1 < limit;
    RunEnding(a, z);
    RunStarting(a, z);
    var m, n := RunEndingAt(a, z), RunStartingAt(a, z);
    hide FreeRun, RunEndingAt, RunStartingAt, Gaps, Invariant;
    GapsRuns(a, i, j, limit, z - m, z);
    GapsRuns(a, i, j, limit, z, z + n);
    GapsRuns(a, i, j, limit, 0, z);
    GapsRuns(a, i, j, limit, x + 1, z);
    GapsRuns(a, i, j, limit, z, y);
    GapsRuns(a, i, j, limit, z, limit);
  }

  lemma GapsTargets(a: ArenaState, i: u64, j: u64, limit: int)
    requires Invariant(a) && Gaps(a, i, j, limit)
    ensures i in a.live && j in a.live
    ensures var x, y := a.live[i].offset, a.live[j].offset;
            && x + 1 < y && y + 1 < limit <= a.capacity && a.live[i].size == 1 && a.live[j].size == 1
            && FreeRun(a, y + 1, limit) && (x > 0 ==> FreeRun(a, 0, x))
  {
    var x, y := a.live[i].offset, a.live[j].offset;
    hide Invariant, FreeRun;
    GapsRuns(a, i, j, limit, y + 1, limit);
    GapsRuns(a, i, j, limit, 0, x);
  }

  lemma GapsAroundFirst(a: ArenaState, i: u64, j: u64, limit: int)
    requires Invariant(a) && Gaps(a, i, j, limit)
    ensures var x, y := a.live[i].offset, a.live[j].offset;
            RunEndingAt(a, x) == x && RunStartingAt(a, x + 1) == y - x - 1
  {
    var x := a.live[i].offset;
    hide Invariant, Gaps, RunEndingAt, RunStartingAt;
    GapsSizes(a, i, j, limit, x);
    GapsSizes(a, i, j, limit, x + 1);
  }

  lemma GapsAroundSecond(a: ArenaState, i: u64, j: u64, limit: int)
    requires Invariant(a) && Gaps(a, i, j, limit)
    ensures var x, y := a.live[i].offset, a.live[j].offset;
            RunEndingAt(a, y) == y - x - 1 && RunStartingAt(a, y + 1) == limit - y - 1
  {
    var y := a.live[j].offset;
    hide Invariant, Gaps, RunEndingAt, RunStartingAt;
    GapsSizes(a, i, j, limit, y);
    GapsSizes(a, i, j, limit, y + 1);
  }

  /** The lower block moves behind the upper one. */
  lemma MoveFirst(a: ArenaState, i: u64, j: u64, limit: int, before: nat)
    requires Invariant(a) && Gaps(a, i, j, limit) && Eligible(a.live[i])
    requires TargetFits(a.live[i], a.live[j].offset + 1, limit)
    ensures Candidate(a, i, a.live[j].offset + 1, limit)
    ensures var m, y := a.live[i], a.live[j].offset;
            Prediction(a, before, i, y + 1, limit) == Predicted(before, m.offset, y - m.offset - 1, m, y + 1, limit)
  {
    hide Invariant, Gaps, FreeRun, RunEndingAt, RunStartingAt, Predicted, TargetFits, Eligible;
    GapsTargets(a, i, j, limit);
    GapsAroundFirst(a, i, j, limit);
  }

  /** The upper block moves to the start of the arena. */
  lemma MoveSecond(a: ArenaState, i: u64, j: u64, limit: int, before: nat)
    requires Invariant(a) && Gaps(a, i, j, limit) && Eligible(a.live[j]) && a.live[i].offset > 0
    requires TargetFits(a.live[j], 0, a.live[i].offset)
    ensures Candidate(a, j, 0, a.live[i].offset)
    ensures var m, x := a.live[j], a.live[i].offset;
            Prediction(a, before, j, 0, x) == Predicted(before, m.offset - x - 1, limit - m.offset - 1, m, 0, x)
  {
    hide Invariant, Gaps, FreeRun, RunEndingAt, RunStartingAt, Predicted, TargetFits, Eligible;
    GapsTargets(a, i, j, limit);
    GapsAroundSecond(a, i, j, limit);
  }

  /** Which moves the planner considers. */
  lemma GapsCandidates(a: ArenaState, i: u64, j: u64, limit: int, id: u64, lo: u64, hi: int)
    requires Invariant(a) && Gaps(a, i, j, limit)
    ensures var x, y := a.live[i].offset, a.live[j].offset;
            Candidate(a, id, lo, hi) ==> (id == i && Eligible(a.live[i]) && lo == y + 1 && hi == limit)
                                         || (id == j && Eligible(a.live[j]) && lo == 0 && hi == x > 0)
  {
    GapsRuns(a, i, j, limit, lo, hi);
    hide FreeRun, Eligible, Invariant;
  }

  // ------------------------------------------------------------- overflow

  lemma HalfWordIsPow2()
    ensures IsPow2(HALF_WORD)
  {
    TwoPow64();
    assert Pow2(64) == 2 * Pow2(63);
    Pow2HasZeroAnd(63);
  }

  /** What rounding to that alignment gives. */
  lemma HalfWordRounding(n: u64)
    requires 0 < n <= HALF_WORD
    ensures IsPow2(HALF_WORD) && AlignUp(n, HALF_WORD) == HALF_WORD
  {
    HalfWordIsPow2();
    hide IsPow2, AlignUp;
    AlignUpArithmetic(n, HALF_WORD);
  }

  lemma HalfWordOverflow(n: u64)
    requires n > HALF_WORD
    ensures AlignUpChecked(n, HALF_WORD) == 0
  {
    HalfWordIsPow2();
    hide IsPow2, AlignUp;
    AlignUpArithmetic(n, HALF_WORD);
  }

  /** Block 1, with alignment 2^63, is alone in the arena. */
  ghost predicate Alone(a: ArenaState, offset: int, size: int) {
    a.live.Keys == {1} && Block(a.live[1], offset, size, HALF_WORD, MOVABLE)
  }

  ghost predicate Lone(s: GovernorState, offset: int, size: int) {
    Lockstep(s) && s.initialized && s.nextAllocId == 2 && Alone(s.arena, offset, size)
  }

  lemma AloneMoved(a: ArenaState, b: ArenaState, offset: u64, size: u64, to: u64)
    requires Alone(a, offset, size) && to + 1 <= a.capacity && (offset + size <= to || to + 1 <= offset)
    ensures SpanFree(a, to, to + 1)
    ensures b.live == a.live[1 := Moved(a.live[1], to, 1, HALF_WORD)] ==> Alone(b, to, 1)
  {
  }

  lemma LoneMoves(r: GovernorState, s: GovernorState, n: nat, offset: u64, size: u64, to: u64)
      returns (t: GovernorState)
    requires Reaches(r, s, n) && Lone(s, offset, size) && to % HALF_WORD == 0 && to + 1 <= s.arena.capacity
    requires offset + size <= to || to + 1 <= offset
    ensures Reaches(r, t, n + 1) && Lone(t, to, 1) && t.arena.capacity == s.arena.capacity
  {
    var op := OpRelocate(1, s.arena.live[1].allocGeneration, to, 1);
    t := Step(s, op);
    assert Block(s.arena.live[1], offset, size, HALF_WORD, MOVABLE);
    hide Step, Reaches, Lockstep, SpanFree, Moved, Alone;
    AloneMoved(s.arena, t.arena, offset, size, to);
    MoveTo(s, 1, to, 1);
    ReachesMore(r, s, n, op);
  }

  lemma GrantedAlone(a: ArenaState, b: ArenaState)
    requires a.live == map[] && Granted(a, b, 1, 0, HALF_WORD, HALF_WORD, MOVABLE)
    ensures Alone(b, 0, HALF_WORD) && b.capacity == a.capacity
  {
  }

  lemma LoneStarts(domain: MemoryDomain) returns (s: GovernorState)
    requires domain.managedCapacity >= HALF_WORD + 2
    ensures Reaches(Fresh(domain), s, 2) && Lone(s, 0, HALF_WORD) && s.arena.capacity == domain.managedCapacity
  {
    hide Step, Reaches, Lockstep, IsPow2, AlignUp, FilledArena, Granted, Alone;
    var r := Fresh(domain);
    var start, take := OpInitialize(true, true), OpRequest(Plain(1, HALF_WORD, MOVABLE));
    var s1 := Step(r, start);
    s := Step(s1, take);
    StartIsFilled(domain);
    HalfWordRounding(1);
    GrantOnTop(s1, 0, 1, HALF_WORD, MOVABLE);
    GrantedAlone(s1.arena, s.arena);
    ReachesNext(r, start);
    ReachesMore(r, s1, 1, take);
  }

  lemma AloneIsFilled(a: ArenaState)
    requires Alone(a, 0, 1) && a.capacity >= 1
    ensures FilledArena(a, 1)
  {
    assert 1 in a.live && !Apart(a.live[1], 0, 1);
  }

  /** What the run leaves: block 1 at offset 0, block 2 at `offset`. */
  ghost predicate Wedged(a: ArenaState, offset: int) {
    && a.live.Keys == {1, 2} && Block(a.live[1], 0, 1, HALF_WORD, MOVABLE)
    && Block(a.live[2], offset, 1, 1, NONMOVABLE) && a.capacity >= HALF_WORD + 2
  }

  lemma GrantedWedge(a: ArenaState, b: ArenaState)
    requires Alone(a, 0, 1) && Granted(a, b, 2, 1, 1, 1, NONMOVABLE) && a.capacity >= HALF_WORD + 2
    ensures Wedged(b, 1) && b.capacity == a.capacity
  {
    assert 1 in a.live && b.live[1] == a.live[1];
  }

  lemma WedgeStarts(r: GovernorState, s: GovernorState, n: nat) returns (t: GovernorState)
    requires Reaches(r, s, n) && Lone(s, 0, 1) && s.arena.capacity >= HALF_WORD + 2
    ensures Reaches(r, t, n + 1) && Lockstep(t) && Wedged(t.arena, 1) && t.arena.capacity == s.arena.capacity
  {
    hide Step, Reaches, Lockstep, IsPow2, AlignUp, FilledArena, Granted, Alone, Wedged;
    var take := OpRequest(Plain(1, 1, NONMOVABLE));
    t := Step(s, take);
    AloneIsFilled(s.arena);
    NoRounding(1);
    GrantOnTop(s, 1, 1, 1, NONMOVABLE);
    GrantedWedge(s.arena, t.arena);
    ReachesMore(r, s, n, take);
  }

  lemma WedgeMoved(a: ArenaState, b: ArenaState)
    requires Wedged(a, 1)
    ensures 2 in a.live && Block(a.live[2], 1, 1, 1, NONMOVABLE) && SpanFree(a, HALF_WORD, HALF_WORD + 1)
    ensures b.live == a.live[2 := Moved(a.live[2], HALF_WORD, 1, 1)] && b.capacity == a.capacity ==>
              Wedged(b, HALF_WORD)
  {
    if b.live == a.live[2 := Moved(a.live[2], HALF_WORD, 1, 1)] {
      assert b.live[1] == a.live[1];
    }
  }

  lemma WedgeMoves(r: GovernorState, s: GovernorState, n: nat) returns (t: GovernorState)
    requires Reaches(r, s, n) && Lockstep(s) && Wedged(s.arena, 1)
    ensures Reaches(r, t, n + 1) && Lockstep(t) && Wedged(t.arena, HALF_WORD) && t.arena.capacity == s.arena.capacity
  {
    var op := OpRelocate(2, s.arena.live[2].allocGeneration, HALF_WORD, 1);
    t := Step(s, op);
    assert s.arena.capacity >= HALF_WORD + 2;
    hide Step, Reaches, Lockstep, SpanFree, Moved, Wedged;
    WedgeMoved(s.arena, t.arena);
    MoveTo(s, 2, HALF_WORD, 1);
    ReachesMore(r, s, n, op);
  }

  lemma WedgeIsReached(domain: MemoryDomain) returns (s: GovernorState)
    requires domain.managedCapacity >= HALF_WORD + 2
    ensures Reaches(Fresh(domain), s, 6) && Lockstep(s) && Wedged(s.arena, HALF_WORD)
    ensures s.arena.capacity == domain.managedCapacity
  {
    hide Reaches, Lockstep, Wedged, Lone;
    var r := Fresh(domain);
    s := LoneStarts(domain);
    s := LoneMoves(r, s, 2, 0, HALF_WORD, HALF_WORD);
    s := LoneMoves(r, s, 3, HALF_WORD, 1, 0);
    s := WedgeStarts(r, s, 4);
    s := WedgeMoves(r, s, 5);
  }

  lemma WedgeGaps(a: ArenaState)
    requires Invariant(a) && Wedged(a, HALF_WORD)
    ensures Gaps(a, 1, 2, a.capacity) && Eligible(a.live[1]) && !Eligible(a.live[2])
  {
  }

  function WedgePlan(m: Region): CompactionPlan {
    CompactionPlan([StepFor(m, HALF_WORD + 1)], 1, HALF_WORD - 1, HALF_WORD)
  }

  lemma WedgeMove(a: ArenaState)
    requires Invariant(a) && Wedged(a, HALF_WORD)
    ensures Candidate(a, 1, HALF_WORD + 1, a.capacity) && !WithinWord(a.live[1], HALF_WORD + 1)
    ensures Prediction(a, HALF_WORD - 1, 1, HALF_WORD + 1, a.capacity) == HALF_WORD
  {
    WedgeGaps(a);
    HalfWordOverflow(HALF_WORD + 1);
    hide Invariant, Gaps, Candidate, Prediction, AlignUpChecked, Eligible, IsPow2;
    MoveFirst(a, 1, 2, a.capacity, HALF_WORD - 1);
  }

  lemma WedgeIsPlan(a: ArenaState)
    requires Invariant(a) && Wedged(a, HALF_WORD)
    ensures IsPlan(a, WedgePlan(a.live[1]))
  {
    var plan := WedgePlan(a.live[1]);
    assert a.live[1].offset == 0 && a.live[2].offset == HALF_WORD && a.live[1].size == 1;
    hide Invariant, Gaps, Candidate, Prediction, IsLargestFree, Gain, StepFor, Wedged, Eligible, WithinWord;
    WedgeGaps(a);
    WedgeMove(a);
    GapsLargest(a, 1, 2, a.capacity, HALF_WORD - 1);
    forall i: u64, l: u64, h: int | Candidate(a, i, l, h)
      ensures i == 1 && l == HALF_WORD + 1 && h == a.capacity
    {
      GapsCandidates(a, 1, 2, a.capacity, i, l, h);
    }
    assert Chosen(a, plan, 1, HALF_WORD + 1, a.capacity);
  }

  /** `plan` is made in the state that `ops` reaches. */
  ghost predicate ReachablePlan(domain: MemoryDomain, ops: seq<Op>, plan: CompactionPlan) {
    1 + |ops| <= MAX64 && IsPlan(Run(Fresh(domain), ops).arena, plan) && plan.steps != []
  }

  /** On every arena of at least 2^63 + 2 bytes some run leads to a plan that promises a
      gain and is refused; planning again changes nothing, so it never ends. */
  lemma OverflowingPlanIsRefused(domain: MemoryDomain) returns (ops: seq<Op>, plan: CompactionPlan)
    requires domain.managedCapacity >= HALF_WORD + 2
    ensures ReachablePlan(domain, ops, plan) && plan.largestFreeAfter > plan.largestFreeBefore
    ensures var s := Run(Fresh(domain), ops); !PlanAccepted(s, plan) && GainfulRound(s, s)
  {
    var s := WedgeIsReached(domain);
    ops := RunOf(Fresh(domain), s, 6);
    plan := WedgePlan(s.arena.live[1]);
    assert s.arena.live[1].offset == 0 && s.arena.live[1].size == 1 && Invariant(s.arena);
    assert !SpanFree(s.arena, 0, 1) by {
      assert !Apart(s.arena.live[1], 0, 1);
    }
    hide Run, Reaches, Lockstep, Invariant, Wedged, IsPlan, Candidate, ApplyRelocation, SpanFree, WithinWord;
    WedgeIsPlan(s.arena);
    WedgeMove(s.arena);
    StepAcceptedIff(s, 1, HALF_WORD + 1, s.arena.capacity);
    assert AppliedPlan(s, plan, s);
  }

  ghost predicate AlwaysAccepted(domain: MemoryDomain) {
    forall ops, plan | ReachablePlan(domain, ops, plan) ::
      plan.steps != [] && PlanAccepted(Run(Fresh(domain), ops), plan)
  }

  /** Every plan of every run is accepted exactly on arenas of at most 2^63 + 1 bytes. */
  lemma AlwaysAcceptedIff(domain: MemoryDomain)
    ensures AlwaysAccepted(domain) <==> domain.managedCapacity <= HALF_WORD + 1
  {
    hide Run, IsPlan, ReachablePlan, PlanAccepted, GainfulRound;
    if domain.managedCapacity <= HALF_WORD + 1 {
      forall ops, plan | ReachablePlan(domain, ops, plan)
        ensures plan.steps != [] && PlanAccepted(Run(Fresh(domain), ops), plan)
      {
        SmallIsAccepted(domain, ops, plan);
      }
    } else {
      var ops, plan := OverflowingPlanIsRefused(domain);
    }
  }

  lemma SmallIsAccepted(domain: MemoryDomain, ops: seq<Op>, plan: CompactionPlan)
    requires domain.managedCapacity <= HALF_WORD + 1 && ReachablePlan(domain, ops, plan)
    ensures plan.steps != [] && PlanAccepted(Run(Fresh(domain), ops), plan)
  {
    ReachableFits(domain, ops);
    var s := Run(Fresh(domain), ops);
    hide Run, Lockstep, RoundingFits, IsPlan, IsLargestFree;
    var n := AfterPlanExists(s, plan);
    PlanIsExact(s, plan, n);
  }

  lemma AfterPlanExists(s: GovernorState, plan: CompactionPlan) returns (n: int)
    requires Lockstep(s) && plan.steps != []
    ensures IsLargestFree(AfterPlan(s, plan), n)
  {
    var st := plan.steps[0];
    RelocationKeeps(s, st.id, st.generation, st.newOffset, st.newSize);
    hide ApplyRelocation, IsLargestFree;
    n := LargestFreeExists(AfterPlan(s, plan));
  }

  // ----------------------------------------------------------------- ties

  /** From 2^53 + 3 bytes on: fillers around two movable bytes, and the rest of the arena. */
  function TiePlaces(capacity: int): seq<Place> {
    var v := [Place(0, 1, MOVABLE), Place(1, 1, MOVABLE), Place(2, EXACT - 2, MOVABLE), Place(EXACT, 1, MOVABLE),
              Place(EXACT + 1, 2, MOVABLE)];
    if capacity == EXACT + 3 then v else v + [Place(EXACT + 3, capacity - (EXACT + 3), NONMOVABLE)]
  }

  lemma TieIsPiled(domain: MemoryDomain) returns (s: GovernorState)
    requires domain.managedCapacity >= EXACT + 3
    ensures var v := TiePlaces(domain.managedCapacity);
            Reaches(Fresh(domain), s, |v| + 1) && Piled(s, v) && s.arena.capacity == domain.managedCapacity
  {
    hide Step, Reaches, Piled;
    var r := Fresh(domain);
    PileStarts(domain);
    s := Step(r, OpInitialize(true, true));
    var v: seq<Place> := [];
    s := Pile(r, s, v, 1, MOVABLE);
    v := v + [Place(0, 1, MOVABLE)];
    s := Pile(r, s, v, 1, MOVABLE);
    v := v + [Place(1, 1, MOVABLE)];
    s := Pile(r, s, v, EXACT - 2, MOVABLE);
    v := v + [Place(2, EXACT - 2, MOVABLE)];
    s := Pile(r, s, v, 1, MOVABLE);
    v := v + [Place(EXACT, 1, MOVABLE)];
    s := Pile(r, s, v, 2, MOVABLE);
    v := v + [Place(EXACT + 1, 2, MOVABLE)];
    assert v == TiePlaces(EXACT + 3);
    if domain.managedCapacity > EXACT + 3 {
      s := Pile(r, s, v, domain.managedCapacity - (EXACT + 3), NONMOVABLE);
    }
  }

  /** The fillers are gone. */
  ghost predicate Tied(a: ArenaState) {
    a.capacity >= EXACT + 3 && Stands(a, TiePlaces(a.capacity), {1, 3, 5}) && 2 in a.live && 4 in a.live
  }

  lemma PiledStands(s: GovernorState, v: seq<Place>)
    requires Piled(s, v)
    ensures Lockstep(s) && Stands(s.arena, v, {})
  {
    hide Lockstep;
  }

  lemma TieFillers(capacity: int)
    ensures var v := TiePlaces(capacity);
            5 <= |v| <= 6 && v[0].movability == v[2].movability == v[4].movability == MOVABLE
  {
  }

  lemma TieIsReached(domain: MemoryDomain) returns (s: GovernorState, n: nat)
    requires domain.managedCapacity >= EXACT + 3
    ensures Reaches(Fresh(domain), s, n) && n <= 10 && Lockstep(s) && Tied(s.arena)
    ensures s.arena.capacity == domain.managedCapacity
  {
    hide Reaches, Lockstep, Stands, Piled, TiePlaces;
    var v := TiePlaces(domain.managedCapacity);
    n := |v| + 4;
    TieFillers(domain.managedCapacity);
    s := TieIsPiled(domain);
    PiledStands(s, v);
    s := FillersOut(Fresh(domain), s, |v| + 1, v);
    OthersStand(s.arena, v);
  }

  lemma OthersStand(a: ArenaState, v: seq<Place>)
    requires Stands(a, v, {1, 3, 5}) && |v| >= 5
    ensures 2 in a.live && 4 in a.live
  {
  }

  lemma FillersOut(r: GovernorState, s: GovernorState, n: nat, v: seq<Place>) returns (t: GovernorState)
    requires Reaches(r, s, n) && Lockstep(s) && Stands(s.arena, v, {}) && |v| >= 5
    requires v[0].movability == v[2].movability == v[4].movability == MOVABLE
    ensures Reaches(r, t, n + 3) && Lockstep(t) && Stands(t.arena, v, {1, 3, 5})
    ensures t.arena.capacity == s.arena.capacity
  {
    hide Reaches, Lockstep, Stands;
    Fillers();
    t := TakeOut(r, s, n, v, {}, 1);
    t := TakeOut(r, t, n + 1, v, {1}, 3);
    t := TakeOut(r, t, n + 2, v, {1, 3}, 5);
  }

  lemma Fillers()
    ensures var none: set<u64> := {}; none + {1} == {1} && {1} + {3} == {1, 3} && {1, 3} + {5} == {1, 3, 5}
  {
  }

  lemma TieGaps(a: ArenaState)
    requires Invariant(a) && Tied(a)
    ensures Gaps(a, 2, 4, EXACT + 3)
    ensures Block(a.live[2], 1, 1, 1, MOVABLE) && Block(a.live[4], EXACT, 1, 1, MOVABLE)
  {
    var v := TiePlaces(a.capacity);
    assert 2 in a.live && 4 in a.live;
    if a.capacity > EXACT + 3 {
      assert 6 in a.live && Block(a.live[6], EXACT + 3, a.capacity - (EXACT + 3), 1, NONMOVABLE);
      forall lo: int, hi: int | SpanFree(a, lo, hi) ensures hi <= EXACT + 3 {
        assert Apart(a.live[6], lo, hi);
      }
    }
  }

  function TiePlan(m: Region): CompactionPlan {
    CompactionPlan([StepFor(m, EXACT + 1)], 1, EXACT - 2, EXACT)
  }

  /** The spacing from 2^53 on is 2, so both gains are 2. */
  lemma TieGains()
    ensures Gain(EXACT, EXACT - 2) == Gain(EXACT + 1, EXACT - 2) == 2
  {
    ExactDouble(EXACT - 2);
    ExactDouble(EXACT);
    ExactDouble(2);
    assert Spacing(EXACT + 1) == 2 * Spacing(EXACT / 2) == 2;
    assert ToDouble(EXACT + 1) == EXACT;
    hide ToDouble;
  }

  lemma TieMovesFirst(a: ArenaState)
    requires Invariant(a) && Tied(a)
    ensures Candidate(a, 2, EXACT + 1, EXACT + 3) && Prediction(a, EXACT - 2, 2, EXACT + 1, EXACT + 3) == EXACT
  {
    hide Invariant, Gaps, Tied, Candidate, Prediction, AlignUpChecked, IsPow2;
    TieGaps(a);
    NoRounding(EXACT + 1);
    MoveFirst(a, 2, 4, EXACT + 3, EXACT - 2);
  }

  lemma TieMovesSecond(a: ArenaState)
    requires Invariant(a) && Tied(a)
    ensures Candidate(a, 4, 0, 1) && Prediction(a, EXACT - 2, 4, 0, 1) == EXACT + 1
  {
    hide Invariant, Gaps, Tied, Candidate, Prediction, AlignUpChecked, IsPow2;
    TieGaps(a);
    NoRounding(0);
    MoveSecond(a, 2, 4, EXACT + 3, EXACT - 2);
  }

  lemma TieOnlyCandidates(a: ArenaState, i: u64, l: u64, h: int)
    requires Invariant(a) && Tied(a) && Candidate(a, i, l, h)
    ensures i in a.live && ((i == 2 && l == EXACT + 1 && h == EXACT + 3) || (i == 4 && l == 0 && h == 1))
  {
    TieGaps(a);
    assert i in a.live;
    hide Invariant, Gaps, Tied, Candidate, Eligible;
    GapsCandidates(a, 2, 4, EXACT + 3, i, l, h);
  }

  lemma TieNoneGainsMore(a: ArenaState, i: u64, l: u64, h: int)
    requires Invariant(a) && Tied(a) && Candidate(a, i, l, h)
    ensures i in a.live && 2 in a.live
    ensures Beaten(Prediction(a, EXACT - 2, i, l, h), EXACT - 2, EXACT, !Earlier(a.live[i], l, a.live[2], EXACT + 1))
  {
    hide Invariant, Gaps, Tied, Candidate, Prediction, Gain;
    TieGaps(a);
    TieOnlyCandidates(a, i, l, h);
    TieMovesFirst(a);
    TieMovesSecond(a);
    TieGains();
  }

  lemma TieIsChosen(a: ArenaState)
    requires Invariant(a) && Tied(a)
    ensures 2 in a.live && Chosen(a, TiePlan(a.live[2]), 2, EXACT + 1, EXACT + 3)
  {
    hide Invariant, Gaps, Tied, Candidate, Prediction, Beaten, Earlier, StepFor;
    TieGaps(a);
    TieMovesFirst(a);
    forall i: u64, l: u64, h: int | Candidate(a, i, l, h)
      ensures i in a.live && Beaten(Prediction(a, EXACT - 2, i, l, h), EXACT - 2, EXACT,
                                    !Earlier(a.live[i], l, a.live[2], EXACT + 1))
    {
      TieNoneGainsMore(a, i, l, h);
    }
  }

  lemma TieIsPlan(a: ArenaState)
    requires Invariant(a) && Tied(a)
    ensures IsPlan(a, TiePlan(a.live[2]))
  {
    hide Invariant, Gaps, Tied, IsLargestFree, Chosen, StepFor;
    TieGaps(a);
    GapsLargest(a, 2, 4, EXACT + 3, EXACT - 2);
    TieIsChosen(a);
    assert Chosen(a, TiePlan(a.live[2]), 2, EXACT + 1, EXACT + 3);
  }

  /** No eligible move of `s` leads to a larger free run than the plan promises. */
  ghost predicate IsBest(s: GovernorState, plan: CompactionPlan) {
    forall i: u64, l: u64, h: int, k: int | Candidate(s.arena, i, l, h) && Outcome(s, i, l, k) ::
      k <= plan.largestFreeAfter
  }

  lemma OutcomeExists(s: GovernorState, id: u64, lo: u64, hi: int) returns (k: int)
    requires Lockstep(s) && Candidate(s.arena, id, lo, hi)
    ensures Outcome(s, id, lo, k)
  {
    var m := s.arena.live[id];
    var st := StepFor(m, lo);
    StepAcceptedIff(s, id, lo, hi);
    var t := ApplyRelocation(s, st.id, st.generation, st.newOffset, st.newSize).0;
    hide ApplyRelocation, Candidate;
    k := LargestFreeExists(t.arena);
  }

  lemma TiedIsNotBest(s: GovernorState)
    requires Lockstep(s) && Tied(s.arena)
    ensures IsPlan(s.arena, TiePlan(s.arena.live[2])) && !IsBest(s, TiePlan(s.arena.live[2]))
  {
    var a, plan := s.arena, TiePlan(s.arena.live[2]);
    assert Invariant(a);
    TieIsPlan(a);
    TieGaps(a);
    TieMovesSecond(a);
    assert WithinWord(a.live[4], 0);
    hide Lockstep, Invariant, Gaps, Tied, IsPlan, Candidate, Prediction, IsLargestFree, Outcome;
    GapsLargest(a, 2, 4, EXACT + 3, EXACT - 2);
    var k := OutcomeExists(s, 4, 0, 1);
    MoveOutcome(s, EXACT - 2, 4, 0, 1, k);
    assert Candidate(s.arena, 4, 0, 1) && Outcome(s, 4, 0, k) && k == EXACT + 1;
  }

  /** On every arena of at least 2^53 + 3 bytes some run leads to a plan that passes
      over a move that truly does better: both gains are the same binary64 value. */
  lemma TiedGainsMislead(domain: MemoryDomain) returns (ops: seq<Op>, plan: CompactionPlan)
    requires domain.managedCapacity >= EXACT + 3
    ensures ReachablePlan(domain, ops, plan) && !IsBest(Run(Fresh(domain), ops), plan)
  {
    var s, n := TieIsReached(domain);
    ops := RunOf(Fresh(domain), s, n);
    plan := TiePlan(s.arena.live[2]);
    hide Run, Reaches, Lockstep, Tied, IsPlan, IsBest;
    TiedIsNotBest(s);
  }

  /** Up to 2^53 + 2 bytes the plan is the best, in every consistent state. */
  lemma SmallIsBest(s: GovernorState, plan: CompactionPlan)
    requires Lockstep(s) && s.arena.capacity <= EXACT + 2 && IsPlan(s.arena, plan) && plan.steps != []
    ensures IsBest(s, plan)
  {
    hide *;
    var n := AfterPlanExists(s, plan);
    var id, lo, hi := PlanOutcome(s, plan, n);
    NoneBetterIsBest(s, plan);
  }

  lemma NoneBetterIsBest(s: GovernorState, plan: CompactionPlan)
    requires s.arena.capacity <= EXACT + 2 && NoneDoesBetter(s, plan)
    ensures IsBest(s, plan)
  {
    hide Outcome, Gain, FreeRun, TargetFits, Eligible;
  }

  ghost predicate AlwaysBest(domain: MemoryDomain) {
    forall ops, plan | ReachablePlan(domain, ops, plan) :: IsBest(Run(Fresh(domain), ops), plan)
  }

  /** The same over all consistent states of a capacity, reached or not. */
  ghost predicate BestWhenConsistent(capacity: u64) {
    forall s, plan | Lockstep(s) && s.arena.capacity == capacity && IsPlan(s.arena, plan) && plan.steps != [] ::
      IsBest(s, plan)
  }

  /** The plan is always the best move exactly on arenas of at most 2^53 + 2 bytes. */
  lemma AlwaysBestIff(domain: MemoryDomain)
    ensures AlwaysBest(domain) <==> domain.managedCapacity <= EXACT + 2
    ensures BestWhenConsistent(domain.managedCapacity) <==> domain.managedCapacity <= EXACT + 2
  {
    hide Run, Lockstep, IsPlan, IsBest;
    if domain.managedCapacity <= EXACT + 2 {
      forall ops, plan | ReachablePlan(domain, ops, plan) ensures IsBest(Run(Fresh(domain), ops), plan) {
        ReachedIsConsistent(domain, ops);
        SmallIsBest(Run(Fresh(domain), ops), plan);
      }
      forall s, plan |
        Lockstep(s) && s.arena.capacity == domain.managedCapacity && IsPlan(s.arena, plan) && plan.steps != []
        ensures IsBest(s, plan)
      {
        SmallIsBest(s, plan);
      }
    } else {
      var ops, plan := TiedGainsMislead(domain);
      ReachedIsConsistent(domain, ops);
    }
  }

  lemma ReachedIsConsistent(domain: MemoryDomain, ops: seq<Op>)
    requires 1 + |ops| <= MAX64
    ensures var s := Run(Fresh(domain), ops); Lockstep(s) && s.arena.capacity == domain.managedCapacity
  {
    FreshIsLockstep(domain);
    RunKeeps(Fresh(domain), ops);
    RunKeepsCapacity(Fresh(domain), ops);
  }
}
