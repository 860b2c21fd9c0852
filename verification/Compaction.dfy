/** The single-move compaction planner: its prediction against what relocation
    later does, and what a move does to the stored bytes. */
module Compaction {
  import opened Machine
  import opened Types
  import opened ArenaSpec
  import opened GovernorSpec
  import opened GovernorInvariants
  import opened Doubles

  datatype CompactionStep = CompactionStep(
    id: u64,
    generation: u64,
    oldOffset: u64,
    oldSize: u64,
    newOffset: u64,
    newSize: u64,
    movability: u8)

  datatype CompactionPlan = CompactionPlan(
    steps: seq<CompactionStep>,
    bytesMoved: u64,
    largestFreeBefore: u64,
    largestFreeAfter: u64)

  /** A block the planner may move. */
  predicate Eligible(m: Region) {
    m.movability == MOVABLE && m.pinCount == 0 && m.tag.residency != ACTIVE && m.tag.reclaimability != NEVER_RECLAIM
  }

  function FrontPad(lo: u64, m: Region): u64 {
    var nf := AlignUpChecked(lo, m.alignment);
    if nf >= lo then nf - lo else 0
  }

  /** The planner's test of a free region as a target for a block. */
  predicate TargetFits(m: Region, lo: u64, hi: int) {
    && hi != m.offset && lo != m.offset + m.size
    && hi - lo >= m.size
    && FrontPad(lo, m) <= hi - lo && m.size <= hi - lo - FrontPad(lo, m)
  }

  ghost predicate Candidate(a: ArenaState, id: u64, lo: u64, hi: int) {
    id in a.live && Eligible(a.live[id]) && FreeRun(a, lo, hi) && TargetFits(a.live[id], lo, hi)
  }

  /** The size of the free run that ends (starts) at `x`, or 0. */
  ghost function RunEndingAt(a: ArenaState, x: int): nat {
    if lo: int :| FreeRun(a, lo, x) then x - lo else 0
  }

  ghost function RunStartingAt(a: ArenaState, x: int): nat {
    if hi: int :| FreeRun(a, x, hi) then hi - x else 0
  }

  lemma RunEnding(a: ArenaState, x: int)
    ensures var n := RunEndingAt(a, x);
            (n > 0 ==> FreeRun(a, x - n, x)) && (n == 0 ==> forall lo: int :: !FreeRun(a, lo, x))
  {
  }

  lemma RunStarting(a: ArenaState, x: int)
    ensures var n := RunStartingAt(a, x);
            (n > 0 ==> FreeRun(a, x, x + n)) && (n == 0 ==> forall hi: int :: !FreeRun(a, x, hi))
  {
  }

  function Predicted(before: nat, left: int, right: int, m: Region, lo: u64, hi: int): nat {
    var front := FrontPad(lo, m);
    Max(Max(Max(before, left + m.size + right), front), hi - lo - front - m.size)
  }

  /** The predicted largest free run after moving `id` into the run [lo, hi). */
  ghost function Prediction(a: ArenaState, before: nat, id: u64, lo: u64, hi: int): nat
    requires id in a.live
  {
    var m := a.live[id];
    Predicted(before, RunEndingAt(a, m.offset), RunStartingAt(a, m.offset + m.size), m, lo, hi)
  }

  predicate Earlier(m: Region, lo: u64, m': Region, lo': u64) {
    m.offset < m'.offset || (m.offset == m'.offset && lo < lo')
  }

  function StepFor(m: Region, lo: u64): CompactionStep {
    CompactionStep(m.allocId, m.allocGeneration, m.offset, m.size, AlignUpChecked(lo, m.alignment), m.size, MOVABLE)
  }

  /** What the planner returns: nothing if no move is eligible, otherwise the
      first move, in address order, that attains the best gain.  Gains are compared
      as binary64 differences. */
  ghost predicate IsPlan(a: ArenaState, plan: CompactionPlan) {
    && IsLargestFree(a, plan.largestFreeBefore)
    && if plan.steps == [] then
         && plan.bytesMoved == 0 && plan.largestFreeAfter == plan.largestFreeBefore
         && forall id: u64, lo: u64, hi: int :: !Candidate(a, id, lo, hi)
       else
         && |plan.steps| == 1
         && exists id: u64, lo: u64, hi: int :: Chosen(a, plan, id, lo, hi)
  }

  ghost predicate Chosen(a: ArenaState, plan: CompactionPlan, id: u64, lo: u64, hi: int)
    requires |plan.steps| == 1
  {
    var before := plan.largestFreeBefore;
    && Candidate(a, id, lo, hi)
    && plan.steps[0] == StepFor(a.live[id], lo)
    && plan.bytesMoved == a.live[id].size
    && plan.largestFreeAfter == Prediction(a, before, id, lo, hi)
    && forall i: u64, l: u64, h: int | Candidate(a, i, l, h) ::
         Beaten(Prediction(a, before, i, l, h), before, plan.largestFreeAfter, !Earlier(a.live[i], l, a.live[id], lo))
  }

  /** A prediction gains less than `best`, or as much but comes later. */
  predicate Beaten(p: nat, before: nat, best: nat, later: bool) {
    Gain(p, before) < Gain(best, before) || (Gain(p, before) == Gain(best, before) && later)
  }

  // ------------------------------------------------------- after the move

  /** Rounding `lo` up to the block's alignment fits a word. */
  predicate WithinWord(m: Region, lo: int) {
    lo + m.alignment <= TWO64
  }

  /** Blocks are at least as large as their alignment: what requests produce, and
      relocations to at least the alignment keep. */
  ghost predicate SizesCoverAlignment(a: ArenaState) {
    forall id | id in a.live :: a.live[id].size >= a.live[id].alignment
  }

  const HALF_WORD: nat := 0x8000_0000_0000_0000

  /** The planner's rounding never overflows: no target can start above 2^63, or blocks
      cover their alignment. */
  ghost predicate RoundingFits(a: ArenaState) {
    a.capacity <= HALF_WORD + 1 || SizesCoverAlignment(a)
  }

  lemma AlignmentBound(align: u64)
    requires IsPow2(align)
    ensures align <= HALF_WORD
  {
    Pow2DividesWord(align);
    MultiplesGap(align, TWO64, align);
  }

  lemma CandidateWithinWord(a: ArenaState, id: u64, lo: u64, hi: int)
    requires Invariant(a) && Candidate(a, id, lo, hi) && RoundingFits(a)
    ensures WithinWord(a.live[id], lo)
  {
    assert LiveBlock(a, id);
    AlignmentBound(a.live[id].alignment);
  }

  /** Where the planner's step goes: to the first aligned offset of the run, or to
      offset 0 when the rounding overflows. */
  lemma StepTarget(a: ArenaState, id: u64, lo: u64, hi: int)
    requires Invariant(a) && Candidate(a, id, lo, hi)
    ensures var m := a.live[id]; var at := AlignUpChecked(lo, m.alignment);
            && Aligned(at, m.alignment) && at + m.size <= a.capacity
            && (!WithinWord(m, lo) ==> at == 0 < lo)
            && (WithinWord(m, lo) ==>
                  && lo <= at && at == lo + FrontPad(lo, m) && at + m.size <= hi
                  && (forall x: int | lo <= x && Aligned(x, m.alignment) :: at <= x))
  {
    var m := a.live[id];
    assert LiveBlock(a, id);
    AlignUpArithmetic(lo, m.alignment);
    AlignUpMeaning(lo, m.alignment);
  }

  /** The block's old span with the free runs on either side of it. */
  ghost predicate Vacated(a: ArenaState, id: u64, l: int, h: int)
    requires id in a.live
  {
    var m := a.live[id];
    l == m.offset - RunEndingAt(a, m.offset) && h == m.offset + m.size + RunStartingAt(a, m.offset + m.size)
  }

  /** Byte `j` belongs to a block other than `id`. */
  ghost predicate HeldByOther(a: ArenaState, id: u64, j: int) {
    exists i :: i in a.live && i != id && !Apart(a.live[i], j, j + 1)
  }

  lemma LeftEdge(a: ArenaState, id: u64)
    requires Invariant(a) && id in a.live
    ensures var l := a.live[id].offset - RunEndingAt(a, a.live[id].offset);
            0 <= l && (l > 0 ==> HeldByOther(a, id, l - 1))
  {
    var m := a.live[id];
    var l := m.offset - RunEndingAt(a, m.offset);
    assert LiveBlock(a, id);
    RunEnding(a, m.offset);
    if l > 0 {
      if l < m.offset {
        FreeRunIsMaximal(a, l, m.offset);
      } else {
        assert !Apart(m, m.offset, m.offset + 1);
        NoRunEndsHere(a, m.offset);
      }
      var i :| i in a.live && !Apart(a.live[i], l - 1, l);
    }
  }

  lemma NoRunEndsHere(a: ArenaState, x: int)
    requires Invariant(a) && 0 < x <= a.capacity && !ByteFree(a, x) && forall lo: int :: !FreeRun(a, lo, x)
    ensures !ByteFree(a, x - 1)
  {
    if ByteFree(a, x - 1) {
      var lo := RunStart(a, x - 1);
      FreeRunIsMaximal(a, lo, x);
    }
  }

  lemma RightEdge(a: ArenaState, id: u64)
    requires Invariant(a) && id in a.live
    ensures var e := a.live[id].offset + a.live[id].size; var h := e + RunStartingAt(a, e);
            h <= a.capacity && (h < a.capacity ==> HeldByOther(a, id, h))
  {
    var m := a.live[id];
    var e := m.offset + m.size;
    var h := e + RunStartingAt(a, e);
    assert LiveBlock(a, id);
    RunStarting(a, e);
    if h < a.capacity {
      if h > e {
        FreeRunIsMaximal(a, e, h);
      } else {
        assert !Apart(m, e - 1, e);
        NoRunStartsHere(a, e);
      }
      var i :| i in a.live && !Apart(a.live[i], h, h + 1);
    }
  }

  lemma NoRunStartsHere(a: ArenaState, x: int)
    requires Invariant(a) && 0 <= x < a.capacity && !ByteFree(a, x - 1) && forall hi: int :: !FreeRun(a, x, hi)
    ensures !ByteFree(a, x)
  {
    if ByteFree(a, x) {
      var hi := RunEnd(a, x);
      FreeRunIsMaximal(a, x, hi);
    }
  }

  /** The two bytes just outside the vacated span belong to other blocks, or do not exist. */
  lemma VacatedEdges(a: ArenaState, id: u64, l: int, h: int)
    requires Invariant(a) && id in a.live && Vacated(a, id, l, h)
    ensures 0 <= l <= a.live[id].offset && a.live[id].offset + a.live[id].size <= h <= a.capacity && l < h
    ensures l > 0 ==> HeldByOther(a, id, l - 1)
    ensures h < a.capacity ==> HeldByOther(a, id, h)
  {
    assert LiveBlock(a, id);
    LeftEdge(a, id);
    RightEdge(a, id);
  }

  /** The block `id` is now `r`; every other block is where it was. */
  ghost predicate OneMoved(a: ArenaState, b: ArenaState, id: u64, r: Region) {
    id in a.live && b.live == a.live[id := r] && b.capacity == a.capacity
  }

  lemma OtherStillHolds(a: ArenaState, b: ArenaState, id: u64, r: Region, x: int, y: int, j: int)
    requires OneMoved(a, b, id, r) && SpanFree(b, x, y) && HeldByOther(a, id, j)
    ensures j < x || y <= j
  {
    var i :| i in a.live && i != id && !Apart(a.live[i], j, j + 1);
    assert b.live[i] == a.live[i] && Apart(b.live[i], x, y);
  }

  /** After a move into [lo, hi), every free run either was free before or lies
      in the vacated span. */
  lemma RunsAfterMove(a: ArenaState, b: ArenaState, id: u64, r: Region, l: int, h: int, x: int, y: int)
    requires Invariant(a) && OneMoved(a, b, id, r) && Vacated(a, id, l, h) && SpanFree(b, x, y)
    ensures SpanFree(a, x, y) || (l <= x && y <= h)
  {
    var m := a.live[id];
    VacatedEdges(a, id, l, h);
    if Apart(m, x, y) {
      forall i | i in a.live ensures Apart(a.live[i], x, y) {
        assert i != id ==> b.live[i] == a.live[i] && Apart(b.live[i], x, y);
      }
    } else {
      assert LiveBlock(a, id);
      if l > 0 {
        OtherStillHolds(a, b, id, r, x, y, l - 1);
      }
      if h < a.capacity {
        OtherStillHolds(a, b, id, r, x, y, h);
      }
    }
  }

  /** The vacated span is free after a move into a run that does not touch the block. */
  lemma VacatedIsFree(a: ArenaState, b: ArenaState, id: u64, r: Region, l: int, h: int, lo: int, hi: int)
    requires Invariant(a) && id in a.live && Vacated(a, id, l, h) && 0 <= l && h <= a.capacity
    requires OneMoved(a, b, id, r)
    requires FreeRun(a, lo, hi) && lo <= r.offset && r.offset + r.size <= hi && r.size > 0
    requires hi != a.live[id].offset && lo != a.live[id].offset + a.live[id].size
    ensures SpanFree(b, l, h)
  {
    assert LiveBlock(a, id);
    TargetAway(a, id, l, h, lo, hi);
    RunEnding(a, a.live[id].offset);
    RunStarting(a, a.live[id].offset + a.live[id].size);
    hide RunEndingAt, RunStartingAt, FreeRun;
    forall i | i in b.live ensures Apart(b.live[i], l, h) {
      if i != id {
        OthersAway(a, id, i, l, h);
      }
    }
  }

  /** Another block lies outside the vacated span. */
  lemma OthersAway(a: ArenaState, id: u64, i: u64, l: int, h: int)
    requires Invariant(a) && id in a.live && i in a.live && i != id && Vacated(a, id, l, h)
    ensures Apart(a.live[i], l, h)
  {
    var m := a.live[id];
    var e := m.offset + m.size;
    RunEnding(a, m.offset);
    RunStarting(a, e);
    assert LiveBlock(a, i) && LiveBlock(a, id) && Apart(a.live[i], m.offset, e);
    assert l < m.offset ==> Apart(a.live[i], l, m.offset);
    assert e < h ==> Apart(a.live[i], e, h);
  }

  /** A free run that does not touch the block lies outside its vacated span. */
  lemma TargetAway(a: ArenaState, id: u64, l: int, h: int, lo: int, hi: int)
    requires Invariant(a) && id in a.live && Vacated(a, id, l, h)
    requires FreeRun(a, lo, hi) && hi != a.live[id].offset && lo != a.live[id].offset + a.live[id].size
    ensures hi <= l || h <= lo
  {
    var m := a.live[id];
    var e := m.offset + m.size;
    assert LiveBlock(a, id) && Apart(m, lo, hi);
    RunEnding(a, m.offset);
    RunStarting(a, e);
    if l < m.offset && l < hi && lo < m.offset {
      FreeRunsDisjoint(a, l, m.offset, lo, hi);
    }
    if e < h && e < hi && lo < h {
      FreeRunsDisjoint(a, e, h, lo, hi);
    }
  }

  // ---------------------------------------------------------- the theorems

  /** The span the step goes to is free exactly unless the rounding overflowed and
      the start of the arena is taken. */
  lemma TargetFreeIff(a: ArenaState, id: u64, lo: u64, hi: int)
    requires Invariant(a) && Candidate(a, id, lo, hi)
    ensures var m := a.live[id]; var at := AlignUpChecked(lo, m.alignment);
            SpanFree(a, at, at + m.size) <==> WithinWord(m, lo) || SpanFree(a, 0, m.size)
  {
    var m := a.live[id];
    assert LiveBlock(a, id);
    StepTarget(a, id, lo, hi);
    if WithinWord(m, lo) {
      var at := AlignUpChecked(lo, m.alignment);
      RunHolds(a, lo, hi, at, at + m.size);
    }
  }

  /** Moving a movable block to an aligned place inside the arena. */
  lemma AlignedMove(s: GovernorState, id: u64, at: u64)
    requires Lockstep(s) && id in s.arena.live && Eligible(s.arena.live[id])
    requires Aligned(at, s.arena.live[id].alignment) && at + s.arena.live[id].size <= s.arena.capacity
    ensures var m := s.arena.live[id]; var (t, r) := ApplyRelocation(s, id, m.allocGeneration, at, m.size);
            && (r.Ok? <==> SpanFree(s.arena, at, at + m.size))
            && (r.Ok? ==> Lockstep(t) && OneMoved(s.arena, t.arena, id, Moved(m, at, m.size, m.alignment)))
            && (r.Err? ==> t == s)
  {
    var m := s.arena.live[id];
    assert LiveBlock(s.arena, id) && InStep(s.records[id], m);
    hide Lockstep, ArenaSpec.Relocate, SpanFree, InStep, LiveBlock, Moved, Aligned;
    RoomDecides(s.arena, id, at);
    RelocationKeeps(s, id, m.allocGeneration, at, m.size);
  }

  lemma RoomDecides(a: ArenaState, id: u64, at: u64)
    requires id in a.live && LiveBlock(a, id) && Aligned(at, a.live[id].alignment) && at + a.live[id].size <= a.capacity
    ensures var m := a.live[id]; var (b, r) := ArenaSpec.Relocate(a, id, m.allocGeneration, at, m.size, m.alignment);
            && (r.Ok? <==> SpanFree(a, at, at + m.size))
            && (r.Ok? ==> OneMoved(a, b, id, Moved(m, at, m.size, m.alignment)))
  {
    hide SpanFree;
  }

  /** Exactly when a planned step is accepted by the state it was planned on. */
  lemma StepAcceptedIff(s: GovernorState, id: u64, lo: u64, hi: int)
    requires Lockstep(s) && Candidate(s.arena, id, lo, hi)
    ensures var m := s.arena.live[id]; var st := StepFor(m, lo);
            var (t, r) := ApplyRelocation(s, st.id, st.generation, st.newOffset, st.newSize);
            && (r.Ok? <==> WithinWord(m, lo) || SpanFree(s.arena, 0, m.size))
            && (r.Ok? ==> Lockstep(t) && OneMoved(s.arena, t.arena, id, MovedTo(m, lo)))
            && (r.Err? ==> t == s)
  {
    var m := s.arena.live[id];
    assert Invariant(s.arena) && LiveBlock(s.arena, id);
    hide Lockstep, Invariant, SpanFree, WithinWord, FreeRun, TargetFits, AlignUpChecked, Aligned, OneMoved,
         ApplyRelocation;
    StepTarget(s.arena, id, lo, hi);
    TargetFreeIff(s.arena, id, lo, hi);
    AlignedMove(s, id, AlignUpChecked(lo, m.alignment));
  }

  /** The block after the planned step. */
  function MovedTo(m: Region, lo: u64): Region {
    Moved(m, AlignUpChecked(lo, m.alignment), m.size, m.alignment)
  }

  /** A step planned without overflow is accepted. */
  lemma PlannedStepAccepted(s: GovernorState, id: u64, lo: u64, hi: int)
    requires Lockstep(s) && RoundingFits(s.arena) && Candidate(s.arena, id, lo, hi)
    ensures var st := StepFor(s.arena.live[id], lo);
            var (t, r) := ApplyRelocation(s, st.id, st.generation, st.newOffset, st.newSize);
            r.Ok? && Lockstep(t) && OneMoved(s.arena, t.arena, id, MovedTo(s.arena.live[id], lo))
  {
    CandidateWithinWord(s.arena, id, lo, hi);
    StepAcceptedIff(s, id, lo, hi);
  }

  /** A predicted gain is attained exactly when the rounding fits a word, or the
      overflowed step goes to the start of the arena and that is not the free run
      the block itself closes off. */
  ghost predicate Attained(a: ArenaState, id: u64, lo: u64)
    requires id in a.live
  {
    var m := a.live[id];
    WithinWord(m, lo) || (SpanFree(a, 0, m.size) && !SpanFree(a, 0, m.offset))
  }

  /** The true outcome of a candidate move against its prediction. */
  lemma MoveOutcome(s: GovernorState, before: nat, id: u64, lo: u64, hi: int, n: int)
    requires Lockstep(s) && Candidate(s.arena, id, lo, hi)
    requires IsLargestFree(s.arena, before) && Outcome(s, id, lo, n)
    ensures n <= Prediction(s.arena, before, id, lo, hi)
    ensures Prediction(s.arena, before, id, lo, hi) > before ==>
              (n == Prediction(s.arena, before, id, lo, hi) <==> Attained(s.arena, id, lo))
  {
    var a, m := s.arena, s.arena.live[id];
    var st := StepFor(m, lo);
    StepAcceptedIff(s, id, lo, hi);
    var (t, r) := ApplyRelocation(s, st.id, st.generation, st.newOffset, st.newSize);
    assert LiveBlock(a, id);
    assert FreeRun(a, lo, hi) && hi - lo <= before;
    hide Vacated, Prediction, Invariant, Lockstep, IsLargestFree, OneMoved, FreeRun, SpanFree, ApplyRelocation,
         Candidate, MovedTo, WithinWord;
    var l, h := VacatedSpan(a, id);
    PredictionOf(a, before, id, lo, hi, l, h);
    if r.Err? {
      LargestFreeUnique(a, before, n);
    } else {
      MovedOutcome(a, t.arena, id, lo, hi, l, h, before, n);
    }
  }

  lemma PredictionOf(a: ArenaState, before: nat, id: u64, lo: u64, hi: int, l: int, h: int)
    requires Candidate(a, id, lo, hi) && hi - lo <= before && Vacated(a, id, l, h)
    ensures Prediction(a, before, id, lo, hi) == Max(before, h - l)
  {
    hide FreeRun, Vacated, Prediction;
    PredictionValue(a, before, id, lo, hi, l, h);
  }

  /** The outcome of an accepted step in terms of the vacated span. */
  lemma MovedOutcome(a: ArenaState, b: ArenaState, id: u64, lo: u64, hi: int, l: int, h: int, before: int, n: int)
    requires Invariant(a) && Invariant(b) && Candidate(a, id, lo, hi) && Vacated(a, id, l, h)
    requires OneMoved(a, b, id, MovedTo(a.live[id], lo))
    requires WithinWord(a.live[id], lo) || SpanFree(a, 0, a.live[id].size)
    requires IsLargestFree(a, before) && IsLargestFree(b, n)
    ensures n <= Max(before, h - l)
    ensures h - l > before ==> (n == h - l <==> Attained(a, id, lo))
  {
    var m := a.live[id];
    VacatedEdges(a, id, l, h);
    hide *;
    OutcomeBound(a, b, id, MovedTo(m, lo), l, h, before, n);
    if Attained(a, id, lo) {
      AttainedReached(a, b, id, lo, hi, l, h, n);
    } else {
      OverflowMissed(a, b, id, lo, hi, l, h, before, n);
    }
  }

  lemma AttainedReached(a: ArenaState, b: ArenaState, id: u64, lo: u64, hi: int, l: int, h: int, n: int)
    requires Invariant(a) && Invariant(b) && Candidate(a, id, lo, hi)
    requires Vacated(a, id, l, h) && 0 <= l < h <= a.capacity
    requires OneMoved(a, b, id, MovedTo(a.live[id], lo)) && Attained(a, id, lo) && IsLargestFree(b, n)
    ensures h - l <= n
  {
    var m := a.live[id];
    StepTarget(a, id, lo, hi);
    assert LiveBlock(a, id);
    hide Vacated, Invariant, IsLargestFree, OneMoved, FreeRun, SpanFree, LiveBlock, FrontPad, AlignUpChecked;
    if WithinWord(m, lo) {
      VacatedReached(a, b, id, MovedTo(m, lo), l, h, lo, hi, n);
    } else {
      var z := RunAtStart(a, id);
      VacatedReached(a, b, id, MovedTo(m, lo), l, h, 0, z, n);
    }
  }

  lemma OverflowMissed(a: ArenaState, b: ArenaState, id: u64, lo: u64, hi: int, l: int, h: int, before: int, n: int)
    requires Invariant(a) && Candidate(a, id, lo, hi) && Vacated(a, id, l, h) && l <= h
    requires OneMoved(a, b, id, MovedTo(a.live[id], lo)) && !Attained(a, id, lo)
    requires WithinWord(a.live[id], lo) || SpanFree(a, 0, a.live[id].size)
    requires IsLargestFree(a, before) && IsLargestFree(b, n)
    ensures h - l > before ==> n < h - l
  {
    StepTarget(a, id, lo, hi);
    assert LiveBlock(a, id);
    hide Vacated, Invariant, IsLargestFree, OneMoved, FreeRun, SpanFree, LiveBlock, FrontPad, AlignUpChecked,
         TargetFits;
    if h - l > before {
      OwnRunNotReached(a, b, id, MovedTo(a.live[id], lo), l, h, before, n);
    }
  }

  /** The free run at the start of the arena, when it can hold the block but does not end at it. */
  lemma RunAtStart(a: ArenaState, id: u64) returns (z: int)
    requires Invariant(a) && id in a.live && SpanFree(a, 0, a.live[id].size) && !SpanFree(a, 0, a.live[id].offset)
    ensures FreeRun(a, 0, z) && a.live[id].size <= z && z != a.live[id].offset
  {
    var x: int;
    x, z := RunAround(a, 0, a.live[id].size);
  }

  /** A free run from the start of the arena up to the block is part of its vacated span. */
  lemma OwnRunAtStart(a: ArenaState, id: u64, l: int, h: int)
    requires Invariant(a) && id in a.live && Vacated(a, id, l, h) && SpanFree(a, 0, a.live[id].offset)
    ensures l == 0
  {
    var m := a.live[id];
    assert LiveStartsAt(a, m.offset);
    assert FreeRun(a, 0, m.offset);
    RunEnding(a, m.offset);
    var k := RunEndingAt(a, m.offset);
    hide RunEndingAt, FreeRun, Invariant;
    FreeRunsDisjoint(a, m.offset - k, m.offset, 0, m.offset);
  }

  /** A block moved to the start of the free run that ends at it does not free its
      whole vacated span. */
  lemma OwnRunNotReached(a: ArenaState, b: ArenaState, id: u64, r: Region, l: int, h: int, before: int, n: int)
    requires Invariant(a) && OneMoved(a, b, id, r) && Vacated(a, id, l, h) && l <= h
    requires SpanFree(a, 0, a.live[id].offset) && r.offset == 0 && r.size > 0
    requires IsLargestFree(a, before) && IsLargestFree(b, n) && h - l > before
    ensures n < h - l
  {
    OwnRunAtStart(a, id, l, h);
    if n > 0 {
      var x: int, y: int :| FreeRun(b, x, y) && y - x == n;
      assert SpanFree(b, x, y) && Apart(b.live[id], x, y) && 0 <= x;
      hide Invariant, Vacated, FreeRun, OneMoved, SpanFree;
      RunsAfterMove(a, b, id, r, l, h, x, y);
      if SpanFree(a, x, y) {
        SpanWithinLargest(a, x, y, before);
      }
    }
  }

  lemma SpanWithinLargest(a: ArenaState, x: int, y: int, n: int)
    requires Invariant(a) && SpanFree(a, x, y) && IsLargestFree(a, n)
    ensures y - x <= n
  {
    var lo, hi := RunAround(a, x, y);
  }

  lemma VacatedReached(a: ArenaState, b: ArenaState, id: u64, r: Region, l: int, h: int, lo: int, hi: int, n: int)
    requires Invariant(a) && Invariant(b) && OneMoved(a, b, id, r) && IsLargestFree(b, n)
    requires FreeRun(a, lo, hi) && hi != a.live[id].offset && lo != a.live[id].offset + a.live[id].size
    requires lo <= r.offset && r.offset + r.size <= hi && r.size > 0
    requires Vacated(a, id, l, h) && 0 <= l < h <= a.capacity
    ensures h - l <= n
  {
    VacatedIsFree(a, b, id, r, l, h, lo, hi);
    SpanWithinLargest(b, l, h, n);
  }

  lemma VacatedSpan(a: ArenaState, id: u64) returns (l: int, h: int)
    requires id in a.live
    ensures Vacated(a, id, l, h)
  {
    var m := a.live[id];
    l, h := m.offset - RunEndingAt(a, m.offset), m.offset + m.size + RunStartingAt(a, m.offset + m.size);
  }

  lemma PredictionValue(a: ArenaState, before: nat, id: u64, lo: u64, hi: int, l: int, h: int)
    requires id in a.live && TargetFits(a.live[id], lo, hi) && hi - lo <= before && Vacated(a, id, l, h)
    ensures Prediction(a, before, id, lo, hi) == Max(before, h - l)
  {
  }

  lemma OutcomeBound(a: ArenaState, b: ArenaState, id: u64, r: Region, l: int, h: int, before: int, n: int)
    requires Invariant(a) && OneMoved(a, b, id, r) && Vacated(a, id, l, h) && l <= h
    requires IsLargestFree(a, before) && IsLargestFree(b, n)
    ensures n <= Max(before, h - l)
  {
    if n > 0 {
      var x: int, y: int :| FreeRun(b, x, y) && y - x == n;
      RunsAfterMove(a, b, id, r, l, h, x, y);
      if SpanFree(a, x, y) {
        SpanWithinLargest(a, x, y, before);
      }
    }
  }

  /** The plan against its application, with no hypothesis on the state: exactly when
      it is accepted; the outcome never exceeds the prediction; exactly when a
      predicted gain is attained; and no eligible move does better, except by less
      than binary64 gains can tell apart. */
  lemma PlanOutcome(s: GovernorState, plan: CompactionPlan, n: int) returns (id: u64, lo: u64, hi: int)
    requires Lockstep(s) && IsPlan(s.arena, plan) && plan.steps != []
    requires IsLargestFree(AfterPlan(s, plan), n)
    ensures Chosen(s.arena, plan, id, lo, hi) && id in s.arena.live
    ensures var m := s.arena.live[id];
            PlanAccepted(s, plan) <==> WithinWord(m, lo) || SpanFree(s.arena, 0, m.size)
    ensures n <= plan.largestFreeAfter
    ensures plan.largestFreeAfter > plan.largestFreeBefore ==>
              (n == plan.largestFreeAfter <==> Attained(s.arena, id, lo))
    ensures NoneDoesBetter(s, plan)
  {
    id, lo, hi := PlannedMove(s.arena, plan);
    var before := plan.largestFreeBefore;
    StepAcceptedIff(s, id, lo, hi);
    MoveOutcome(s, before, id, lo, hi, n);
    forall i: u64, l: u64, h: int, k: int | Candidate(s.arena, i, l, h) && Outcome(s, i, l, k)
      ensures DoesNotBeat(s.arena, plan, k)
    {
      MoveOutcome(s, before, i, l, h, k);
      BeatenOutcome(s.arena, plan, id, lo, hi, i, l, h, k);
    }
  }

  ghost function AfterPlan(s: GovernorState, plan: CompactionPlan): ArenaState
    requires plan.steps != []
  {
    var st := plan.steps[0];
    ApplyRelocation(s, st.id, st.generation, st.newOffset, st.newSize).0.arena
  }

  ghost predicate PlanAccepted(s: GovernorState, plan: CompactionPlan)
    requires plan.steps != []
  {
    var st := plan.steps[0];
    ApplyRelocation(s, st.id, st.generation, st.newOffset, st.newSize).1.Ok?
  }

  /** `k` is no better than the plan; above 2^53 + 2 bytes it may be, if the gains round alike. */
  ghost predicate DoesNotBeat(a: ArenaState, plan: CompactionPlan, k: int) {
    k <= plan.largestFreeAfter
    || (a.capacity > EXACT + 2 && k >= 0
        && Gain(k, plan.largestFreeBefore) == Gain(plan.largestFreeAfter, plan.largestFreeBefore))
  }

  /** No eligible move of `s` leads to a largest free run that beats the plan. */
  ghost predicate NoneDoesBetter(s: GovernorState, plan: CompactionPlan) {
    forall i: u64, l: u64, h: int, k: int | Candidate(s.arena, i, l, h) && Outcome(s, i, l, k) ::
      DoesNotBeat(s.arena, plan, k)
  }

  lemma BeatenOutcome(a: ArenaState, plan: CompactionPlan, id: u64, lo: u64, hi: int, i: u64, l: u64, h: int, k: int)
    requires Invariant(a) && |plan.steps| == 1 && Chosen(a, plan, id, lo, hi) && Candidate(a, i, l, h)
    requires IsLargestFree(a, plan.largestFreeBefore)
    requires k <= Prediction(a, plan.largestFreeBefore, i, l, h)
    ensures DoesNotBeat(a, plan, k)
  {
    var before, after := plan.largestFreeBefore, plan.largestFreeAfter;
    PredictionRange(a, before, i, l, h);
    PredictionRange(a, before, id, lo, hi);
    var p := Prediction(a, before, i, l, h);
    assert Beaten(p, before, after, !Earlier(a.live[i], l, a.live[id], lo));
    hide Chosen, Candidate, IsLargestFree, Prediction, Gain, Invariant;
    if k > after {
      GainMonotone(after, k, before);
      GainMonotone(k, p, before);
      if a.capacity <= EXACT + 2 {
        ExactGain(p, before);
        ExactGain(after, before);
      }
    }
  }

  lemma LargestFits(a: ArenaState, n: int)
    requires IsLargestFree(a, n)
    ensures n <= a.capacity
  {
    if n > 0 {
      var lo: int, hi: int :| FreeRun(a, lo, hi) && hi - lo == n;
    }
  }

  /** The target lies beyond another block, so a candidate leaves two bytes out of every
      free run, before the move and after it. */
  lemma CandidateRoom(a: ArenaState, id: u64, lo: u64, hi: int, l: int, h: int) returns (j: int)
    requires Invariant(a) && Candidate(a, id, lo, hi) && Vacated(a, id, l, h)
    ensures 0 <= l < h && h - l <= a.capacity - 2 && 0 <= j < a.capacity && HeldByOther(a, id, j)
  {
    var m := a.live[id];
    assert FreeRun(a, lo, hi) && lo < hi <= a.capacity && hi != m.offset && lo != m.offset + m.size;
    hide *;
    VacatedEdges(a, id, l, h);
    TargetAway(a, id, l, h, lo, hi);
    j := if hi <= l then l - 1 else h;
    HeldIsOutside(a, id, lo, hi, j);
  }

  lemma HeldIsOutside(a: ArenaState, id: u64, lo: int, hi: int, j: int)
    requires FreeRun(a, lo, hi) && HeldByOther(a, id, j)
    ensures 0 <= lo < hi <= a.capacity && (j < lo || hi <= j)
  {
    var i :| i in a.live && i != id && !Apart(a.live[i], j, j + 1);
    assert Apart(a.live[i], lo, hi);
  }

  lemma LargestLeavesTwo(a: ArenaState, id: u64, j: int, n: int)
    requires Invariant(a) && id in a.live && HeldByOther(a, id, j) && 0 <= j < a.capacity && IsLargestFree(a, n)
    ensures n <= a.capacity - 2
  {
    var m := a.live[id];
    var i :| i in a.live && i != id && !Apart(a.live[i], j, j + 1);
    assert LiveBlock(a, id) && Apart(a.live[i], m.offset, m.offset + m.size);
    if n > 0 {
      var lo: int, hi: int :| FreeRun(a, lo, hi) && hi - lo == n;
      assert Apart(m, lo, hi) && Apart(a.live[i], lo, hi);
    }
  }

  lemma PredictionRange(a: ArenaState, before: nat, id: u64, lo: u64, hi: int)
    requires Invariant(a) && Candidate(a, id, lo, hi) && IsLargestFree(a, before)
    ensures before <= Prediction(a, before, id, lo, hi) <= a.capacity - 2
  {
    assert FreeRun(a, lo, hi) && hi - lo <= before;
    var l, h := VacatedSpan(a, id);
    assert id in a.live;
    hide Candidate, FreeRun, IsLargestFree, Invariant, Vacated, Prediction, HeldByOther;
    var j := CandidateRoom(a, id, lo, hi, l, h);
    LargestLeavesTwo(a, id, j, before);
    PredictionOf(a, before, id, lo, hi, l, h);
  }

  /** Where rounding cannot overflow the prediction is exact: the step is accepted, the
      largest free run never exceeds the prediction and equals it whenever a gain was
      predicted, and no eligible move does better. */
  lemma PlanIsExact(s: GovernorState, plan: CompactionPlan, n: int)
    requires Lockstep(s) && RoundingFits(s.arena) && IsPlan(s.arena, plan) && plan.steps != []
    requires IsLargestFree(AfterPlan(s, plan), n)
    ensures PlanAccepted(s, plan) && n <= plan.largestFreeAfter
    ensures plan.largestFreeAfter > plan.largestFreeBefore ==> n == plan.largestFreeAfter
    ensures NoneDoesBetter(s, plan)
  {
    var id, lo, hi := PlanOutcome(s, plan, n);
    CandidateWithinWord(s.arena, id, lo, hi);
  }

  /** `k` is the largest free run after moving `id` to the first aligned offset at or after `lo`. */
  ghost predicate Outcome(s: GovernorState, id: u64, lo: u64, k: int)
    requires id in s.arena.live
  {
    var st := StepFor(s.arena.live[id], lo);
    IsLargestFree(ApplyRelocation(s, st.id, st.generation, st.newOffset, st.newSize).0.arena, k)
  }

  /** One round: plan, and apply the step if it gains. */
  ghost predicate GainfulRound(s: GovernorState, t: GovernorState) {
    exists plan :: IsPlan(s.arena, plan) && plan.largestFreeAfter > plan.largestFreeBefore && AppliedPlan(s, plan, t)
  }

  ghost predicate AppliedPlan(s: GovernorState, plan: CompactionPlan, t: GovernorState) {
    plan.steps != [] &&
    var st := plan.steps[0];
    t == ApplyRelocation(s, st.id, st.generation, st.newOffset, st.newSize).0
  }

  ghost predicate GainfulRounds(states: seq<GovernorState>) {
    forall i | 0 <= i < |states| - 1 :: GainfulRound(states[i], states[i + 1])
  }

  lemma RoundGains(s: GovernorState, t: GovernorState, n: int, n': int)
    requires Lockstep(s) && RoundingFits(s.arena) && GainfulRound(s, t)
    requires IsLargestFree(s.arena, n) && IsLargestFree(t.arena, n')
    ensures n < n'
  {
    var plan :| IsPlan(s.arena, plan) && plan.largestFreeAfter > plan.largestFreeBefore && AppliedPlan(s, plan, t);
    LargestFreeUnique(s.arena, n, plan.largestFreeBefore);
    PlanIsExact(s, plan, n');
  }

  lemma LargestFreeExists(a: ArenaState) returns (n: int)
    requires Invariant(a)
    ensures IsLargestFree(a, n) && n <= a.capacity
  {
    n := LargestFreeBelow(a, a.capacity);
  }

  lemma {:induction false} LargestFreeBelow(a: ArenaState, bound: nat) returns (n: int)
    requires forall lo: int, hi: int | FreeRun(a, lo, hi) :: hi - lo <= bound
    ensures IsLargestFree(a, n) && n <= bound
  {
    if bound == 0 || exists lo: int, hi: int :: FreeRun(a, lo, hi) && hi - lo == bound {
      n := bound;
    } else {
      n := LargestFreeBelow(a, bound - 1);
    }
  }

  /** Repeating gainful plans terminates: there are never more rounds than bytes
      of the arena outside the largest free run. */
  lemma {:induction false} GainfulRoundsTerminate(states: seq<GovernorState>, n: int)
    requires states != [] && GainfulRounds(states)
    requires Lockstep(states[0]) && RoundingFits(states[0].arena) && IsLargestFree(states[0].arena, n)
    ensures |states| - 1 <= states[0].arena.capacity - n
  {
    if |states| == 1 {
      if n > 0 {
        var lo: int, hi: int :| FreeRun(states[0].arena, lo, hi) && hi - lo == n;
      }
    } else {
      var s, t := states[0], states[1];
      assert GainfulRound(states[0], states[0 + 1]);
      GainfulRoundKeeps(s, t);
      var n' := LargestFreeExists(t.arena);
      RoundGains(s, t, n, n');
      forall i | 0 <= i < |states[1..]| - 1 ensures GainfulRound(states[1..][i], states[1..][i + 1]) {
        assert GainfulRound(states[i + 1], states[i + 1 + 1]);
      }
      GainfulRoundsTerminate(states[1..], n');
    }
  }

  lemma GainfulRoundKeeps(s: GovernorState, t: GovernorState)
    requires Lockstep(s) && RoundingFits(s.arena) && GainfulRound(s, t)
    ensures Lockstep(t) && RoundingFits(t.arena) && t.arena.capacity == s.arena.capacity
  {
    var plan :| IsPlan(s.arena, plan) && plan.largestFreeAfter > plan.largestFreeBefore && AppliedPlan(s, plan, t);
    var id, lo, hi := PlannedMove(s.arena, plan);
    hide Chosen, IsPlan, Lockstep, ApplyRelocation, Candidate, RoundingFits, OneMoved, MovedTo;
    PlannedStepAccepted(s, id, lo, hi);
    SameSizeKeepsFit(s.arena, t.arena, id, lo);
  }

  lemma PlannedMove(a: ArenaState, plan: CompactionPlan) returns (id: u64, lo: u64, hi: int)
    requires IsPlan(a, plan) && plan.steps != []
    ensures |plan.steps| == 1 && Chosen(a, plan, id, lo, hi) && Candidate(a, id, lo, hi) && id in a.live
    ensures plan.steps[0] == StepFor(a.live[id], lo)
  {
    hide Prediction, FreeRun, Eligible, TargetFits, IsLargestFree;
    id, lo, hi :| Chosen(a, plan, id, lo, hi);
  }

  lemma SameSizeKeepsFit(a: ArenaState, b: ArenaState, id: u64, lo: u64)
    requires RoundingFits(a) && id in a.live && OneMoved(a, b, id, MovedTo(a.live[id], lo))
    ensures RoundingFits(b) && b.capacity == a.capacity
  {
  }

  // --------------------------------------------------------- stored bytes

  /** Copy `size` bytes within the arena. */
  function CopyBytes(mem: Bytes, from: int, to: int, size: int): Bytes
    requires 0 <= from && 0 <= to && 0 <= size && from + size <= |mem| && to + size <= |mem|
  {
    mem[..to] + mem[from..from + size] + mem[to + size..]
  }

  function View(mem: Bytes, r: Region): Bytes
    requires r.offset + r.size <= |mem|
  {
    mem[r.offset..r.offset + r.size]
  }

  /** Copying the block and then applying the same-size relocation leaves what
      every current handle sees unchanged. */
  lemma MovingPreservesData(s: GovernorState, mem: Bytes, id: u64, gen: u64, offset: u64, k: u64)
    requires Lockstep(s) && |mem| == s.arena.capacity && CurrentRecord(s, id, gen)
    requires ApplyRelocation(s, id, gen, offset, s.records[id].regionSize).1.Ok?
    requires k in s.records
    ensures var t := ApplyRelocation(s, id, gen, offset, s.records[id].regionSize).0;
            ViewKept(s.arena, t.arena, mem, id, offset, k)
  {
    var a := s.arena;
    assert LiveBlock(a, id) && LiveBlock(a, k) && InStep(s.records[id], a.live[id]);
    var t := ApplyRelocation(s, id, gen, offset, s.records[id].regionSize).0;
    hide Lockstep, Invariant, LiveBlock, InStep, SpanFree, ViewKept, Moved;
    CopyKeepsViews(a, t.arena, mem, id, offset, k);
  }

  /** Block `k` reads the same before the move as after the copy and the move. */
  ghost predicate ViewKept(a: ArenaState, b: ArenaState, mem: Bytes, id: u64, offset: u64, k: u64) {
    && id in a.live && k in a.live && k in b.live
    && a.live[id].offset + a.live[id].size <= |mem| && offset + a.live[id].size <= |mem|
    && a.live[k].offset + a.live[k].size <= |mem| && b.live[k].offset + b.live[k].size <= |mem|
    && View(CopyBytes(mem, a.live[id].offset, offset, a.live[id].size), b.live[k]) == View(mem, a.live[k])
  }

  lemma CopyKeepsViews(a: ArenaState, b: ArenaState, mem: Bytes, id: u64, offset: u64, k: u64)
    requires |mem| == a.capacity && id in a.live && k in a.live && LiveBlock(a, id) && LiveBlock(a, k)
    requires SpanFree(a, offset, offset + a.live[id].size)
    requires b.live == a.live[id := Moved(a.live[id], offset, a.live[id].size, a.live[id].alignment)]
    ensures ViewKept(a, b, mem, id, offset, k)
  {
    var m := a.live[id];
    assert Apart(a.live[k], offset, offset + m.size);
    CopyTarget(mem, m.offset, offset, m.size);
    CopyElsewhere(mem, m.offset, offset, m.size, a.live[k].offset, a.live[k].offset + a.live[k].size);
  }

  lemma Parts(x: Bytes, y: Bytes, z: Bytes)
    ensures var w := x + y + z;
            w[..|x|] == x && w[|x|..|x| + |y|] == y && w[|x| + |y|..] == z
  {
  }

  lemma CopyTarget(mem: Bytes, from: int, to: int, size: int)
    requires 0 <= from && 0 <= to && 0 <= size && from + size <= |mem| && to + size <= |mem|
    ensures CopyBytes(mem, from, to, size)[to..to + size] == mem[from..from + size]
  {
    Parts(mem[..to], mem[from..from + size], mem[to + size..]);
  }

  lemma CopyElsewhere(mem: Bytes, from: int, to: int, size: int, l: int, h: int)
    requires 0 <= from && 0 <= to && 0 <= size && from + size <= |mem| && to + size <= |mem|
    requires 0 <= l <= h <= |mem| && (h <= to || to + size <= l)
    ensures CopyBytes(mem, from, to, size)[l..h] == mem[l..h]
  {
    Parts(mem[..to], mem[from..from + size], mem[to + size..]);
    var copied := CopyBytes(mem, from, to, size);
    if h <= to {
      assert copied[l..h] == copied[..to][l..h] == mem[..to][l..h];
    } else {
      var e := to + size;
      assert copied[l..h] == copied[e..][l - e..h - e] == mem[e..][l - e..h - e];
    }
  }
}
