/** Which blocks a compaction plan may move and where to, in terms of the records and
    the free runs alone. */
module PlanMeaning {
  import opened Machine
  import opened Types
  import opened Records
  import opened GovernorSpec
  import opened GovernorInvariants
  import opened ArenaSpec
  import opened AllocationTheorems
  import opened Compaction
  import opened Doubles

  /** A record the governor may move of its own accord. */
  predicate Relocatable(rec: AllocationRecord) {
    rec.movability == MOVABLE && rec.pinCount == 0 && rec.reclaimability != NEVER_RECLAIM
  }

  /** Where the rounding of `lo` puts a block: at the least multiple of its alignment, or
      at 0 if that multiple does not fit a word. */
  function FirstAligned(lo: int, align: int): int
    requires align > 0
  {
    if RoundUp(lo, align) < TWO64 then RoundUp(lo, align) else 0
  }

  /** The block fits the run from there on; a rounding that overflowed counts as no padding. */
  predicate FitsRun(rec: AllocationRecord, lo: int, hi: int)
    requires rec.alignment > 0
  {
    var at := FirstAligned(lo, rec.alignment);
    (if at >= lo then at else lo) + rec.regionSize <= hi
  }

  /** A movable record and a free run that does not touch it and has room for it. */
  ghost predicate Move(s: GovernorState, id: u64, lo: u64, hi: int) {
    && id in s.records && s.records[id].alignment > 0 && Relocatable(s.records[id])
    && FreeRun(s.arena, lo, hi)
    && hi != s.records[id].offset && lo != s.records[id].offset + s.records[id].regionSize
    && FitsRun(s.records[id], lo, hi)
  }

  lemma RoundingMeaning(lo: u64, align: u64)
    requires IsPow2(align)
    ensures AlignUpChecked(lo, align) == FirstAligned(lo, align)
  {
    if lo > 0 {
      RoundedSize(lo, align);
    } else {
      RoundingZero(align);
    }
    hide IsPow2, AlignUp, RoundUp;
  }

  lemma RoundingZero(align: u64)
    requires IsPow2(align)
    ensures AlignUp(0, align) == 0 && RoundUp(0, align) == 0
  {
    assert align > 0;
    hide IsPow2, AlignUp;
    AlignUpArithmetic(0, align);
    ModUnique(align - 1, align, 0, align - 1);
  }

  lemma MoveIsCandidate(s: GovernorState, id: u64, lo: u64, hi: int)
    requires Lockstep(s)
    ensures Move(s, id, lo, hi) <==> Candidate(s.arena, id, lo, hi)
  {
    hide FreeRun, AlignUpChecked, IsPow2, RoundUp, Eligible, Relocatable, FitsRun, TargetFits;
    if id in s.records {
      assert InStep(s.records[id], s.arena.live[id]) && LiveBlock(s.arena, id);
      SameTest(s.records[id], s.arena.live[id], lo, hi);
    }
  }

  lemma SameTest(rec: AllocationRecord, m: Region, lo: u64, hi: int)
    requires InStep(rec, m) && IsPow2(m.alignment)
    ensures Relocatable(rec) <==> Eligible(m)
    ensures TargetFits(m, lo, hi) <==> hi != rec.offset && lo != rec.offset + rec.regionSize && FitsRun(rec, lo, hi)
  {
    RoundingMeaning(lo, m.alignment);
    hide AlignUpChecked, IsPow2, RoundUp;
  }

  /** There is no step exactly when nothing that may move has anywhere to go. */
  lemma EmptyPlanIff(s: GovernorState, plan: CompactionPlan)
    requires Lockstep(s) && IsPlan(s.arena, plan)
    ensures plan.steps == [] <==> forall id: u64, lo: u64, hi: int :: !Move(s, id, lo, hi)
  {
    hide Lockstep, Candidate, Move, Gain;
    forall id: u64, lo: u64, hi: int ensures Move(s, id, lo, hi) <==> Candidate(s.arena, id, lo, hi) {
      MoveIsCandidate(s, id, lo, hi);
    }
    if plan.steps != [] {
      var id: u64, lo: u64, hi: int :| Chosen(s.arena, plan, id, lo, hi);
    }
  }

  /** The step names a current, movable, unpinned record that is not to be kept in place,
      and moves it as a whole to the first aligned offset of a free run with room for it;
      of the moves with the same gain it is the first, by the block's offset and then by
      the run's. */
  lemma StepMeaning(s: GovernorState, plan: CompactionPlan) returns (lo: u64, hi: int)
    requires Lockstep(s) && IsPlan(s.arena, plan) && plan.steps != []
    ensures |plan.steps| == 1
    ensures var p := plan.steps[0];
            && CurrentRecord(s, p.id, p.generation)
            && var rec := s.records[p.id];
               && rec.movability == MOVABLE && rec.pinCount == 0 && rec.reclaimability != NEVER_RECLAIM
               && p.oldOffset == rec.offset && p.oldSize == rec.regionSize && p.newSize == rec.regionSize
               && p.movability == rec.movability && plan.bytesMoved == rec.regionSize
               && Move(s, p.id, lo, hi) && p.newOffset == FirstAligned(lo, rec.alignment)
    ensures var p, before := plan.steps[0], plan.largestFreeBefore;
            forall i: u64, l: u64, h: int | Move(s, i, l, h) ::
              && i in s.arena.live
              && var k := Prediction(s.arena, before, i, l, h);
                 && Gain(k, before) <= Gain(plan.largestFreeAfter, before)
                 && (Gain(k, before) == Gain(plan.largestFreeAfter, before) ==>
                       p.oldOffset < s.records[i].offset || (p.oldOffset == s.records[i].offset && lo <= l))
  {
    var id: u64;
    id, lo, hi := ChosenMove(s, plan);
    forall i: u64, l: u64, h: int | Move(s, i, l, h)
      ensures i in s.arena.live
      ensures var k := Prediction(s.arena, plan.largestFreeBefore, i, l, h);
              && Gain(k, plan.largestFreeBefore) <= Gain(plan.largestFreeAfter, plan.largestFreeBefore)
              && (Gain(k, plan.largestFreeBefore) == Gain(plan.largestFreeAfter, plan.largestFreeBefore) ==>
                    plan.steps[0].oldOffset < s.records[i].offset
                    || (plan.steps[0].oldOffset == s.records[i].offset && lo <= l))
    {
      MoveIsCandidate(s, i, l, h);
      assert InStep(s.records[i], s.arena.live[i]);
      hide Lockstep, Prediction, Gain, Move;
    }
  }

  lemma ChosenMove(s: GovernorState, plan: CompactionPlan) returns (id: u64, lo: u64, hi: int)
    requires Lockstep(s) && IsPlan(s.arena, plan) && plan.steps != []
    ensures |plan.steps| == 1 && Chosen(s.arena, plan, id, lo, hi) && plan.steps[0].id == id
    ensures Move(s, id, lo, hi)
    ensures var p, rec := plan.steps[0], s.records[id];
            && p.generation == rec.generation && p.movability == rec.movability
            && p.oldOffset == rec.offset && p.oldSize == rec.regionSize && p.newSize == rec.regionSize
            && p.newOffset == FirstAligned(lo, rec.alignment) && plan.bytesMoved == rec.regionSize
  {
    id, lo, hi :| Chosen(s.arena, plan, id, lo, hi);
    MoveIsCandidate(s, id, lo, hi);
    assert InStep(s.records[id], s.arena.live[id]) && LiveBlock(s.arena, id);
    RoundingMeaning(lo, s.arena.live[id].alignment);
    hide FreeRun, AlignUpChecked, Invariant, IsPow2, RoundUp, Prediction, Gain;
  }
}
