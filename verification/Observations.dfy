/** The pressure a run leaves behind, in terms of what its observations saw. */
module Observations {
  import opened Machine
  import opened Types
  import opened Records
  import opened Pressure
  import opened GovernorSpec
  import opened Reachability
  import ArenaSpec

  /** What an observation of `s` measures. */
  ghost function Measured(s: GovernorState): real {
    ArenaSpec.BytesSplit(s.arena);
    if s.domain.managedCapacity == 0 then 0.0
    else Utilization(s.domain.managedCapacity, |ArenaSpec.LiveBytes(s.arena)|)
  }

  /** The utilizations measured since the last recovery. */
  ghost function Samples(s: GovernorState, ops: seq<Op>): seq<real>
    decreases |ops|
  {
    if ops == [] then []
    else
      var init := ops[..|ops| - 1];
      match ops[|ops| - 1]
      case OpRecover => []
      case OpObserve => Samples(s, init) + [Measured(Run(s, init))]
      case _ => Samples(s, init)
  }

  /** The pressure before the first of those samples. */
  function Start(s: GovernorState, ops: seq<Op>): u8 {
    if OpRecover in ops then PRESSURE_REVALIDATION_REQUIRED else s.domain.pressure
  }

  /** Only observations and recoveries set the pressure; nothing changes the
      watermarks or the capacity. */
  lemma PressureStep(s: GovernorState, op: Op)
    ensures var d, d' := s.domain, Step(s, op).domain;
            && d'.watermarks == d.watermarks && d'.managedCapacity == d.managedCapacity
            && d'.pressure == match op
                              case OpRecover => PRESSURE_REVALIDATION_REQUIRED
                              case OpObserve => (if d.managedCapacity == 0 then PRESSURE_UNKNOWN
                                                 else Classify(Measured(s), d.watermarks, d.pressure))
                              case _ => d.pressure
  {
    hide ArenaSpec.Allocate, ArenaSpec.Relocate, ArenaSpec.Free, ArenaSpec.PinRegion, ArenaSpec.UnpinRegion,
         ArenaSpec.LiveBytes, Classify, Utilization, ValidateRequest;
  }

  /** Classify samples one after another; without capacity there is nothing to classify. */
  function PressureFrom(start: u8, d: MemoryDomain, samples: seq<real>): u8 {
    if d.managedCapacity > 0 then After(start, d.watermarks, samples)
    else if samples == [] then start
    else PRESSURE_UNKNOWN
  }

  lemma OneMoreSample(start: u8, d: MemoryDomain, samples: seq<real>, u: real)
    ensures PressureFrom(start, d, samples + [u]) ==
            if d.managedCapacity == 0 then PRESSURE_UNKNOWN
            else Classify(u, d.watermarks, PressureFrom(start, d, samples))
  {
    hide Classify;
    assert (samples + [u])[..|samples|] == samples;
  }

  lemma SamplesStep(s: GovernorState, init: seq<Op>, op: Op)
    ensures var ops := init + [op];
            && Samples(s, ops) == (match op
                                   case OpRecover => []
                                   case OpObserve => Samples(s, init) + [Measured(Run(s, init))]
                                   case _ => Samples(s, init))
            && Start(s, ops) == if op == OpRecover then PRESSURE_REVALIDATION_REQUIRED else Start(s, init)
  {
    hide Run, Measured;
    assert (init + [op])[..|init|] == init;
  }

  /** The stored pressure is the classification, one after another, of everything
      measured since the last recovery. */
  lemma {:induction false} PressureAfterRun(s: GovernorState, ops: seq<Op>)
    ensures Run(s, ops).domain.watermarks == s.domain.watermarks
    ensures Run(s, ops).domain.managedCapacity == s.domain.managedCapacity
    ensures Run(s, ops).domain.pressure == PressureFrom(Start(s, ops), s.domain, Samples(s, ops))
    decreases |ops|
  {
    if ops == [] {
      hide Step, Measured;
    } else {
      var init, op := ops[..|ops| - 1], ops[|ops| - 1];
      assert ops == init + [op];
      hide Step, Run, Measured, Classify, Samples, Start, PressureFrom;
      RunLast(s, ops);
      PressureAfterRun(s, init);
      PressureStep(Run(s, init), op);
      SamplesStep(s, init, op);
      OneMoreSample(Start(s, init), s.domain, Samples(s, init), Measured(Run(s, init)));
      NoSamples(s.domain);
    }
  }

  lemma NoSamples(d: MemoryDomain)
    ensures PressureFrom(PRESSURE_REVALIDATION_REQUIRED, d, []) == PRESSURE_REVALIDATION_REQUIRED
  {
  }

  /** Over any run: the stored pressure is high exactly when some observation since
      the last recovery reached `high` and every later one stayed at or above `low`,
      or the run started high, had no recovery and never fell below `low`; it is
      critical exactly when the latest observation reached `critical`, and low exactly
      when it was under half of `low`. */
  lemma StoredPressure(s: GovernorState, ops: seq<Op>)
    requires s.domain.watermarks.Valid() && s.domain.managedCapacity > 0 && Samples(s, ops) != []
    ensures var p, wm, v := Run(s, ops).domain.pressure, s.domain.watermarks, Samples(s, ops);
            && (IsHigh(p) <==> HeldHigh(wm, v) || (OpRecover !in ops && Latched(s.domain.pressure) && NeverLow(wm, v)))
            && (p == CRITICAL <==> AtLeast(v[|v| - 1], FromBits(wm.critical)))
            && (p == LOW <==> Below(v[|v| - 1], Half(wm.low)))
  {
    PressureAfterRun(s, ops);
    hide Run, Samples, After, HeldHigh, NeverLow, FromBits, AtLeast, Below, Half;
    BelowHigh(Start(s, ops), s.domain.watermarks, Samples(s, ops));
    Hysteresis(Start(s, ops), s.domain.watermarks, Samples(s, ops));
  }
}
