/** Watermarks, pressure classification, and what hysteresis does over a whole
    sequence of utilization samples. */
module Pressure {
  import opened Machine
  import opened Types
  import opened Doubles

  /** What a binary64 bit pattern denotes. */
  datatype Double = NaN | Infinite(negative: bool) | Finite(value: real)

  function Scaled(m: nat, exponent: int): real {
    if exponent >= 0 then m as real * Pow2(exponent) as real else m as real / Pow2(-exponent) as real
  }

  function FromBits(bits: u64): Double {
    var negative := bits / 0x8000_0000_0000_0000 == 1;
    var exponent := bits / 0x10_0000_0000_0000 % 0x800;
    var mantissa := bits % 0x10_0000_0000_0000;
    if exponent == 0x7FF then (if mantissa == 0 then Infinite(negative) else NaN)
    else
      var magnitude := if exponent == 0 then Scaled(mantissa, -1074)
                       else Scaled(0x10_0000_0000_0000 + mantissa, exponent - 1075);
      Finite(if negative then -magnitude else magnitude)
  }

  /** `u < d`; false when `d` is NaN. */
  predicate Below(u: real, d: Double) {
    match d
    case NaN => false
    case Infinite(negative) => !negative
    case Finite(v) => u < v
  }

  /** `u >= d`; false when `d` is NaN. */
  predicate AtLeast(u: real, d: Double) {
    d != NaN && !Below(u, d)
  }

  /** Half of a value; below 2^-1021 the last bit is rounded away. */
  function Half(bits: u64): Double {
    var d := FromBits(bits);
    var exponent := bits / 0x10_0000_0000_0000 % 0x800;
    var mantissa := bits % 0x10_0000_0000_0000;
    if !d.Finite? then d
    else if exponent > 1 then Finite(d.value / 2.0)
    else
      var magnitude := Scaled(Significand(exponent * 0x10_0000_0000_0000 + mantissa, 2), -1074);
      Finite(if d.value < 0.0 then -magnitude else magnitude)
  }

  /** Watermarks are kept as the bit patterns that are persisted. */
  datatype Watermarks = Watermarks(low: u64, high: u64, critical: u64, generation: u64) {
    predicate Valid() {
      var l, h, c := FromBits(low), FromBits(high), FromBits(critical);
      l.Finite? && h.Finite? && c.Finite?
      && 0.0 <= l.value <= 1.0 && l.value <= h.value <= 1.0 && h.value <= c.value <= 1.0
    }
  }

  lemma ScaledZero(exponent: int)
    ensures Scaled(0, exponent) == 0.0
  {
  }

  lemma ZeroWatermarks(generation: u64)
    ensures Watermarks(0, 0, 0, generation).Valid()
  {
    hide Scaled;
    ScaledZero(-1074);
    assert FromBits(0) == Finite(0.0);
  }

  predicate IsHigh(state: u8) {
    state == HIGH || state == CRITICAL
  }

  function Classify(u: real, wm: Watermarks, last: u8): u8 {
    var low, high, critical := FromBits(wm.low), FromBits(wm.high), FromBits(wm.critical);
    if last == HIGH || last == CRITICAL || last == RECLAIMING then
      if Below(u, low) then (if Below(u, Half(wm.low)) then LOW else NORMAL)
      else if AtLeast(u, critical) then CRITICAL
      else HIGH
    else if AtLeast(u, critical) then CRITICAL
    else if AtLeast(u, high) then HIGH
    else if AtLeast(u, low) then NORMAL
    else if Below(u, Half(wm.low)) then LOW
    else NORMAL
  }

  /** Both counts are converted to binary64, and so is their quotient. */
  function Utilization(managed: u64, committed: u64): real
    requires managed > 0
  {
    ToDoublePositive(managed);
    Divide(ToDouble(committed), ToDouble(managed))
  }

  /** More committed bytes never lower the utilization. */
  lemma UtilizationMonotone(managed: u64, committed: u64, committed': u64)
    requires committed <= committed' <= managed && managed > 0
    ensures 0.0 <= Utilization(managed, committed) <= Utilization(managed, committed')
  {
    ToDoubleMonotone(committed, committed');
    ToDoubleMonotone(committed', managed);
    ToDoublePositive(managed);
    DivideMonotone(ToDouble(committed), ToDouble(committed'), ToDouble(managed));
  }

  /** The utilization is the quotient of the converted counts to within 2^-53 of it, and of
      the counts themselves up to 2^53 bytes; each conversion is that close as well. */
  lemma UtilizationClose(managed: u64, committed: u64)
    requires committed <= managed && managed > 0
    ensures ToDouble(managed) > 0 && Close(Utilization(managed, committed), ToDouble(committed), ToDouble(managed))
    ensures -1 * committed <= (ToDouble(committed) - committed) * EXACT <= committed
    ensures -1 * managed <= (ToDouble(managed) - managed) * EXACT <= managed
    ensures managed <= EXACT ==> Close(Utilization(managed, committed), committed, managed)
  {
    ToDoublePositive(managed);
    ToDoubleMonotone(committed, managed);
    DivideClose(ToDouble(committed), ToDouble(managed));
    ToDoubleClose(committed);
    ToDoubleClose(managed);
    hide ToDouble, Divide, Close;
    if managed <= EXACT {
      ExactDouble(managed);
      ExactDouble(committed);
    }
  }

  function Evaluate(managed: u64, committed: u64, wm: Watermarks, last: u8): u8 {
    if managed == 0 then PRESSURE_UNKNOWN
    else Classify(Utilization(managed, committed), wm, last)
  }

  /** The state after classifying a sequence of samples one after another. */
  function After(start: u8, wm: Watermarks, samples: seq<real>): u8 {
    if samples == [] then start
    else Classify(samples[|samples| - 1], wm, After(start, wm, samples[..|samples| - 1]))
  }

  /** Some sample reached the high watermark and no later one fell below the low one. */
  ghost predicate HeldHigh(wm: Watermarks, samples: seq<real>) {
    exists i | 0 <= i < |samples| ::
      AtLeast(samples[i], FromBits(wm.high)) && forall j | i < j < |samples| :: AtLeast(samples[j], FromBits(wm.low))
  }

  lemma HeldHighExtends(wm: Watermarks, samples: seq<real>, u: real)
    requires wm.Valid()
    ensures HeldHigh(wm, samples + [u]) <==>
            AtLeast(u, FromBits(wm.high)) || (AtLeast(u, FromBits(wm.low)) && HeldHigh(wm, samples))
  {
    var s := samples + [u];
    if AtLeast(u, FromBits(wm.high)) {
      assert AtLeast(s[|samples|], FromBits(wm.high));
    } else if AtLeast(u, FromBits(wm.low)) && HeldHigh(wm, samples) {
      var i :| 0 <= i < |samples| && AtLeast(samples[i], FromBits(wm.high))
        && forall j | i < j < |samples| :: AtLeast(samples[j], FromBits(wm.low));
      assert AtLeast(s[i], FromBits(wm.high));
    }
    if HeldHigh(wm, s) && !AtLeast(u, FromBits(wm.high)) {
      var i :| 0 <= i < |s| && AtLeast(s[i], FromBits(wm.high))
        && forall j | i < j < |s| :: AtLeast(s[j], FromBits(wm.low));
      assert i < |samples| && AtLeast(samples[i], FromBits(wm.high));
      assert AtLeast(s[|samples|], FromBits(wm.low));
      forall j | i < j < |samples| ensures AtLeast(samples[j], FromBits(wm.low)) {
        assert s[j] == samples[j];
      }
    }
  }

  predicate Latched(state: u8) {
    IsHigh(state) || state == RECLAIMING
  }

  ghost predicate NeverLow(wm: Watermarks, samples: seq<real>) {
    forall j | 0 <= j < |samples| :: AtLeast(samples[j], FromBits(wm.low))
  }

  lemma NeverLowExtends(wm: Watermarks, samples: seq<real>, u: real)
    ensures NeverLow(wm, samples + [u]) <==> NeverLow(wm, samples) && AtLeast(u, FromBits(wm.low))
  {
    hide FromBits, AtLeast;
    var s := samples + [u];
    if NeverLow(wm, s) {
      forall j | 0 <= j < |samples| ensures AtLeast(samples[j], FromBits(wm.low)) {
        assert AtLeast(s[j], FromBits(wm.low));
      }
      assert AtLeast(s[|samples|], FromBits(wm.low));
    }
  }

  lemma ClassifyLatch(u: real, wm: Watermarks, last: u8)
    requires wm.Valid()
    ensures IsHigh(Classify(u, wm, last)) <==>
            AtLeast(u, FromBits(wm.high)) || (AtLeast(u, FromBits(wm.low)) && Latched(last))
    ensures Classify(u, wm, last) == CRITICAL <==> AtLeast(u, FromBits(wm.critical))
    ensures Classify(u, wm, last) != RECLAIMING
  {
    hide FromBits, Half;
  }

  lemma ScaledHalf(m: nat, exponent: int)
    ensures Scaled(m, exponent - 1) == Scaled(m, exponent) / 2.0
  {
    if exponent >= 1 {
      assert Pow2(exponent) == 2 * Pow2(exponent - 1);
    } else {
      assert Pow2(1 - exponent) == 2 * Pow2(-exponent);
    }
  }

  /** The least positive value. */
  const TINY: real := Scaled(1, -1074)

  lemma ScaledCount(m: nat)
    ensures Scaled(m, -1074) == m as real * TINY && TINY > 0.0
  {
    var d := Pow2(1074) as real;
    assert m as real / d == m as real * (1.0 / d);
  }

  /** Among the smallest values, halving an odd count rounds to the even neighbour. */
  lemma HalfCount(n: nat)
    ensures var k := Significand(n, 2); 2 * k - 1 <= n <= 2 * k + 1 && k <= n && (n % 2 == 0 ==> 2 * k == n)
  {
  }

  lemma SmallHalf(n: nat)
    ensures var v, h := Scaled(n, -1074), Scaled(Significand(n, 2), -1074);
            0.0 <= h <= v && -TINY <= 2.0 * h - v <= TINY
  {
    var k := Significand(n, 2);
    HalfCount(n);
    ScaledCount(n);
    ScaledCount(k);
    hide Scaled, Significand;
    var e := 2 * k - n;
    assert 2.0 * (k as real * TINY) - n as real * TINY == e as real * TINY;
    assert n as real * TINY - k as real * TINY == (n - k) as real * TINY;
  }

  lemma ScaledPositive(m: nat, exponent: int)
    ensures Scaled(m, exponent) >= 0.0
  {
  }

  lemma NormalHalf(bits: u64)
    requires bits / 0x10_0000_0000_0000 % 0x800 > 1 && FromBits(bits).Finite?
    ensures bits >= 0x10_0000_0000_0000 && Half(bits).Finite? && 2.0 * Half(bits).value == FromBits(bits).value
    ensures FromBits(bits - 0x10_0000_0000_0000) == Half(bits)
  {
    var exponent := bits / 0x10_0000_0000_0000 % 0x800;
    hide Scaled;
    OneExponentLess(bits);
    ScaledHalf(0x10_0000_0000_0000 + bits % 0x10_0000_0000_0000, exponent - 1075);
  }

  lemma SubnormalHalf(bits: u64)
    requires bits / 0x10_0000_0000_0000 % 0x800 <= 1 && FromBits(bits).Finite? && FromBits(bits).value >= 0.0
    ensures Half(bits).Finite?
    ensures var v, h := FromBits(bits).value, Half(bits).value; 0.0 <= h <= v && -TINY <= 2.0 * h - v <= TINY
  {
    var count := bits / 0x10_0000_0000_0000 % 0x800 * 0x10_0000_0000_0000 + bits % 0x10_0000_0000_0000;
    hide Scaled, Significand;
    SmallHalf(count);
    ScaledPositive(count, -1074);
  }

  /** Half of a non-negative value is never above it and off by at most half the least
      positive value; for a normal value it is exact, and its pattern is one exponent less. */
  lemma HalfMeaning(bits: u64)
    requires FromBits(bits).Finite? && FromBits(bits).value >= 0.0
    ensures Half(bits).Finite?
    ensures var v, h := FromBits(bits).value, Half(bits).value;
            && 0.0 <= h <= v && -TINY <= 2.0 * h - v <= TINY
            && (bits / 0x10_0000_0000_0000 % 0x800 > 1 ==>
                  2.0 * h == v && bits >= 0x10_0000_0000_0000 && FromBits(bits - 0x10_0000_0000_0000) == Half(bits))
  {
    ScaledCount(1);
    hide FromBits, Half, Scaled;
    if bits / 0x10_0000_0000_0000 % 0x800 > 1 {
      NormalHalf(bits);
    } else {
      SubnormalHalf(bits);
    }
  }

  lemma OneExponentLess(bits: u64)
    requires bits / 0x10_0000_0000_0000 % 0x800 > 1
    ensures bits >= 0x10_0000_0000_0000
    ensures var less := bits - 0x10_0000_0000_0000;
            && less / 0x8000_0000_0000_0000 == bits / 0x8000_0000_0000_0000
            && less / 0x10_0000_0000_0000 % 0x800 == bits / 0x10_0000_0000_0000 % 0x800 - 1
            && less % 0x10_0000_0000_0000 == bits % 0x10_0000_0000_0000
  {
  }

  lemma EmptyRun(wm: Watermarks)
    ensures !HeldHigh(wm, []) && NeverLow(wm, [])
  {
  }

  lemma HighIsLatched(state: u8)
    requires state != RECLAIMING
    ensures Latched(state) <==> IsHigh(state)
  {
  }

  /** Over any non-empty run of samples, from any state: the pressure ends high
      exactly when some sample reached `high` and every later one stayed at or
      above `low`, or the run started high and never fell below `low`; and it ends
      critical exactly when the latest sample reaches `critical`. */
  lemma {:induction false} Hysteresis(start: u8, wm: Watermarks, samples: seq<real>)
    requires wm.Valid() && samples != []
    ensures IsHigh(After(start, wm, samples)) <==> HeldHigh(wm, samples) || (Latched(start) && NeverLow(wm, samples))
    ensures After(start, wm, samples) == CRITICAL <==> AtLeast(samples[|samples| - 1], FromBits(wm.critical))
    ensures After(start, wm, samples) != RECLAIMING
  {
    hide Classify, IsHigh, Latched, HeldHigh, NeverLow, FromBits, AtLeast, Watermarks.Valid;
    var prefix, u := samples[..|samples| - 1], samples[|samples| - 1];
    assert samples == prefix + [u];
    HeldHighExtends(wm, prefix, u);
    NeverLowExtends(wm, prefix, u);
    ClassifyLatch(u, wm, After(start, wm, prefix));
    if prefix == [] {
      EmptyRun(wm);
    } else {
      Hysteresis(start, wm, prefix);
      HighIsLatched(After(start, wm, prefix));
    }
  }

  /** Below the high states: `low` pressure exactly under half the low watermark,
      whatever came before, and `normal` otherwise. */
  lemma BelowHigh(start: u8, wm: Watermarks, samples: seq<real>)
    requires wm.Valid() && samples != []
    ensures var p, u := After(start, wm, samples), samples[|samples| - 1];
            && (p == LOW <==> Below(u, Half(wm.low)))
            && (p == NORMAL <==> !IsHigh(p) && !Below(u, Half(wm.low)))
            && (IsHigh(p) ==> AtLeast(u, FromBits(wm.low)))
  {
    HalfMeaning(wm.low);
    ClassifyLow(samples[|samples| - 1], wm, After(start, wm, samples[..|samples| - 1]));
    hide FromBits, Half, Classify;
  }

  lemma ClassifyLow(u: real, wm: Watermarks, last: u8)
    requires wm.Valid() && Half(wm.low).Finite? && Half(wm.low).value <= FromBits(wm.low).value
    ensures var p := Classify(u, wm, last);
            && (p == LOW <==> Below(u, Half(wm.low)))
            && (p == NORMAL <==> !IsHigh(p) && !Below(u, Half(wm.low)))
            && (IsHigh(p) ==> AtLeast(u, FromBits(wm.low)))
  {
    hide FromBits, Half;
  }

  lemma TwoPow52()
    ensures Pow2(52) == 0x10_0000_0000_0000
  {
    assert Pow2(8) == 256;
    assert Pow2(16) == 65536;
    assert Pow2(24) == 0x100_0000;
    assert Pow2(32) == 0x1_0000_0000;
    assert Pow2(40) == 0x100_0000_0000;
    assert Pow2(48) == 0x1_0000_0000_0000;
  }

  /** The pattern of 1.0, and with it every power of two that halving reaches. */
  lemma OneBits()
    ensures FromBits(0x3FF0_0000_0000_0000) == Finite(1.0)
  {
    TwoPow52();
    hide Pow2;
  }

  /** Leaving and re-entering the high states takes a fall below `low` followed by
      a rise to `high`: a swing of more than their distance. */
  lemma ReentryNeedsSwing(start: u8, wm: Watermarks, samples: seq<real>, i: nat, j: nat, k: nat)
      returns (down: nat, up: nat)
    requires wm.Valid() && i < j < k <= |samples|
    requires IsHigh(After(start, wm, samples[..i])) && !IsHigh(After(start, wm, samples[..j]))
    requires IsHigh(After(start, wm, samples[..k]))
    ensures i <= down < j <= up < k
    ensures samples[up] - samples[down] > FromBits(wm.high).value - FromBits(wm.low).value
  {
    var s := samples[..k];
    Hysteresis(start, wm, s);
    down := FallsBetween(start, wm, samples, i, j);
    assert s[down] == samples[down] && !NeverLow(wm, s);
    up :| 0 <= up < |s| && AtLeast(s[up], FromBits(wm.high))
      && forall x | up < x < |s| :: AtLeast(s[x], FromBits(wm.low));
    HeldHighOfPrefix(wm, s, j, up);
    assert samples[..j] == s[..j];
    Hysteresis(start, wm, samples[..j]);
  }

  lemma HeldHighOfPrefix(wm: Watermarks, s: seq<real>, j: nat, up: nat)
    requires j <= |s| && up < |s| && AtLeast(s[up], FromBits(wm.high))
    requires forall x | up < x < |s| :: AtLeast(s[x], FromBits(wm.low))
    ensures up < j ==> HeldHigh(wm, s[..j])
  {
    if up < j {
      assert AtLeast(s[..j][up], FromBits(wm.high));
    }
  }

  lemma {:induction false} FallsBetween(start: u8, wm: Watermarks, samples: seq<real>, i: nat, j: nat)
      returns (down: nat)
    requires wm.Valid() && i < j <= |samples|
    requires IsHigh(After(start, wm, samples[..i])) && !IsHigh(After(start, wm, samples[..j]))
    ensures i <= down < j && samples[down] < FromBits(wm.low).value
    decreases j
  {
    hide *;
    var last := After(start, wm, samples[..j - 1]);
    AfterLast(start, wm, samples, j);
    if IsHigh(last) {
      down := j - 1;
      FallingIsBelow(samples[j - 1], wm, last);
    } else {
      down := FallsBetween(start, wm, samples, i, j - 1);
    }
  }

  lemma AfterLast(start: u8, wm: Watermarks, samples: seq<real>, j: nat)
    requires 0 < j <= |samples|
    ensures After(start, wm, samples[..j]) == Classify(samples[j - 1], wm, After(start, wm, samples[..j - 1]))
  {
    hide Classify;
    assert samples[..j][..j - 1] == samples[..j - 1];
  }

  lemma FallingIsBelow(u: real, wm: Watermarks, last: u8)
    requires wm.Valid() && IsHigh(last) && !IsHigh(Classify(u, wm, last))
    ensures u < FromBits(wm.low).value
  {
    hide FromBits;
  }
}
