/** The binary64 values of unsigned words, and the difference of two of them, as
    the planner compares them. */
module Doubles {
  /** Integers up to here are binary64 values. */
  const EXACT: nat := 0x20_0000_0000_0000

  /** The spacing of binary64 values around `x`. */
  function Spacing(x: nat): (u: nat)
    ensures u > 0
  {
    if x < EXACT then 1 else 2 * Spacing(x / 2)
  }

  /** The nearest multiple of `u`, as a multiplier; ties go to the even one. */
  function Significand(x: nat, u: nat): nat
    requires u > 0
  {
    var q, r := x / u, x % u;
    if 2 * r < u || (2 * r == u && q % 2 == 0) then q else q + 1
  }

  /** Round to the nearest binary64 value, ties to an even significand. */
  function ToDouble(x: nat): nat {
    Significand(x, Spacing(x)) * Spacing(x)
  }

  function Subtract(a: nat, b: nat): int {
    if a >= b then ToDouble(a - b) else -(ToDouble(b - a) as int)
  }

  /** The gain of a move: the rounded difference of two converted sizes. */
  function Gain(after: nat, before: nat): int {
    Subtract(ToDouble(after), ToDouble(before))
  }

  lemma ToDoublePositive(x: nat)
    requires x > 0
    ensures ToDouble(x) > 0
  {
    SpacingBounds(x);
    SignificandBounds(x);
    if Spacing(x) > 1 {
      MulMonotone(1, Significand(x, Spacing(x)), Spacing(x));
    }
  }

  lemma ExactDouble(x: nat)
    requires x <= EXACT
    ensures ToDouble(x) == x
  {
    assert x == EXACT ==> Spacing(x) == 2 * Spacing(EXACT / 2) == 2;
  }

  /** Up to 2^53 gains are exact. */
  lemma ExactGain(after: nat, before: nat)
    requires before <= after <= EXACT
    ensures Gain(after, before) == after - before
  {
    hide ToDouble;
    ExactDouble(after);
    ExactDouble(before);
    ExactDouble(after - before);
  }

  lemma MulMonotone(a: nat, b: nat, u: nat)
    requires a <= b
    ensures a * u <= b * u
  {
  }

  /** A value is between 2^52 and 2^53 spacings, once the spacing exceeds 1. */
  lemma {:induction false} SpacingBounds(x: nat)
    ensures x < EXACT * Spacing(x)
    ensures Spacing(x) > 1 ==> x >= EXACT / 2 * Spacing(x)
  {
    if x >= EXACT {
      var h := x / 2;
      SpacingBounds(h);
      assert 2 * h <= x < 2 * h + 2;
      if Spacing(h) == 1 {
        assert h >= EXACT / 2;
      }
    }
  }

  /** Spacings are ordered like the values, and differ by a factor of at least two. */
  lemma {:induction false} SpacingMonotone(x: nat, y: nat)
    requires x <= y
    ensures Spacing(x) == Spacing(y) || 2 * Spacing(x) <= Spacing(y)
  {
    if x >= EXACT {
      SpacingMonotone(x / 2, y / 2);
    } else if y >= EXACT {
      assert Spacing(x) == 1 && Spacing(y) == 2 * Spacing(y / 2);
    }
  }

  lemma {:induction false} QuotientBelow(x: nat, n: nat, u: nat)
    requires u > 0
    ensures x < n * u ==> x / u < n
    ensures x >= n * u ==> x / u >= n
  {
    var q := x / u;
    assert x == q * u + x % u;
    assert (q + 1) * u == q * u + u;
    if q >= n {
      MulMonotone(n, q, u);
    } else {
      MulMonotone(q + 1, n, u);
    }
  }

  /** Significands have at most 53 bits before a carry, and 53 once the spacing exceeds 1. */
  lemma SignificandBounds(x: nat)
    ensures Significand(x, Spacing(x)) <= EXACT
    ensures Spacing(x) > 1 ==> Significand(x, Spacing(x)) >= EXACT / 2
  {
    SpacingBounds(x);
    QuotientBelow(x, EXACT, Spacing(x));
    QuotientBelow(x, EXACT / 2, Spacing(x));
  }

  lemma QuotientMonotone(x: nat, y: nat, u: nat)
    requires u > 0 && x <= y
    ensures x / u < y / u || (x / u == y / u && x % u <= y % u)
  {
    var p, q := x / u, y / u;
    assert x == p * u + x % u && y == q * u + y % u;
    assert (q + 1) * u == q * u + u;
    if q < p {
      MulMonotone(q + 1, p, u);
    }
  }

  lemma SignificandMonotone(x: nat, y: nat, u: nat)
    requires u > 0 && x <= y
    ensures Significand(x, u) <= Significand(y, u)
  {
    QuotientMonotone(x, y, u);
  }

  /** Rounding keeps the order. */
  lemma ToDoubleMonotone(x: nat, y: nat)
    requires x <= y
    ensures ToDouble(x) <= ToDouble(y)
  {
    var u, v := Spacing(x), Spacing(y);
    SignificandBounds(x);
    SignificandBounds(y);
    SpacingMonotone(x, y);
    SignificandMonotone(x, y, u);
    hide Significand, Spacing;
    ProductMonotone(Significand(x, u), Significand(y, v), u, v);
  }

  lemma ProductMonotone(p: nat, q: nat, u: nat, v: nat)
    requires u > 0 && p <= EXACT && ((u == v && p <= q) || (2 * u <= v && q >= EXACT / 2))
    ensures p * u <= q * v
  {
    if u == v && p <= q {
      MulMonotone(p, q, u);
    } else {
      MulMonotone(p, EXACT, u);
      MulMonotone(EXACT / 2, q, v);
      assert EXACT * u == EXACT / 2 * (2 * u) <= EXACT / 2 * v;
    }
  }

  /** A larger result never has a smaller gain, and gains are not negative. */
  lemma GainMonotone(x: nat, y: nat, before: nat)
    requires before <= x <= y
    ensures 0 <= Gain(x, before) <= Gain(y, before)
  {
    hide ToDouble;
    ToDoubleMonotone(before, x);
    ToDoubleMonotone(x, y);
    ToDoubleMonotone(ToDouble(x) - ToDouble(before), ToDouble(y) - ToDouble(before));
  }

  // ------------------------------------------------------------- quotients

  /** The binary64 value nearest to p / q, for a quotient below 2^53: scaled to 53 bits,
      rounded to an integer, and scaled back. */
  function SmallQuotient(p: nat, q: nat): real
    requires 0 < p < EXACT * q
    decreases EXACT * q - p
  {
    if 2 * p >= EXACT * q then Significand(p, q) as real else SmallQuotient(2 * p, q) / 2.0
  }

  function LargeQuotient(p: nat, q: nat): real
    requires p > 0 && q > 0
    decreases p - q
  {
    if p < EXACT * q then SmallQuotient(p, q) else 2.0 * LargeQuotient(p, 2 * q)
  }

  /** Binary64 division of two unsigned values. */
  function Divide(p: nat, q: nat): real
    requires q > 0
  {
    if p == 0 then 0.0 else LargeQuotient(p, q)
  }

  lemma {:induction false} SmallQuotientMonotone(p: nat, p': nat, q: nat)
    requires 0 < p <= p' < EXACT * q
    ensures 0.0 <= SmallQuotient(p, q) <= SmallQuotient(p', q) <= EXACT as real
    decreases EXACT * q - p
  {
    SignificandInRange(p', q);
    SignificandInRange(p, q);
    if 2 * p >= EXACT * q {
      SignificandMonotone(p, p', q);
    } else if 2 * p' >= EXACT * q {
      SmallQuotientMonotone(2 * p, 2 * p, q);
    } else {
      SmallQuotientMonotone(2 * p, 2 * p', q);
    }
  }

  lemma SignificandInRange(p: nat, q: nat)
    requires p < EXACT * q
    ensures Significand(p, q) <= EXACT
    ensures 2 * p >= EXACT * q ==> 2 * Significand(p, q) >= EXACT
  {
    QuotientBelow(p, EXACT, q);
    if 2 * p >= EXACT * q {
      assert p >= EXACT / 2 * q;
      QuotientBelow(p, EXACT / 2, q);
    }
  }

  /** Halving keeps the order, so more bytes never divide to a lower value. */
  lemma DivideMonotone(p: nat, p': nat, q: nat)
    requires p <= p' <= q && q > 0
    ensures 0.0 <= Divide(p, q) <= Divide(p', q)
  {
    if p > 0 {
      SmallQuotientMonotone(p, p', q);
    } else if p' > 0 {
      SmallQuotientMonotone(p', p', q);
    }
  }

  /** `r` differs from p / q by at most 2^-53 of its value. */
  predicate Close(r: real, p: nat, q: nat) {
    var e := (r * q as real - p as real) * EXACT as real;
    -(p as real) <= e <= p as real
  }

  lemma {:induction false} SmallQuotientClose(p: nat, q: nat)
    requires 0 < p < EXACT * q
    ensures Close(SmallQuotient(p, q), p, q)
    decreases EXACT * q - p
  {
    hide Close;
    if 2 * p >= EXACT * q {
      SignificandClose(p, q);
      IntegerClose(Significand(p, q), p, q);
    } else {
      SmallQuotientClose(2 * p, q);
      HalfClose(SmallQuotient(2 * p, q), p, q);
    }
  }

  lemma IntegerClose(k: nat, p: nat, q: nat)
    requires 2 * p >= EXACT * q && -1 * q <= 2 * (k * q - p) <= q
    ensures Close(k as real, p, q)
  {
    var e := k * q - p;
    assert -1 * p <= e * EXACT <= p;
    assert (k as real) * (q as real) == (k * q) as real;
    assert (k as real) * (q as real) - p as real == e as real;
  }

  lemma HalfClose(s: real, p: nat, q: nat)
    requires Close(s, 2 * p, q)
    ensures Close(s / 2.0, p, q)
  {
    var x := s * q as real;
    assert (s / 2.0) * q as real == x / 2.0;
  }

  /** Rounding to an integer is off by at most a half. */
  lemma SignificandClose(p: nat, q: nat)
    requires q > 0
    ensures -1 * q <= 2 * (Significand(p, q) * q - p) <= q
  {
    var d := p / q;
    assert p == d * q + p % q;
    assert (d + 1) * q == d * q + q;
  }

  /** Conversion is off by at most 2^-53 of the value. */
  lemma ToDoubleClose(x: nat)
    ensures -1 * x <= (ToDouble(x) - x) * EXACT <= x
  {
    var u := Spacing(x);
    SignificandClose(x, u);
    SpacingBounds(x);
    hide Significand, Spacing;
    if u > 1 {
      assert EXACT / 2 * u <= x;
    } else {
      assert -1 <= 2 * (ToDouble(x) - x) <= 1;
    }
  }

  /** Dividing by at least as much is correct to 53 bits. */
  lemma DivideClose(p: nat, q: nat)
    requires p <= q && q > 0
    ensures Close(Divide(p, q), p, q)
  {
    if p > 0 {
      SmallQuotientClose(p, q);
    }
  }
}
