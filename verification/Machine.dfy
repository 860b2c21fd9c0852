/** Unsigned machine words and the two bit tricks the service relies on.

    A word is a bounded natural number; wrap-around is written out wherever the
    program can reach it.  Bitwise AND is defined on the binary digits, so that
    what the mask tricks compute is proved rather than postulated. */
module Machine {

  const TWO32: nat := 0x1_0000_0000
  const TWO64: nat := 0x1_0000_0000_0000_0000
  const MAX64: nat := 0xFFFF_FFFF_FFFF_FFFF

  type u8 = x: int | 0 <= x < 0x100
  type u32 = x: int | 0 <= x < 0x1_0000_0000
  type u64 = x: int | 0 <= x < 0x1_0000_0000_0000_0000

  function Add64(a: u64, b: u64): u64 {
    if a + b < TWO64 then a + b else a + b - TWO64
  }

  function Sub64(a: u64, b: u64): u64 {
    if a >= b then a - b else a - b + TWO64
  }

  /** Saturating subtraction (`sub` in the governor). */
  function SatSub(a: u64, b: u64): u64 {
    if a >= b then a - b else 0
  }

  function Min(a: int, b: int): int {
    if a <= b then a else b
  }

  function Max(a: int, b: int): int {
    if a >= b then a else b
  }

  /** Bitwise AND, one binary digit at a time. */
  function BitAnd(a: nat, b: nat): nat {
    if a == 0 || b == 0 then 0
    else (if a % 2 == 1 && b % 2 == 1 then 1 else 0) + 2 * BitAnd(a / 2, b / 2)
  }

  predicate IsPow2(v: u64) {
    v != 0 && BitAnd(v, v - 1) == 0
  }

  /** The arena's own rounding: 0 signals that the rounded value does not fit. */
  function AlignUp(v: u64, align: u64): u64 {
    if align == 0 then v
    else
      var mask := align - 1;
      var r := Add64(v, mask);
      if r < v then 0 else BitAndWord(r, MAX64 - mask)
  }

  /** The shared rounding helper: a no-op unless the alignment is a power of two. */
  function AlignUpChecked(v: u64, align: u64): u64 {
    if !IsPow2(align) then v else AlignUp(v, align)
  }

  function BitAndWord(a: u64, b: u64): u64 {
    BitAndBound(a, b);
    BitAnd(a, b)
  }

  function Pow2(k: nat): (p: nat)
    ensures p > 0
  {
    if k == 0 then 1 else 2 * Pow2(k - 1)
  }

  predicate Aligned(x: int, align: int) {
    align > 0 && x % align == 0
  }

  lemma {:induction false} BitAndBound(a: nat, b: nat)
    ensures BitAnd(a, b) <= a
  {
    if a != 0 && b != 0 {
      BitAndBound(a / 2, b / 2);
    }
  }

  lemma {:induction false} ZeroAndIsPow2(v: nat) returns (k: nat)
    requires v > 0 && BitAnd(v, v - 1) == 0
    ensures v == Pow2(k)
  {
    if v == 1 {
      k := 0;
    } else if v % 2 == 1 {
      assert v / 2 == (v - 1) / 2;
      BitAndSelf(v / 2);
      assert false;
    } else {
      assert (v - 1) / 2 == v / 2 - 1;
      k := ZeroAndIsPow2(v / 2);
      k := k + 1;
    }
  }

  lemma {:induction false} Pow2HasZeroAnd(k: nat)
    ensures BitAnd(Pow2(k), Pow2(k) - 1) == 0
  {
    if k > 0 {
      var v := Pow2(k);
      assert (v - 1) / 2 == v / 2 - 1 && v / 2 == Pow2(k - 1);
      Pow2HasZeroAnd(k - 1);
    }
  }

  lemma {:induction false} BitAndSelf(v: nat)
    ensures BitAnd(v, v) == v
  {
    if v != 0 {
      BitAndSelf(v / 2);
    }
  }

  /** `v & (v - 1)` tests powers of two, on every 64-bit value. */
  lemma IsPow2Meaning(v: u64)
    ensures IsPow2(v) <==> exists k: nat :: v == Pow2(k)
  {
    if IsPow2(v) {
      var k := ZeroAndIsPow2(v);
    }
    forall k: nat | v == Pow2(k) ensures IsPow2(v) {
      Pow2HasZeroAnd(k);
    }
  }

  ghost predicate PowerOfTwo(v: int) {
    exists k: nat :: v == Pow2(k)
  }

  lemma PowerTest(v: u64)
    ensures IsPow2(v) <==> PowerOfTwo(v)
  {
    IsPow2Meaning(v);
    if PowerOfTwo(v) {
      var k: nat :| v == Pow2(k);
      assert exists i: nat :: v == Pow2(i);
    }
  }

  lemma {:induction false} Pow2Monotone(j: nat, k: nat)
    requires j <= k
    ensures Pow2(j) <= Pow2(k)
  {
    if j < k {
      Pow2Monotone(j, k - 1);
    }
  }

  lemma {:induction false} Pow2Divides(j: nat, k: nat) returns (q: nat)
    requires j <= k
    ensures Pow2(k) == q * Pow2(j)
  {
    if j == k {
      q := 1;
    } else {
      var q' := Pow2Divides(j, k - 1);
      q := 2 * q';
    }
  }

  lemma BitAndUnfold(a: nat, b: nat)
    requires a > 0 && b > 0
    ensures BitAnd(a, b) == (if a % 2 == 1 && b % 2 == 1 then 1 else 0) + 2 * BitAnd(a / 2, b / 2)
  {
  }

  /** The greatest multiple of `p` that is not above `r`. */
  function Floor(r: nat, p: nat): int
    requires p > 0
  {
    r - r % p
  }

  /** Clearing the low `k` bits of a number below 2^w. */
  lemma {:induction false} HighBits(r: nat, k: nat, w: nat)
    requires k <= w && r < Pow2(w)
    ensures Pow2(k) <= Pow2(w)
    ensures BitAnd(r, Pow2(w) - Pow2(k)) == Floor(r, Pow2(k))
    decreases k
  {
    hide *;
    if k == 0 {
      HighBitsOfUnits(r, w);
    } else {
      Pow2Doubles(k);
      Pow2Doubles(w);
      HighBits(r / 2, k - 1, w - 1);
      HighBitsStep(r, Pow2(k - 1), Pow2(w - 1), Pow2(k), Pow2(w));
    }
  }

  lemma HighBitsOfUnits(r: nat, w: nat)
    requires r < Pow2(w)
    ensures Pow2(0) == 1 && BitAnd(r, Pow2(w) - Pow2(0)) == Floor(r, Pow2(0))
  {
    AllOnes(r, w);
    assert r % 1 == 0;
    hide BitAnd;
  }

  lemma Pow2Doubles(k: nat)
    requires k > 0
    ensures Pow2(k) == 2 * Pow2(k - 1)
  {
  }

  lemma HighBitsStep(r: nat, p: nat, q: nat, p2: nat, q2: nat)
    requires 0 < p <= q && r < q2 && p2 == 2 * p && q2 == 2 * q
    requires BitAnd(r / 2, q - p) == Floor(r / 2, p)
    ensures BitAnd(r, q2 - p2) == Floor(r, p2)
  {
    HalfMod(r, p);
    var b := q2 - p2;
    assert b / 2 == q - p && b % 2 == 0;
    if r == 0 || b == 0 {
      assert BitAnd(r / 2, q - p) == 0;
    } else {
      BitAndUnfold(r, b);
    }
  }

  lemma {:induction false} AllOnes(r: nat, w: nat)
    requires r < Pow2(w)
    ensures BitAnd(r, Pow2(w) - 1) == r
  {
    if w > 0 && r > 0 {
      var p := Pow2(w - 1);
      assert Pow2(w) == 2 * p;
      hide Pow2;
      AllOnes(r / 2, w - 1);
      var b := 2 * p - 1;
      assert b / 2 == p - 1 && b % 2 == 1;
      BitAndUnfold(r, b);
      hide BitAnd;
    }
  }

  lemma HalfMod(r: nat, p: nat)
    requires p > 0
    ensures r - r % (2 * p) == 2 * (r / 2 - r / 2 % p)
  {
    var q := Quotient(r / 2, p);
    var m := 2 * (r / 2 % p) + r % 2;
    assert q * (2 * p) == 2 * (q * p);
    ModUnique(r, 2 * p, q, m);
  }

  lemma {:induction false} MulAtLeast(a: int, d: int)
    requires a >= 1 && d > 0
    ensures a * d >= d
    decreases a
  {
    if a > 1 {
      MulAtLeast(a - 1, d);
      assert a * d == (a - 1) * d + d;
    }
  }

  lemma QuotientOrder(p: int, q: int, d: int)
    requires p < q && d > 0
    ensures p * d + d <= q * d
  {
    MulAtLeast(q - p, d);
    assert (q - p) * d == q * d - p * d;
  }

  lemma Quotient(x: int, d: int) returns (q: int)
    requires d > 0
    ensures x == q * d + x % d && 0 <= x % d < d
  {
    q := x / d;
  }

  lemma ModUnique(x: int, d: int, q: int, m: int)
    requires d > 0 && x == q * d + m && 0 <= m < d
    ensures x % d == m
  {
    var p := Quotient(x, d);
    if p > q {
      QuotientOrder(q, p, d);
    } else if p < q {
      QuotientOrder(p, q, d);
    }
  }

  lemma MultiplesGap(x: int, y: int, d: int)
    requires d > 0 && x % d == 0 && y % d == 0 && x < y
    ensures x + d <= y
  {
    var p := Quotient(x, d);
    var q := Quotient(y, d);
    if p > q {
      QuotientOrder(q, p, d);
    } else if p < q {
      QuotientOrder(p, q, d);
    }
  }

  lemma RoundDown(r: int, d: int)
    requires d > 0
    ensures (r - r % d) % d == 0 && r - d < r - r % d <= r
  {
    var q := Quotient(r, d);
    ModUnique(r - r % d, d, q, 0);
  }

  lemma TwoPow64()
    ensures Pow2(64) == TWO64
  {
    assert Pow2(8) == 256;
    assert Pow2(16) == 65536;
    assert Pow2(24) == 0x100_0000;
    assert Pow2(32) == TWO32;
    assert Pow2(40) == 0x100_0000_0000;
    assert Pow2(48) == 0x1_0000_0000_0000;
    assert Pow2(56) == 0x100_0000_0000_0000;
  }

  /** A power-of-two word divides 2^64. */
  lemma Pow2DividesWord(align: u64)
    requires IsPow2(align)
    ensures TWO64 % align == 0
  {
    IsPow2Meaning(align);
    var k: nat :| align == Pow2(k);
    TwoPow64();
    if k >= 64 {
      Pow2Monotone(64, k);
    }
    var q := Pow2Divides(k, 64);
    ModUnique(TWO64, align, q, 0);
  }

  lemma MaskRoundsDown(r: u64, align: u64)
    requires IsPow2(align)
    ensures BitAndWord(r, MAX64 - (align - 1)) == r - r % align
  {
    IsPow2Meaning(align);
    var k: nat :| align == Pow2(k);
    TwoPow64();
    if k >= 64 {
      Pow2Monotone(64, k);
    }
    HighBits(r, k, 64);
  }

  lemma AlignUpArithmetic(v: u64, align: u64)
    requires IsPow2(align)
    ensures var sum := v + align - 1;
            AlignUp(v, align) == if sum < TWO64 then sum - sum % align else 0
  {
    var mask := align - 1;
    if v + mask < TWO64 {
      assert Add64(v, mask) == v + mask;
      MaskRoundsDown(v + mask, align);
    } else {
      assert Add64(v, mask) < v;
    }
  }

  lemma LeastMultiple(v: int, align: int, m: int)
    requires align > 0 && v <= m && m % align == 0
    ensures var sum := v + align - 1; v <= sum - sum % align <= m
  {
    var sum := v + align - 1;
    RoundDown(sum, align);
    if m < sum - sum % align {
      MultiplesGap(m, sum - sum % align, align);
    }
  }

  /** `(v + mask) & ~mask` is the least multiple of a power of two that is not
      below `v`; the result 0 for a positive `v` says exactly that this multiple
      is not a 64-bit number. */
  lemma AlignUpMeaning(v: u64, align: u64)
    requires IsPow2(align)
    ensures var r := AlignUp(v, align);
            && Aligned(r, align)
            && (v <= r < v + align || (r == 0 && v > 0))
            && forall m: int :: v <= m && Aligned(m, align) ==> if r >= v then r <= m else m >= TWO64
  {
    AlignUpArithmetic(v, align);
    var r := AlignUp(v, align);
    RoundDown(v + align - 1, align);
    ModUnique(0, align, 0, 0);
    forall m: int | v <= m && Aligned(m, align)
      ensures if r >= v then r <= m else m >= TWO64
    {
      LeastMultiple(v, align, m);
      Pow2DividesWord(align);
      if r < v && m < TWO64 {
        MultiplesGap(m, TWO64, align);
      }
    }
  }
}
