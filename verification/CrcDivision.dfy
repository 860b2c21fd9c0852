/** What the checksum is: the remainder of a polynomial division over the field of two
    elements, as ISO 3309 and RFC 1952, section 8, define it. */
module CrcDivision {
  import opened Machine
  import opened Types
  import opened Crc

  // ---------------------------------------------------------- polynomials

  /** A polynomial over the field of two elements, as the set of its exponents. */
  type Poly = set<nat>

  function Add(p: Poly, q: Poly): Poly {
    (p - q) + (q - p)
  }

  /** Multiplication by x. */
  ghost function Shift(p: Poly): Poly {
    set d | d in p :: d + 1
  }

  /** The generator: x^32 + x^26 + x^23 + x^22 + x^16 + x^12 + x^11 + x^10 + x^8 + x^7 +
      x^5 + x^4 + x^2 + x + 1. */
  const GENERATOR: Poly := {32, 26, 23, 22, 16, 12, 11, 10, 8, 7, 5, 4, 2, 1, 0}

  /** The bits of a message, highest power first, times `unit`. */
  ghost function Times(bits: seq<bool>, unit: Poly): Poly {
    if bits == [] then {}
    else Add(Shift(Times(bits[..|bits| - 1], unit)), if bits[|bits| - 1] then unit else {})
  }

  /** Multiplication by x^n. */
  ghost function ShiftBy(p: Poly, n: nat): Poly {
    if n == 0 then p else Shift(ShiftBy(p, n - 1))
  }

  lemma ShiftMember(p: Poly, d: nat)
    ensures d in Shift(p) <==> d > 0 && d - 1 in p
  {
    if d > 0 && d - 1 in p {
      assert (d - 1) + 1 == d;
    }
  }

  lemma ShiftAdd(p: Poly, q: Poly)
    ensures Shift(Add(p, q)) == Add(Shift(p), Shift(q))
  {
    forall d: nat ensures d in Shift(Add(p, q)) <==> d in Add(Shift(p), Shift(q)) {
      ShiftMember(p, d);
      ShiftMember(q, d);
      ShiftMember(Add(p, q), d);
    }
  }


  lemma AddAssoc(a: Poly, b: Poly, c: Poly)
    ensures Add(Add(a, b), c) == Add(a, Add(b, c))
  {
  }

  // ------------------------------------------------- the bits of a register

  predicate Low(s: bv32) {
    s & 1 == 1
  }

  function Down(s: bv32): bv32 {
    s >> 1
  }

  /** Bit `i`, counted from the low end. */
  predicate Bit(s: bv32, i: nat)
    decreases i
  {
    if i == 0 then Low(s) else Bit(Down(s), i - 1)
  }

  lemma LowXor(a: bv32, b: bv32)
    ensures Low(Xor(a, b)) <==> Low(a) != Low(b)
  {
  }

  lemma DownXor(a: bv32, b: bv32)
    ensures Down(Xor(a, b)) == Xor(Down(a), Down(b))
  {
  }

  lemma {:induction false} BitXor(a: bv32, b: bv32, i: nat)
    ensures Bit(Xor(a, b), i) <==> Bit(a, i) != Bit(b, i)
    decreases i
  {
    hide Low, Down, Xor;
    if i == 0 {
      LowXor(a, b);
    } else {
      DownXor(a, b);
      BitXor(Down(a), Down(b), i - 1);
    }
  }

  lemma DownZero()
    ensures Down(0) == 0 && !Low(0)
  {
  }

  lemma {:induction false} ZeroBits(i: nat)
    ensures !Bit(0, i)
    decreases i
  {
    DownZero();
    hide Low, Down;
    if i > 0 {
      ZeroBits(i - 1);
    }
  }

  function DropFour(s: bv32): bv32 {
    Down(Down(Down(Down(s))))
  }

  lemma BitDropped(s: bv32, i: nat)
    ensures Bit(s, i + 4) <==> Bit(DropFour(s), i)
  {
    hide Low, Down;
    assert Bit(s, i + 4) == Bit(Down(s), i + 3) == Bit(Down(Down(s)), i + 2);
    assert Bit(Down(Down(s)), i + 2) == Bit(Down(Down(Down(s))), i + 1) == Bit(Down(Down(Down(Down(s)))), i);
  }

  lemma LowFour(s: bv32)
    ensures Bit(s, 0) <==> s & 1 == 1
    ensures Bit(s, 1) <==> s & 2 == 2
    ensures Bit(s, 2) <==> s & 4 == 4
    ensures Bit(s, 3) <==> s & 8 == 8
  {
    assert Bit(s, 1) == Bit(Down(s), 0) && Bit(s, 2) == Bit(Down(Down(s)), 0);
    assert Bit(s, 3) == Bit(Down(Down(s)), 1) == Bit(Down(Down(Down(s))), 0);
    LowFourBits(s);
  }

  lemma LowFourBits(s: bv32)
    ensures Low(Down(s)) <==> s & 2 == 2
    ensures Low(Down(Down(s))) <==> s & 4 == 4
    ensures Low(Down(Down(Down(s)))) <==> s & 8 == 8
  {
  }

  predicate InRegister(s: bv32, d: nat) {
    d < 32 && Bit(s, 31 - d)
  }

  /** The polynomial a register stands for: the low bit is the highest power. */
  ghost function Register(s: bv32): Poly {
    set d: nat | d < 32 && InRegister(s, d)
  }

  // --------------------------------------------- one bit is one division step

  lemma GeneratorNibble(s: bv32, i: nat)
    requires i < 4
    ensures Bit(s, i) <==> (if i == 0 then s & 1 == 1 else if i == 1 then s & 2 == 2 else if i == 2 then s & 4 == 4
                            else s & 8 == 8)
  {
    LowFour(s);
    hide Bit;
  }

  /** The register constant holds the generator without its leading power. */
  lemma GeneratorBits(d: nat)
    requires d < 32
    ensures InRegister(POLYNOMIAL, d) <==> d in GENERATOR
  {
    hide Bit;
    var i := 31 - d;
    var a := DropFour(POLYNOMIAL);
    var b := DropFour(a);
    var c := DropFour(b);
    var e := DropFour(c);
    var f := DropFour(e);
    var g := DropFour(f);
    var h := DropFour(g);
    if i >= 4 { BitDropped(POLYNOMIAL, i - 4); }
    if i >= 8 { BitDropped(a, i - 8); }
    if i >= 12 { BitDropped(b, i - 12); }
    if i >= 16 { BitDropped(c, i - 16); }
    if i >= 20 { BitDropped(e, i - 20); }
    if i >= 24 { BitDropped(f, i - 24); }
    if i >= 28 { BitDropped(g, i - 28); }
    assert a == 0x0EDB8832 && b == 0x00EDB883 && c == 0x000EDB88 && e == 0x0000EDB8;
    assert f == 0x00000EDB && g == 0x000000ED && h == 0x0000000E;
    GeneratorNibble(if i < 4 then POLYNOMIAL else if i < 8 then a else if i < 12 then b else if i < 16 then c
                    else if i < 20 then e else if i < 24 then f else if i < 28 then g else h, i % 4);
  }

  lemma DropAll(s: bv32)
    ensures DropFour(DropFour(DropFour(DropFour(DropFour(DropFour(DropFour(DropFour(s)))))))) == 0
  {
  }

  lemma NoHighBit(s: bv32)
    ensures !Bit(s, 32)
  {
    DropAll(s);
    hide *;
    BitDropped(s, 28);
    var a := DropFour(s);
    BitDropped(a, 24);
    var b := DropFour(a);
    BitDropped(b, 20);
    var c := DropFour(b);
    BitDropped(c, 16);
    var d := DropFour(c);
    BitDropped(d, 12);
    var e := DropFour(d);
    BitDropped(e, 8);
    var f := DropFour(e);
    BitDropped(f, 4);
    BitDropped(DropFour(f), 0);
    ZeroBits(0);
  }

  lemma StepParts(s: bv32)
    ensures Step(s) == Xor(Down(s), if Low(s) then POLYNOMIAL else 0)
  {
  }

  lemma StepBit(s: bv32, i: nat)
    ensures Bit(Step(s), i) <==> Bit(s, i + 1) != (Bit(s, 0) && Bit(POLYNOMIAL, i))
  {
    StepParts(s);
    assert Bit(s, i + 1) == Bit(Down(s), i) && Bit(s, 0) == Low(s);
    hide Step, Xor, Down, Low, Bit;
    BitXor(Down(s), if Low(s) then POLYNOMIAL else 0, i);
    ZeroBits(i);
  }

  /** One bit step multiplies by x and takes the generator away if its leading power appears. */
  lemma StepDivides(s: bv32)
    ensures Shift(Register(s)) == Add(Register(Step(s)), if Bit(s, 0) then GENERATOR else {})
  {
    hide Step, Bit;
    var taken: Poly := if Bit(s, 0) then GENERATOR else {};
    forall d: nat ensures d in Shift(Register(s)) <==> d in Add(Register(Step(s)), taken) {
      ShiftMember(Register(s), d);
      if d < 32 {
        StepBit(s, 31 - d);
        GeneratorBits(d);
        NoHighBit(s);
      }
    }
  }

  /** A message bit enters at the low end. */
  function Absorb(s: bv32, c: bool): bv32 {
    Step(if c then Xor(s, 1) else s)
  }

  function FeedBits(s: bv32, bits: seq<bool>): bv32 {
    if bits == [] then s else Absorb(FeedBits(s, bits[..|bits| - 1]), bits[|bits| - 1])
  }

  lemma {:induction false} OneBits(i: nat)
    ensures Bit(1, i) <==> i == 0
  {
    assert Down(1) == 0 && Low(1);
    if i > 0 {
      ZeroBits(i - 1);
    }
  }

  lemma EnteredBit(s: bv32, c: bool)
    ensures Register(if c then Xor(s, 1) else s) == Add(Register(s), if c then {31} else {})
    ensures Bit(if c then Xor(s, 1) else s, 0) <==> Bit(s, 0) != c
  {
    hide Bit, Xor;
    BitXor(s, 1, 0);
    OneBits(0);
    forall d: nat | d < 32 ensures InRegister(Xor(s, 1), d) <==> InRegister(s, d) != (d == 31) {
      BitXor(s, 1, 31 - d);
      OneBits(31 - d);
    }
  }

  /** Message and generator multiples grow by one bit at a time. */
  lemma TimesNext(bits: seq<bool>, c: bool, unit: Poly)
    ensures Times(bits + [c], unit) == Add(Shift(Times(bits, unit)), if c then unit else {})
  {
    assert (bits + [c])[..|bits|] == bits;
  }

  lemma FeedNext(s: bv32, bits: seq<bool>, c: bool)
    ensures FeedBits(s, bits + [c]) == Absorb(FeedBits(s, bits), c)
  {
    hide Absorb;
    assert (bits + [c])[..|bits|] == bits;
  }

  lemma ShiftedTop()
    ensures Shift({31}) == {32} && Shift({}) == {}
  {
  }

  /** Absorbing a bit: multiply by x, add the bit at x^32, take the generator away if needed. */
  lemma AbsorbDivides(s: bv32, c: bool)
    ensures Add(Shift(Register(s)), if c then {32} else {}) ==
            Add(Register(Absorb(s, c)), if Bit(s, 0) != c then GENERATOR else {})
  {
    var entered := if c then Xor(s, 1) else s;
    hide Bit, Xor, Step, Add, Shift;
    EnteredBit(s, c);
    StepDivides(entered);
    ShiftAdd(Register(s), if c then {31} else {});
    ShiftedTop();
  }

  // ---------------------------------------------------------- the division

  /** Dividing the message, preceded by the initial register, by the generator: some
      quotient leaves the final register as the remainder. */
  lemma {:induction false} Division(s: bv32, bits: seq<bool>) returns (q: seq<bool>)
    ensures |q| == |bits|
    ensures Add(ShiftBy(Register(s), |bits|), Times(bits, {32})) ==
            Add(Times(q, GENERATOR), Register(FeedBits(s, bits)))
    decreases |bits|
  {
    if bits == [] {
      q := [];
    } else {
      var init, c := bits[..|bits| - 1], bits[|bits| - 1];
      assert bits == init + [c];
      var q' := Division(s, init);
      var r := FeedBits(s, init);
      q := q' + [Bit(r, 0) != c];
      AbsorbDivides(r, c);
      hide Add, Shift, Times, Register, Absorb, Bit;
      DivisionStep(ShiftBy(Register(s), |init|), init, c, q', Bit(r, 0) != c, Register(r), Register(Absorb(r, c)));
      FeedNext(s, init, c);
    }
  }

  lemma DivisionStep(start: Poly, bits: seq<bool>, c: bool, q: seq<bool>, top: bool, r: Poly, r': Poly)
    requires Add(start, Times(bits, {32})) == Add(Times(q, GENERATOR), r)
    requires Add(Shift(r), if c then {32} else {}) == Add(r', if top then GENERATOR else {})
    ensures Add(Shift(start), Times(bits + [c], {32})) == Add(Times(q + [top], GENERATOR), r')
  {
    var m, k := Times(bits, {32}), Times(q, GENERATOR);
    var bit: Poly := if c then {32} else {};
    var taken: Poly := if top then GENERATOR else {};
    TimesNext(bits, c, {32});
    TimesNext(q, top, GENERATOR);
    ShiftAdd(start, m);
    ShiftAdd(k, r);
    hide Add, Shift, Times;
    AddAssoc(Shift(start), Shift(m), bit);
    AddAssoc(Shift(k), Shift(r), bit);
    AddAssoc(Shift(k), r', taken);
    AddAssoc(Shift(k), taken, r');
    AddCommutes(r', taken);
  }

  lemma AddCommutes(a: Poly, b: Poly)
    ensures Add(a, b) == Add(b, a)
  {
  }

  // ----------------------------------------------------- bytes, low bit first

  lemma HalfByte(x: bv8)
    ensures (x >> 1) as int == x as int / 2 && (x & 1 == 1 <==> x as int % 2 == 1)
  {
  }

  lemma WidenHalf(x: bv8)
    ensures (x as bv32) >> 1 == (x >> 1) as bv32 && ((x as bv32) & 1 == 1 <==> x & 1 == 1)
  {
  }

  lemma WidenDown(b: u8)
    ensures Down(Widen(b)) == Widen(b / 2) && (Low(Widen(b)) <==> b % 2 == 1)
  {
    ByteThere(b);
    var x := b as bv8;
    HalfByte(x);
    WidenHalf(x);
    ByteBack(x >> 1);
  }

  /** The lowest `n` binary digits, lowest first. */
  function Digits(v: nat, n: nat): seq<bool> {
    if n == 0 then [] else [v % 2 == 1] + Digits(v / 2, n - 1)
  }

  function Bits(b: Bytes): seq<bool> {
    if b == [] then [] else Digits(b[0], 8) + Bits(b[1..])
  }

  lemma {:induction false} FeedBitsConcat(s: bv32, x: seq<bool>, y: seq<bool>)
    ensures FeedBits(s, x + y) == FeedBits(FeedBits(s, x), y)
    decreases |y|
  {
    hide Absorb;
    if y == [] {
      assert x + y == x;
    } else {
      var init, c := y[..|y| - 1], y[|y| - 1];
      assert x + y == (x + init) + [c] && y == init + [c];
      FeedNext(s, x + init, c);
      FeedNext(FeedBits(s, x), init, c);
      FeedBitsConcat(s, x, init);
    }
  }

  function ClearLow(w: bv32): bv32 {
    w & 0xFFFFFFFE
  }

  lemma ClearedLow(w: bv32)
    ensures ClearLow(w) & 1 == 0 && Down(w) == ClearLow(w) >> 1
  {
  }

  lemma LowAndRest(w: bv32)
    ensures w == if Low(w) then Xor(1, ClearLow(w)) else ClearLow(w)
  {
  }

  lemma SplitLow(s: bv32, w: bv32)
    ensures Xor(s, w) == Xor(if Low(w) then Xor(s, 1) else s, ClearLow(w))
  {
    LowAndRest(w);
    XorAssoc(s, 1, ClearLow(w));
    hide *;
  }

  /** The low bit of a byte enters with the step; the others move down with the register. */
  lemma StepEnters(s: bv32, w: bv32)
    ensures Step(Xor(s, w)) == Xor(Absorb(s, Low(w)), Down(w))
  {
    SplitLow(s, w);
    ClearedLow(w);
    hide Xor, Step, Low, Down, ClearLow;
    StepShift(if Low(w) then Xor(s, 1) else s, ClearLow(w), Down(w));
  }

  lemma XorZero(s: bv32)
    ensures Xor(s, Widen(0)) == s
  {
    ByteThere(0);
    assert 0 as bv8 == 0;
  }

  lemma {:induction false} ByteEnters(s: bv32, v: u8, n: nat)
    requires v < Pow2(n)
    ensures Steps(Xor(s, Widen(v)), n) == FeedBits(s, Digits(v, n))
    decreases n
  {
    hide Xor, Widen, Step, Absorb, Low, Down;
    if n == 0 {
      XorZero(s);
    } else {
      var c := v % 2 == 1;
      WidenDown(v);
      StepEnters(s, Widen(v));
      ByteEnters(Absorb(s, c), v / 2, n - 1);
      FeedBitsConcat(s, [c], Digits(v / 2, n - 1));
      FeedNext(s, [], c);
      assert [] + [c] == [c];
    }
  }

  lemma {:induction false} FeedIsBits(s: bv32, b: Bytes)
    ensures Feed(s, b) == FeedBits(s, Bits(b))
    decreases |b|
  {
    hide Steps, Xor, Widen, FeedBits, Digits;
    if b == [] {
      EmptyFeed(s);
    } else {
      assert Pow2(8) == 256;
      ByteEnters(s, b[0], 8);
      FeedIsBits(ByteStep(s, b[0]), b[1..]);
      FeedBitsConcat(s, Digits(b[0], 8), Bits(b[1..]));
    }
  }

  lemma EmptyFeed(s: bv32)
    ensures FeedBits(s, []) == s
  {
  }

  lemma {:induction false} BitsCount(b: Bytes)
    ensures |Bits(b)| == 8 * |b|
  {
    if b != [] {
      BitsCount(b[1..]);
      DigitsCount(b[0], 8);
    }
  }

  lemma {:induction false} DigitsCount(v: nat, n: nat)
    ensures |Digits(v, n)| == n
  {
    if n > 0 {
      DigitsCount(v / 2, n - 1);
    }
  }

  // ------------------------------------------------------------ remainders

  /** `r` is a remainder of `p` under division by the generator. */
  ghost predicate Remainder(p: Poly, r: Poly) {
    (forall d | d in r :: d < 32) && exists q: seq<bool> :: p == Add(Times(q, GENERATOR), r)
  }

  /** The highest power of a polynomial, at least that of the generator. */
  ghost predicate HighTop(p: Poly, top: nat) {
    top >= 32 && top in p && forall d | d in p :: d <= top
  }

  lemma NextTop(m: Poly, top: nat, g: Poly)
    requires HighTop(m, top) && forall d | d in g :: d <= 32
    ensures HighTop(Add(Shift(m), g), top + 1)
  {
    ShiftMember(m, top + 1);
    forall d | d in Add(Shift(m), g) ensures d <= top + 1 {
      ShiftMember(m, d);
    }
  }

  lemma GeneratorTop()
    ensures HighTop(GENERATOR, 32)
  {
  }

  lemma NothingAdded(p: Poly)
    ensures Add({}, p) == p
  {
  }

  /** A multiple of a polynomial with the generator's top is nothing, or has a power of at
      least 32 on top. */
  lemma {:induction false} MultipleTop(q: seq<bool>, g: Poly) returns (top: nat)
    requires HighTop(g, 32)
    ensures Times(q, g) == {} || HighTop(Times(q, g), top)
    decreases |q|
  {
    top := 32;
    if q != [] {
      var init := q[..|q| - 1];
      var added: Poly := if q[|q| - 1] then g else {};
      var m := Times(init, g);
      var t := MultipleTop(init, g);
      assert Times(q, g) == Add(Shift(m), added);
      hide Times, Add, Shift;
      if m == {} {
        ShiftedTop();
        NothingAdded(added);
      } else {
        NextTop(m, t, added);
        top := t + 1;
      }
    }
  }

  lemma {:induction false} TimesAdd(q: seq<bool>, r: seq<bool>, unit: Poly) returns (s: seq<bool>)
    requires |q| == |r|
    ensures Add(Times(q, unit), Times(r, unit)) == Times(s, unit)
    decreases |q|
  {
    if q == [] {
      s := [];
    } else {
      var n := |q| - 1;
      var c, e := q[n], r[n];
      var s' := TimesAdd(q[..n], r[..n], unit);
      s := s' + [c != e];
      TimesNext(s', c != e, unit);
      ShiftAdd(Times(q[..n], unit), Times(r[..n], unit));
      AddSwap(Shift(Times(q[..n], unit)), if c then unit else {}, Shift(Times(r[..n], unit)), if e then unit else {});
      assert Add(if c then unit else {}, if e then unit else {}) == if c != e then unit else {};
    }
  }

  lemma AddSwap(a: Poly, b: Poly, c: Poly, d: Poly)
    ensures Add(Add(a, b), Add(c, d)) == Add(Add(a, c), Add(b, d))
  {
  }

  lemma {:induction false} LeadingZero(q: seq<bool>, unit: Poly)
    ensures Times([false] + q, unit) == Times(q, unit)
    decreases |q|
  {
    if q == [] {
      assert [false][..0] == [];
      ShiftedTop();
    } else {
      var init, c := q[..|q| - 1], q[|q| - 1];
      assert [false] + q == ([false] + init) + [c] && q == init + [c];
      TimesNext([false] + init, c, unit);
      TimesNext(init, c, unit);
      LeadingZero(init, unit);
    }
  }

  /** Quotients of one length, by leading zeros. */
  lemma {:induction false} Padded(q: seq<bool>, n: nat) returns (r: seq<bool>)
    requires |q| <= n
    ensures |r| == n && Times(r, GENERATOR) == Times(q, GENERATOR)
    decreases n - |q|
  {
    if |q| == n {
      r := q;
    } else {
      LeadingZero(q, GENERATOR);
      r := Padded([false] + q, n);
    }
  }

  lemma SameSum(p: Poly, m: Poly, r: Poly, m': Poly, r': Poly)
    requires p == Add(m, r) && p == Add(m', r')
    ensures Add(m, m') == Add(r, r')
  {
  }

  /** Division has one remainder. */
  lemma RemainderUnique(p: Poly, r: Poly, r': Poly)
    requires Remainder(p, r) && Remainder(p, r')
    ensures r == r'
  {
    var q: seq<bool> :| p == Add(Times(q, GENERATOR), r);
    var q': seq<bool> :| p == Add(Times(q', GENERATOR), r');
    var n := if |q| > |q'| then |q| else |q'|;
    var u := Padded(q, n);
    var v := Padded(q', n);
    var s := TimesAdd(u, v, GENERATOR);
    SameSum(p, Times(u, GENERATOR), r, Times(v, GENERATOR), r');
    GeneratorTop();
    var top := MultipleTop(s, GENERATOR);
    hide Times;
    assert Add(r, r') == {};
  }

  // ---------------------------------------------------- one word per register

  /** Nothing is left after `n` bits. */
  predicate Within(s: bv32, n: nat) {
    if n == 0 then s == 0 else Within(Down(s), n - 1)
  }

  lemma WithinDropped(s: bv32, n: nat)
    ensures Within(s, n + 4) <==> Within(DropFour(s), n)
  {
    hide Down;
    assert Within(s, n + 4) == Within(Down(s), n + 3) == Within(Down(Down(s)), n + 2);
    assert Within(Down(Down(s)), n + 2) == Within(Down(Down(Down(s))), n + 1)
        == Within(Down(Down(Down(Down(s)))), n);
  }

  lemma WithinWord(s: bv32)
    ensures Within(s, 32)
  {
    DropAll(s);
    hide DropFour, Down;
    WithinDropped(s, 28);
    var a := DropFour(s);
    WithinDropped(a, 24);
    var b := DropFour(a);
    WithinDropped(b, 20);
    var c := DropFour(b);
    WithinDropped(c, 16);
    var d := DropFour(c);
    WithinDropped(d, 12);
    var e := DropFour(d);
    WithinDropped(e, 8);
    var f := DropFour(e);
    WithinDropped(f, 4);
    WithinDropped(DropFour(f), 0);
  }

  lemma SameWord(s: bv32, t: bv32)
    requires Down(s) == Down(t) && (Low(s) <==> Low(t))
    ensures s == t
  {
  }

  lemma {:induction false} SameBits(s: bv32, t: bv32, n: nat)
    requires Within(s, n) && Within(t, n) && forall i | 0 <= i < n :: Bit(s, i) == Bit(t, i)
    ensures s == t
    decreases n
  {
    if n > 0 {
      hide Down, Low;
      forall i | 0 <= i < n - 1 ensures Bit(Down(s), i) == Bit(Down(t), i) {
        assert Bit(s, i + 1) == Bit(t, i + 1);
      }
      SameBits(Down(s), Down(t), n - 1);
      assert Bit(s, 0) == Bit(t, 0);
      SameWord(s, t);
    }
  }

  lemma SameRegister(s: bv32, t: bv32)
    requires Register(s) == Register(t)
    ensures s == t
  {
    WithinWord(s);
    WithinWord(t);
    hide Bit, Within;
    forall i | 0 <= i < 32 ensures Bit(s, i) == Bit(t, i) {
      assert 31 - i in Register(s) <==> InRegister(s, 31 - i);
      assert 31 - i in Register(t) <==> InRegister(t, 31 - i);
    }
    SameBits(s, t, 32);
  }

  /** What is divided: the message times x^32, after 32 leading one bits. */
  ghost function Dividend(b: Bytes): Poly {
    Add(ShiftBy(Register(ONES), 8 * |b|), Times(Bits(b), {32}))
  }

  /** The checksum is the one word whose complement is the remainder of the message
      divided by the generator, low bits first. */
  lemma ChecksumIsRemainder(b: Bytes, w: bv32)
    ensures Remainder(Dividend(b), Register(Xor(w, ONES))) <==> w == Crc32(b)
  {
    var s := Feed(ONES, b);
    var q := Division(ONES, Bits(b));
    BitsCount(b);
    FeedIsBits(ONES, b);
    CrcIsFlipped(b);
    FlipTwice(w, s);
    hide Feed, Crc32, Xor, Bits, Times, FeedBits, ShiftBy, Bit;
    assert Remainder(Dividend(b), Register(s));
    if Remainder(Dividend(b), Register(Xor(w, ONES))) {
      RemainderUnique(Dividend(b), Register(s), Register(Xor(w, ONES)));
      SameRegister(s, Xor(w, ONES));
    }
  }

  lemma XorCommutes(s: bv32, t: bv32)
    ensures Xor(s, t) == Xor(t, s)
  {
  }

  lemma FlipTwice(w: bv32, s: bv32)
    ensures Xor(w, ONES) == s <==> w == Xor(s, ONES)
  {
    XorCommutes(w, ONES);
    XorCommutes(s, ONES);
    XorTwice(ONES, w);
    XorTwice(ONES, s);
    hide Xor;
  }

  lemma CheckOne()
    ensures Feed(0xFFFFFFFF, [0x31, 0x32, 0x33]) == 0x77B79C2D
  {
    assert 0x31 as bv8 == 0x31 && Widen(0x31) == 0x31;
    EightSteps(0xFFFFFFCE);
    assert 0x32 as bv8 == 0x32 && Widen(0x32) == 0x32;
    EightSteps(0x7C23107A);
    assert 0x33 as bv8 == 0x33 && Widen(0x33) == 0x33;
    EightSteps(0xB0ACBB01);
    hide Steps, Widen;
    assert ByteStep(0xFFFFFFFF, 0x31) == 0x7C231048;
    assert ByteStep(0x7C231048, 0x32) == 0xB0ACBB32;
    assert ByteStep(0xB0ACBB32, 0x33) == 0x77B79C2D;
  }

  lemma CheckTwo()
    ensures Feed(0x77B79C2D, [0x34, 0x35, 0x36]) == 0xF68D2C9E
  {
    assert 0x34 as bv8 == 0x34 && Widen(0x34) == 0x34;
    EightSteps(0x77B79C19);
    assert 0x35 as bv8 == 0x35 && Widen(0x35) == 0x35;
    EightSteps(0x641C1F69);
    assert 0x36 as bv8 == 0x36 && Widen(0x36) == 0x36;
    EightSteps(0x340AC5D5);
    hide Steps, Widen;
    assert ByteStep(0x77B79C2D, 0x34) == 0x641C1F5C;
    assert ByteStep(0x641C1F5C, 0x35) == 0x340AC5E3;
    assert ByteStep(0x340AC5E3, 0x36) == 0xF68D2C9E;
  }

  lemma CheckThree()
    ensures Feed(0xF68D2C9E, [0x37, 0x38, 0x39]) == 0x340BC6D9
  {
    assert 0x37 as bv8 == 0x37 && Widen(0x37) == 0x37;
    EightSteps(0xF68D2CA9);
    assert 0x38 as bv8 == 0x38 && Widen(0x38) == 0x38;
    EightSteps(0xAFFC9658);
    assert 0x39 as bv8 == 0x39 && Widen(0x39) == 0x39;
    EightSteps(0x651F2569);
    hide Steps, Widen;
    assert ByteStep(0xF68D2C9E, 0x37) == 0xAFFC9660;
    assert ByteStep(0xAFFC9660, 0x38) == 0x651F2550;
    assert ByteStep(0x651F2550, 0x39) == 0x340BC6D9;
  }

  /** The published check value: the checksum of the digits "123456789". */
  lemma CheckValue()
    ensures Crc32([0x31, 0x32, 0x33, 0x34, 0x35, 0x36, 0x37, 0x38, 0x39]) == 0xCBF43926
  {
    CheckOne();
    CheckTwo();
    CheckThree();
    hide Feed;
    FeedConcat(ONES, [0x31, 0x32, 0x33], [0x34, 0x35, 0x36]);
    FeedConcat(ONES, [0x31, 0x32, 0x33] + [0x34, 0x35, 0x36], [0x37, 0x38, 0x39]);
    assert [0x31, 0x32, 0x33] + [0x34, 0x35, 0x36] + [0x37, 0x38, 0x39] ==
           [0x31, 0x32, 0x33, 0x34, 0x35, 0x36, 0x37, 0x38, 0x39];
  }
}
