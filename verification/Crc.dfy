/** The reflected CRC-32 of RFC 1952, section 8, as the source computes it, and
    why it catches every burst of up to four bytes. */
module Crc {
  import opened Machine
  import opened Types
  import opened Wire

  const POLYNOMIAL: bv32 := 0xEDB88320
  const ONES: bv32 := 0xFFFFFFFF

  /** One bit. */
  function Step(s: bv32): bv32 {
    (s >> 1) ^ (POLYNOMIAL & (0 - (s & 1)))
  }

  function Steps(s: bv32, n: nat): bv32
    decreases n
  {
    if n == 0 then s else Steps(Step(s), n - 1)
  }

  function Widen(b: u8): bv32 {
    (b as bv8) as bv32
  }

  /** One byte: exclusive-or into the low end, then eight bits. */
  function ByteStep(s: bv32, b: u8): bv32 {
    Steps(Xor(s, Widen(b)), 8)
  }

  function Xor(a: bv32, b: bv32): bv32 {
    a ^ b
  }

  function Feed(s: bv32, b: Bytes): bv32
    decreases |b|
  {
    if b == [] then s else Feed(ByteStep(s, b[0]), b[1..])
  }

  function Crc32(b: Bytes): bv32 {
    Feed(ONES, b) ^ ONES
  }

  method Checksum(b: Bytes) returns (crc: bv32)
    ensures crc == Crc32(b)
  {
    crc := ONES;
    for i := 0 to |b|
      invariant Feed(crc, b[i..]) == Feed(ONES, b)
    {
      assert b[i..][0] == b[i] && b[i..][1..] == b[i + 1..];
      ghost var start := crc;
      crc := Xor(crc, Widen(b[i]));
      for k := 0 to 8
        invariant Steps(crc, 8 - k) == ByteStep(start, b[i])
      {
        crc := (crc >> 1) ^ (POLYNOMIAL & (0 - (crc & 1)));
      }
    }
    crc := crc ^ ONES;
  }

  // ----------------------------------------------------- the words of a CRC

  function LowByte(w: bv32): u8 {
    ((w & 0xFF) as bv8) as int
  }

  /** The four bytes of a word, low byte first, as the writer emits them. */
  function WordBytes(w: bv32): (s: Bytes)
    ensures |s| == 4
  {
    [LowByte(w), LowByte(w >> 8), LowByte(w >> 16), LowByte(w >> 24)]
  }

  /** The number a word stands for. */
  function WordValue(w: bv32): u32 {
    Word32(WordBytes(w))
  }

  /** The bytes of a checksum spell its value. */
  lemma StoredBytes(w: bv32)
    ensures LittleEndian(WordValue(w), 4) == WordBytes(w)
  {
    hide WordBytes;
    BytesOfWord(WordBytes(w));
  }

  /** The word that four bytes spell. */
  function Spell(s: Bytes): bv32
    requires |s| == 4
  {
    Widen(s[0]) ^ (Widen(s[1]) << 8) ^ (Widen(s[2]) << 16) ^ (Widen(s[3]) << 24)
  }

  lemma SpellBits(w: bv32)
    ensures (w & 0xFF) ^ (((w >> 8) & 0xFF) << 8) ^ (((w >> 16) & 0xFF) << 16) ^ (((w >> 24) & 0xFF) << 24) == w
  {
  }

  lemma ByteBack(x: bv8)
    ensures (x as u8) as bv8 == x
  {
  }

  lemma Narrowed(w: bv32)
    ensures ((w & 0xFF) as bv8) as bv32 == w & 0xFF
  {
  }

  lemma WidenLow(w: bv32)
    ensures Widen(LowByte(w)) == w & 0xFF
  {
    ByteBack((w & 0xFF) as bv8);
    Narrowed(w);
  }

  lemma SpellBytes(w: bv32)
    ensures Spell(WordBytes(w)) == w
  {
    WidenLow(w);
    WidenLow(w >> 8);
    WidenLow(w >> 16);
    WidenLow(w >> 24);
    hide Widen, LowByte;
    SpellBits(w);
  }

  // ------------------------------------------------------------ linearity

  /** A bit fed while it is not yet at the low end only moves down. */
  lemma StepShift(x: bv32, y: bv32, z: bv32)
    requires y & 1 == 0 && z == y >> 1
    ensures Step(Xor(x, y)) == Xor(Step(x), z)
  {
    XorHalf(x, y);
    XorLow(x, y);
    XorSwap(x >> 1, y >> 1, POLYNOMIAL & (0 - (x & 1)));
  }

  lemma XorHalf(x: bv32, y: bv32)
    ensures (x ^ y) >> 1 == (x >> 1) ^ (y >> 1)
  {
  }

  lemma XorLow(x: bv32, y: bv32)
    requires y & 1 == 0
    ensures (x ^ y) & 1 == x & 1
  {
  }

  lemma XorSwap(a: bv32, b: bv32, c: bv32)
    ensures (a ^ b) ^ c == (a ^ c) ^ b
  {
  }

  predicate IsByte(w: bv32) {
    w <= 0xFF
  }

  predicate LowByteClear(y: bv32) {
    y & 0xFF == 0
  }

  predicate LowPairClear(y: bv32) {
    y & 3 == 0
  }

  function DropPair(y: bv32): bv32 {
    y >> 2
  }

  function DropByte(y: bv32): bv32 {
    y >> 8
  }

  /** Two bits at a time. */
  lemma PairShift(x: bv32, y: bv32)
    requires LowPairClear(y)
    ensures Step(Step(Xor(x, y))) == Xor(Step(Step(x)), DropPair(y))
  {
    assert (y >> 1) & 1 == 0 && (y >> 1) >> 1 == y >> 2 && y & 1 == 0;
    hide Step, Xor;
    StepShift(x, y, y >> 1);
    StepShift(Step(x), y >> 1, y >> 2);
  }

  lemma PairChain(y: bv32)
    requires LowByteClear(y)
    ensures var p := DropPair(y); var q := DropPair(p); var r := DropPair(q);
            LowPairClear(y) && LowPairClear(p) && LowPairClear(q) && LowPairClear(r) && DropPair(r) == DropByte(y)
  {
  }

  /** Eight bits move a byte-aligned value down by one byte. */
  lemma StepsShift(x: bv32, y: bv32)
    requires LowByteClear(y)
    ensures Steps(Xor(x, y), 8) == Xor(Steps(x, 8), DropByte(y))
  {
    PairChain(y);
    hide *;
    EightSteps(Xor(x, y));
    EightSteps(x);
    var p := DropPair(y); var q := DropPair(p); var r := DropPair(q);
    PairShift(x, y);
    PairShift(Step(Step(x)), p);
    PairShift(Step(Step(Step(Step(x)))), q);
    PairShift(Step(Step(Step(Step(Step(Step(x)))))), r);
  }

  lemma EightSteps(s: bv32)
    ensures Steps(s, 8) == Step(Step(Step(Step(Step(Step(Step(Step(s))))))))
  {
    hide Step;
    assert Steps(s, 8) == Steps(Step(s), 7) == Steps(Step(Step(s)), 6);
    assert Steps(Step(Step(s)), 6) == Steps(Step(Step(Step(s))), 5) == Steps(Step(Step(Step(Step(s)))), 4);
    var t := Step(Step(Step(Step(s))));
    assert Steps(t, 4) == Steps(Step(t), 3) == Steps(Step(Step(t)), 2);
    assert Steps(Step(Step(t)), 2) == Steps(Step(Step(Step(t))), 1) == Steps(Step(Step(Step(Step(t)))), 0);
  }

  // --------------------------------------------------------- injectivity

  lemma StepInjective(s: bv32, t: bv32)
    requires Step(s) == Step(t)
    ensures s == t
  {
  }

  lemma {:induction false} StepsInjective(s: bv32, t: bv32, n: nat)
    requires Steps(s, n) == Steps(t, n)
    ensures s == t
    decreases n
  {
    if n > 0 {
      StepsInjective(Step(s), Step(t), n - 1);
      StepInjective(s, t);
    }
  }

  lemma XorInjective(s: bv32, t: bv32, x: bv32)
    requires Xor(s, x) == Xor(t, x)
    ensures s == t
  {
    assert (s ^ x) ^ x == s && (t ^ x) ^ x == t;
  }

  lemma ByteStepInjective(s: bv32, t: bv32, b: u8)
    requires ByteStep(s, b) == ByteStep(t, b)
    ensures s == t
  {
    hide Steps, Step, Widen, Xor;
    StepsInjective(Xor(s, Widen(b)), Xor(t, Widen(b)), 8);
    XorInjective(s, t, Widen(b));
  }

  lemma {:induction false} FeedInjective(s: bv32, t: bv32, b: Bytes)
    requires Feed(s, b) == Feed(t, b)
    ensures s == t
    decreases |b|
  {
    if b != [] {
      hide ByteStep;
      FeedInjective(ByteStep(s, b[0]), ByteStep(t, b[0]), b[1..]);
      ByteStepInjective(s, t, b[0]);
    }
  }

  // ------------------------------------------------------ four-byte windows

  function Steps32(x: bv32): bv32 {
    Steps(Steps(Steps(Steps(x, 8), 8), 8), 8)
  }

  lemma Steps32Injective(s: bv32, t: bv32)
    requires Steps32(s) == Steps32(t)
    ensures s == t
  {
    hide Steps;
    StepsInjective(Steps(Steps(Steps(s, 8), 8), 8), Steps(Steps(Steps(t, 8), 8), 8), 8);
    StepsInjective(Steps(Steps(s, 8), 8), Steps(Steps(t, 8), 8), 8);
    StepsInjective(Steps(s, 8), Steps(t, 8), 8);
    StepsInjective(s, t, 8);
  }

  /** The bytes of a word still to be fed, at the place they then have. */
  function Pending3(a: bv32, b: bv32, c: bv32): bv32 {
    (a << 8) ^ (b << 16) ^ (c << 24)
  }

  function Pending2(a: bv32, b: bv32): bv32 {
    (a << 8) ^ (b << 16)
  }

  function Pending1(a: bv32): bv32 {
    a << 8
  }

  lemma Pending3Low(a: bv32, b: bv32, c: bv32)
    ensures ((a << 8) ^ (b << 16) ^ (c << 24)) & 0xFF == 0
  {
  }

  lemma Pending3Drop(a: bv32, b: bv32, c: bv32)
    requires a <= 0xFF && b <= 0xFF && c <= 0xFF
    ensures ((a << 8) ^ (b << 16) ^ (c << 24)) >> 8 == a ^ ((b << 8) ^ (c << 16))
  {
  }

  lemma Pending2Low(a: bv32, b: bv32)
    ensures ((a << 8) ^ (b << 16)) & 0xFF == 0
  {
  }

  lemma Pending2Drop(a: bv32, b: bv32)
    requires a <= 0xFF && b <= 0xFF
    ensures ((a << 8) ^ (b << 16)) >> 8 == a ^ (b << 8)
  {
  }

  lemma Pending1Drop(a: bv32)
    requires a <= 0xFF
    ensures (a << 8) & 0xFF == 0 && (a << 8) >> 8 == a
  {
  }

  lemma Moves3(a: bv32, b: bv32, c: bv32)
    requires IsByte(a) && IsByte(b) && IsByte(c)
    ensures LowByteClear(Pending3(a, b, c)) && DropByte(Pending3(a, b, c)) == Xor(a, Pending2(b, c))
  {
    Pending3Low(a, b, c);
    Pending3Drop(a, b, c);
  }

  lemma Moves2(a: bv32, b: bv32)
    requires IsByte(a) && IsByte(b)
    ensures LowByteClear(Pending2(a, b)) && DropByte(Pending2(a, b)) == Xor(a, Pending1(b))
  {
    Pending2Low(a, b);
    Pending2Drop(a, b);
  }

  lemma Moves1(a: bv32)
    requires IsByte(a)
    ensures LowByteClear(Pending1(a)) && DropByte(Pending1(a)) == a
  {
    Pending1Drop(a);
  }

  lemma XorAssoc(x: bv32, y: bv32, z: bv32)
    ensures Xor(x, Xor(y, z)) == Xor(Xor(x, y), z)
  {
  }

  lemma WidenBound(b: u8)
    ensures IsByte(Widen(b))
  {
    var x := b as bv8;
    assert x as bv32 <= 0xFF;
  }

  lemma SpellPending(s: Bytes)
    requires |s| == 4
    ensures Spell(s) == Xor(Widen(s[0]), Pending3(Widen(s[1]), Widen(s[2]), Widen(s[3])))
  {
    SpellXor(Widen(s[0]), Widen(s[1]), Widen(s[2]), Widen(s[3]));
  }

  lemma SpellXor(a: bv32, b: bv32, c: bv32, d: bv32)
    ensures a ^ (b << 8) ^ (c << 16) ^ (d << 24) == Xor(a, Pending3(b, c, d))
  {
  }

  /** Feeding four bytes is 32 bit steps on the state combined with the word they spell. */
  lemma FourBytes(s: bv32, t: Bytes)
    requires |t| == 4
    ensures Feed(s, t) == Steps32(Xor(s, Spell(t)))
  {
    var a, b, c, d := Widen(t[0]), Widen(t[1]), Widen(t[2]), Widen(t[3]);
    WidenBound(t[1]);
    WidenBound(t[2]);
    WidenBound(t[3]);
    Moves3(b, c, d);
    Moves2(c, d);
    Moves1(d);
    SpellPending(t);
    FeedFour(s, t);
    hide *;
    XorAssoc(s, a, Pending3(b, c, d));
    var s1 := Steps(Xor(s, a), 8);
    StepsShift(Xor(s, a), Pending3(b, c, d));
    XorAssoc(s1, b, Pending2(c, d));
    var s2 := Steps(Xor(s1, b), 8);
    StepsShift(Xor(s1, b), Pending2(c, d));
    XorAssoc(s2, c, Pending1(d));
    StepsShift(Xor(s2, c), Pending1(d));
  }

  lemma FeedFour(s: bv32, t: Bytes)
    requires |t| == 4
    ensures Feed(s, t) == ByteStep(ByteStep(ByteStep(ByteStep(s, t[0]), t[1]), t[2]), t[3])
  {
    hide ByteStep;
    assert Feed(s, t) == Feed(ByteStep(s, t[0]), t[1..]);
    var s1 := ByteStep(s, t[0]);
    assert Feed(s1, t[1..]) == Feed(ByteStep(s1, t[1]), t[2..]) by { assert t[1..][1..] == t[2..]; }
    var s2 := ByteStep(s1, t[1]);
    assert Feed(s2, t[2..]) == Feed(ByteStep(s2, t[2]), t[3..]) by { assert t[2..][1..] == t[3..]; }
    var s3 := ByteStep(s2, t[2]);
    assert Feed(s3, t[3..]) == Feed(ByteStep(s3, t[3]), []) by { assert t[3..][1..] == []; }
  }

  lemma Spelled0(a: bv32, b: bv32, c: bv32, d: bv32)
    requires a <= 0xFF
    ensures (a ^ (b << 8) ^ (c << 16) ^ (d << 24)) & 0xFF == a
  {
  }

  lemma Spelled1(a: bv32, b: bv32, c: bv32, d: bv32)
    requires a <= 0xFF && b <= 0xFF
    ensures ((a ^ (b << 8) ^ (c << 16) ^ (d << 24)) >> 8) & 0xFF == b
  {
  }

  lemma Spelled2(a: bv32, b: bv32, c: bv32, d: bv32)
    requires a <= 0xFF && b <= 0xFF && c <= 0xFF
    ensures ((a ^ (b << 8) ^ (c << 16) ^ (d << 24)) >> 16) & 0xFF == c
  {
  }

  lemma Spelled3(a: bv32, b: bv32, c: bv32, d: bv32)
    requires a <= 0xFF && b <= 0xFF && c <= 0xFF && d <= 0xFF
    ensures ((a ^ (b << 8) ^ (c << 16) ^ (d << 24)) >> 24) & 0xFF == d
  {
  }

  lemma LowOfWiden(w: bv32, b: u8)
    requires w & 0xFF == Widen(b)
    ensures LowByte(w) == b
  {
    ByteThere(b);
    NarrowWide(w & 0xFF, b as bv8);
  }

  lemma {:induction false} ByteThere(b: u8)
    ensures (b as bv8) as int == b
  {
    if b > 0 {
      var x := (b - 1) as bv8;
      ByteThere(b - 1);
      ByteAfter(x);
      ByteBack(x + 1);
    }
  }

  lemma ByteAfter(x: bv8)
    requires x as int < 0xFF
    ensures (x + 1) as int == x as int + 1
  {
  }

  lemma NarrowWide(w: bv32, x: bv8)
    requires w == x as bv32
    ensures w <= 0xFF && w as bv8 == x
  {
  }

  lemma SpelledByte0(w: bv32, t: Bytes)
    requires |t| == 4 && w == Spell(t)
    ensures LowByte(w) == t[0]
  {
    WidenBound(t[0]);
    Spelled0(Widen(t[0]), Widen(t[1]), Widen(t[2]), Widen(t[3]));
    hide Widen;
    LowOfWiden(w, t[0]);
  }

  lemma SpelledByte1(w: bv32, t: Bytes)
    requires |t| == 4 && w == Spell(t)
    ensures LowByte(w >> 8) == t[1]
  {
    WidenBound(t[0]);
    WidenBound(t[1]);
    Spelled1(Widen(t[0]), Widen(t[1]), Widen(t[2]), Widen(t[3]));
    hide Widen;
    LowOfWiden(w >> 8, t[1]);
  }

  lemma SpelledByte2(w: bv32, t: Bytes)
    requires |t| == 4 && w == Spell(t)
    ensures LowByte(w >> 16) == t[2]
  {
    WidenBound(t[0]);
    WidenBound(t[1]);
    WidenBound(t[2]);
    Spelled2(Widen(t[0]), Widen(t[1]), Widen(t[2]), Widen(t[3]));
    hide Widen;
    LowOfWiden(w >> 16, t[2]);
  }

  lemma SpelledByte3(w: bv32, t: Bytes)
    requires |t| == 4 && w == Spell(t)
    ensures LowByte(w >> 24) == t[3]
  {
    WidenBound(t[0]);
    WidenBound(t[1]);
    WidenBound(t[2]);
    WidenBound(t[3]);
    Spelled3(Widen(t[0]), Widen(t[1]), Widen(t[2]), Widen(t[3]));
    hide Widen;
    LowOfWiden(w >> 24, t[3]);
  }

  lemma BytesOfSpell(t: Bytes)
    requires |t| == 4
    ensures WordBytes(Spell(t)) == t
  {
    var w := Spell(t);
    hide Spell, LowByte;
    SpelledByte0(w, t);
    SpelledByte1(w, t);
    SpelledByte2(w, t);
    SpelledByte3(w, t);
  }

  lemma {:induction false} FeedConcat(s: bv32, x: Bytes, y: Bytes)
    ensures Feed(s, x + y) == Feed(Feed(s, x), y)
    decreases |x|
  {
    if x == [] {
      assert x + y == y;
    } else {
      hide ByteStep;
      assert (x + y)[1..] == x[1..] + y;
      FeedConcat(ByteStep(s, x[0]), x[1..], y);
    }
  }

  /** A state that takes a word to ONES takes no other word there. */
  lemma ResidueWord(s: bv32, w: bv32)
    ensures Steps32(Xor(s, w)) == Steps32(ONES) <==> w == Xor(s, ONES)
  {
    XorFlip(s, w);
    hide *;
    if Steps32(Xor(s, w)) == Steps32(ONES) {
      Steps32Injective(Xor(s, w), ONES);
    }
  }

  lemma SpelledIff(t: Bytes, w: bv32)
    requires |t| == 4
    ensures Spell(t) == w <==> t == WordBytes(w)
  {
    hide *;
    BytesOfSpell(t);
    SpellBytes(w);
  }

  lemma CrcIsFlipped(body: Bytes)
    ensures Crc32(body) == Xor(Feed(ONES, body), ONES)
  {
    hide Feed;
  }

  /** The state after a body and four more bytes is one fixed residue exactly when
      those bytes are the body's checksum. */
  lemma Residue(body: Bytes, t: Bytes)
    requires |t| == 4
    ensures Feed(ONES, body + t) == Steps32(ONES) <==> t == WordBytes(Crc32(body))
  {
    var s := Feed(ONES, body);
    hide *;
    FeedConcat(ONES, body, t);
    FourBytes(s, t);
    ResidueWord(s, Spell(t));
    CrcIsFlipped(body);
    SpelledIff(t, Crc32(body));
  }

  lemma XorFlip(s: bv32, w: bv32)
    ensures Xor(s, w) == ONES <==> w == Xor(s, ONES)
  {
    XorTwice(s, w);
    XorTwice(s, ONES);
  }

  lemma XorTwice(s: bv32, w: bv32)
    ensures Xor(s, Xor(s, w)) == w
  {
  }

  lemma FourBytesInjective(s: bv32, x: Bytes, y: Bytes)
    requires |x| == 4 && |y| == 4 && Feed(s, x) == Feed(s, y)
    ensures x == y
  {
    hide *;
    FourBytes(s, x);
    FourBytes(s, y);
    Steps32Injective(Xor(s, Spell(x)), Xor(s, Spell(y)));
    XorCancel(s, Spell(x), Spell(y));
    BytesOfSpell(x);
    BytesOfSpell(y);
  }

  lemma Reassembled(b: Bytes, p: nat)
    requires p + 4 <= |b|
    ensures b == b[..p] + b[p..p + 4] + b[p + 4..]
  {
  }

  /** Two inputs that differ only inside four consecutive bytes leave different states. */
  lemma WindowChangesState(b: Bytes, c: Bytes, p: nat)
    requires |b| == |c| && p + 4 <= |b| && b[..p] == c[..p] && b[p + 4..] == c[p + 4..]
    requires Feed(ONES, b) == Feed(ONES, c)
    ensures b == c
  {
    var s := Feed(ONES, b[..p]);
    hide *;
    WindowState(b, p);
    WindowState(c, p);
    FeedInjective(Feed(s, b[p..p + 4]), Feed(s, c[p..p + 4]), b[p + 4..]);
    FourBytesInjective(s, b[p..p + 4], c[p..p + 4]);
    Reassembled(b, p);
    Reassembled(c, p);
  }

  lemma XorCancel(s: bv32, x: bv32, y: bv32)
    requires Xor(s, x) == Xor(s, y)
    ensures x == y
  {
    assert s ^ (s ^ x) == x && s ^ (s ^ y) == y;
  }

  lemma WindowState(b: Bytes, p: nat)
    requires p + 4 <= |b|
    ensures Feed(ONES, b) == Feed(Feed(Feed(ONES, b[..p]), b[p..p + 4]), b[p + 4..])
  {
    hide Feed;
    FeedConcat(ONES, b[..p], b[p..p + 4]);
    FeedConcat(ONES, b[..p] + b[p..p + 4], b[p + 4..]);
    assert b == (b[..p] + b[p..p + 4]) + b[p + 4..];
  }
}
