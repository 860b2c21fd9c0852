/** The framed message protocol: one frame, a stream of frames, and the damage a
    frame detects. */
module Frames {
  import opened Machine
  import opened Types
  import opened Wire
  import opened Streams
  import opened Crc

  const MAGIC: u32 := 0x47534d50
  const VERSION: u32 := 1

  /** The payload limit (`kMaxFrame`) is the string limit of the primitives. */
  datatype Frame = Frame(msg: u8, payload: Bytes)

  const COVERED: seq<Kind> := [K32, K8, KStr]

  const FRAME: seq<Kind> := [K32, K32, K8, KStr, K32]

  function CoveredVals(f: Frame): seq<Val> {
    [V32(VERSION), V8(f.msg), VStr(f.payload)]
  }

  /** The bytes the checksum covers: everything after the magic number. */
  function CoveredBytes(f: Frame): Bytes {
    EncodeVals(CoveredVals(f))
  }

  function FrameVals(f: Frame, stored: u32): seq<Val> {
    [V32(MAGIC)] + CoveredVals(f) + [V32(stored)]
  }

  function EncodeFrame(f: Frame): Bytes {
    LittleEndian(MAGIC, 4) + CoveredBytes(f) + WordBytes(Crc32(CoveredBytes(f)))
  }

  function FrameOf(v: seq<Val>): Frame
    requires |v| == |FRAME|
  {
    Frame(if v[2].V8? then v[2].b else 0, if v[3].VStr? then v[3].s else [])
  }

  /** Magic number, version and checksum agree with what they guard. */
  predicate FrameChecks(v: seq<Val>)
    requires |v| == |FRAME|
  {
    v[0] == V32(MAGIC) && v[1] == V32(VERSION) && v[4] == V32(WordValue(Crc32(CoveredBytes(FrameOf(v)))))
  }

  /** The frame at the start of a buffer, and how many bytes it takes. */
  function DecodeFrame(b: Bytes): Option<(Frame, nat)> {
    match DecodeVals(FRAME, b)
    case None => None
    case Some((v, rest)) =>
      if FrameChecks(v) && |rest| <= |b| then Some((FrameOf(v), |b| - |rest|)) else None
  }

  // ----------------------------------------------------- two-sided inverse

  lemma FrameIsVals(f: Frame)
    ensures EncodeFrame(f) == EncodeVals(FrameVals(f, WordValue(Crc32(CoveredBytes(f)))))
  {
    var w := Crc32(CoveredBytes(f));
    hide WordValue, WordBytes, Crc32, EncodeVals, LittleEndian, CoveredVals;
    EncodeConcat([V32(MAGIC)] + CoveredVals(f), [V32(WordValue(w))]);
    EncodeConcat([V32(MAGIC)], CoveredVals(f));
    OneWordBytes(MAGIC);
    OneWordBytes(WordValue(w));
    StoredBytes(w);
  }

  lemma ValsOfFrame(v: seq<Val>)
    requires Shaped(v, FRAME) && FrameChecks(v)
    ensures v == FrameVals(FrameOf(v), WordValue(Crc32(CoveredBytes(FrameOf(v)))))
  {
    hide WordValue, Crc32, EncodeVals;
    assert KindOf(v[2]) == K8 && KindOf(v[3]) == KStr;
  }

  /** A decoded frame is exactly the encoding of what was returned, and an encoded
      frame decodes to itself, whatever follows it. */
  lemma FrameInverse(b: Bytes, f: Frame, n: nat)
    ensures DecodeFrame(b) == Some((f, n)) <==>
            n == |EncodeFrame(f)| <= |b| && b[..n] == EncodeFrame(f) && |f.payload| <= MAX_STRING
  {
    if DecodeFrame(b) == Some((f, n)) {
      FrameSound(b);
    }
    if n == |EncodeFrame(f)| <= |b| && b[..n] == EncodeFrame(f) && |f.payload| <= MAX_STRING {
      hide DecodeFrame, EncodeFrame;
      FrameComplete(f, b[n..]);
      SplitAt(b, n);
    }
  }

  lemma FrameSound(b: Bytes)
    requires DecodeFrame(b).Some?
    ensures var (f, n) := DecodeFrame(b).value;
            n == |EncodeFrame(f)| <= |b| && b[..n] == EncodeFrame(f) && |f.payload| <= MAX_STRING
  {
    var (v, rest) := DecodeVals(FRAME, b).value;
    EncodeDecode(FRAME, b);
    ValsOfFrame(v);
    FrameIsVals(FrameOf(v));
    assert Fit(v[3]);
    hide DecodeVals, EncodeFrame, EncodeVals, FrameVals, CoveredBytes, Crc32, WordValue;
    assert b == EncodeFrame(FrameOf(v)) + rest;
  }

  lemma FrameComplete(f: Frame, t: Bytes)
    requires |f.payload| <= MAX_STRING
    ensures DecodeFrame(EncodeFrame(f) + t) == Some((f, |EncodeFrame(f)|))
  {
    var v := FrameVals(f, WordValue(Crc32(CoveredBytes(f))));
    FrameIsVals(f);
    FrameShape(f, WordValue(Crc32(CoveredBytes(f))));
    hide EncodeFrame, EncodeVals, CoveredBytes, Crc32, WordValue, DecodeVals, FrameVals, Shaped, AllFit;
    DecodeEncode(v, FRAME, t);
  }

  lemma FrameShape(f: Frame, stored: u32)
    ensures var v := FrameVals(f, stored);
            && Shaped(v, FRAME) && FrameOf(v) == f
            && v[0] == V32(MAGIC) && v[1] == V32(VERSION) && v[4] == V32(stored)
            && (|f.payload| <= MAX_STRING ==> AllFit(v))
  {
  }

  /** Encoding never refuses a payload, but only those within the limit come back. */
  lemma FrameRoundTrip(f: Frame)
    ensures DecodeFrame(EncodeFrame(f)) == Some((f, |EncodeFrame(f)|)) <==> |f.payload| <= MAX_STRING
  {
    hide DecodeFrame, EncodeFrame;
    FrameInverse(EncodeFrame(f), f, |EncodeFrame(f)|);
    assert EncodeFrame(f)[..|EncodeFrame(f)|] == EncodeFrame(f);
  }

  // --------------------------------------------------------------- streams

  function EncodeAll(fs: seq<Frame>): Bytes {
    if fs == [] then [] else EncodeFrame(fs[0]) + EncodeAll(fs[1..])
  }

  lemma FrameSize(f: Frame)
    ensures |EncodeFrame(f)| == 17 + |f.payload|
  {
    hide Crc32, WordBytes, LittleEndian;
    var c := CoveredVals(f);
    assert EncodeVals(c) == EncodeVal(c[0]) + EncodeVals(c[1..]);
    assert EncodeVals(c[1..]) == EncodeVal(c[1]) + EncodeVals(c[2..]);
    assert EncodeVals(c[2..]) == EncodeVal(c[2]) + EncodeVals([]);
  }

  lemma DecodedSize(b: Bytes)
    requires DecodeFrame(b).Some?
    ensures 17 <= DecodeFrame(b).value.1 <= |b|
  {
    FrameSound(b);
    FrameSize(DecodeFrame(b).value.0);
  }

  /** Decode frame after frame until the buffer is empty. */
  function DecodeAll(b: Bytes): Option<seq<Frame>>
    decreases |b|
  {
    if b == [] then Some([])
    else
      var (f, n) :- DecodeFrame(b);
      DecodedSize(b);
      var fs :- DecodeAll(b[n..]);
      Some([f] + fs)
  }

  predicate AllSendable(fs: seq<Frame>) {
    forall i | 0 <= i < |fs| :: |fs[i].payload| <= MAX_STRING
  }

  lemma {:induction false} StreamComplete(fs: seq<Frame>)
    requires AllSendable(fs)
    ensures DecodeAll(EncodeAll(fs)) == Some(fs)
    decreases |fs|
  {
    if fs != [] {
      var x, y := EncodeFrame(fs[0]), EncodeAll(fs[1..]);
      assert EncodeAll(fs) == x + y;
      hide DecodeFrame, EncodeFrame, DecodeAll, EncodeAll;
      FrameSize(fs[0]);
      FrameComplete(fs[0], y);
      DropFirst(x, y);
      StreamComplete(fs[1..]);
      StreamStep(x + y, fs[0], |x|, fs[1..]);
      assert fs == [fs[0]] + fs[1..];
    }
  }

  lemma StreamStep(b: Bytes, f: Frame, n: nat, fs: seq<Frame>)
    requires 0 < n <= |b| && DecodeFrame(b) == Some((f, n)) && DecodeAll(b[n..]) == Some(fs)
    ensures DecodeAll(b) == Some([f] + fs)
  {
    hide DecodeFrame;
  }

  lemma DropFirst(x: Bytes, y: Bytes)
    ensures (x + y)[|x|..] == y
  {
  }

  lemma {:induction false} StreamSound(b: Bytes)
    requires DecodeAll(b).Some?
    ensures b == EncodeAll(DecodeAll(b).value) && AllSendable(DecodeAll(b).value)
    decreases |b|
  {
    if b != [] {
      var (f, n) := DecodeFrame(b).value;
      FrameSound(b);
      DecodedSize(b);
      hide DecodeFrame, EncodeFrame;
      StreamSound(b[n..]);
      var fs := DecodeAll(b).value;
      assert fs[1..] == DecodeAll(b[n..]).value;
      SplitAt(b, n);
    }
  }

  /** A buffer decodes to a list of frames exactly when it is their concatenation. */
  lemma StreamInverse(b: Bytes, fs: seq<Frame>)
    ensures DecodeAll(b) == Some(fs) <==> b == EncodeAll(fs) && AllSendable(fs)
  {
    if DecodeAll(b) == Some(fs) {
      StreamSound(b);
    }
    if AllSendable(fs) {
      StreamComplete(fs);
    }
  }

  // ---------------------------------------------------------------- damage

  lemma FrameResidue(b: Bytes)
    requires DecodeFrame(b).Some?
    ensures var (f, n) := DecodeFrame(b).value;
            17 <= n <= |b| && n == 17 + |f.payload| && b[..4] == LittleEndian(MAGIC, 4)
            && Feed(ONES, b[4..n]) == Steps32(ONES)
  {
    var (f, n) := DecodeFrame(b).value;
    var x, y := CoveredBytes(f), WordBytes(Crc32(CoveredBytes(f)));
    assert EncodeFrame(f) == LittleEndian(MAGIC, 4) + (x + y);
    hide DecodeFrame, CoveredBytes, Crc32, WordBytes, Feed, Steps32, LittleEndian, EncodeFrame;
    FrameSound(b);
    FrameSize(f);
    Residue(x, y);
    TailOf(b, n, LittleEndian(MAGIC, 4), x + y);
  }

  lemma TailOf(b: Bytes, n: nat, magic: Bytes, tail: Bytes)
    requires n <= |b| && b[..n] == magic + tail && |magic| == 4
    ensures 4 <= n && b[..4] == magic && b[4..n] == tail
  {
    assert b[..4] == b[..n][..4];
    assert b[4..n] == b[..n][4..];
  }

  /** The length field of an accepted frame. */
  lemma FrameLength(b: Bytes)
    requires DecodeFrame(b).Some?
    ensures |b| >= 17 && b[9..13] == LittleEndian(|DecodeFrame(b).value.0.payload|, 4)
  {
    var (f, n) := DecodeFrame(b).value;
    FrameSound(b);
    FrameSize(f);
    CoveredLayout(f);
    hide DecodeFrame, CoveredBytes, Crc32, WordBytes, LittleEndian;
    LengthField(b, n, LittleEndian(MAGIC, 4), LittleEndian(VERSION, 4) + [f.msg], LittleEndian(|f.payload|, 4),
                f.payload, WordBytes(Crc32(CoveredBytes(f))));
  }

  lemma LengthField(b: Bytes, n: nat, magic: Bytes, head: Bytes, length: Bytes, payload: Bytes, crc: Bytes)
    requires 13 <= n <= |b| && b[..n] == magic + (head + (length + payload)) + crc
    requires |magic| == 4 && |head| == 5 && |length| == 4
    ensures b[9..13] == length
  {
    assert magic + (head + (length + payload)) + crc == magic + head + length + (payload + crc);
    assert b[9..13] == b[..n][9..13];
  }

  lemma CoveredLayout(f: Frame)
    requires |f.payload| <= MAX_STRING
    ensures CoveredBytes(f) == (LittleEndian(VERSION, 4) + [f.msg]) + (LittleEndian(|f.payload|, 4) + f.payload)
  {
    hide LittleEndian;
    var c := CoveredVals(f);
    assert EncodeVals(c) == EncodeVal(c[0]) + EncodeVals(c[1..]);
    assert EncodeVals(c[1..]) == EncodeVal(c[1]) + EncodeVals(c[2..]);
    assert EncodeVals(c[2..]) == EncodeVal(c[2]) + EncodeVals([]);
  }

  lemma FramesSameLength(b: Bytes, c: Bytes)
    requires DecodeFrame(b).Some? && DecodeFrame(c).Some?
    requires |b| >= 17 && |c| >= 17 && b[9..13] == c[9..13]
    ensures DecodeFrame(b).value.1 == DecodeFrame(c).value.1
  {
    FrameSound(b);
    FrameSound(c);
    FrameLength(b);
    FrameLength(c);
    FrameResidue(b);
    FrameResidue(c);
    hide DecodeFrame, EncodeFrame, Feed, Steps32, LittleEndian;
    SameLength(|DecodeFrame(b).value.0.payload|, |DecodeFrame(c).value.0.payload|, b[9..13]);
  }

  lemma SameLength(x: nat, y: nat, s: Bytes)
    requires x <= MAX_STRING && y <= MAX_STRING && s == LittleEndian(x, 4) == LittleEndian(y, 4)
    ensures x == y
  {
    Spans();
    WordOfBytes(x, 4);
    WordOfBytes(y, 4);
  }

  /** A change confined to four consecutive bytes of a frame that leaves its length
      field alone is rejected. */
  lemma FrameBurstRejected(b: Bytes, c: Bytes, p: nat)
    requires DecodeFrame(b).Some? && |b| == |c|
    requires forall i | 0 <= i < |b| && !(p <= i < p + 4) :: b[i] == c[i]
    requires |b| >= 17 && b[9..13] == c[9..13]
    requires b[..DecodeFrame(b).value.1] != c[..DecodeFrame(b).value.1]
    ensures DecodeFrame(c) == None
  {
    if DecodeFrame(c).Some? {
      FramesSameLength(b, c);
      FrameResidue(b);
      FrameResidue(c);
      hide DecodeFrame, Feed, Steps32, LittleEndian;
      WindowInside(b, c, p, DecodeFrame(b).value.1);
    }
  }

  lemma WindowInside(b: Bytes, c: Bytes, p: nat, n: nat)
    requires |b| == |c| && 17 <= n <= |b| && b[..4] == c[..4]
    requires forall i | 0 <= i < |b| && !(p <= i < p + 4) :: b[i] == c[i]
    requires Feed(ONES, b[4..n]) == Feed(ONES, c[4..n])
    ensures b[..n] == c[..n]
  {
    var q := if p < 4 then 0 else if p <= n - 4 then p - 4 else n - 8;
    WindowShifted(b, c, p, n, q);
    hide Feed;
    WindowChangesState(b[4..n], c[4..n], q);
    assert b[..n] == b[..4] + b[4..n] && c[..n] == c[..4] + c[4..n];
  }

  lemma WindowShifted(b: Bytes, c: Bytes, p: nat, n: nat, q: nat)
    requires |b| == |c| && 17 <= n <= |b| && b[..4] == c[..4]
    requires forall i | 0 <= i < |b| && !(p <= i < p + 4) :: b[i] == c[i]
    requires q == if p < 4 then 0 else if p <= n - 4 then p - 4 else n - 8
    ensures b[4..n][..q] == c[4..n][..q] && b[4..n][q + 4..] == c[4..n][q + 4..]
  {
    var x, y := b[4..n], c[4..n];
    forall j | 0 <= j < |x| && !(q <= j < q + 4) ensures x[j] == y[j] {
      assert x[j] == b[j + 4] && y[j] == c[j + 4];
    }
  }

  /** The frame whose payload carries, behind `q`, the checksum of the frame of `q`. */
  function Nested(msg: u8, q: Bytes): Frame {
    Frame(msg, q + WordBytes(Crc32(CoveredBytes(Frame(msg, q)))))
  }

  /** Damage in the length field can go unnoticed: after its length is changed to that
      of `q`, the frame of a nested payload decodes to the frame of `q`. */
  lemma LengthDamageAccepted(msg: u8, q: Bytes)
    requires |q| + 4 <= MAX_STRING
    ensures var b := EncodeFrame(Nested(msg, q));
            && DecodeFrame(b) == Some((Nested(msg, q), |b|)) && |b| >= 17
            && var c := b[..9] + LittleEndian(|q|, 4) + b[13..];
               c != b && DecodeFrame(c) == Some((Frame(msg, q), 17 + |q|))
  {
    var f, g := Frame(msg, q), Nested(msg, q);
    var b := EncodeFrame(g);
    hide DecodeFrame, EncodeFrame, CoveredBytes, Crc32, WordBytes, LittleEndian;
    FrameSize(f);
    FrameSize(g);
    FrameRoundTrip(g);
    var c := b[..9] + LittleEndian(|q|, 4) + b[13..];
    FrameLayout(f);
    FrameLayout(g);
    var head := LittleEndian(MAGIC, 4) + (LittleEndian(VERSION, 4) + [msg]);
    ReplaceLength(head, LittleEndian(|g.payload|, 4), LittleEndian(|q|, 4), q, WordBytes(Crc32(CoveredBytes(f))),
                  WordBytes(Crc32(CoveredBytes(g))));
    FrameInverse(c, f, 17 + |q|);
    if LittleEndian(|q|, 4) == LittleEndian(|g.payload|, 4) {
      SameLength(|q|, |g.payload|, LittleEndian(|q|, 4));
    }
    assert c[9..13] == LittleEndian(|q|, 4) && b[9..13] == LittleEndian(|g.payload|, 4);
  }

  lemma FrameLayout(f: Frame)
    requires |f.payload| <= MAX_STRING
    ensures EncodeFrame(f)
            == (LittleEndian(MAGIC, 4) + (LittleEndian(VERSION, 4) + [f.msg])) + LittleEndian(|f.payload|, 4)
               + (f.payload + WordBytes(Crc32(CoveredBytes(f))))
  {
    CoveredLayout(f);
    hide CoveredBytes, Crc32, WordBytes, LittleEndian;
  }

  lemma ReplaceLength(head: Bytes, old_: Bytes, new_: Bytes, q: Bytes, w: Bytes, crc: Bytes)
    requires |head| == 9 && |old_| == 4 && |new_| == 4 && |w| == 4
    ensures var b := head + old_ + ((q + w) + crc);
            (b[..9] + new_ + b[13..])[..17 + |q|] == head + new_ + (q + w)
  {
    var b := head + old_ + ((q + w) + crc);
    assert b[..9] == head && b[13..] == (q + w) + crc;
  }

  // --------------------------------------------------------------- methods

  method WriteFrame(f: Frame) returns (b: Bytes)
    ensures b == EncodeFrame(f)
  {
    hide EncodeVals, Crc32, WordValue, WordBytes, LittleEndian;
    ghost var stored := WordValue(Crc32(CoveredBytes(f)));
    var w := new Writer();
    w.Begin([V32(MAGIC)] + CoveredVals(f));
    w.U32(MAGIC);
    w.U32(VERSION);
    w.U8(f.msg);
    w.Str(f.payload);
    HeadAndCovered(f);
    assert w.Vals() == [V32(MAGIC)] + CoveredVals(f);
    var crc := Checksum(w.buf[4..]);
    w.Begin([V32(WordValue(crc))]);
    w.U32(WordValue(crc));
    assert w.Vals() == FrameVals(f, stored);
    FrameIsVals(f);
    b := w.buf;
  }

  lemma HeadAndCovered(f: Frame)
    ensures |EncodeVals([V32(MAGIC)] + CoveredVals(f))| >= 4
    ensures EncodeVals([V32(MAGIC)] + CoveredVals(f))[4..] == CoveredBytes(f)
  {
    hide LittleEndian;
    EncodeConcat([V32(MAGIC)], CoveredVals(f));
    OneWordBytes(MAGIC);
  }

  /** Decode one frame and report how many bytes it took. */
  method ReadFrame(b: Bytes) returns (o: Option<(Frame, nat)>)
    ensures o == DecodeFrame(b)
  {
    hide DecodeFrame, StartsWith, CoveredBytes, Crc32, WordValue;
    if |b| < 4 + 4 + 1 + 4 + 4 {
      TooShort(b);
      return None;
    }
    var fields :- ReadFields(b);
    var (msg, payload, stored, n) := fields;
    var f := Frame(msg, payload);
    ChecksumDecides(b, f, stored, n);
    var crc := Checksum(b[4..13 + |payload|]);
    if stored != WordValue(crc) {
      return None;
    }
    return Some((f, n));
  }

  /** `b` starts with the fields of `f` and the word `stored`, `n` bytes in all. */
  ghost predicate StartsWith(b: Bytes, f: Frame, stored: u32, n: nat) {
    n <= |b| && DecodeVals(FRAME, b) == Some((FrameVals(f, stored), b[n..]))
  }

  /** The fields one by one; nothing is read behind a wrong magic number or version. */
  method ReadFields(b: Bytes) returns (o: Option<(u8, Bytes, u32, nat)>)
    ensures o.None? ==> DecodeFrame(b) == None
    ensures o.Some? ==> StartsWith(b, Frame(o.value.0, o.value.1), o.value.2, o.value.3)
  {
    UnreadIsNone(b);
    hide DecodeFrame, DecodeVals, Progress, Holds, StartsWith;
    var r := new Reader(b);
    r.Begin(FRAME);
    var magic :- r.U32();
    if magic != MAGIC {
      WrongHead(b, 0, magic);
      return None;
    }
    var version :- r.U32();
    if version != VERSION {
      WrongHead(b, 1, version);
      return None;
    }
    o := ReadRest(r, b);
  }

  /** The message type, the payload and the checksum. */
  method ReadRest(r: Reader, ghost b: Bytes) returns (o: Option<(u8, Bytes, u32, nat)>)
    requires r.Valid() && r.b == b && r.start == b && r.plan == FRAME && |r.got| == 2
    requires Holds(FRAME, b, 0, V32(MAGIC)) && Holds(FRAME, b, 1, V32(VERSION))
    modifies r`pos, r`got
    ensures o.None? ==> DecodeFrame(b) == None
    ensures o.Some? ==> StartsWith(b, Frame(o.value.0, o.value.1), o.value.2, o.value.3)
  {
    UnreadIsNone(b);
    hide DecodeFrame, DecodeVals, Progress, Holds, StartsWith;
    var msg :- r.U8();
    var payload :- r.Str();
    var stored :- r.U32();
    ProgressEnds(r.plan, r.start, r.got, r.Rest());
    FieldsHeld(b, msg, payload, stored, r.got, r.pos);
    return Some((msg, payload, stored, r.pos));
  }

  lemma UnreadIsNone(b: Bytes)
    ensures DecodeVals(FRAME, b) == None ==> DecodeFrame(b) == None
  {
  }

  lemma WrongHead(b: Bytes, k: nat, w: u32)
    requires k <= 1 && Holds(FRAME, b, k, V32(w)) && w != if k == 0 then MAGIC else VERSION
    ensures DecodeFrame(b) == None
  {
    hide DecodeVals;
  }

  lemma FieldsHeld(b: Bytes, msg: u8, payload: Bytes, stored: u32, got: seq<Val>, n: nat)
    requires n <= |b| && DecodeVals(FRAME, b) == Some((got, b[n..]))
    requires Holds(FRAME, b, 0, V32(MAGIC)) && Holds(FRAME, b, 1, V32(VERSION)) && Holds(FRAME, b, 2, V8(msg))
    requires Holds(FRAME, b, 3, VStr(payload)) && Holds(FRAME, b, 4, V32(stored))
    ensures StartsWith(b, Frame(msg, payload), stored, n)
  {
    hide DecodeVals;
    assert got == FrameVals(Frame(msg, payload), stored);
  }

  /** The checksummed bytes are where the decoder looks for them, and only the
      checksum is left to decide. */
  lemma ChecksumDecides(b: Bytes, f: Frame, stored: u32, n: nat)
    requires StartsWith(b, f, stored, n)
    ensures |b| >= 17 + |f.payload| && b[4..13 + |f.payload|] == CoveredBytes(f)
    ensures DecodeFrame(b) == if stored == WordValue(Crc32(CoveredBytes(f))) then Some((f, n)) else None
  {
    CoveredSlice(b);
    FrameShape(f, stored);
    hide DecodeVals, EncodeVals, Crc32, WordValue, CoveredBytes, FrameVals, Shaped, AllFit;
  }

  lemma TooShort(b: Bytes)
    requires |b| < 17
    ensures DecodeFrame(b) == None
  {
    if DecodeFrame(b).Some? {
      DecodedSize(b);
    }
  }

  lemma CoveredSize(v: seq<Val>)
    requires Shaped(v, COVERED)
    ensures v[2].VStr? && |EncodeVals(v)| == 9 + |v[2].s|
  {
    assert KindOf(v[0]) == K32 && KindOf(v[1]) == K8 && KindOf(v[2]) == KStr;
    hide LittleEndian;
    assert EncodeVals(v) == EncodeVal(v[0]) + EncodeVals(v[1..]);
    assert EncodeVals(v[1..]) == EncodeVal(v[1]) + EncodeVals(v[2..]);
    assert EncodeVals(v[2..]) == EncodeVal(v[2]) + EncodeVals([]);
  }

  lemma Middle(b: Bytes, x: Bytes, y: Bytes, z: Bytes, rest: Bytes)
    requires b == (x + (y + z)) + rest && |x| == 4 && |z| == 4
    ensures |b| >= 8 + |y| && b[4..4 + |y|] == y && |rest| <= |b|
  {
    Assoc(x, y + z, rest);
    Assoc(y, z, rest);
  }

  lemma FrameParts(v: seq<Val>)
    requires Shaped(v, FRAME)
    ensures Shaped(v[1..4], COVERED) && v[0].V32? && v[4].V32? && v[3].VStr?
    ensures EncodeVals(v) == LittleEndian(v[0].w, 4) + (EncodeVals(v[1..4]) + LittleEndian(v[4].w, 4))
    ensures v[1] == V32(VERSION) ==> v[1..4] == CoveredVals(FrameOf(v))
  {
    assert KindOf(v[0]) == K32 && KindOf(v[2]) == K8 && KindOf(v[3]) == KStr && KindOf(v[4]) == K32;
    assert Shaped(v[1..4], COVERED) by {
      assert FRAME[1..4] == COVERED;
    }
    assert v == [v[0]] + (v[1..4] + [v[4]]);
    hide EncodeVals, LittleEndian;
    EncodeConcat([v[0]], v[1..4] + [v[4]]);
    EncodeConcat(v[1..4], [v[4]]);
    OneWordBytes(v[0].w);
    OneWordBytes(v[4].w);
  }

  /** The checksummed bytes are where the decoder looks for them. */
  lemma CoveredSlice(b: Bytes)
    requires DecodeVals(FRAME, b).Some?
    ensures var (v, rest) := DecodeVals(FRAME, b).value;
            && |b| >= 17 + |FrameOf(v).payload|
            && (v[1] == V32(VERSION) ==> b[4..13 + |FrameOf(v).payload|] == CoveredBytes(FrameOf(v)))
            && |rest| <= |b|
  {
    var (v, rest) := DecodeVals(FRAME, b).value;
    EncodeDecode(FRAME, b);
    FrameParts(v);
    CoveredSize(v[1..4]);
    assert v[1..4][2] == v[3];
    hide DecodeVals, EncodeVals, LittleEndian, Shaped, AllFit, CoveredVals;
    Middle(b, LittleEndian(v[0].w, 4), EncodeVals(v[1..4]), LittleEndian(v[4].w, 4), rest);
  }
}
