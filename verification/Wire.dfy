/** The wire primitives shared by the snapshot and frame formats: little-endian
    words and length-prefixed strings, a shape-directed grammar over them, and
    the writer and reader objects that produce and consume it. */
module Wire {
  import opened Machine
  import opened Types

  const MAX_STRING: nat := 0x10_0000

  datatype Option<+T> = None | Some(value: T) {
    predicate IsFailure() {
      None?
    }

    function PropagateFailure<U>(): Option<U>
      requires IsFailure()
    {
      None
    }

    function Extract(): T
      requires !IsFailure()
    {
      value
    }
  }

  datatype Kind = K8 | K32 | K64 | KStr

  datatype Val = V8(b: u8) | V32(w: u32) | V64(q: u64) | VStr(s: Bytes)

  // ---------------------------------------------------- little-endian words

  function Span(n: nat): nat {
    if n == 0 then 1 else 0x100 * Span(n - 1)
  }

  lemma Spans()
    ensures Span(4) == TWO32 && Span(8) == TWO64
  {
    assert Span(2) == 0x1_0000;
    assert Span(4) == TWO32;
    assert Span(6) == 0x1_0000_0000_0000;
  }

  function LittleEndian(v: nat, n: nat): (s: Bytes)
    ensures |s| == n
  {
    if n == 0 then [] else [v % 0x100] + LittleEndian(v / 0x100, n - 1)
  }

  function FromLittleEndian(s: Bytes): nat {
    if s == [] then 0 else s[0] + 0x100 * FromLittleEndian(s[1..])
  }

  lemma {:induction false} FromBound(s: Bytes)
    ensures FromLittleEndian(s) < Span(|s|)
  {
    if s != [] {
      FromBound(s[1..]);
    }
  }

  lemma {:induction false} BytesOfWord(s: Bytes)
    ensures LittleEndian(FromLittleEndian(s), |s|) == s
  {
    if s != [] {
      BytesOfWord(s[1..]);
      var v := FromLittleEndian(s);
      assert v % 0x100 == s[0] && v / 0x100 == FromLittleEndian(s[1..]);
    }
  }

  lemma {:induction false} WordOfBytes(v: nat, n: nat)
    requires v < Span(n)
    ensures FromLittleEndian(LittleEndian(v, n)) == v
  {
    if n > 0 {
      WordOfBytes(v / 0x100, n - 1);
      assert LittleEndian(v, n)[1..] == LittleEndian(v / 0x100, n - 1);
    }
  }

  function Word32(s: Bytes): u32
    requires |s| == 4
  {
    FromBound(s);
    Spans();
    FromLittleEndian(s)
  }

  function Word64(s: Bytes): u64
    requires |s| == 8
  {
    FromBound(s);
    Spans();
    FromLittleEndian(s)
  }

  // -------------------------------------------------------------- grammar

  function KindOf(v: Val): Kind {
    match v
    case V8(_) => K8
    case V32(_) => K32
    case V64(_) => K64
    case VStr(_) => KStr
  }

  /** A string's length is written as a 32-bit word. */
  function EncodeVal(v: Val): Bytes {
    match v
    case V8(b) => [b]
    case V32(w) => LittleEndian(w, 4)
    case V64(q) => LittleEndian(q, 8)
    case VStr(s) => LittleEndian(|s| % TWO32, 4) + s
  }

  function EncodeVals(vs: seq<Val>): Bytes {
    if vs == [] then [] else EncodeVal(vs[0]) + EncodeVals(vs[1..])
  }

  /** Read one value; None if the bytes run out or a string is longer than allowed. */
  function DecodeVal(k: Kind, s: Bytes): Option<(Val, Bytes)> {
    match k
    case K8 => if |s| < 1 then None else Some((V8(s[0]), s[1..]))
    case K32 => if |s| < 4 then None else Some((V32(Word32(s[..4])), s[4..]))
    case K64 => if |s| < 8 then None else Some((V64(Word64(s[..8])), s[8..]))
    case KStr =>
      if |s| < 4 then None
      else
        var n, rest := Word32(s[..4]), s[4..];
        if n > MAX_STRING || |rest| < n then None else Some((VStr(rest[..n]), rest[n..]))
  }

  /** Read one value of each kind in turn. */
  function DecodeVals(ks: seq<Kind>, s: Bytes): (r: Option<(seq<Val>, Bytes)>)
    ensures r.Some? ==> |r.value.0| == |ks|
  {
    if ks == [] then Some(([], s))
    else
      match DecodeVal(ks[0], s)
      case None => None
      case Some((v, rest)) => Prepend([v], DecodeVals(ks[1..], rest))
  }

  function Prepend(vs: seq<Val>, o: Option<(seq<Val>, Bytes)>): Option<(seq<Val>, Bytes)> {
    match o
    case None => None
    case Some((ws, rest)) => Some((vs + ws, rest))
  }

  /** Values the reader accepts: strings no longer than the limit. */
  predicate Fit(v: Val) {
    v.VStr? ==> |v.s| <= MAX_STRING
  }

  predicate AllFit(vs: seq<Val>) {
    forall i | 0 <= i < |vs| :: Fit(vs[i])
  }

  predicate Shaped(vs: seq<Val>, ks: seq<Kind>) {
    |vs| == |ks| && forall i | 0 <= i < |vs| :: KindOf(vs[i]) == ks[i]
  }

  // --------------------------------------------------- the grammar inverts

  lemma SplitAt(s: Bytes, n: nat)
    requires n <= |s|
    ensures s == s[..n] + s[n..]
  {
  }

  lemma {:induction false} TakeWord(v: nat, n: nat, t: Bytes)
    requires v < Span(n)
    ensures var s := LittleEndian(v, n) + t;
            s[..n] == LittleEndian(v, n) && s[n..] == t && FromLittleEndian(s[..n]) == v
  {
    WordOfBytes(v, n);
    assert (LittleEndian(v, n) + t)[..n] == LittleEndian(v, n);
  }

  lemma DecodeByte(b: u8, t: Bytes)
    ensures DecodeVal(K8, [b] + t) == Some((V8(b), t))
  {
    assert ([b] + t)[1..] == t;
  }

  lemma DecodeString(x: Bytes, t: Bytes)
    requires |x| <= MAX_STRING
    ensures DecodeVal(KStr, (LittleEndian(|x|, 4) + x) + t) == Some((VStr(x), t))
  {
    Spans();
    TakeWord(|x|, 4, x + t);
    Assoc(LittleEndian(|x|, 4), x, t);
    TakeText(x, t);
    hide LittleEndian, FromLittleEndian, Span;
  }

  lemma TakeText(x: Bytes, t: Bytes)
    ensures (x + t)[..|x|] == x && (x + t)[|x|..] == t
  {
  }

  lemma {:induction false} DecodeEncodeVal(v: Val, t: Bytes)
    requires Fit(v)
    ensures DecodeVal(KindOf(v), EncodeVal(v) + t) == Some((v, t))
  {
    hide LittleEndian, DecodeVal;
    match v
    case V8(b) => DecodeByte(b, t);
    case V32(w) => DecodeWord(w, t);
    case V64(q) => DecodeQuad(q, t);
    case VStr(x) => DecodeString(x, t);
  }

  lemma DecodeWord(w: u32, t: Bytes)
    ensures DecodeVal(K32, LittleEndian(w, 4) + t) == Some((V32(w), t))
  {
    hide LittleEndian, FromLittleEndian;
    Spans();
    TakeWord(w, 4, t);
  }

  lemma DecodeQuad(q: u64, t: Bytes)
    ensures DecodeVal(K64, LittleEndian(q, 8) + t) == Some((V64(q), t))
  {
    hide LittleEndian, FromLittleEndian;
    Spans();
    TakeWord(q, 8, t);
  }

  /** What a read consumed is exactly the encoding of what it returned. */
  lemma {:induction false} EncodeDecodeVal(k: Kind, s: Bytes)
    requires DecodeVal(k, s).Some?
    ensures var (v, rest) := DecodeVal(k, s).value; KindOf(v) == k && Fit(v) && s == EncodeVal(v) + rest
  {
    match k
    case K8 => SplitAt(s, 1);
    case K32 =>
      SplitAt(s, 4);
      BytesOfWord(s[..4]);
    case K64 =>
      SplitAt(s, 8);
      BytesOfWord(s[..8]);
    case KStr => StringConsumed(s);
  }

  lemma StringConsumed(s: Bytes)
    requires DecodeVal(KStr, s).Some?
    ensures var (v, rest) := DecodeVal(KStr, s).value; v.VStr? && Fit(v) && s == EncodeVal(v) + rest
  {
    hide LittleEndian, DecodeVal;
    var n := StringRead(s);
    var x := s[4..][..n];
    assert EncodeVal(VStr(x)) == LittleEndian(n, 4) + x;
    hide EncodeVal;
    ThreeParts(s, n);
  }

  lemma StringRead(s: Bytes) returns (n: nat)
    requires DecodeVal(KStr, s).Some?
    ensures 4 <= |s| && n <= MAX_STRING && n <= |s[4..]| && LittleEndian(n, 4) == s[..4]
    ensures DecodeVal(KStr, s) == Some((VStr(s[4..][..n]), s[4..][n..]))
  {
    n := Word32(s[..4]);
    BytesOfWord(s[..4]);
    hide LittleEndian, Word32;
  }

  lemma ThreeParts(s: Bytes, n: nat)
    requires 4 <= |s| && n <= |s[4..]|
    ensures s == (s[..4] + s[4..][..n]) + s[4..][n..]
  {
  }

  lemma {:induction false} DecodeEncode(vs: seq<Val>, ks: seq<Kind>, t: Bytes)
    requires Shaped(vs, ks) && AllFit(vs)
    ensures DecodeVals(ks, EncodeVals(vs) + t) == Some((vs, t))
  {
    if vs == [] {
      assert EncodeVals(vs) + t == t;
    } else {
      var rest := EncodeVals(vs[1..]) + t;
      assert EncodeVals(vs) + t == EncodeVal(vs[0]) + rest;
      DecodeEncodeVal(vs[0], rest);
      DecodeEncode(vs[1..], ks[1..], t);
      assert vs == [vs[0]] + vs[1..];
    }
  }

  lemma {:induction false} EncodeDecode(ks: seq<Kind>, s: Bytes)
    requires DecodeVals(ks, s).Some?
    ensures var (vs, rest) := DecodeVals(ks, s).value; Shaped(vs, ks) && AllFit(vs) && s == EncodeVals(vs) + rest
  {
    if ks != [] {
      var (v, mid) := DecodeVal(ks[0], s).value;
      EncodeDecodeVal(ks[0], s);
      EncodeDecode(ks[1..], mid);
      var (vs, rest) := DecodeVals(ks, s).value;
      hide EncodeVal, DecodeVal;
      assert vs[1..] == DecodeVals(ks[1..], mid).value.0;
      Assoc(EncodeVal(v), EncodeVals(vs[1..]), rest);
    }
  }

  lemma Assoc(a: Bytes, b: Bytes, c: Bytes)
    ensures (a + b) + c == a + (b + c)
  {
  }

  /** More input after an accepted prefix changes nothing but the remainder. */
  lemma {:induction false} DecodeExtends(ks: seq<Kind>, s: Bytes, t: Bytes)
    requires DecodeVals(ks, s).Some?
    ensures var (vs, rest) := DecodeVals(ks, s).value; DecodeVals(ks, s + t) == Some((vs, rest + t))
  {
    var (vs, rest) := DecodeVals(ks, s).value;
    EncodeDecode(ks, s);
    DecodeEncode(vs, ks, rest + t);
    Assoc(EncodeVals(vs), rest, t);
  }

  lemma {:induction false} EncodeConcat(vs: seq<Val>, ws: seq<Val>)
    ensures EncodeVals(vs + ws) == EncodeVals(vs) + EncodeVals(ws)
  {
    if vs == [] {
      assert vs + ws == ws;
    } else {
      assert (vs + ws)[1..] == vs[1..] + ws;
      EncodeConcat(vs[1..], ws);
    }
  }

  lemma {:induction false} DecodeConcat(ks: seq<Kind>, ls: seq<Kind>, s: Bytes)
    ensures DecodeVals(ks + ls, s) ==
            match DecodeVals(ks, s)
            case None => None
            case Some((vs, rest)) => Prepend(vs, DecodeVals(ls, rest))
  {
    if ks == [] {
      assert ks + ls == ls;
      match DecodeVals(ls, s)
      case None =>
      case Some((ws, _)) => assert [] + ws == ws;
    } else {
      assert (ks + ls)[1..] == ks[1..] + ls;
      match DecodeVal(ks[0], s)
      case None =>
      case Some((v, rest)) =>
        DecodeConcat(ks[1..], ls, rest);
        match DecodeVals(ks[1..], rest)
        case None =>
        case Some((vs, mid)) =>
          match DecodeVals(ls, mid)
          case None =>
          case Some((ws, _)) => assert [v] + (vs + ws) == ([v] + vs) + ws;
    }
  }

  lemma OneWordBytes(w: u32)
    ensures EncodeVals([V32(w)]) == LittleEndian(w, 4)
  {
    assert EncodeVals([V32(w)]) == EncodeVal(V32(w)) + EncodeVals([]);
  }
}
