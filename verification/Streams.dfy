/** The writer and reader objects of the codecs. */
module Streams {
  import opened Machine
  import opened Types
  import opened Wire

  /** Appends values to a buffer, following a plan: `base` is what earlier plans
      wrote, and `done` values of the current plan have been written after it. */
  class Writer {
    var buf: Bytes
    ghost var base: seq<Val>
    ghost var plan: seq<Val>
    ghost var done: nat

    ghost predicate Valid()
      reads this
    {
      done <= |plan| && buf == EncodeVals(base + plan[..done])
    }

    /** The current plan is finished. */
    ghost predicate Idle()
      reads this
    {
      Valid() && done == |plan|
    }

    /** Everything written. */
    ghost function Vals(): seq<Val>
      reads this
      requires done <= |plan|
    {
      base + plan[..done]
    }

    ghost predicate Expects(v: Val)
      reads this
    {
      done < |plan| && plan[done] == v
    }

    constructor ()
      ensures Idle() && Vals() == []
    {
      buf, base, plan, done := [], [], [], 0;
    }

    /** Close the finished plan and start another. */
    ghost method Begin(vs: seq<Val>)
      requires Idle()
      modifies this`base, this`plan, this`done
      ensures Valid() && base == old(Vals()) && plan == vs && done == 0
    {
      assert plan[..done] == plan;
      base, plan, done := base + plan, vs, 0;
      assert base + plan[..0] == base;
    }

    method U8(v: u8)
      requires Valid() && Expects(V8(v))
      modifies this`buf, this`done
      ensures Valid() && done == old(done) + 1
    {
      hide EncodeVals, LittleEndian;
      PlanStep(base, plan, done);
      buf := buf + [v];
      done := done + 1;
    }

    method U32(v: u32)
      requires Valid() && Expects(V32(v))
      modifies this`buf, this`done
      ensures Valid() && done == old(done) + 1
    {
      hide EncodeVals, LittleEndian;
      PlanStep(base, plan, done);
      PutWord(v, 4);
      done := done + 1;
    }

    method U64(v: u64)
      requires Valid() && Expects(V64(v))
      modifies this`buf, this`done
      ensures Valid() && done == old(done) + 1
    {
      hide EncodeVals, LittleEndian;
      PlanStep(base, plan, done);
      PutWord(v, 8);
      done := done + 1;
    }

    /** The length goes out as a 32-bit word. */
    method Str(s: Bytes)
      requires Valid() && Expects(VStr(s))
      modifies this`buf, this`done
      ensures Valid() && done == old(done) + 1
    {
      hide EncodeVals, LittleEndian;
      PlanStep(base, plan, done);
      PutWord(|s| % TWO32, 4);
      PutBytes(s);
      Assoc(old(buf), LittleEndian(|s| % TWO32, 4), s);
      done := done + 1;
    }

    /** `n` bytes of a word, low byte first. */
    method PutWord(v: nat, n: nat)
      modifies this`buf
      ensures buf == old(buf) + LittleEndian(v, n)
    {
      var x := v;
      for i := 0 to n
        invariant buf + LittleEndian(x, n - i) == old(buf) + LittleEndian(v, n)
      {
        Assoc(buf, [x % 0x100], LittleEndian(x / 0x100, n - i - 1));
        buf := buf + [x % 0x100];
        x := x / 0x100;
      }
    }

    method PutBytes(s: Bytes)
      modifies this`buf
      ensures buf == old(buf) + s
    {
      for i := 0 to |s|
        invariant buf == old(buf) + s[..i]
      {
        buf := buf + [s[i]];
      }
    }
  }

  lemma {:induction false} EncodeAppend(vs: seq<Val>, v: Val)
    ensures EncodeVals(vs + [v]) == EncodeVals(vs) + EncodeVal(v)
  {
    EncodeConcat(vs, [v]);
    assert EncodeVals([v]) == EncodeVal(v) + EncodeVals([]) == EncodeVal(v);
  }

  lemma PlanStep(base: seq<Val>, plan: seq<Val>, done: nat)
    requires done < |plan|
    ensures EncodeVals(base + plan[..done + 1]) == EncodeVals(base + plan[..done]) + EncodeVal(plan[done])
  {
    EncodeAppend(base + plan[..done], plan[done]);
    assert base + plan[..done + 1] == (base + plan[..done]) + [plan[done]];
  }

  /** What has been read (`got`) of a planned sequence of values. */
  ghost predicate Progress(plan: seq<Kind>, start: Bytes, got: seq<Val>, rest: Bytes) {
    |got| <= |plan| && DecodeVals(plan, start) == Prepend(got, DecodeVals(plan[|got|..], rest))
  }

  lemma ProgressStarts(plan: seq<Kind>, start: Bytes)
    ensures Progress(plan, start, [], start)
  {
    assert plan[0..] == plan;
    match DecodeVals(plan, start)
    case None =>
    case Some((ws, _)) => assert [] + ws == ws;
  }

  lemma ProgressStep(plan: seq<Kind>, start: Bytes, got: seq<Val>, s: Bytes, v: Val, rest: Bytes)
    requires Progress(plan, start, got, s) && |got| < |plan|
    requires DecodeVal(plan[|got|], s) == Some((v, rest))
    ensures Progress(plan, start, got + [v], rest)
  {
    assert plan[|got|..][1..] == plan[|got| + 1..];
    match DecodeVals(plan[|got| + 1..], rest)
    case None =>
    case Some((ws, _)) => assert got + ([v] + ws) == (got + [v]) + ws;
  }

  lemma ProgressEnds(plan: seq<Kind>, start: Bytes, got: seq<Val>, rest: Bytes)
    requires Progress(plan, start, got, rest) && |got| == |plan|
    ensures DecodeVals(plan, start) == Some((got, rest))
  {
    assert got + [] == got;
  }

  /** If the whole plan can be read, its `k`th value is `v`. */
  ghost predicate Holds(plan: seq<Kind>, start: Bytes, k: nat, v: Val) {
    DecodeVals(plan, start).Some? && k < |plan| ==> DecodeVals(plan, start).value.0[k] == v
  }

  lemma ProgressHolds(plan: seq<Kind>, start: Bytes, got: seq<Val>, rest: Bytes)
    requires Progress(plan, start, got, rest) && got != []
    ensures Holds(plan, start, |got| - 1, got[|got| - 1])
  {
  }

  /** Reads values from a buffer at a moving position, following a plan. */
  class Reader {
    const b: Bytes
    var pos: nat
    ghost var plan: seq<Kind>
    ghost var start: Bytes
    ghost var got: seq<Val>

    ghost predicate Valid()
      reads this
    {
      pos <= |b| && Progress(plan, start, got, b[pos..])
    }

    ghost function Rest(): Bytes
      reads this
      requires pos <= |b|
    {
      b[pos..]
    }

    ghost predicate Expects(k: Kind)
      reads this
    {
      |got| < |plan| && plan[|got|] == k
    }

    constructor (bytes: Bytes)
      ensures Valid() && b == bytes && Rest() == bytes
    {
      b, pos := bytes, 0;
      plan, start, got := [], bytes, [];
      ProgressStarts([], bytes);
    }

    ghost method Begin(ks: seq<Kind>)
      requires Valid()
      modifies this`plan, this`start, this`got
      ensures Valid() && plan == ks && start == Rest() && got == []
    {
      plan, start, got := ks, Rest(), [];
      ProgressStarts(ks, start);
    }

    method U8() returns (o: Option<u8>)
      requires Valid() && Expects(K8)
      modifies this`pos, this`got
      ensures o.Some? ==> Valid() && |got| == old(|got|) + 1 && Holds(plan, start, old(|got|), V8(o.value))
      ensures o.None? ==> pos <= |b| && DecodeVals(plan, start) == None
    {
      if pos + 1 > |b| {
        return None;
      }
      var v := b[pos];
      ProgressStep(plan, start, got, Rest(), V8(v), b[pos + 1..]);
      got := got + [V8(v)];
      ProgressHolds(plan, start, got, b[pos + 1..]);
      pos := pos + 1;
      return Some(v);
    }

    method U32() returns (o: Option<u32>)
      requires Valid() && Expects(K32)
      modifies this`pos, this`got
      ensures o.Some? ==> Valid() && |got| == old(|got|) + 1 && Holds(plan, start, old(|got|), V32(o.value))
      ensures o.None? ==> pos <= |b| && DecodeVals(plan, start) == None
    {
      if pos + 4 > |b| {
        return None;
      }
      ghost var s := Rest();
      var v := TakeBytes(4);
      Spans();
      ProgressStep(plan, start, got, s, V32(v), Rest());
      got := got + [V32(v)];
      ProgressHolds(plan, start, got, Rest());
      return Some(v);
    }

    method U64() returns (o: Option<u64>)
      requires Valid() && Expects(K64)
      modifies this`pos, this`got
      ensures o.Some? ==> Valid() && |got| == old(|got|) + 1 && Holds(plan, start, old(|got|), V64(o.value))
      ensures o.None? ==> pos <= |b| && DecodeVals(plan, start) == None
    {
      if pos + 8 > |b| {
        return None;
      }
      ghost var s := Rest();
      var v := TakeBytes(8);
      Spans();
      ProgressStep(plan, start, got, s, V64(v), Rest());
      got := got + [V64(v)];
      ProgressHolds(plan, start, got, Rest());
      return Some(v);
    }

    method Str() returns (o: Option<Bytes>)
      requires Valid() && Expects(KStr)
      modifies this`pos, this`got
      ensures o.Some? ==> Valid() && |got| == old(|got|) + 1 && Holds(plan, start, old(|got|), VStr(o.value))
      ensures o.None? ==> pos <= |b| && DecodeVals(plan, start) == None
    {
      if pos + 4 > |b| {
        return None;
      }
      ghost var s := Rest();
      var n := TakeBytes(4);
      if n > MAX_STRING {
        return None;
      }
      if pos + n > |b| {
        return None;
      }
      var text := b[pos..pos + n];
      assert s[4..] == Rest() && Rest()[..n] == text && Rest()[n..] == b[pos + n..];
      pos := pos + n;
      ProgressStep(plan, start, got, s, VStr(text), Rest());
      got := got + [VStr(text)];
      ProgressHolds(plan, start, got, Rest());
      return Some(text);
    }

    /** Assemble `n` bytes, low byte first. */
    method TakeBytes(n: nat) returns (v: nat)
      requires pos + n <= |b|
      modifies this`pos
      ensures pos == old(pos) + n && v == FromLittleEndian(old(Rest())[..n]) < Span(n)
      ensures Rest() == old(Rest())[n..]
    {
      v := 0;
      var scale: nat := 1;
      for i := 0 to n
        invariant pos == old(pos) + i && scale == Span(i)
        invariant v == FromLittleEndian(b[old(pos)..pos])
      {
        FromAppend(b[old(pos)..pos], b[pos]);
        assert b[old(pos)..pos] + [b[pos]] == b[old(pos)..pos + 1];
        v := v + b[pos] * scale;
        pos := pos + 1;
        scale := 0x100 * scale;
      }
      FromBound(b[old(pos)..pos]);
      assert old(Rest())[..n] == b[old(pos)..pos];
    }

    method Remaining() returns (n: nat)
      requires pos <= |b|
      ensures n == |Rest()|
    {
      return |b| - pos;
    }
  }

  lemma {:induction false} FromAppend(s: Bytes, x: u8)
    ensures FromLittleEndian(s + [x]) == FromLittleEndian(s) + x * Span(|s|)
  {
    if s == [] {
      assert [x][1..] == [];
    } else {
      assert (s + [x])[1..] == s[1..] + [x];
      FromAppend(s[1..], x);
      assert x * (0x100 * Span(|s| - 1)) == 0x100 * (x * Span(|s| - 1));
    }
  }
}
