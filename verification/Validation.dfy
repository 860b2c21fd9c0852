/** The decoder's structural checks: the id set, the wrapping sum, and the sorted
    overlap scan, against the plain pairwise rules. */
module Validation {
  import opened Machine
  import opened Records
  import opened Snapshots

  // ------------------------------------------------------------- extents

  /** The bytes of a record as a half-open pair. */
  datatype Extent = Extent(lo: u64, hi: u64)

  /** The lexicographic order of pairs. */
  predicate Precedes(x: Extent, y: Extent) {
    x.lo < y.lo || (x.lo == y.lo && x.hi < y.hi)
  }

  predicate Sorted(v: seq<Extent>) {
    forall i, j | 0 <= i < j < |v| :: !Precedes(v[j], v[i])
  }

  predicate NonEmpty(v: seq<Extent>) {
    forall i | 0 <= i < |v| :: v[i].lo < v[i].hi
  }

  predicate ExtentsApart(x: Extent, y: Extent) {
    x.hi <= y.lo || y.hi <= x.lo
  }

  predicate AllApart(v: seq<Extent>) {
    forall i, j | 0 <= i < j < |v| :: ExtentsApart(v[i], v[j])
  }

  predicate ApartFrom(v: seq<Extent>, x: Extent) {
    forall y | y in v :: ExtentsApart(y, x)
  }

  function Insert(v: seq<Extent>, x: Extent): (r: seq<Extent>)
    ensures multiset(r) == multiset(v) + multiset{x}
    ensures forall y :: y in r <==> y in v || y == x
  {
    if v == [] then [x]
    else if !Precedes(v[0], x) then [x] + v
    else
      assert v == [v[0]] + v[1..];
      [v[0]] + Insert(v[1..], x)
  }

  lemma {:induction false} InsertSorted(v: seq<Extent>, x: Extent)
    requires Sorted(v)
    ensures Sorted(Insert(v, x))
  {
    if v != [] {
      if Precedes(v[0], x) {
        InsertSorted(v[1..], x);
        var t := Insert(v[1..], x);
        forall j | 0 <= j < |t| ensures !Precedes(t[j], v[0]) {
          assert t[j] in t;
        }
      } else {
        assert forall j | 0 <= j < |v| :: !Precedes(v[j], v[0]);
      }
    }
  }

  lemma ConsApart(x: Extent, v: seq<Extent>)
    ensures AllApart([x] + v) <==> AllApart(v) && ApartFrom(v, x)
  {
    var w := [x] + v;
    if AllApart(w) {
      forall i, j | 0 <= i < j < |v| ensures ExtentsApart(v[i], v[j]) {
        assert ExtentsApart(w[i + 1], w[j + 1]);
      }
      forall y | y in v ensures ExtentsApart(y, x) {
        var k :| 0 <= k < |v| && v[k] == y;
        assert ExtentsApart(w[0], w[k + 1]);
      }
    }
    if AllApart(v) && ApartFrom(v, x) {
      forall i, j | 0 <= i < j < |w| ensures ExtentsApart(w[i], w[j]) {
        assert w[j] == v[j - 1] && v[j - 1] in v;
        assert i > 0 ==> w[i] == v[i - 1];
      }
    }
  }

  lemma ConsFrom(h: Extent, t: seq<Extent>, x: Extent)
    ensures ApartFrom([h] + t, x) <==> ExtentsApart(h, x) && ApartFrom(t, x)
  {
    assert forall y :: y in [h] + t <==> y == h || y in t;
  }

  lemma InsertFrom(t: seq<Extent>, x: Extent, h: Extent)
    ensures ApartFrom(Insert(t, x), h) <==> ApartFrom(t, h) && ExtentsApart(x, h)
  {
    assert x in Insert(t, x);
    assert forall y | y in t :: y in Insert(t, x);
  }

  lemma {:induction false} InsertApart(v: seq<Extent>, x: Extent)
    ensures AllApart(Insert(v, x)) <==> AllApart(v) && ApartFrom(v, x)
  {
    if v == [] || !Precedes(v[0], x) {
      ConsApart(x, v);
      assert v == [] ==> [x] + v == [x];
    } else {
      var t := v[1..];
      assert v == [v[0]] + t;
      InsertApart(t, x);
      ConsApart(v[0], Insert(t, x));
      ConsApart(v[0], t);
      InsertFrom(t, x, v[0]);
      ConsFrom(v[0], t, x);
    }
  }

  /** Appending to the list adds the same condition as inserting into the order. */
  lemma AppendApart(v: seq<Extent>, x: Extent)
    ensures AllApart(v + [x]) <==> AllApart(v) && ApartFrom(v, x)
  {
    var w := v + [x];
    if AllApart(w) {
      forall i, j | 0 <= i < j < |v| ensures ExtentsApart(v[i], v[j]) {
        assert ExtentsApart(w[i], w[j]);
      }
      forall y | y in v ensures ExtentsApart(y, x) {
        var k :| 0 <= k < |v| && v[k] == y;
        assert ExtentsApart(w[k], w[|v|]);
      }
    }
    if AllApart(v) && ApartFrom(v, x) {
      forall i, j | 0 <= i < j < |w| ensures ExtentsApart(w[i], w[j]) {
        assert w[i] == v[i] && v[i] in v;
        assert j < |v| ==> w[j] == v[j];
      }
    }
  }

  lemma SameMembersApart(v: seq<Extent>, w: seq<Extent>, x: Extent)
    requires multiset(v) == multiset(w)
    ensures ApartFrom(v, x) <==> ApartFrom(w, x)
  {
    forall y ensures y in v <==> y in w {
      assert y in v <==> y in multiset(v);
      assert y in w <==> y in multiset(w);
    }
  }

  /** Sorting is a permutation, so it neither creates nor hides an overlap. */
  method SortExtents(v: seq<Extent>) returns (s: seq<Extent>)
    ensures Sorted(s) && multiset(s) == multiset(v)
    ensures AllApart(s) <==> AllApart(v)
  {
    s := [];
    for i := 0 to |v|
      invariant Sorted(s) && multiset(s) == multiset(v[..i])
      invariant AllApart(s) <==> AllApart(v[..i])
    {
      InsertSorted(s, v[i]);
      InsertApart(s, v[i]);
      AppendApart(v[..i], v[i]);
      SameMembersApart(s, v[..i], v[i]);
      assert v[..i + 1] == v[..i] + [v[i]];
      s := Insert(s, v[i]);
    }
    assert v[..|v|] == v;
  }

  lemma {:induction false} AdjacentSuffices(v: seq<Extent>, i: int, j: int)
    requires NonEmpty(v) && 0 <= i < j < |v|
    requires forall k | 0 < k < |v| :: v[k - 1].hi <= v[k].lo
    ensures v[i].hi <= v[j].lo
    decreases j
  {
    if i < j - 1 {
      AdjacentSuffices(v, i, j - 1);
    }
  }

  /** After sorting, comparing neighbours finds every overlap. */
  method ScanNeighbours(v: seq<Extent>) returns (clear: bool)
    requires Sorted(v) && NonEmpty(v)
    ensures clear <==> AllApart(v)
  {
    var i := 1;
    while i < |v|
      invariant 1 <= i && forall k | 0 < k < i && k < |v| :: v[k - 1].hi <= v[k].lo
    {
      if v[i].lo < v[i - 1].hi {
        assert !ExtentsApart(v[i - 1], v[i]) by { assert !Precedes(v[i], v[i - 1]); }
        return false;
      }
      i := i + 1;
    }
    forall i, j | 0 <= i < j < |v| ensures ExtentsApart(v[i], v[j]) {
      AdjacentSuffices(v, i, j);
    }
    return true;
  }

  // ---------------------------------------------------- the whole check

  function ExtentOf(r: AllocationRecord): Extent
    requires r.offset + r.regionSize <= MAX64
  {
    Extent(r.offset, r.offset + r.regionSize)
  }

  lemma IndexedApart(v: seq<AllocationRecord>, e: seq<Extent>)
    requires |e| == |v|
    requires forall i | 0 <= i < |v| :: v[i].offset + v[i].regionSize <= MAX64 && e[i] == ExtentOf(v[i])
    ensures AllApart(e) <==> PairwiseApart(v)
  {
    assert forall i, j | 0 <= i < j < |v| :: ExtentsApart(e[i], e[j]) <==> RecordsApart(v[i], v[j]);
  }

  /** Overlap detection for live records. */
  method NoOverlaps(v: seq<AllocationRecord>, managed: u64) returns (ok: bool)
    requires AllValid(v, managed)
    ensures ok <==> PairwiseApart(v)
  {
    var iv: seq<Extent> := [];
    for i := 0 to |v|
      invariant |iv| == i
      invariant forall k | 0 <= k < i :: v[k].offset + v[k].regionSize <= MAX64 && iv[k] == ExtentOf(v[k])
      invariant NonEmpty(iv)
    {
      assert ValidRecord(v[i], managed);
      iv := iv + [ExtentOf(v[i])];
    }
    IndexedApart(v, iv);
    var s := SortExtents(iv);
    StillNonEmpty(iv, s);
    ok := ScanNeighbours(s);
  }

  lemma StillNonEmpty(v: seq<Extent>, s: seq<Extent>)
    requires NonEmpty(v) && multiset(s) == multiset(v)
    ensures NonEmpty(s)
  {
    forall i | 0 <= i < |s| ensures s[i].lo < s[i].hi {
      assert s[i] in multiset(s);
      assert s[i] in v;
    }
  }

  /** Validate each record and reject a repeated id. */
  method CheckRecords(v: seq<AllocationRecord>, managed: u64, seen0: set<u64>, ghost before: seq<AllocationRecord>)
      returns (ok: bool, seen: set<u64>, sum: u64)
    requires IdsOf(before, seen0) && DistinctIds(before)
    ensures ok <==> AllValid(v, managed) && DistinctIds(before + v)
    ensures ok ==> IdsOf(before + v, seen) && sum == TotalSize(v) % TWO64
  {
    seen, sum := seen0, 0;
    assert before + v[..0] == before;
    for i := 0 to |v|
      invariant AllValid(v[..i], managed) && DistinctIds(before + v[..i]) && IdsOf(before + v[..i], seen)
      invariant sum == TotalSize(v[..i]) % TWO64
    {
      var rec := v[i];
      CheckStep(before, v, managed, seen, i);
      if !ValidRecord(rec, managed) {
        return false, seen, sum;
      }
      if rec.id in seen {
        return false, seen, sum;
      }
      seen := seen + {rec.id};
      SumStep(TotalSize(v[..i]), rec.regionSize);
      sum := Add64(sum, rec.regionSize);
    }
    assert v[..|v|] == v;
    return true, seen, sum;
  }

  ghost predicate IdsOf(v: seq<AllocationRecord>, seen: set<u64>) {
    forall id :: id in seen <==> exists i :: 0 <= i < |v| && v[i].id == id
  }

  lemma SumStep(total: nat, size: u64)
    ensures (total + size) % TWO64 == Add64(total % TWO64, size)
  {
    var q := total / TWO64;
    var m := total % TWO64 + size;
    assert total == q * TWO64 + total % TWO64;
    if m < TWO64 {
      ModUnique(total + size, TWO64, q, m);
    } else {
      ModUnique(total + size, TWO64, q + 1, m - TWO64);
    }
  }

  lemma CheckStep(before: seq<AllocationRecord>, v: seq<AllocationRecord>, managed: u64, seen: set<u64>, i: nat)
    requires i < |v| && IdsOf(before + v[..i], seen) && DistinctIds(before + v[..i]) && AllValid(v[..i], managed)
    ensures !ValidRecord(v[i], managed) ==> !AllValid(v, managed)
    ensures v[i].id in seen ==> !DistinctIds(before + v)
    ensures v[i].id !in seen ==> DistinctIds(before + v[..i + 1]) && IdsOf(before + v[..i + 1], seen + {v[i].id})
    ensures ValidRecord(v[i], managed) ==> AllValid(v[..i + 1], managed)
    ensures TotalSize(v[..i + 1]) == TotalSize(v[..i]) + v[i].regionSize
  {
    var w := before + v[..i];
    assert before + v[..i + 1] == w + [v[i]];
    assert v[..i + 1][..i] == v[..i];
    if v[i].id in seen {
      var k :| 0 <= k < |w| && w[k].id == v[i].id;
      assert (before + v)[k] == w[k] && (before + v)[|before| + i] == v[i];
    } else {
      IdsGrow(w, seen, v[i]);
    }
  }

  lemma IdsGrow(w: seq<AllocationRecord>, seen: set<u64>, r: AllocationRecord)
    requires IdsOf(w, seen) && DistinctIds(w) && r.id !in seen
    ensures DistinctIds(w + [r]) && IdsOf(w + [r], seen + {r.id})
  {
    var x := w + [r];
    assert x[|w|] == r;
    forall i, j | 0 <= i < j < |x| ensures x[i].id != x[j].id {
      assert x[i] == w[i] && w[i].id in seen;
    }
    forall id ensures id in seen + {r.id} <==> exists i :: 0 <= i < |x| && x[i].id == id {
      if id in seen {
        var k :| 0 <= k < |w| && w[k].id == id;
        assert x[k].id == id;
      }
      if exists i :: 0 <= i < |x| && x[i].id == id {
        var k :| 0 <= k < |x| && x[k].id == id;
        assert k < |w| ==> w[k].id == id;
      }
    }
  }

  /** The decoder's structural checks accept exactly the structurally sound snapshots:
      neither the wrapping sum nor the neighbour scan lets anything else through. */
  method CheckStructure(p: PersistSnapshot) returns (ok: bool)
    ensures ok <==> Structural(p)
  {
    var managed := p.domain.managedCapacity;
    var live, seen, sumLive := CheckRecords(p.records, managed, {}, []);
    assert [] + p.records == p.records;
    if !live {
      NotLive(p);
      return false;
    }
    var old_, all, ignored := CheckRecords(p.retired, managed, seen, p.records);
    if !old_ {
      return false;
    }
    var clear := NoOverlaps(p.records, managed);
    if sumLive > managed {
      SumIsTrue(p.records, managed);
      return false;
    }
    return clear;
  }

  lemma NotLive(p: PersistSnapshot)
    requires !AllValid(p.records, p.domain.managedCapacity) || !DistinctIds(p.records)
    ensures !Structural(p)
  {
    if DistinctIds(p.records + p.retired) {
      forall i, j | 0 <= i < j < |p.records| ensures p.records[i].id != p.records[j].id {
        assert (p.records + p.retired)[i].id != (p.records + p.retired)[j].id;
      }
    }
  }

  lemma SumIsTrue(v: seq<AllocationRecord>, managed: u64)
    requires AllValid(v, managed) && TotalSize(v) % TWO64 > managed
    ensures !PairwiseApart(v)
  {
    if PairwiseApart(v) {
      TotalWithinCapacity(v, managed);
      ModUnique(TotalSize(v), TWO64, 0, TotalSize(v));
    }
  }
}
