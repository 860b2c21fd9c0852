/** Reclaim selection: which records it takes, in what order, and what releasing
    them yields. */
module Reclaim {
  import opened Machine
  import opened Types
  import opened Records
  import opened GovernorSpec
  import opened GovernorInvariants
  import opened ArenaSpec
  import opened Accounting

  function Priority(r: u8): nat {
    if r == BEST_EFFORT then 0
    else if r == RECLAIM_IF_CHECKPOINTED then 1
    else if r == RECLAIM_IF_RELOADABLE then 2
    else if r == RECLAIM_IF_COLD then 3
    else if r == RECLAIM_AFTER_COMPLETION then 4
    else if r == NEVER_RECLAIM then 5
    else 6
  }

  /** Counted as reclaimable bytes. */
  predicate Reclaimable(rec: AllocationRecord) {
    && !(rec.pinCount > 0 || rec.movability == PINNED || rec.movability == NONMOVABLE)
    && !(rec.reclaimability == NEVER_RECLAIM || rec.reclaimability == RECLAIM_UNKNOWN)
    && rec.residency != ACTIVE
  }

  /** Selectable: additionally backed, if its class needs backing. */
  predicate Selectable(rec: AllocationRecord) {
    && Reclaimable(rec)
    && !((rec.reclaimability == RECLAIM_IF_RELOADABLE || rec.reclaimability == RECLAIM_IF_CHECKPOINTED)
         && !rec.recoverable && rec.origin.backingRef == [])
  }

  /** Priority first, larger blocks before smaller, then by id. */
  predicate Before(a: AllocationRecord, b: AllocationRecord) {
    var p, q := Priority(a.reclaimability), Priority(b.reclaimability);
    p < q || (p == q && (a.regionSize > b.regionSize || (a.regionSize == b.regionSize && a.id < b.id)))
  }

  predicate Distinct(ids: seq<u64>) {
    forall i, j | 0 <= i < j < |ids| :: ids[i] != ids[j]
  }

  /** `ids` are the `max` least selectable records, in order. */
  ghost predicate IsSelection(records: map<u64, AllocationRecord>, max: nat, ids: seq<u64>) {
    && |ids| <= max
    && (forall i | 0 <= i < |ids| :: ids[i] in records && Selectable(records[ids[i]]))
    && (forall i, j | 0 <= i < j < |ids| :: Before(records[ids[i]], records[ids[j]]))
    && (forall id | id in records && Selectable(records[id]) && id !in ids ::
          |ids| == max && forall i | 0 <= i < |ids| :: Before(records[ids[i]], records[id]))
  }

  lemma BeforeIsStrict(a: AllocationRecord, b: AllocationRecord)
    ensures !(Before(a, b) && Before(b, a))
    ensures a.id != b.id ==> Before(a, b) || Before(b, a)
  {
  }

  /** The selection is unique. */
  lemma {:induction false} SelectionUnique(records: map<u64, AllocationRecord>, max: nat,
                                           s: seq<u64>, t: seq<u64>, k: nat)
    requires (forall id | id in records :: records[id].id == id)
    requires IsSelection(records, max, s) && IsSelection(records, max, t) && k <= |s|
    ensures k <= |t| && s[..k] == t[..k]
  {
    if k > 0 {
      SelectionUnique(records, max, s, t, k - 1);
      var x := s[k - 1];
      NotEarlier(records, max, s, t, k - 1);
      if k - 1 < |t| {
        NotEarlier(records, max, t, s, k - 1);
        BeforeIsStrict(records[x], records[t[k - 1]]);
        assert s[..k] == s[..k - 1] + [x] && t[..k] == t[..k - 1] + [t[k - 1]];
      }
    }
  }

  /** With equal first `k` entries, the next entry of `t` exists and is not after that of `s`. */
  lemma NotEarlier(records: map<u64, AllocationRecord>, max: nat, s: seq<u64>, t: seq<u64>, k: nat)
    requires (forall id | id in records :: records[id].id == id)
    requires IsSelection(records, max, s) && IsSelection(records, max, t)
    requires k < |s| && k <= |t| && s[..k] == t[..k]
    ensures k < |t| && (t[k] == s[k] || Before(records[t[k]], records[s[k]]))
  {
    var x := s[k];
    forall j | 0 <= j < k ensures t[j] != x {
      assert t[j] == t[..k][j] == s[..k][j] == s[j];
      assert Before(records[s[j]], records[s[k]]);
    }
    if x in t {
      var j :| 0 <= j < |t| && t[j] == x;
    }
  }

  // ------------------------------------------------- releasing a selection

  /** Release the allocations one after another, each with its current generation. */
  ghost function ReleaseAll(s: GovernorState, ids: seq<u64>): (GovernorState, bool)
    decreases |ids|
  {
    if ids == [] then (s, true)
    else if ids[0] !in s.records then (s, false)
    else
      var (t, r) := Release(s, ids[0], s.records[ids[0]].generation, 0, 0);
      if r.Err? then (t, false) else ReleaseAll(t, ids[1..])
  }

  function SumSizes(records: map<u64, AllocationRecord>, ids: seq<u64>): nat
    requires forall i | 0 <= i < |ids| :: ids[i] in records
  {
    if ids == [] then 0 else records[ids[0]].regionSize + SumSizes(records, ids[1..])
  }

  ghost predicate AllSelectable(records: map<u64, AllocationRecord>, ids: seq<u64>) {
    Distinct(ids) && forall i | 0 <= i < |ids| :: ids[i] in records && Selectable(records[ids[i]])
  }

  lemma SelectionIsDistinct(records: map<u64, AllocationRecord>, max: nat, ids: seq<u64>)
    requires IsSelection(records, max, ids)
    ensures AllSelectable(records, ids)
  {
    forall i, j | 0 <= i < j < |ids| ensures ids[i] != ids[j] {
      BeforeIsStrict(records[ids[i]], records[ids[j]]);
      assert Before(records[ids[i]], records[ids[j]]);
    }
  }

  lemma {:induction false} SumUnchanged(m: map<u64, AllocationRecord>, m': map<u64, AllocationRecord>, ids: seq<u64>)
    requires forall i | 0 <= i < |ids| :: ids[i] in m && ids[i] in m' && m[ids[i]] == m'[ids[i]]
    ensures SumSizes(m, ids) == SumSizes(m', ids)
  {
    if ids != [] {
      SumUnchanged(m, m', ids[1..]);
    }
  }

  /** Releasing selected records one after another always succeeds and raises the
      free bytes by exactly the sum of their sizes. */
  lemma {:induction false} SelectionReleases(s: GovernorState, ids: seq<u64>)
    requires Lockstep(s) && AllSelectable(s.records, ids)
    ensures ReleaseAll(s, ids).1 && Lockstep(ReleaseAll(s, ids).0)
    ensures |FreeBytes(ReleaseAll(s, ids).0.arena)| == |FreeBytes(s.arena)| + SumSizes(s.records, ids)
    decreases |ids|
  {
    if ids != [] {
      var id := ids[0];
      var rest := ids[1..];
      var t := Release(s, id, s.records[id].generation, 0, 0).0;
      hide Release, Lockstep, Selectable, FreeBytes;
      OneReleased(s, id);
      OthersSelectable(s.records, t.records, ids);
      SumUnchanged(s.records, t.records, rest);
      SelectionReleases(t, rest);
    }
  }

  lemma OthersSelectable(m: map<u64, AllocationRecord>, m': map<u64, AllocationRecord>, ids: seq<u64>)
    requires ids != [] && AllSelectable(m, ids) && m' == Without(m, ids[0])
    ensures AllSelectable(m', ids[1..])
    ensures forall i | 0 <= i < |ids[1..]| :: ids[1..][i] in m' && m'[ids[1..][i]] == m[ids[1..][i]]
  {
    hide Selectable;
    var rest := ids[1..];
    forall i | 0 <= i < |rest| ensures rest[i] in m' && m'[rest[i]] == m[rest[i]] && Selectable(m[rest[i]]) {
      assert rest[i] == ids[i + 1] && ids[i + 1] != ids[0];
    }
  }

  lemma OneReleased(s: GovernorState, id: u64)
    requires Lockstep(s) && id in s.records && Selectable(s.records[id])
    ensures var (t, r) := Release(s, id, s.records[id].generation, 0, 0);
            && r.Ok? && Lockstep(t) && t.records == Without(s.records, id)
            && |FreeBytes(t.arena)| == |FreeBytes(s.arena)| + s.records[id].regionSize
  {
    var gen := s.records[id].generation;
    assert InStep(s.records[id], s.arena.live[id]);
    ReleaseKeeps(s, id, gen, 0, 0);
    var t := Release(s, id, gen, 0, 0).0;
    WithoutBytes(s.arena, t.arena, id);
    BytesSplit(s.arena);
    BytesSplit(t.arena);
  }

  // -------------------------------------------------------- the estimate

  /** The bytes held by a set of allocations. */
  ghost function Covered(a: ArenaState, ids: set<u64>): set<int> {
    set j | 0 <= j < a.capacity && HeldBySome(a, ids, j)
  }

  ghost predicate HeldBySome(a: ArenaState, ids: set<u64>, j: int) {
    exists id :: id in ids && id in a.live && !Apart(a.live[id], j, j + 1)
  }

  lemma CoverAdd(a: ArenaState, ids: set<u64>, id: u64)
    requires Invariant(a) && id in a.live && id !in ids
    ensures |Covered(a, ids + {id})| == |Covered(a, ids)| + a.live[id].size <= a.capacity
  {
    hide *;
    var r := a.live[id];
    var u, before, mine := Covered(a, ids + {id}), Covered(a, ids), Interval(r.offset, r.offset + r.size);
    forall j
      ensures j in u <==> j in before || j in mine
      ensures !(j in before && j in mine)
    {
      CoverAddAt(a, ids, id, j);
    }
    DisjointUnion(u, before, mine);
    IntervalSize(r.offset, r.offset + r.size);
    CoverBounded(a, ids + {id});
  }

  lemma CoverAddAt(a: ArenaState, ids: set<u64>, id: u64, j: int)
    requires Invariant(a) && id in a.live && id !in ids
    ensures var before, mine := Covered(a, ids), Interval(a.live[id].offset, a.live[id].offset + a.live[id].size);
            && (j in Covered(a, ids + {id}) <==> j in before || j in mine)
            && !(j in before && j in mine)
  {
    assert LiveBlock(a, id);
    HeldAdd(a, ids, id, j);
    hide Invariant, HeldBySome;
  }

  lemma HeldAdd(a: ArenaState, ids: set<u64>, id: u64, j: int)
    requires Invariant(a) && id in a.live && id !in ids
    ensures var r := a.live[id];
            && (HeldBySome(a, ids + {id}, j) <==> HeldBySome(a, ids, j) || r.offset <= j < r.offset + r.size)
            && !(HeldBySome(a, ids, j) && r.offset <= j < r.offset + r.size)
  {
    var r := a.live[id];
    if HeldBySome(a, ids, j) {
      var i :| i in ids && i in a.live && !Apart(a.live[i], j, j + 1);
      assert i in ids + {id};
      assert Apart(a.live[i], r.offset, r.offset + r.size);
    }
    if HeldBySome(a, ids + {id}, j) {
      var i :| i in ids + {id} && i in a.live && !Apart(a.live[i], j, j + 1);
      assert i == id || i in ids;
    }
    if r.offset <= j < r.offset + r.size {
      assert id in ids + {id} && !Apart(r, j, j + 1);
    }
  }

  lemma CoverBounded(a: ArenaState, ids: set<u64>)
    ensures |Covered(a, ids)| <= a.capacity
  {
    IntervalSize(0, a.capacity);
    SubsetSize(Covered(a, ids), Interval(0, a.capacity));
  }

  ghost function IdSet(ids: seq<u64>): set<u64> {
    set i | 0 <= i < |ids| :: ids[i]
  }

  /** A sum of distinct block sizes is a count of bytes. */
  lemma {:induction false} SumIsCoverage(s: GovernorState, ids: seq<u64>)
    requires Lockstep(s) && Distinct(ids) && forall i | 0 <= i < |ids| :: ids[i] in s.records
    ensures SumSizes(s.records, ids) == |Covered(s.arena, IdSet(ids))|
    decreases |ids|
  {
    if ids == [] {
      assert Covered(s.arena, IdSet(ids)) == {};
    } else {
      var rest := ids[1..];
      assert Distinct(rest);
      SumIsCoverage(s, rest);
      assert InStep(s.records[ids[0]], s.arena.live[ids[0]]);
      assert ids[0] !in IdSet(rest);
      CoverAdd(s.arena, IdSet(rest), ids[0]);
      IdSetStep(ids);
    }
  }

  lemma IdSetStep(ids: seq<u64>)
    requires ids != []
    ensures IdSet(ids) == IdSet(ids[1..]) + {ids[0]}
  {
    var rest := ids[1..];
    forall x ensures x in IdSet(ids) <==> x in IdSet(rest) + {ids[0]} {
      if x in IdSet(rest) {
        var i :| 0 <= i < |rest| && rest[i] == x;
        assert ids[i + 1] == x;
      }
      if x in IdSet(ids) {
        var i :| 0 <= i < |ids| && ids[i] == x;
        assert i > 0 ==> rest[i - 1] == x;
      }
    }
  }

  ghost function ReclaimableIds(records: map<u64, AllocationRecord>): set<u64> {
    set id | id in records && Reclaimable(records[id])
  }

  /** No selection sums above the reclaimable estimate. */
  lemma SelectionWithinEstimate(s: GovernorState, max: nat, ids: seq<u64>)
    requires Lockstep(s) && IsSelection(s.records, max, ids)
    ensures SumSizes(s.records, ids) <= |Covered(s.arena, ReclaimableIds(s.records))|
  {
    SelectionIsDistinct(s.records, max, ids);
    SumIsCoverage(s, ids);
    assert IdSet(ids) <= ReclaimableIds(s.records);
    SubsetSize(Covered(s.arena, IdSet(ids)), Covered(s.arena, ReclaimableIds(s.records)));
  }
}
