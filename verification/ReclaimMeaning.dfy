/** Who may be reclaimed, in what order, and what the estimate counts, in terms of
    the records' own fields. */
module ReclaimMeaning {
  import opened Machine
  import opened Types
  import opened Records
  import opened GovernorSpec
  import opened GovernorInvariants
  import opened ArenaSpec
  import opened Reclaim

  /** The classes that may be reclaimed, those that are taken first in front. */
  const RECLAIM_ORDER: seq<u8> :=
    [BEST_EFFORT, RECLAIM_IF_CHECKPOINTED, RECLAIM_IF_RELOADABLE, RECLAIM_IF_COLD, RECLAIM_AFTER_COMPLETION]

  /** How many classes are taken before this one. */
  function Rank(class_: u8): nat {
    if class_ == RECLAIM_ORDER[0] then 0
    else if class_ == RECLAIM_ORDER[1] then 1
    else if class_ == RECLAIM_ORDER[2] then 2
    else if class_ == RECLAIM_ORDER[3] then 3
    else if class_ == RECLAIM_ORDER[4] then 4
    else 5
  }

  /** A record with codes of the enumerations. */
  predicate Known(rec: AllocationRecord) {
    rec.movability <= NONMOVABLE && rec.reclaimability <= BEST_EFFORT
  }

  /** Its bytes could be given back: free to move, unpinned, of a class that allows it. */
  predicate Spare(rec: AllocationRecord) {
    && rec.pinCount == 0 && rec.movability !in {PINNED, NONMOVABLE}
    && rec.reclaimability !in {NEVER_RECLAIM, RECLAIM_UNKNOWN}
  }

  /** There is somewhere to restore its contents from, if its class asks for that. */
  predicate Backed(rec: AllocationRecord) {
    rec.reclaimability in {RECLAIM_IF_CHECKPOINTED, RECLAIM_IF_RELOADABLE} ==>
      rec.recoverable || rec.origin.backingRef != []
  }

  /** By class, then larger blocks, then smaller ids. */
  predicate Ahead(a: AllocationRecord, b: AllocationRecord) {
    var p, q := Rank(a.reclaimability), Rank(b.reclaimability);
    if p != q then p < q else if a.regionSize != b.regionSize then a.regionSize > b.regionSize else a.id < b.id
  }

  ghost function Offers(s: GovernorState): set<u64> {
    set id | id in s.records && Spare(s.records[id]) && Backed(s.records[id])
  }

  /** The other offers that come before this one. */
  ghost function Rivals(s: GovernorState, id: u64): set<u64>
    requires id in s.records
  {
    set i | i in Offers(s) && Ahead(s.records[i], s.records[id])
  }

  lemma SpareMeaning(s: GovernorState, id: u64)
    requires Lockstep(s) && id in s.records
    ensures Spare(s.records[id]) <==> Reclaimable(s.records[id])
    ensures id in Offers(s) <==> Selectable(s.records[id])
  {
    assert InStep(s.records[id], s.arena.live[id]);
    hide Invariant;
  }

  lemma AheadMeaning(a: AllocationRecord, b: AllocationRecord)
    requires Spare(a) && Spare(b)
    ensures Ahead(a, b) <==> Before(a, b)
  {
  }

  lemma AheadOfOffer(s: GovernorState, i: u64, j: u64)
    requires Lockstep(s) && i in Offers(s) && j in Offers(s)
    ensures i in s.records && j in s.records
    ensures i in Rivals(s, j) <==> Before(s.records[i], s.records[j])
    ensures i != j ==> (i in Rivals(s, j) <==> j !in Rivals(s, i))
    ensures i !in Rivals(s, i)
  {
    AheadMeaning(s.records[i], s.records[j]);
    AheadMeaning(s.records[j], s.records[i]);
    assert s.records[i].id == i && s.records[j].id == j;
    hide Lockstep, Spare, Backed;
  }

  /** The entries before position `k` are exactly the rivals of the entry there. */
  lemma RivalsOfEntry(s: GovernorState, max: nat, ids: seq<u64>, k: nat)
    requires Lockstep(s) && IsSelection(s.records, max, ids) && k < |ids|
    ensures ids[k] in Offers(s) && Rivals(s, ids[k]) == IdSet(ids[..k])
  {
    SpareMeaning(s, ids[k]);
    hide Lockstep, Selectable, Before, Spare, Backed, Ahead;
    forall i ensures i in Rivals(s, ids[k]) <==> i in IdSet(ids[..k]) {
      if i in IdSet(ids[..k]) {
        var j :| 0 <= j < k && ids[..k][j] == i;
        assert ids[j] == i;
        SpareMeaning(s, i);
        AheadOfOffer(s, i, ids[k]);
      }
      if i in Rivals(s, ids[k]) {
        SpareMeaning(s, i);
        RivalIsEarlier(s, max, ids, k, i);
      }
    }
  }

  lemma RivalIsEarlier(s: GovernorState, max: nat, ids: seq<u64>, k: nat, i: u64)
    requires Lockstep(s) && IsSelection(s.records, max, ids) && k < |ids|
    requires ids[k] in Offers(s) && i in Rivals(s, ids[k]) && Selectable(s.records[i])
    ensures i in IdSet(ids[..k])
  {
    hide Lockstep, Selectable, Before, Spare, Backed, Ahead, Rivals;
    assert i in Offers(s) by { assert Rivals(s, ids[k]) <= Offers(s) by { RivalsOffer(s, ids[k]); } }
    AheadOfOffer(s, i, ids[k]);
    AheadOfOffer(s, ids[k], i);
    if i in ids {
      var j :| 0 <= j < |ids| && ids[j] == i;
      assert j < k;
      assert ids[..k][j] == i;
    }
  }

  lemma RivalsOffer(s: GovernorState, id: u64)
    requires id in s.records
    ensures Rivals(s, id) <= Offers(s)
  {
  }

  lemma PrefixSize(s: GovernorState, max: nat, ids: seq<u64>, k: nat)
    requires IsSelection(s.records, max, ids) && k <= |ids|
    ensures |IdSet(ids[..k])| == k
  {
    SelectionIsDistinct(s.records, max, ids);
    hide IsSelection, Selectable;
    DistinctCount(ids[..k]);
  }

  lemma {:induction false} DistinctCount(ids: seq<u64>)
    requires Distinct(ids)
    ensures |IdSet(ids)| == |ids|
  {
    if ids != [] {
      DistinctCount(ids[1..]);
      IdSetStep(ids);
      assert ids[0] !in IdSet(ids[1..]);
    } else {
      assert IdSet(ids) == {};
    }
  }

  /** A selection in terms of the records alone: the entry at position `k` is the offer
      with exactly `k` offers ahead of it, and an offer is selected exactly when fewer
      than `max` are. */
  lemma SelectionMeaning(s: GovernorState, max: nat, ids: seq<u64>)
    requires Lockstep(s) && IsSelection(s.records, max, ids)
    ensures forall k | 0 <= k < |ids| :: ids[k] in Offers(s) && |Rivals(s, ids[k])| == k
    ensures forall id | id in Offers(s) :: id in ids <==> |Rivals(s, id)| < max
  {
    forall k | 0 <= k < |ids| ensures ids[k] in Offers(s) && |Rivals(s, ids[k])| == k {
      hide *;
      RivalsOfEntry(s, max, ids, k);
      PrefixSize(s, max, ids, k);
    }
    forall id | id in Offers(s) ensures id in ids <==> |Rivals(s, id)| < max {
      if id in ids {
        var k :| 0 <= k < |ids| && ids[k] == id;
        assert |Rivals(s, ids[k])| == k;
      } else {
        LeftOut(s, max, ids, id);
      }
    }
  }

  lemma LeftOut(s: GovernorState, max: nat, ids: seq<u64>, id: u64)
    requires Lockstep(s) && IsSelection(s.records, max, ids) && id in Offers(s) && id !in ids
    ensures |Rivals(s, id)| >= max
  {
    SpareMeaning(s, id);
    hide Lockstep, Selectable, Before, Spare, Backed, Ahead;
    forall i | i in IdSet(ids) ensures i in Rivals(s, id) {
      var j :| 0 <= j < |ids| && ids[j] == i;
      SpareMeaning(s, i);
      AheadOfOffer(s, i, id);
    }
    PrefixSize(s, max, ids, |ids|);
    assert ids[..|ids|] == ids;
    SubsetSize(IdSet(ids), Rivals(s, id));
  }

  /** Nothing pinned, immovable, never to be reclaimed or of unknown class is ever
      selected, nor anything unbacked whose class needs backing; and if everything that
      may be selected fits, all of it is. */
  lemma SelectedRecords(s: GovernorState, max: nat, ids: seq<u64>)
    requires Lockstep(s) && IsSelection(s.records, max, ids)
    ensures forall k | 0 <= k < |ids| ::
              && ids[k] in s.records
              && var rec := s.records[ids[k]];
                 && rec.pinCount == 0 && rec.movability != PINNED && rec.movability != NONMOVABLE
                 && rec.reclaimability != NEVER_RECLAIM && rec.reclaimability != RECLAIM_UNKNOWN
                 && (rec.reclaimability == RECLAIM_IF_RELOADABLE || rec.reclaimability == RECLAIM_IF_CHECKPOINTED ==>
                       rec.recoverable || rec.origin.backingRef != [])
                 && (Known(rec) ==> rec.movability == MOVABLE && rec.reclaimability in RECLAIM_ORDER)
    ensures |Offers(s)| <= max ==> forall id :: id in Offers(s) <==> id in ids
  {
    SelectionMeaning(s, max, ids);
    hide Lockstep, IsSelection, Rivals;
    if |Offers(s)| <= max {
      forall id | id in Offers(s) ensures id in ids {
        RivalsOffer(s, id);
        AheadOfOffer(s, id, id);
        SubsetSize(Rivals(s, id), Offers(s) - {id});
      }
    }
    forall k | 0 <= k < |ids| && Known(s.records[ids[k]]) ensures s.records[ids[k]].reclaimability in RECLAIM_ORDER {
      KnownClass(s.records[ids[k]].reclaimability);
    }
  }

  lemma KnownClass(c: u8)
    requires c <= BEST_EFFORT && c != NEVER_RECLAIM && c != RECLAIM_UNKNOWN
    ensures c in RECLAIM_ORDER
  {
    assert c == RECLAIM_ORDER[0] || c == RECLAIM_ORDER[1] || c == RECLAIM_ORDER[2] || c == RECLAIM_ORDER[3]
           || c == RECLAIM_ORDER[4];
  }

  lemma OrderOfTwo(a: AllocationRecord, b: AllocationRecord, p: nat, q: nat)
    requires Before(a, b)
    requires p < |RECLAIM_ORDER| && a.reclaimability == RECLAIM_ORDER[p]
    requires q < |RECLAIM_ORDER| && b.reclaimability == RECLAIM_ORDER[q]
    ensures p <= q && (p == q ==> a.regionSize >= b.regionSize)
  {
    ClassRank(p);
    ClassRank(q);
  }

  lemma ClassRank(p: nat)
    requires p < |RECLAIM_ORDER|
    ensures Priority(RECLAIM_ORDER[p]) == p
  {
  }

  /** A selection goes through the classes in their order, and within a class from larger
      to smaller blocks. */
  lemma SelectionOrder(s: GovernorState, max: nat, ids: seq<u64>, i: nat, j: nat, p: nat, q: nat)
    requires IsSelection(s.records, max, ids) && i < j < |ids|
    requires p < |RECLAIM_ORDER| && s.records[ids[i]].reclaimability == RECLAIM_ORDER[p]
    requires q < |RECLAIM_ORDER| && s.records[ids[j]].reclaimability == RECLAIM_ORDER[q]
    ensures p <= q && (p == q ==> s.records[ids[i]].regionSize >= s.records[ids[j]].regionSize)
  {
    hide Before, Selectable;
    assert Before(s.records[ids[i]], s.records[ids[j]]);
    OrderOfTwo(s.records[ids[i]], s.records[ids[j]], p, q);
  }

  lemma HeldByRecord(s: GovernorState, id: u64, j: int)
    requires Lockstep(s) && id in s.records
    ensures id in s.arena.live
    ensures !Apart(s.arena.live[id], j, j + 1) <==>
            s.records[id].offset <= j < s.records[id].offset + s.records[id].regionSize
    ensures !Apart(s.arena.live[id], j, j + 1) ==> 0 <= j < s.arena.capacity
  {
    assert InStep(s.records[id], s.arena.live[id]) && LiveBlock(s.arena, id);
  }

  /** The estimate counts a byte exactly when a record that could be given back holds it. */
  lemma EstimateMeaning(s: GovernorState, j: int)
    requires Lockstep(s)
    ensures j in Covered(s.arena, ReclaimableIds(s.records)) <==>
            exists id :: id in s.records && Spare(s.records[id])
                         && s.records[id].offset <= j < s.records[id].offset + s.records[id].regionSize
  {
    hide Lockstep, Spare, Reclaimable, Apart;
    if j in Covered(s.arena, ReclaimableIds(s.records)) {
      var id :| id in ReclaimableIds(s.records) && id in s.arena.live && !Apart(s.arena.live[id], j, j + 1);
      HeldByRecord(s, id, j);
      SpareMeaning(s, id);
    }
    if id :| id in s.records && Spare(s.records[id])
             && s.records[id].offset <= j < s.records[id].offset + s.records[id].regionSize {
      HeldByRecord(s, id, j);
      SpareMeaning(s, id);
      assert id in ReclaimableIds(s.records);
    }
  }
}
