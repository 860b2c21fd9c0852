/** Ordered traversal of keyed collections. */
module Ordering {
  import opened Machine

  predicate Ascending(s: seq<u64>) {
    forall i, j | 0 <= i < j < |s| :: s[i] < s[j]
  }

  lemma {:induction false} LeastExists(ks: set<u64>) returns (k: u64)
    requires ks != {}
    ensures k in ks && forall x | x in ks :: k <= x
  {
    var y :| y in ks;
    if ks == {y} {
      k := y;
    } else {
      var rest := LeastExists(ks - {y});
      k := if y < rest then y else rest;
      assert forall x | x in ks :: x == y || x in ks - {y};
    }
  }

  method Least(ks: set<u64>) returns (k: u64)
    requires ks != {}
    ensures k in ks && forall x | x in ks :: k <= x
  {
    ghost var w := LeastExists(ks);
    k :| k in ks && forall x | x in ks :: k <= x;
  }

  /** The keys of an ordered container in iteration order. */
  method SortedKeys(ks: set<u64>) returns (s: seq<u64>)
    ensures Ascending(s)
    ensures forall x :: x in s <==> x in ks
  {
    s := [];
    var rest := ks;
    while rest != {}
      invariant rest <= ks && Ascending(s)
      invariant forall x :: x in s <==> x in ks && x !in rest
      invariant forall i, y | 0 <= i < |s| && y in rest :: s[i] < y
      decreases |rest|
    {
      var k := Least(rest);
      s := s + [k];
      rest := rest - {k};
    }
  }

  /** `prev(lower_bound(x))`: the greatest key below `x`. */
  method Predecessor(ks: set<u64>, x: u64) returns (found: bool, k: u64)
    ensures found <==> exists y :: y in ks && y < x
    ensures found ==> k in ks && k < x && forall y | y in ks && y < x :: y <= k
  {
    found, k := false, 0;
    var rest := set y | y in ks && y < x;
    while rest != {}
      invariant rest <= ks && forall y | y in rest :: y < x
      invariant found ==> k in ks && k < x
      invariant forall y | y in ks && y < x :: y in rest || (found && y <= k)
      decreases |rest|
    {
      var y :| y in rest;
      if !found || k < y {
        found, k := true, y;
      }
      rest := rest - {y};
    }
  }

  /** `lower_bound(x)`: the least key that is not below `x`. */
  method LowerBound(ks: set<u64>, x: u64) returns (found: bool, k: u64)
    ensures found <==> exists y :: y in ks && x <= y
    ensures found ==> k in ks && x <= k && forall y | y in ks && x <= y :: k <= y
  {
    var rest := set y | y in ks && x <= y;
    found, k := rest != {}, 0;
    assert forall y | y in ks && x <= y :: y in rest;
    if found {
      k := Least(rest);
    }
  }
}
