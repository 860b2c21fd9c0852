/** Runs put together from steps. */
module Reachability {
  import opened GovernorSpec

  /** Some run of `n` operations leads from `s` to `t`. */
  ghost predicate Reaches(s: GovernorState, t: GovernorState, n: nat) {
    exists ops :: |ops| == n && Run(s, ops) == t
  }

  lemma ReachesItself(s: GovernorState)
    ensures Reaches(s, s, 0)
  {
    assert Run(s, []) == s;
  }

  lemma ReachesNext(s: GovernorState, op: Op)
    ensures Reaches(s, Step(s, op), 1)
  {
    hide Step;
    assert [op][1..] == [];
    assert Run(s, [op]) == Run(Step(s, op), [op][1..]);
  }

  lemma {:induction false} RunConcat(s: GovernorState, ops: seq<Op>, more: seq<Op>)
    ensures Run(s, ops + more) == Run(Run(s, ops), more)
    decreases |ops|
  {
    hide Step;
    if ops == [] {
      assert ops + more == more;
    } else {
      assert (ops + more)[1..] == ops[1..] + more;
      RunConcat(Step(s, ops[0]), ops[1..], more);
    }
  }

  lemma ReachesThrough(s: GovernorState, t: GovernorState, u: GovernorState, m: nat, n: nat)
    requires Reaches(s, t, m) && Reaches(t, u, n)
    ensures Reaches(s, u, m + n)
  {
    hide Run;
    var ops :| |ops| == m && Run(s, ops) == t;
    var more :| |more| == n && Run(t, more) == u;
    RunConcat(s, ops, more);
    assert |ops + more| == m + n;
  }

  lemma ReachesMore(s: GovernorState, t: GovernorState, n: nat, op: Op)
    requires Reaches(s, t, n)
    ensures Reaches(s, Step(t, op), n + 1)
  {
    ReachesNext(t, op);
    ReachesThrough(s, t, Step(t, op), n, 1);
  }

  /** A run as its last step on what the others reach. */
  lemma RunLast(s: GovernorState, ops: seq<Op>)
    requires ops != []
    ensures Run(s, ops) == Step(Run(s, ops[..|ops| - 1]), ops[|ops| - 1])
  {
    var init, op := ops[..|ops| - 1], ops[|ops| - 1];
    hide Step;
    assert ops == init + [op];
    RunConcat(s, init, [op]);
    assert [op][1..] == [];
    assert Run(Run(s, init), [op]) == Run(Step(Run(s, init), op), [op][1..]);
  }

  lemma RunOf(s: GovernorState, t: GovernorState, n: nat) returns (ops: seq<Op>)
    requires Reaches(s, t, n)
    ensures |ops| == n && Run(s, ops) == t
  {
    ops :| |ops| == n && Run(s, ops) == t;
  }
}
