/** The largest sum of edge values on the way from a block to a write, on a graph without
    cycles. */
module LargestSum {
  import opened Graph
  import opened BackEdges
  import opened PathCount
  import opened PathRegister
  import opened PathLoops

  /** The largest sum from `b` on, or -1 if no write can be reached. */
  ghost function Most(g: Adj, ends: set<nat>, ev: map<Arc, nat>, b: nat): (m: int)
    requires Closed(g) && Ranked(g) && b < |g|
    ensures m >= -1
    decreases Rank(g)[b], 1, 0
  {
    MostOver(g, ends, ev, b, |g[b]|)
  }

  /** The same over the first `k` successors, or stopping at `b`. */
  ghost function MostOver(g: Adj, ends: set<nat>, ev: map<Arc, nat>, b: nat, k: nat): (m: int)
    requires Closed(g) && Ranked(g) && b < |g| && k <= |g[b]|
    ensures m >= -1
    decreases Rank(g)[b], 0, k
  {
    if k == 0 then if b in ends then 0 else -1
    else
      var v := g[b][k - 1];
      assert Edge(g, b, v);
      var rest, next := MostOver(g, ends, ev, b, k - 1), Most(g, ends, ev, v);
      if next < 0 || StepValue(ev, b, v) + next <= rest then rest else StepValue(ev, b, v) + next
  }

  /** A way from `b` to a write. */
  ghost predicate WayFrom(g: Adj, ends: set<nat>, b: nat, p: seq<nat>) {
    Walk(g, p) && p[0] == b && p[|p| - 1] in ends
  }

  lemma StepSumCons(ev: map<Arc, nat>, b: nat, p: seq<nat>)
    requires p != []
    ensures StepSum(ev, [b] + p) == StepValue(ev, b, p[0]) + StepSum(ev, p)
  {
    var q := [b] + p;
    StepSumSplit(ev, q, 1);
    assert q[..2] == [b, p[0]] && q[1..] == p;
    assert StepSum(ev, [b, p[0]]) == StepSum(ev, [b, p[0]][..1]) + StepValue(ev, b, p[0]);
  }

  lemma WayCons(g: Adj, ends: set<nat>, b: nat, p: seq<nat>)
    requires WayFrom(g, ends, b, p) && |p| > 1
    ensures Edge(g, b, p[1]) && WayFrom(g, ends, p[1], p[1..]) && p == [b] + p[1..]
  {
    WalkSuffix(g, p, 1);
    assert Edge(g, p[0], p[0 + 1]);
  }

  lemma {:induction false} SuccessorCounts(g: Adj, ends: set<nat>, ev: map<Arc, nat>, b: nat, i: nat, k: nat)
    requires Closed(g) && Ranked(g) && b < |g| && i < k <= |g[b]| && Most(g, ends, ev, g[b][i]) >= 0
    ensures StepValue(ev, b, g[b][i]) + Most(g, ends, ev, g[b][i]) <= MostOver(g, ends, ev, b, k)
    decreases k
  {
    if i < k - 1 { SuccessorCounts(g, ends, ev, b, i, k - 1); }
  }

  lemma {:induction false} StoppingCounts(g: Adj, ends: set<nat>, ev: map<Arc, nat>, b: nat, k: nat)
    requires Closed(g) && Ranked(g) && b < |g| && k <= |g[b]| && b in ends
    ensures MostOver(g, ends, ev, b, k) >= 0
    decreases k
  {
    if k == 0 {
    } else {
      StoppingCounts(g, ends, ev, b, k - 1);
    }
  }

  /** No way adds more. */
  lemma {:induction false} MostIsBound(g: Adj, ends: set<nat>, ev: map<Arc, nat>, b: nat, p: seq<nat>)
    requires Closed(g) && Ranked(g) && WayFrom(g, ends, b, p)
    ensures StepSum(ev, p) <= Most(g, ends, ev, b)
    decreases |p|
  {
    if |p| == 1 {
      StoppingCounts(g, ends, ev, b, |g[b]|);
    } else {
      WayCons(g, ends, b, p);
      hide Closed, Ranked, StepSum, StepValue, WayFrom;
      MostIsBound(g, ends, ev, p[1], p[1..]);
      StepSumCons(ev, b, p[1..]);
      var i :| 0 <= i < |g[b]| && g[b][i] == p[1];
      SumIsNat(ev, p[1..]);
      SuccessorCounts(g, ends, ev, b, i, |g[b]|);
    }
  }

  lemma SumIsNat(ev: map<Arc, nat>, p: seq<nat>)
    ensures StepSum(ev, p) >= 0
  {
  }

  /** Some way adds as much. */
  lemma {:induction false} MostIsReached(g: Adj, ends: set<nat>, ev: map<Arc, nat>, b: nat, k: nat) returns (p: seq<nat>)
    requires Closed(g) && Ranked(g) && b < |g| && k <= |g[b]| && MostOver(g, ends, ev, b, k) >= 0
    ensures WayFrom(g, ends, b, p) && StepSum(ev, p) == MostOver(g, ends, ev, b, k)
    decreases Rank(g)[b], k
  {
    if k == 0 {
      p := [b];
    } else {
      var v := g[b][k - 1];
      assert Edge(g, b, v);
      var next := Most(g, ends, ev, v);
      if next < 0 || StepValue(ev, b, v) + next <= MostOver(g, ends, ev, b, k - 1) {
        p := MostIsReached(g, ends, ev, b, k - 1);
      } else {
        var q := MostIsReached(g, ends, ev, v, |g[v]|);
        WalkCons(g, b, q);
        StepSumCons(ev, b, q);
        p := [b] + q;
      }
    }
  }

  /** All runs add less than `n` at every write if and only if the largest sum is below `n`. */
  lemma AllBelowIff(g: Adj, ends: set<nat>, ev: map<Arc, nat>, n: nat)
    requires Closed(g) && Ranked(g) && |g| > 0
    ensures (forall p :: Run(g, ends, p) ==> StepSum(ev, p) < n) <==> Most(g, ends, ev, 0) < n
  {
    hide Closed, Ranked, StepSum, Walk;
    if Most(g, ends, ev, 0) < n {
      forall p | Run(g, ends, p) ensures StepSum(ev, p) < n { MostIsBound(g, ends, ev, 0, p); }
    } else {
      var p := MostIsReached(g, ends, ev, 0, |g[0]|);
    }
  }
}
