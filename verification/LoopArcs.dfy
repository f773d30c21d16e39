/** Loops of runs as arcs of the function: the loops add nothing exactly when no arc
    with a value lies on a loop that a run can take. */
module LoopArcs {
  import opened Graph
  import opened BackEdges
  import opened PathRegister
  import opened PathLoops

  ghost predicate CanStop(g: Adj, ends: set<nat>, b: nat) {
    exists x :: x in ends && Reaches(g, b, x)
  }

  /** A run can come to the arc, take it, come back and end. */
  ghost predicate OnLoop(g: Adj, ends: set<nat>, u: nat, v: nat) {
    && Edge(g, u, v) && v < |g|
    && Reaches(g, 0, u) && Reaches(g, v, u) && CanStop(g, ends, u)
  }

  /** No arc on a loop carries a value. */
  ghost predicate LoopArcsAreZero(g: Adj, ends: set<nat>, ev: map<Arc, nat>) {
    forall a: Arc :: a in ev && ev[a] > 0 ==> !OnLoop(g, ends, a.0, a.1)
  }

  /** The arc of a positive sum. */
  lemma {:induction false} SomeArcAdds(ev: map<Arc, nat>, p: seq<nat>) returns (k: nat)
    requires StepSum(ev, p) > 0
    ensures k + 1 < |p| && StepValue(ev, p[k], p[k + 1]) > 0
    decreases |p|
  {
    if StepValue(ev, p[|p| - 2], p[|p| - 1]) > 0 {
      k := |p| - 2;
    } else {
      k := SomeArcAdds(ev, p[..|p| - 1]);
    }
  }

  lemma PartReaches(g: Adj, p: seq<nat>, i: nat, j: nat)
    requires Walk(g, p) && i <= j < |p|
    ensures Reaches(g, p[i], p[j])
  {
    WalkPrefix(g, p, j + 1);
    WalkSuffix(g, p[..j + 1], i);
    assert WalkFromTo(g, p[..j + 1][i..], p[i], p[j]);
  }

  lemma ReachesJoin(g: Adj, u: nat, v: nat, w: nat)
    requires Reaches(g, u, v) && Reaches(g, v, w)
    ensures Reaches(g, u, w)
  {
    var p :| WalkFromTo(g, p, u, v);
    var q :| WalkFromTo(g, q, v, w);
    WalkJoin(g, p, q);
    assert WalkFromTo(g, p + q[1..], u, w);
  }

  /** Every step between two visits of a block is on a loop. */
  lemma BetweenVisits(g: Adj, ends: set<nat>, p: seq<nat>, i: nat, j: nat, k: nat)
    requires Run(g, ends, p) && i <= k < j < |p| && p[i] == p[j]
    ensures OnLoop(g, ends, p[k], p[k + 1])
  {
    assert Edge(g, p[k], p[k + 1]);
    PartReaches(g, p, 0, k);
    PartReaches(g, p, k + 1, j);
    PartReaches(g, p, i, k);
    ReachesJoin(g, p[k + 1], p[j], p[k]);
    PartReaches(g, p, k, |p| - 1);
  }

  /** A run through a loop arc and back. */
  lemma RoundTrip(g: Adj, ends: set<nat>, u: nat, v: nat) returns (p: seq<nat>, i: nat, j: nat)
    requires OnLoop(g, ends, u, v)
    ensures Run(g, ends, p) && i + 1 <= j < |p| && p[i] == p[j] == u && p[i + 1] == v
  {
    var x :| x in ends && Reaches(g, u, x);
    var a :| WalkFromTo(g, a, 0, u);
    var b :| WalkFromTo(g, b, v, u);
    var c :| WalkFromTo(g, c, u, x);
    hide Reaches;
    WalkCons(g, u, b);
    WalkJoin(g, a, [u] + b);
    var ab := a + ([u] + b)[1..];
    assert ([u] + b)[1..] == b;
    WalkJoin(g, ab, c);
    p, i, j := ab + c[1..], |a| - 1, |ab| - 1;
  }

  lemma {:induction false} ArcCounts(ev: map<Arc, nat>, p: seq<nat>, k: nat)
    requires k + 1 < |p|
    ensures StepSum(ev, p) >= StepValue(ev, p[k], p[k + 1])
    decreases |p|
  {
    if k + 2 < |p| { ArcCounts(ev, p[..|p| - 1], k); }
  }

  /** The loops of all runs add nothing exactly when no loop arc has a value. */
  lemma QuietIffLoopArcsAreZero(g: Adj, ends: set<nat>, ev: map<Arc, nat>)
    ensures LoopsAddNothing(g, ends, ev) <==> LoopArcsAreZero(g, ends, ev)
  {
    hide Run, StepSum, OnLoop;
    if LoopArcsAreZero(g, ends, ev) {
      forall p, i, j | Run(g, ends, p) && 0 <= i < j < |p| && p[i] == p[j] ensures StepSum(ev, p[i..j + 1]) == 0 {
        if StepSum(ev, p[i..j + 1]) > 0 {
          var k := SomeArcAdds(ev, p[i..j + 1]);
          BetweenVisits(g, ends, p, i, j, i + k);
        }
      }
    } else {
      var a: Arc :| a in ev && ev[a] > 0 && OnLoop(g, ends, a.0, a.1);
      var p, i, j := RoundTrip(g, ends, a.0, a.1);
      var loop := p[i..j + 1];
      assert loop[0] == a.0 && loop[1] == a.1;
      ArcCounts(ev, loop, 0);
    }
  }
}
