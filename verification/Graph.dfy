/** Finite directed graphs as ordered successor lists, the shape in which both
    LLVM passes see a function: block `u` branches to `g[u][0]`, `g[u][1]`, ...
    A successor may be listed more than once (a switch with shared targets). */
module Graph {

  type Adj = seq<seq<nat>>

  /** Every listed successor is a block of the graph. */
  ghost predicate Closed(g: Adj) {
    forall u, i :: 0 <= u < |g| && 0 <= i < |g[u]| ==> g[u][i] < |g|
  }

  predicate Edge(g: Adj, u: nat, v: nat) {
    u < |g| && v in g[u]
  }

  /** A non-empty sequence of blocks that follows edges. */
  ghost predicate Walk(g: Adj, p: seq<nat>) {
    && |p| > 0
    && (forall i :: 0 <= i < |p| ==> p[i] < |g|)
    && (forall i :: 0 <= i < |p| - 1 ==> Edge(g, p[i], p[i + 1]))
  }

  ghost predicate WalkFromTo(g: Adj, p: seq<nat>, u: nat, v: nat) {
    Walk(g, p) && p[0] == u && p[|p| - 1] == v
  }

  ghost predicate Reaches(g: Adj, u: nat, v: nat) {
    exists p :: WalkFromTo(g, p, u, v)
  }

  /** No walk with at least one edge returns to its first block. */
  ghost predicate Acyclic(g: Adj) {
    forall p :: Walk(g, p) && |p| > 1 ==> p[0] != p[|p| - 1]
  }

  /** Every walk from the entry to `b` passes `a`. */
  ghost predicate Dominates(g: Adj, a: nat, b: nat) {
    forall p :: WalkFromTo(g, p, 0, b) ==> a in p
  }

  /** An edge out of a branching block is the only way into its target; edges into
      `skipped` blocks need not be. */
  ghost predicate NoCriticalEdges(g: Adj, skipped: set<nat>) {
    forall u, i, u', i' ::
      && 0 <= u < |g| && 0 <= i < |g[u]| && 0 <= u' < |g| && 0 <= i' < |g[u']|
      && |g[u]| > 1 && g[u][i] == g[u'][i'] && g[u][i] !in skipped
      ==> u == u' && i == i'
  }

  ghost predicate EntryHasNoPreds(g: Adj) {
    forall u: nat :: !Edge(g, u, 0)
  }

  /** A rank drops along every edge, so it bounds the length of every walk. */
  ghost predicate IsRank(g: Adj, rank: seq<nat>) {
    |rank| == |g| && forall u: nat, v: nat :: Edge(g, u, v) && v < |g| ==> rank[v] < rank[u]
  }

  ghost predicate Ranked(g: Adj) {
    exists rank :: IsRank(g, rank)
  }

  lemma {:induction false} RankDropsAlongWalk(g: Adj, rank: seq<nat>, p: seq<nat>)
    requires IsRank(g, rank) && Walk(g, p)
    ensures rank[p[|p| - 1]] + |p| - 1 <= rank[p[0]]
    decreases |p|
  {
    if |p| <= 1 {
    } else {
      var tail := p[1..];
      assert Walk(g, tail) by {
        forall i | 0 <= i < |tail| - 1 ensures Edge(g, tail[i], tail[i + 1]) {
          assert Edge(g, p[i + 1], p[i + 1 + 1]);
        }
      }
      RankDropsAlongWalk(g, rank, tail);
      assert Edge(g, p[0], p[0 + 1]);
    }
  }

  lemma RankedIsAcyclic(g: Adj)
    requires Ranked(g)
    ensures Acyclic(g)
  {
    var rank :| IsRank(g, rank);
    forall p | Walk(g, p) && |p| > 1 ensures p[0] != p[|p| - 1] {
      RankDropsAlongWalk(g, rank, p);
    }
  }

  lemma WalkPrefix(g: Adj, p: seq<nat>, k: nat)
    requires Walk(g, p) && 0 < k <= |p|
    ensures Walk(g, p[..k])
  {
    forall i | 0 <= i < k - 1 ensures Edge(g, p[..k][i], p[..k][i + 1]) {
      assert Edge(g, p[i], p[i + 1]);
    }
  }

  lemma WalkSuffix(g: Adj, p: seq<nat>, k: nat)
    requires Walk(g, p) && k < |p|
    ensures Walk(g, p[k..])
  {
    forall i | 0 <= i < |p[k..]| - 1 ensures Edge(g, p[k..][i], p[k..][i + 1]) {
      assert Edge(g, p[k + i], p[k + i + 1]);
    }
  }

  /** Two walks that meet at a block join there. */
  lemma WalkJoin(g: Adj, p: seq<nat>, q: seq<nat>)
    requires Walk(g, p) && Walk(g, q) && p[|p| - 1] == q[0]
    ensures Walk(g, p + q[1..])
    ensures (p + q[1..])[0] == p[0]
    ensures (p + q[1..])[|p + q[1..]| - 1] == q[|q| - 1]
  {
    var r := p + q[1..];
    forall i | 0 <= i < |r| - 1 ensures Edge(g, r[i], r[i + 1]) {
      if i < |p| - 1 {
        assert Edge(g, p[i], p[i + 1]);
      } else {
        var j := i - (|p| - 1);
        assert r[i] == q[j] && r[i + 1] == q[j + 1];
        assert Edge(g, q[j], q[j + 1]);
      }
    }
  }

  lemma WalkSnoc(g: Adj, p: seq<nat>, v: nat)
    requires Walk(g, p) && Edge(g, p[|p| - 1], v) && v < |g|
    ensures Walk(g, p + [v])
  {
    forall i | 0 <= i < |p| ensures Edge(g, (p + [v])[i], (p + [v])[i + 1]) {
      if i < |p| - 1 { assert Edge(g, p[i], p[i + 1]); }
    }
  }

  lemma WalkCons(g: Adj, u: nat, p: seq<nat>)
    requires Walk(g, p) && Edge(g, u, p[0])
    ensures Walk(g, [u] + p)
  {
    forall i | 0 <= i < |p| ensures Edge(g, ([u] + p)[i], ([u] + p)[i + 1]) {
      if i > 0 { assert Edge(g, p[i - 1], p[i - 1 + 1]); }
    }
  }

  lemma ReachesRefl(g: Adj, u: nat)
    requires u < |g|
    ensures Reaches(g, u, u)
  {
    assert WalkFromTo(g, [u], u, u);
  }

  lemma ReachesStep(g: Adj, u: nat, v: nat, w: nat)
    requires Reaches(g, u, v) && Edge(g, v, w) && w < |g|
    ensures Reaches(g, u, w)
  {
    var p :| WalkFromTo(g, p, u, v);
    WalkSnoc(g, p, w);
    assert WalkFromTo(g, p + [w], u, w);
  }

  /** A set that holds the start of a walk and is closed under edges holds
      every block of the walk. */
  lemma {:induction false} ClosedSetHoldsWalk(g: Adj, s: set<nat>, p: seq<nat>)
    requires Walk(g, p) && p[0] in s
    requires forall u, v :: u in s && Edge(g, u, v) ==> v in s
    ensures forall i :: 0 <= i < |p| ==> p[i] in s
    decreases |p|
  {
    if |p| <= 1 {
    } else {
      assert Edge(g, p[0], p[0 + 1]);
      WalkSuffix(g, p, 1);
      ClosedSetHoldsWalk(g, s, p[1..]);
      forall i | 0 <= i < |p| ensures p[i] in s {
        if i > 0 { assert p[i] == p[1..][i - 1]; }
      }
    }
  }

  lemma EdgeTarget(g: Adj, u: nat, v: nat)
    requires Closed(g) && Edge(g, u, v)
    ensures v < |g|
  {
    var i :| 0 <= i < |g[u]| && g[u][i] == v;
  }
}
