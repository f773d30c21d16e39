/** Step 5 of `PathAnalysis::analyze`: prefix-sum edge values, and what the sum
    of edge values along a forward path identifies. */
module PathIds {
  import opened Graph
  import opened PathCount

  /** Where `v` is listed last: the position whose prefix sum survives in a
      table keyed by block pair. */
  function LastIndex(s: seq<nat>, v: nat): (r: nat)
    requires v in s
    ensures r < |s| && s[r] == v && forall j :: r < j < |s| ==> s[j] != v
  {
    if s[|s| - 1] == v then |s| - 1 else LastIndex(s[..|s| - 1], v)
  }

  /** The value of the edge `u -> v`: 0 at a collapsed branch, otherwise the
      number of paths through the successors listed before `v`. */
  ghost function EdgeValue(d: Dag, u: nat, v: nat): nat
    requires Valid(d) && Edge(d.succs, u, v)
  {
    if u in d.merge then 0 else SumOver(d, u, LastIndex(d.succs[u], v))
  }

  ghost function PathSum(d: Dag, p: seq<nat>): nat
    requires Valid(d) && Walk(d.succs, p)
  {
    if |p| == 1 then 0
    else
      assert Edge(d.succs, p[0], p[0 + 1]);
      WalkSuffix(d.succs, p, 1);
      EdgeValue(d, p[0], p[1]) + PathSum(d, p[1..])
  }

  /** A forward path from `b` to an exit. */
  ghost predicate Complete(d: Dag, p: seq<nat>, b: nat) {
    Walk(d.succs, p) && p[0] == b && p[|p| - 1] in d.exits
  }

  // ----- successor intervals

  lemma {:induction false} SumOverGrows(d: Dag, b: nat, i: nat, j: nat)
    requires Valid(d) && b < |d.succs| && i <= j <= |d.succs[b]|
    ensures SumOver(d, b, i) <= SumOver(d, b, j)
    decreases j
  {
    if i < j { SumOverGrows(d, b, i, j - 1); }
  }

  lemma {:induction false} MaxOverCovers(d: Dag, b: nat, i: nat, k: nat)
    requires Valid(d) && b < |d.succs| && i < k <= |d.succs[b]|
    ensures NumPaths(d, d.succs[b][i]) <= MaxOver(d, b, k)
    decreases k
  {
    if i < k - 1 { MaxOverCovers(d, b, i, k - 1); }
  }

  lemma EdgeFits(d: Dag, u: nat, v: nat)
    requires Valid(d) && Edge(d.succs, u, v)
    ensures v < |d.succs| && EdgeValue(d, u, v) + NumPaths(d, v) <= NumPaths(d, u)
  {
    var i := LastIndex(d.succs[u], v);
    if u in d.merge {
      MaxOverCovers(d, u, i, |d.succs[u]|);
    } else {
      SumOverGrows(d, u, i + 1, |d.succs[u]|);
    }
  }

  /** Ids below different successors of an uncollapsed branch never meet. */
  lemma EdgesDisjoint(d: Dag, u: nat, v: nat, w: nat)
    requires Valid(d) && Edge(d.succs, u, v) && Edge(d.succs, u, w) && v != w && u !in d.merge
    ensures v < |d.succs| && w < |d.succs|
    ensures || EdgeValue(d, u, v) + NumPaths(d, v) <= EdgeValue(d, u, w)
            || EdgeValue(d, u, w) + NumPaths(d, w) <= EdgeValue(d, u, v)
  {
    var i, j := LastIndex(d.succs[u], v), LastIndex(d.succs[u], w);
    if i < j { SumOverGrows(d, u, i + 1, j); } else { SumOverGrows(d, u, j + 1, i); }
  }

  // ----- range

  /** At every level: what a forward path has added leaves room for every
      path that can still follow. */
  lemma {:induction false} SumStaysInRange(d: Dag, p: seq<nat>)
    requires Valid(d) && Walk(d.succs, p)
    ensures PathSum(d, p) + NumPaths(d, p[|p| - 1]) <= NumPaths(d, p[0])
    decreases |p|
  {
    if |p| <= 1 {
    } else {
      assert Edge(d.succs, p[0], p[0 + 1]);
      WalkSuffix(d.succs, p, 1);
      EdgeFits(d, p[0], p[1]);
      SumStaysInRange(d, p[1..]);
    }
  }

  lemma PathSumCons(d: Dag, p: seq<nat>)
    requires Valid(d) && Walk(d.succs, p) && |p| > 1
    ensures Edge(d.succs, p[0], p[1]) && Walk(d.succs, p[1..])
    ensures PathSum(d, p) == EdgeValue(d, p[0], p[1]) + PathSum(d, p[1..])
  {
    assert Edge(d.succs, p[0], p[0 + 1]);
    WalkSuffix(d.succs, p, 1);
  }

  lemma CompleteIdInRange(d: Dag, p: seq<nat>, b: nat)
    requires Valid(d) && Complete(d, p, b)
    ensures PathSum(d, p) < NumPaths(d, b)
  {
    SumStaysInRange(d, p);
  }

  // ----- identity

  /** The first step of a complete path: either it stops, or it goes on to a
      successor and its id lies in that successor's interval. */
  lemma FirstStep(d: Dag, p: seq<nat>, b: nat)
    requires Valid(d) && Complete(d, p, b)
    ensures |p| > 0 && p[0] == b && (b in d.exits <==> |p| == 1)
    ensures |p| > 1 ==>
              && Edge(d.succs, b, p[1]) && Complete(d, p[1..], p[1])
              && PathSum(d, p) == EdgeValue(d, b, p[1]) + PathSum(d, p[1..])
              && PathSum(d, p[1..]) < NumPaths(d, p[1])
  {
    if |p| > 1 {
      assert Edge(d.succs, p[0], p[0 + 1]);
      WalkSuffix(d.succs, p, 1);
      CompleteIdInRange(d, p[1..], p[1]);
    }
  }

  /** `p` and `q` part company after position `i`. */
  ghost predicate DivergeAt(p: seq<nat>, q: seq<nat>, i: nat) {
    i + 1 < |p| && i + 1 < |q| && p[..i + 1] == q[..i + 1] && p[i + 1] != q[i + 1]
  }

  lemma DivergeCons(p: seq<nat>, q: seq<nat>, i: nat)
    requires p != [] && q != [] && p[0] == q[0] && DivergeAt(p[1..], q[1..], i)
    ensures DivergeAt(p, q, i + 1)
  {
    assert p[..i + 2] == [p[0]] + p[1..][..i + 1] && q[..i + 2] == [q[0]] + q[1..][..i + 1];
  }

  /** At every level: two paths share an id only if they first part at a
      collapsed branch. */
  lemma {:induction false} SharedIdDivergesAtMerge(d: Dag, p: seq<nat>, q: seq<nat>, b: nat)
    requires Valid(d) && Complete(d, p, b) && Complete(d, q, b)
    requires p != q && PathSum(d, p) == PathSum(d, q)
    ensures exists i: nat :: DivergeAt(p, q, i) && p[i] in d.merge
    decreases |p|
  {
    FirstStep(d, p, b);
    FirstStep(d, q, b);
    assert |p| > 1 && |q| > 1;
    hide Valid, Complete, EdgeValue;
    if p[1] == q[1] {
      assert p == [b] + p[1..] && q == [b] + q[1..];
      SharedIdDivergesAtMerge(d, p[1..], q[1..], p[1]);
      var i: nat :| DivergeAt(p[1..], q[1..], i) && p[1..][i] in d.merge;
      DivergeCons(p, q, i);
    } else {
      if b !in d.merge { EdgesDisjoint(d, b, p[1], q[1]); }
      assert DivergeAt(p, q, 0);
    }
  }

  /** No collapsed branch can be reached from `b`: strict mode. */
  ghost predicate Uncollapsed(d: Dag, b: nat) {
    forall c :: c in d.merge ==> !Reaches(d.succs, b, c)
  }

  lemma StrictIdsAreUnique(d: Dag, p: seq<nat>, q: seq<nat>, b: nat)
    requires Valid(d) && Complete(d, p, b) && Complete(d, q, b) && Uncollapsed(d, b)
    requires PathSum(d, p) == PathSum(d, q)
    ensures p == q
  {
    if p != q {
      SharedIdDivergesAtMerge(d, p, q, b);
      var i: nat :| DivergeAt(p, q, i) && p[i] in d.merge;
      WalkPrefix(d.succs, p, i + 1);
      assert WalkFromTo(d.succs, p[..i + 1], b, p[i]);
      assert false;
    }
  }

  // ----- every id is reached

  /** A successor that is listed twice has no path to an exit. */
  ghost predicate LiveDistinct(d: Dag, b: nat)
    requires Valid(d) && b < |d.succs|
  {
    forall i, j :: 0 <= i < j < |d.succs[b]| && d.succs[b][i] == d.succs[b][j] ==> NumPaths(d, d.succs[b][i]) == 0
  }

  ghost predicate LiveDistinctFrom(d: Dag, b: nat)
    requires Valid(d)
  {
    forall c: nat :: c < |d.succs| && Reaches(d.succs, b, c) && c !in d.merge ==> LiveDistinct(d, c)
  }

  lemma {:induction false} FindSlot(d: Dag, b: nat, k: nat, n: nat) returns (i: nat)
    requires Valid(d) && b < |d.succs| && n <= |d.succs[b]| && k < SumOver(d, b, n)
    ensures i < n && SumOver(d, b, i) <= k < SumOver(d, b, i + 1)
    decreases n
  {
    if SumOver(d, b, n - 1) <= k { i := n - 1; } else { i := FindSlot(d, b, k, n - 1); }
  }

  lemma {:induction false} FindBest(d: Dag, b: nat, n: nat) returns (i: nat)
    requires Valid(d) && b < |d.succs| && n <= |d.succs[b]| && MaxOver(d, b, n) > 0
    ensures i < n && NumPaths(d, d.succs[b][i]) == MaxOver(d, b, n)
    decreases n
  {
    if NumPaths(d, d.succs[b][n - 1]) == MaxOver(d, b, n) { i := n - 1; } else { i := FindBest(d, b, n - 1); }
  }

  /** Which successor a path with id `k` takes, and its id from there on. */
  lemma Branch(d: Dag, b: nat, k: nat) returns (i: nat)
    requires Valid(d) && b < |d.succs| && b !in d.exits && k < NumPaths(d, b)
    requires b !in d.merge ==> LiveDistinct(d, b)
    ensures i < |d.succs[b]| && Edge(d.succs, b, d.succs[b][i])
    ensures EdgeValue(d, b, d.succs[b][i]) <= k
    ensures k - EdgeValue(d, b, d.succs[b][i]) < NumPaths(d, d.succs[b][i])
  {
    if b in d.merge {
      i := FindBest(d, b, |d.succs[b]|);
    } else {
      i := FindSlot(d, b, k, |d.succs[b]|);
      assert LastIndex(d.succs[b], d.succs[b][i]) == i;
    }
  }

  lemma ReachStepLeft(g: Adj, u: nat, v: nat, w: nat)
    requires Edge(g, u, v) && Reaches(g, v, w)
    ensures Reaches(g, u, w)
  {
    var p :| WalkFromTo(g, p, v, w);
    WalkCons(g, u, p);
    assert WalkFromTo(g, [u] + p, u, w);
  }

  /** At every level: each id below the count belongs to a forward path, which
      is rebuilt branch by branch. */
  lemma {:induction false} EveryIdReached(d: Dag, b: nat, k: nat) returns (p: seq<nat>)
    requires Valid(d) && b < |d.succs| && k < NumPaths(d, b) && LiveDistinctFrom(d, b)
    ensures Complete(d, p, b) && PathSum(d, p) == k
    decreases Rank(d.succs)[b]
  {
    if b in d.exits {
      p := [b];
    } else {
      ReachesRefl(d.succs, b);
      var i := Branch(d, b, k);
      var v := d.succs[b][i];
      forall c: nat | c < |d.succs| && Reaches(d.succs, v, c) && c !in d.merge ensures LiveDistinct(d, c) {
        ReachStepLeft(d.succs, b, v, c);
      }
      var q := EveryIdReached(d, v, k - EdgeValue(d, b, v));
      WalkCons(d.succs, b, q);
      p := [b] + q;
      assert p[1..] == q;
    }
  }

  /** An id inside the interval of a prefix belongs to a path with that prefix. */
  lemma {:induction false} IdFixesPrefix(d: Dag, w: seq<nat>, q: seq<nat>)
    requires Valid(d) && Walk(d.succs, w) && Complete(d, q, w[0])
    requires forall i :: 0 <= i < |w| - 1 ==> w[i] !in d.merge
    requires PathSum(d, w) <= PathSum(d, q) < PathSum(d, w) + NumPaths(d, w[|w| - 1])
    ensures |w| <= |q| && q[..|w|] == w && Complete(d, q[|w| - 1..], w[|w| - 1])
    ensures PathSum(d, q[|w| - 1..]) == PathSum(d, q) - PathSum(d, w)
    decreases |w|
  {
    if |w| == 1 {
      PrefixOfOne(d, w, q);
    } else {
      SharedFirstEdge(d, w, q);
      hide *;
      IdFixesPrefix(d, w[1..], q[1..]);
      PrefixCons(w, q);
    }
  }

  lemma PrefixOfOne(d: Dag, w: seq<nat>, q: seq<nat>)
    requires Valid(d) && Walk(d.succs, w) && |w| == 1 && Complete(d, q, w[0])
    ensures 1 <= |q| && q[..1] == w && q[0..] == q && PathSum(d, w) == 0
  {
  }

  lemma PrefixCons<T>(w: seq<T>, q: seq<T>)
    requires |w| > 1 && |q| > 1 && q[0] == w[0]
    requires |w[1..]| <= |q[1..]| && q[1..][..|w[1..]|] == w[1..]
    ensures |w| <= |q| && q[..|w|] == w && q[1..][|w[1..]| - 1..] == q[|w| - 1..]
    ensures w[1..][|w[1..]| - 1] == w[|w| - 1]
  {
    assert q[..|w|] == [q[0]] + q[1..][..|w| - 1] == [w[0]] + w[1..] == w;
  }

  lemma SharedFirstEdge(d: Dag, w: seq<nat>, q: seq<nat>)
    requires Valid(d) && Walk(d.succs, w) && Complete(d, q, w[0]) && |w| > 1
    requires forall i :: 0 <= i < |w| - 1 ==> w[i] !in d.merge
    requires PathSum(d, w) <= PathSum(d, q) < PathSum(d, w) + NumPaths(d, w[|w| - 1])
    ensures |q| > 1 && q[0] == w[0] && q[1] == w[1]
    ensures Walk(d.succs, w[1..]) && Complete(d, q[1..], w[1])
    ensures forall i :: 0 <= i < |w[1..]| - 1 ==> w[1..][i] !in d.merge
    ensures PathSum(d, q) - PathSum(d, w) == PathSum(d, q[1..]) - PathSum(d, w[1..])
  {
    FirstStep(d, q, w[0]);
    PathSumCons(d, w);
    assert w[0] !in d.exits;
    hide *;
    SumStaysInRange(d, w[1..]);
    if w[1] != q[1] { EdgesDisjoint(d, w[0], w[1], q[1]); }
    assert forall i :: 0 <= i < |w[1..]| - 1 ==> w[1..][i] == w[i + 1];
  }

  lemma SlotFits(d: Dag, u: nat, i: nat)
    requires Valid(d) && u < |d.succs| && u !in d.merge && i < |d.succs[u]| && NumPaths(d, d.succs[u][i]) > 0
    ensures u !in d.exits && SumOver(d, u, i) < NumPaths(d, u)
  {
    SumOverGrows(d, u, i + 1, |d.succs[u]|);
  }

  /** No successor's interval begins at the first listing of one that is listed again. */
  lemma WastedSlot(d: Dag, u: nat, i: nat, j: nat, v: nat, rest: nat)
    requires Valid(d) && u < |d.succs| && u !in d.merge && Edge(d.succs, u, v) && rest < NumPaths(d, v)
    requires i < j < |d.succs[u]| && d.succs[u][i] == d.succs[u][j] && NumPaths(d, d.succs[u][i]) > 0
    ensures EdgeValue(d, u, v) + rest != SumOver(d, u, i)
  {
    hide Ranked, NumPaths;
    var l := LastIndex(d.succs[u], v);
    if l < i { SumOverGrows(d, u, l + 1, i); } else { SumOverGrows(d, u, i + 1, l); }
  }

  /** A live successor listed twice wastes the interval of its first listing. */
  lemma DuplicateWastesId(d: Dag, w: seq<nat>, i: nat, j: nat, q: seq<nat>)
    requires Valid(d) && Walk(d.succs, w) && Complete(d, q, w[0])
    requires forall k :: 0 <= k < |w| ==> w[k] !in d.merge
    requires var u := w[|w| - 1];
             && i < j < |d.succs[u]| && d.succs[u][i] == d.succs[u][j] && NumPaths(d, d.succs[u][i]) > 0
    ensures PathSum(d, q) != PathSum(d, w) + SumOver(d, w[|w| - 1], i)
  {
    var u := w[|w| - 1];
    if PathSum(d, q) == PathSum(d, w) + SumOver(d, u, i) {
      SlotFits(d, u, i);
      IdFixesPrefix(d, w, q);
      var tail := q[|w| - 1..];
      FirstStep(d, tail, u);
      WastedSlot(d, u, i, j, tail[1], PathSum(d, tail[1..]));
      assert false;
    }
  }

  ghost predicate IdUsed(d: Dag, b: nat, k: nat)
    requires Valid(d)
  {
    exists p :: Complete(d, p, b) && PathSum(d, p) == k
  }

  /** Strict mode: all ids below the count are used if and only if no
      reachable branch lists a live successor twice. */
  lemma EveryIdReachedIff(d: Dag, b: nat)
    requires Valid(d) && b < |d.succs| && Uncollapsed(d, b)
    ensures LiveDistinctFrom(d, b) <==> forall k: nat :: k < NumPaths(d, b) ==> IdUsed(d, b, k)
  {
    if LiveDistinctFrom(d, b) {
      forall k: nat | k < NumPaths(d, b) ensures IdUsed(d, b, k) {
        var p := EveryIdReached(d, b, k);
      }
    } else {
      var u: nat :| u < |d.succs| && Reaches(d.succs, b, u) && u !in d.merge && !LiveDistinct(d, u);
      var k := WastedId(d, b, u);
      assert !IdUsed(d, b, k);
    }
  }

  lemma WastedId(d: Dag, b: nat, u: nat) returns (k: nat)
    requires Valid(d) && Uncollapsed(d, b)
    requires u < |d.succs| && Reaches(d.succs, b, u) && !LiveDistinct(d, u)
    ensures b < |d.succs| && k < NumPaths(d, b)
    ensures forall p :: Complete(d, p, b) ==> PathSum(d, p) != k
  {
    var w :| WalkFromTo(d.succs, w, b, u);
    var i, j :| 0 <= i < j < |d.succs[u]| && d.succs[u][i] == d.succs[u][j] && NumPaths(d, d.succs[u][i]) > 0;
    forall c | 0 <= c < |w| ensures w[c] !in d.merge {
      WalkPrefix(d.succs, w, c + 1);
      assert WalkFromTo(d.succs, w[..c + 1], b, w[c]);
    }
    k := PathSum(d, w) + SumOver(d, u, i);
    SumOverGrows(d, u, i + 1, |d.succs[u]|);
    SumStaysInRange(d, w);
    forall p | Complete(d, p, b) ensures PathSum(d, p) != k {
      DuplicateWastesId(d, w, i, j, p);
    }
  }
}
