/** What runs do to path ids.  The register is set to 0 once, at entry; a back-edge does
    not reset it, and neither does an exit that a run gets past, a `throw` that is caught
    in the function.  So an id below the number of paths is only certain for runs to
    their first exit without back-edges. */
module PathLoops {
  import opened Finite
  import opened Graph
  import opened BackEdges
  import opened PathIds
  import opened PathAnalysis
  import opened PathRegister
  import opened Words

  /** A run from the entry up to one of its writes, which happen at `ends`.  It may have
      passed other writes. */
  ghost predicate Run(g: Adj, ends: set<nat>, p: seq<nat>) {
    Walk(g, p) && p[0] == 0 && p[|p| - 1] in ends
  }

  /** The target of every back-edge dominates its source. */
  ghost predicate Reducible(g: Adj, back: set<Arc>) {
    forall a: Arc :: a in back ==> Dominates(g, a.1, a.0)
  }

  /** No loop that a run goes round adds to the register. */
  ghost predicate LoopsAddNothing(g: Adj, ends: set<nat>, ev: map<Arc, nat>) {
    forall p, i, j :: Run(g, ends, p) && 0 <= i < j < |p| && p[i] == p[j] ==> StepSum(ev, p[i..j + 1]) == 0
  }

  /** What such a loop adds disappears in 32 bits. */
  ghost predicate LoopsWrapToNothing(g: Adj, ends: set<nat>, ev: map<Arc, nat>) {
    forall p, i, j :: Run(g, ends, p) && 0 <= i < j < |p| && p[i] == p[j] ==> StepSum(ev, p[i..j + 1]) % U32 == 0
  }

  lemma {:induction false} StepSumSplit(ev: map<Arc, nat>, p: seq<nat>, k: nat)
    requires k < |p|
    ensures StepSum(ev, p) == StepSum(ev, p[..k + 1]) + StepSum(ev, p[k..])
    decreases |p|
  {
    if k == |p| - 1 {
      assert p[..k + 1] == p;
    } else {
      var q := p[..|p| - 1];
      StepSumSplit(ev, q, k);
      assert q[..k + 1] == p[..k + 1];
      assert p[k..][..|p[k..]| - 1] == q[k..];
    }
  }

  lemma StepSumThree(ev: map<Arc, nat>, p: seq<nat>, i: nat, j: nat)
    requires i < j < |p|
    ensures StepSum(ev, p) == StepSum(ev, p[..i + 1]) + StepSum(ev, p[i..j + 1]) + StepSum(ev, p[j..])
    ensures StepSum(ev, p[..j + 1]) == StepSum(ev, p[..i + 1]) + StepSum(ev, p[i..j + 1])
    ensures StepSum(ev, p[i..]) == StepSum(ev, p[i..j + 1]) + StepSum(ev, p[j..])
  {
    hide StepSum;
    StepSumSplit(ev, p, i);
    StepSumSplit(ev, p[i..], j - i);
    assert p[i..][..j - i + 1] == p[i..j + 1] && p[i..][j - i..] == p[j..];
    StepSumSplit(ev, p[..j + 1], i);
    assert p[..j + 1][..i + 1] == p[..i + 1] && p[..j + 1][i..] == p[i..j + 1];
  }

  /** Two parts that meet in a block. */
  lemma StepSumJoin(ev: map<Arc, nat>, p: seq<nat>, q: seq<nat>)
    requires p != [] && q != [] && p[|p| - 1] == q[0]
    ensures StepSum(ev, p + q[1..]) == StepSum(ev, p) + StepSum(ev, q)
  {
    hide StepSum;
    var both := p + q[1..];
    StepSumSplit(ev, both, |p| - 1);
    assert both[..|p|] == p;
    assert both[|p| - 1..] == q;
  }

  /** Cutting a run at two visits of a block: the part between is a loop. */
  lemma LoopSplits(ev: map<Arc, nat>, p: seq<nat>, i: nat, j: nat)
    requires i < j < |p| && p[i] == p[j]
    ensures StepSum(ev, p) == StepSum(ev, p[..i + 1]) + StepSum(ev, p[i..j + 1]) + StepSum(ev, p[j..])
    ensures StepSum(ev, p[..i + 1] + p[j + 1..]) == StepSum(ev, p[..i + 1]) + StepSum(ev, p[j..])
    ensures StepSum(ev, p[..j + 1] + p[i + 1..])
         == StepSum(ev, p[..i + 1]) + 2 * StepSum(ev, p[i..j + 1]) + StepSum(ev, p[j..])
  {
    hide StepSum;
    StepSumThree(ev, p, i, j);
    StepSumJoin(ev, p[..i + 1], p[j..]);
    StepSumJoin(ev, p[..j + 1], p[i..]);
    assert p[j..][1..] == p[j + 1..] && p[i..][1..] == p[i + 1..];
  }

  /** Leaving out a loop, or going round once more, is again a run. */
  lemma LoopSurgery(g: Adj, ends: set<nat>, p: seq<nat>, i: nat, j: nat)
    requires Run(g, ends, p) && i < j < |p| && p[i] == p[j]
    ensures Run(g, ends, p[..i + 1] + p[j + 1..]) && Run(g, ends, p[..j + 1] + p[i + 1..])
  {
    WalkPrefix(g, p, i + 1);
    WalkPrefix(g, p, j + 1);
    WalkSuffix(g, p, i);
    WalkSuffix(g, p, j);
    WalkJoin(g, p[..i + 1], p[j..]);
    WalkJoin(g, p[..j + 1], p[i..]);
    assert p[j..][1..] == p[j + 1..] && p[i..][1..] == p[i + 1..];
  }

  /** Going round a loop `m` more times. */
  lemma {:induction false} Pump(g: Adj, ends: set<nat>, ev: map<Arc, nat>, p: seq<nat>, i: nat, j: nat, m: nat)
    returns (q: seq<nat>)
    requires Run(g, ends, p) && i < j < |p| && p[i] == p[j]
    ensures Run(g, ends, q) && j < |q| && q[..j + 1] == p[..j + 1]
    ensures StepSum(ev, q) == StepSum(ev, p) + m * StepSum(ev, p[i..j + 1])
    decreases m
  {
    hide Run, StepSum;
    if m == 0 {
      q := p;
    } else {
      var r := Pump(g, ends, ev, p, i, j, m - 1);
      assert r[i] == r[..j + 1][i] == p[i] && r[j] == r[..j + 1][j] == p[j];
      assert r[i..j + 1] == r[..j + 1][i..] == p[i..j + 1];
      LoopSplits(ev, r, i, j);
      LoopSurgery(g, ends, r, i, j);
      q := r[..j + 1] + r[i + 1..];
      assert q[..j + 1] == r[..j + 1];
      assert m * StepSum(ev, p[i..j + 1]) == (m - 1) * StepSum(ev, p[i..j + 1]) + StepSum(ev, p[i..j + 1]);
    }
  }

  /** A run to its first exit that takes no back-edge is a forward path. */
  lemma {:induction false} NoBackStepsIsForward(f: Function, back: set<Arc>, level: nat, simplified: bool, p: seq<nat>)
    requires Walk(f.succs, p) && p[0] == 0 && p[|p| - 1] in f.exits
    requires forall i :: 0 <= i < |p| - 1 ==> (p[i], p[i + 1]) !in back && p[i] !in f.exits
    ensures Complete(ForwardDag(f, back, level, simplified), p, 0)
  {
    var d := ForwardDag(f, back, level, simplified);
    forall i | 0 <= i < |p| - 1 ensures Edge(d.succs, p[i], p[i + 1]) {
      assert Edge(f.succs, p[i], p[i + 1]);
    }
  }

  /** A run of a reducible function that takes a back-edge goes round a loop. */
  lemma BackStepClosesLoop(g: Adj, back: set<Arc>, p: seq<nat>, k: nat) returns (i: nat)
    requires Reducible(g, back) && Walk(g, p) && p[0] == 0 && k + 1 < |p| && (p[k], p[k + 1]) in back
    ensures i <= k && p[i] == p[k + 1]
  {
    WalkPrefix(g, p, k + 1);
    assert WalkFromTo(g, p[..k + 1], 0, p[k]);
    i :| 0 <= i < |p[..k + 1]| && p[..k + 1][i] == p[k + 1];
  }

  /** Leaving out loops one by one ends in a run without repeated blocks and the same
      sum in 32 bits. */
  lemma {:induction false} CutToSimple(g: Adj, ends: set<nat>, ev: map<Arc, nat>, p: seq<nat>) returns (q: seq<nat>)
    requires Run(g, ends, p) && LoopsWrapToNothing(g, ends, ev)
    ensures Run(g, ends, q) && Distinct(q) && StepSum(ev, q) % U32 == StepSum(ev, p) % U32
    decreases |p|
  {
    hide Run, StepSum;
    if Distinct(p) {
      q := p;
    } else {
      var i, j :| 0 <= i < j < |p| && p[i] == p[j];
      LoopSplits(ev, p, i, j);
      LoopSurgery(g, ends, p, i, j);
      assert StepSum(ev, p[i..j + 1]) % U32 == 0;
      hide LoopsWrapToNothing, Distinct;
      LeaveOut(StepSum(ev, p[..i + 1]), StepSum(ev, p[i..j + 1]), StepSum(ev, p[j..]));
      q := CutToSimple(g, ends, ev, p[..i + 1] + p[j + 1..]);
    }
  }

  lemma LeaveOut(a: nat, loop: nat, b: nat)
    requires loop % U32 == 0
    ensures (a + loop + b) % U32 == (a + b) % U32
  {
  }

  /** A run that visits no block twice visits at most all blocks: there are finitely
      many such runs. */
  lemma SimpleRunIsShort(g: Adj, ends: set<nat>, p: seq<nat>)
    requires Run(g, ends, p) && Distinct(p)
    ensures |p| <= |g|
  {
    DistinctBelow(p, |g|);
  }
}
