/** A function whose loop takes the path register out of its range. */
module LoopingExample {
  import opened Graph
  import opened BackEdges
  import opened PathCount
  import opened PathIds
  import opened PathAnalysis
  import opened PathRegister
  import opened PathLoops
  import opened LoopRange
  import opened Words

  /** `0 -> 1`, a loop `1 -> 2 -> 1`, and a two-way tail `1 -> 3 -> {4, 5}`. */
  const LOOPING := Function([[1], [3, 2], [1], [4, 5], [], []], {4, 5}, {}, {}, false)

  lemma LoopingEdges()
    ensures |LOOPING.succs| == 6 && LOOPING.succs[0] == [1] && LOOPING.succs[1] == [3, 2] && LOOPING.succs[2] == [1]
    ensures LOOPING.succs[3] == [4, 5] && LOOPING.succs[4] == [] && LOOPING.succs[5] == []
    ensures forall a: nat, b: nat :: Edge(LOOPING.succs, a, b) <==>
              (a, b) in {(0, 1), (1, 3), (1, 2), (2, 1), (3, 4), (3, 5)}
  {
  }

  lemma LoopingIsSplit()
    ensures WellFormed(LOOPING) && NoCriticalEdges(LOOPING.succs, LOOPING.traps) && EntryHasNoPreds(LOOPING.succs)
  {
    LoopingEdges();
    LoopingHasNoCriticalEdges();
    hide NoCriticalEdges;
  }

  lemma LoopingHasNoCriticalEdges()
    ensures NoCriticalEdges(LOOPING.succs, {})
  {
    LoopingEdges();
    var g := LOOPING.succs;
    forall u, i, u', i' | 0 <= u < |g| && 0 <= i < |g[u]| && 0 <= u' < |g| && 0 <= i' < |g[u']|
      && |g[u]| > 1 && g[u][i] == g[u'][i']
      ensures u == u' && i == i'
    {
      assert Edge(g, u, g[u][i]) && Edge(g, u', g[u'][i']);
      assert u == 1 || u == 3;
    }
  }

  /** An edge out of a block whose later walks cannot return is kept. */
  lemma KeptEdge(g: Adj, back: set<Arc>, u: nat, v: nat, later: set<nat>)
    requires BreaksCycles(g, back) && Edge(g, u, v) && v in later && u !in later
    requires forall a: nat, b: nat :: a in later && Edge(g, a, b) ==> b in later
    ensures (u, v) !in back
  {
    if (u, v) in back {
      var p :| WalkFromTo(Without(g, back), p, v, u);
      ClosedSetHoldsWalk(Without(g, back), later, p);
      assert false;
    }
  }

  /** The only edge into a reachable block is kept. */
  lemma OnlyWayIn(g: Adj, back: set<Arc>, u: nat, v: nat)
    requires BreaksCycles(g, back) && Reaches(g, 0, v) && v != 0
    requires forall a: nat :: Edge(g, a, v) ==> a == u
    ensures (u, v) !in back
  {
    var p :| WalkFromTo(Without(g, back), p, 0, v);
    assert Edge(Without(g, back), p[|p| - 2], p[|p| - 2 + 1]);
  }

  /** Only the loop is broken, and only at its end. */
  lemma LoopingBackEdges(back: set<Arc>)
    requires BreaksCycles(LOOPING.succs, back)
    ensures back == {(2, 1)}
  {
    hide BreaksCycles, Edge, Reaches;
    var g := LOOPING.succs;
    LoopingEdges();
    KeptEdge(g, back, 0, 1, {1, 2, 3, 4, 5});
    KeptEdge(g, back, 1, 3, {3, 4, 5});
    KeptEdge(g, back, 3, 4, {4, 5});
    KeptEdge(g, back, 3, 5, {4, 5});
    ReachesRefl(g, 0);
    ReachesStep(g, 0, 0, 1);
    ReachesStep(g, 0, 1, 2);
    OnlyWayIn(g, back, 1, 2);
    LoopIsBroken(g, back, 1, 2);
    BackIsEdges(g, back);
  }

  lemma BackIsEdges(g: Adj, back: set<Arc>)
    requires BreaksCycles(g, back)
    ensures forall a: Arc :: a in back ==> Edge(g, a.0, a.1)
  {
  }

  lemma LoopIsBroken(g: Adj, back: set<Arc>, u: nat, v: nat)
    requires BreaksCycles(g, back) && Edge(g, u, v) && Edge(g, v, u)
    ensures (u, v) in back || (v, u) in back
  {
    var h := Without(g, back);
    var rank :| IsRank(h, rank);
    assert Edge(h, u, v) <==> (u, v) !in back;
    assert Edge(h, v, u) <==> (v, u) !in back;
  }

  lemma LoopingDag(back: set<Arc>, level: nat, simplified: bool)
    requires back == {(2, 1)}
    ensures ForwardDag(LOOPING, back, level, simplified) == Dag([[1], [3, 2], [], [4, 5], [], []], {4, 5}, {})
  {
    LoopingEdges();
    KeepsOne(0, 1, back);
    KeepsTwo(1, 3, 2, back);
    KeepsTwo(3, 4, 5, back);
    var fwd := ForwardSuccs(LOOPING, back);
    assert Filter(2, [1], back) == Filter(2, [], back) == [];
    assert fwd == [[1], [3, 2], [], [4, 5], [], []];
    assert ForwardDag(LOOPING, back, level, simplified).merge == {} by {
      assert forall b :: 0 <= b < 6 ==> |fwd[b]| <= 2;
    }
  }

  lemma KeepsOne(u: nat, v: nat, back: set<Arc>)
    requires (u, v) !in back
    ensures Filter(u, [v], back) == [v]
  {
    assert Filter(u, [], back) == [];
  }

  lemma KeepsTwo(u: nat, v: nat, w: nat, back: set<Arc>)
    requires (u, v) !in back && (u, w) !in back
    ensures Filter(u, [v, w], back) == [v, w]
  {
    assert [v, w][1..] == [w];
    KeepsOne(u, w, back);
  }

  /** It has two forward paths, one to each exit. */
  lemma LoopingPaths(d: Dag)
    requires Valid(d) && d == Dag([[1], [3, 2], [], [4, 5], [], []], {4, 5}, {})
    ensures NumPaths(d, 4) == NumPaths(d, 5) == 1 && NumPaths(d, 3) == 2
    ensures NumPaths(d, 2) == 0 && NumPaths(d, 1) == 2 && NumPaths(d, 0) == 2
  {
    hide Valid;
    assert NumPaths(d, 4) == 1 && NumPaths(d, 5) == 1;
    TwoWays(d, 3, 4, 5);
    assert SumOver(d, 2, 0) == 0;
    TwoWays(d, 1, 3, 2);
    OneWay(d, 0, 1);
  }

  /** The second branch of block 1, which leads into the loop, carries the two paths
      through the first. */
  lemma LoopingValues(d: Dag, counts: map<nat, nat>, ev: map<Arc, nat>)
    requires Valid(d) && d == Dag([[1], [3, 2], [], [4, 5], [], []], {4, 5}, {})
    requires Counts(d, counts) && Values(d, counts, |d.succs|, ev)
    ensures StepValue(ev, 0, 1) == 0 && StepValue(ev, 1, 2) == 2 && StepValue(ev, 2, 1) == 0
    ensures StepValue(ev, 1, 3) == 0 && StepValue(ev, 3, 4) == 0
  {
    LoopingPaths(d);
    hide NumPaths, Ranked;
    var g := d.succs;
    assert Edge(g, 0, 1) && Edge(g, 1, 2) && Edge(g, 1, 3) && Edge(g, 3, 4) && !Edge(g, 2, 1);
    ReachesRefl(g, 0);
    ReachesStep(g, 0, 0, 1);
    ReachesStep(g, 0, 1, 3);
    hide Reaches;
    assert LastIndex(g[0], 1) == 0 && LastIndex(g[1], 2) == 1 && LastIndex(g[1], 3) == 0 && LastIndex(g[3], 4) == 0;
    assert SumOver(d, 0, 0) == 0 && SumOver(d, 1, 0) == 0 && SumOver(d, 3, 0) == 0;
    assert SumOver(d, 1, 1) == SumOver(d, 1, 0) + NumPaths(d, 3);
    hide Values;
    ValueOf(d, counts, ev, 0, 1);
    ValueOf(d, counts, ev, 1, 2);
    ValueOf(d, counts, ev, 1, 3);
    ValueOf(d, counts, ev, 3, 4);
    NoValue(d, counts, ev, 2, 1);
  }

  /** Once round the loop and out by the first exit. */
  const ROUND: seq<nat> := [0, 1, 2, 1, 3, 4]

  lemma RoundIsRun()
    ensures Walk(LOOPING.succs, ROUND)
  {
    LoopingEdges();
    hide Edge;
    var g := LOOPING.succs;
    WalkSnoc(g, [0], 1);
    WalkSnoc(g, [0] + [1], 2);
    WalkSnoc(g, [0] + [1] + [2], 1);
    WalkSnoc(g, [0] + [1] + [2] + [1], 3);
    WalkSnoc(g, [0] + [1] + [2] + [1] + [3], 4);
    assert ROUND == [0] + [1] + [2] + [1] + [3] + [4];
  }

  lemma RoundSum(ev: map<Arc, nat>)
    requires StepValue(ev, 0, 1) == 0 && StepValue(ev, 1, 2) == 2 && StepValue(ev, 2, 1) == 0
    requires StepValue(ev, 1, 3) == 0 && StepValue(ev, 3, 4) == 0
    ensures StepSum(ev, ROUND) == 2 && StepSum(ev, ROUND[1..4]) == 2
  {
    hide StepValue;
    StepSumSnoc(ev, [0], 1);
    StepSumSnoc(ev, [0] + [1], 2);
    StepSumSnoc(ev, [0] + [1] + [2], 1);
    StepSumSnoc(ev, [0] + [1] + [2] + [1], 3);
    StepSumSnoc(ev, [0] + [1] + [2] + [1] + [3], 4);
    assert ROUND == [0] + [1] + [2] + [1] + [3] + [4];
    StepSumSnoc(ev, [1], 2);
    StepSumSnoc(ev, [1] + [2], 1);
    assert ROUND[1..4] == [1] + [2] + [1];
  }

  lemma LoopingFacts(back: set<Arc>, level: nat, maxPaths: nat, r: Result, code: map<Site, nat>)
    requires Instrumented(LOOPING, back, level, maxPaths, r, code)
    ensures r.numPaths == 2 && Run(LOOPING.succs, WriteBlocks(LOOPING, r), ROUND)
    ensures StepSum(r.edgeValues, ROUND) == 2 && StepSum(r.edgeValues, ROUND[1..4]) == 2
  {
    hide EmittedFrom, StepsAgree, BreaksCycles, Counts, Values, NumPaths, Valid, StepSum, WriteBlocks, Walk, Complete;
    LoopingBackEdges(back);
    LoopingDag(back, level, r.simplified);
    var d := ForwardDag(LOOPING, back, level, r.simplified);
    LoopingPaths(d);
    LoopingValues(d, r.numPathsAtBB, r.edgeValues);
    RoundIsRun();
    StraightPath(d);
    ForwardEndsInWrite(LOOPING, back, level, maxPaths, r, code, [0] + [1] + [3] + [4]);
    RoundSum(r.edgeValues);
  }

  lemma StraightPath(d: Dag)
    requires d == Dag([[1], [3, 2], [], [4, 5], [], []], {4, 5}, {})
    ensures Complete(d, [0] + [1] + [3] + [4], 0)
  {
    assert Edge(d.succs, 0, 1) && Edge(d.succs, 1, 3) && Edge(d.succs, 3, 4);
    hide Edge;
    WalkSnoc(d.succs, [0], 1);
    WalkSnoc(d.succs, [0] + [1], 3);
    WalkSnoc(d.succs, [0] + [1] + [3], 4);
  }

  lemma LoopingCount(back: set<Arc>, level: nat)
    requires BreaksCycles(LOOPING.succs, back) && Valid(ForwardDag(LOOPING, back, level, false))
    ensures NumPaths(ForwardDag(LOOPING, back, level, false), 0) == 2
  {
    hide BreaksCycles, Valid, NumPaths;
    LoopingBackEdges(back);
    LoopingDag(back, level, false);
    LoopingPaths(ForwardDag(LOOPING, back, level, false));
  }

  /** Two paths are counted, and numbered. */
  lemma LoopingFits(back: set<Arc>, level: nat, maxPaths: nat, r: Result)
    requires Valid(ForwardDag(LOOPING, back, level, false)) && Valid(ForwardDag(LOOPING, back, level, true))
    requires Decided(LOOPING, back, level, maxPaths, r) && 2 <= maxPaths
    requires NumPaths(ForwardDag(LOOPING, back, level, false), 0) == 2
    ensures CountsFit(LOOPING, back, level, maxPaths) && r.numPaths > 0
  {
    hide Valid, NumPaths, Counted;
    CountedExactIff(ForwardDag(LOOPING, back, level, false), 0);
  }

  /** Whatever the level and the cap, the analysis instruments this function for two
      paths, and one round through its loop stores the number 2. */
  method LoopingLeavesRange(level: nat, maxPaths: nat) returns (r: Result, code: map<Site, nat>, ghost back: set<Arc>)
    requires 2 <= maxPaths < U64
    ensures Instrumented(LOOPING, back, level, maxPaths, r, code) && r.numPaths == 2
    ensures Run(LOOPING.succs, WriteBlocks(LOOPING, r), ROUND) && Exec(code, ROUND) == 2
    ensures !StoredInRange(LOOPING.succs, WriteBlocks(LOOPING, r), code, r.numPaths)
  {
    hide Instrumented, Exec, Run, StepSum, NumPaths, BreaksCycles, Valid;
    LoopingIsSplit();
    r, code, back := Instrument(LOOPING, level, maxPaths);
    LoopingCount(back, level);
    LoopingFits(back, level, maxPaths, r);
    SplitIsInstrumented(LOOPING, back, level, maxPaths, r, code);
    LoopingFacts(back, level, maxPaths, r, code);
    RunStores(LOOPING, back, level, maxPaths, r, code, ROUND);
  }
}
