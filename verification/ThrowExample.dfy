/** A function that leaves the range of its path register without any loop: it throws, and
    catches what it has thrown. */
module ThrowExample {
  import opened Graph
  import opened BackEdges
  import opened PathCount
  import opened PathIds
  import opened PathAnalysis
  import opened PathRegister
  import opened PathLoops
  import opened LoopArcs
  import opened LoopRange
  import opened Words

  /** Block 2 throws, and unwinds to the landing pad 4; what the call would return to is
      the unreachable block 3.  Both ways meet at the branch in block 5. */
  const THROW := Function([[1, 2], [5], [3, 4], [], [5], [6, 7], [], []], {2, 3, 6, 7}, {3}, {}, false)

  /** Its forward graph ends at the throw. */
  const FORWARD: Adj := [[1, 2], [5], [], [], [5], [6, 7], [], []]

  lemma ThrowEdges()
    ensures |THROW.succs| == 8 && THROW.succs[0] == [1, 2] && THROW.succs[1] == [5] && THROW.succs[2] == [3, 4]
    ensures THROW.succs[3] == [] && THROW.succs[4] == [5] && THROW.succs[5] == [6, 7]
    ensures THROW.succs[6] == [] && THROW.succs[7] == []
    ensures forall a: nat, b: nat :: Edge(THROW.succs, a, b) <==>
              (a, b) in {(0, 1), (0, 2), (1, 5), (2, 3), (2, 4), (4, 5), (5, 6), (5, 7)}
  {
  }

  lemma ThrowIsAcyclic()
    ensures Acyclic(THROW.succs)
  {
    ThrowEdges();
    assert IsRank(THROW.succs, [4, 3, 3, 0, 2, 1, 0, 0]);
    RankedIsAcyclic(THROW.succs);
  }

  lemma ThrowIsSplit()
    ensures WellFormed(THROW) && NoCriticalEdges(THROW.succs, THROW.traps) && EntryHasNoPreds(THROW.succs)
  {
    ThrowEdges();
    ThrowHasNoCriticalEdges();
    hide NoCriticalEdges;
  }

  lemma ThrowHasNoCriticalEdges()
    ensures NoCriticalEdges(THROW.succs, {3})
  {
    ThrowEdges();
    var g := THROW.succs;
    forall u, i, u', i' | 0 <= u < |g| && 0 <= i < |g[u]| && 0 <= u' < |g| && 0 <= i' < |g[u']|
      && |g[u]| > 1 && g[u][i] == g[u'][i'] && g[u][i] != 3
      ensures u == u' && i == i'
    {
      assert Edge(g, u, g[u][i]) && Edge(g, u', g[u'][i']);
      assert u == 0 || u == 2 || u == 5;
    }
  }

  lemma ThrowDag(back: set<Arc>, level: nat, simplified: bool)
    requires BreaksCycles(THROW.succs, back)
    ensures back == {} && ForwardDag(THROW, back, level, simplified) == Dag(FORWARD, {2, 3, 6, 7}, {})
  {
    hide BreaksCycles, Acyclic;
    ThrowIsAcyclic();
    PlainDag(THROW, back, level, simplified, FORWARD);
  }

  lemma ForwardEdges()
    ensures |FORWARD| == 8 && FORWARD[0] == [1, 2] && FORWARD[1] == [5] && FORWARD[2] == [] && FORWARD[5] == [6, 7]
    ensures forall a: nat, b: nat :: Edge(FORWARD, a, b) <==> (a, b) in {(0, 1), (0, 2), (1, 5), (4, 5), (5, 6), (5, 7)}
  {
  }

  /** It has three forward paths. */
  lemma ThrowPaths(d: Dag)
    requires Valid(d) && d == Dag(FORWARD, {2, 3, 6, 7}, {})
    ensures NumPaths(d, 6) == NumPaths(d, 2) == 1 && NumPaths(d, 5) == NumPaths(d, 1) == 2 && NumPaths(d, 0) == 3
  {
    ForwardEdges();
    assert NumPaths(d, 2) == 1 && NumPaths(d, 6) == 1 && NumPaths(d, 7) == 1;
    hide Valid, NumPaths;
    TwoWays(d, 5, 6, 7);
    OneWay(d, 1, 5);
    TwoWays(d, 0, 1, 2);
  }

  lemma ForwardReaches()
    ensures Reaches(FORWARD, 0, 0) && Reaches(FORWARD, 0, 1) && Reaches(FORWARD, 0, 5)
  {
    ForwardEdges();
    hide Reaches, Edge;
    ReachesRefl(FORWARD, 0);
    ReachesStep(FORWARD, 0, 0, 1);
    ReachesStep(FORWARD, 0, 1, 5);
  }

  lemma ThrowValues(d: Dag, counts: map<nat, nat>, ev: map<Arc, nat>)
    requires Valid(d) && d == Dag(FORWARD, {2, 3, 6, 7}, {})
    requires Counts(d, counts) && Values(d, counts, |d.succs|, ev)
    ensures StepValue(ev, 0, 2) == 2 && StepValue(ev, 2, 4) == 0 && StepValue(ev, 5, 7) == 1
    ensures StepValue(ev, 1, 5) == 0 && StepValue(ev, 4, 5) == 0
  {
    ForwardEdges();
    ThrowPaths(d);
    ForwardReaches();
    assert 0 in counts && 1 in counts && 5 in counts;
    hide Valid, NumPaths, Reaches, Values, Counts;
    TwoWayValues(d, counts, ev, 0, 1, 2);
    TwoWayValues(d, counts, ev, 5, 6, 7);
    OneWayValue(d, counts, ev, 1, 5);
    NoValue(d, counts, ev, 2, 4);
    SoleBranch(d, counts, ev, 4, 5);
  }

  lemma SoleBranch(d: Dag, counts: map<nat, nat>, ev: map<Arc, nat>, u: nat, v: nat)
    requires Valid(d) && Values(d, counts, |d.succs|, ev) && u < |d.succs| && d.succs[u] == [v] && d.merge == {}
    ensures StepValue(ev, u, v) == 0
  {
    hide Valid, NumPaths;
    if u in counts { OneWayValue(d, counts, ev, u, v); }
  }

  /** Throw, catch, and take the second branch. */
  const CAUGHT: seq<nat> := [0] + [2] + [4] + [5] + [7]

  lemma CaughtWalk(g: Adj)
    requires g == THROW.succs
    ensures Walk(g, CAUGHT)
  {
    ThrowEdges();
    hide Edge;
    WalkSnoc(g, [0], 2);
    WalkSnoc(g, [0] + [2], 4);
    WalkSnoc(g, [0] + [2] + [4], 5);
    WalkSnoc(g, [0] + [2] + [4] + [5], 7);
  }

  lemma StraightPath(d: Dag)
    requires d == Dag(FORWARD, {2, 3, 6, 7}, {})
    ensures Complete(d, [0] + [1] + [5] + [7], 0)
  {
    ForwardEdges();
    hide Edge;
    WalkSnoc(d.succs, [0], 1);
    WalkSnoc(d.succs, [0] + [1], 5);
    WalkSnoc(d.succs, [0] + [1] + [5], 7);
  }

  lemma CaughtSum(ev: map<Arc, nat>)
    requires StepValue(ev, 0, 2) == 2 && StepValue(ev, 2, 4) == 0 && StepValue(ev, 4, 5) == 0 && StepValue(ev, 5, 7) == 1
    ensures StepSum(ev, CAUGHT) == 3
  {
    hide StepValue;
    StepSumSnoc(ev, [0], 2);
    StepSumSnoc(ev, [0] + [2], 4);
    StepSumSnoc(ev, [0] + [2] + [4], 5);
    StepSumSnoc(ev, [0] + [2] + [4] + [5], 7);
  }

  lemma ThrowFacts(back: set<Arc>, level: nat, maxPaths: nat, r: Result, code: map<Site, nat>)
    requires Emitted(THROW, back, level, maxPaths, r, code)
    ensures r.numPaths == 3 && Run(THROW.succs, WriteBlocks(THROW, r), CAUGHT) && StepSum(r.edgeValues, CAUGHT) == 3
    ensures back == {}
  {
    hide EmittedFrom, BreaksCycles, Counts, Values, NumPaths, Valid, StepSum, WriteBlocks, Walk, Complete;
    ThrowDag(back, level, r.simplified);
    var d := ForwardDag(THROW, back, level, r.simplified);
    ThrowPaths(d);
    ThrowValues(d, r.numPathsAtBB, r.edgeValues);
    CaughtWalk(THROW.succs);
    StraightPath(d);
    ForwardEndsInWrite(THROW, back, level, maxPaths, r, code, [0] + [1] + [5] + [7]);
    CaughtSum(r.edgeValues);
  }

  lemma ThrowFits(back: set<Arc>, level: nat, maxPaths: nat, r: Result)
    requires BreaksCycles(THROW.succs, back) && 3 <= maxPaths
    requires Valid(ForwardDag(THROW, back, level, false)) && Valid(ForwardDag(THROW, back, level, true))
    requires Decided(THROW, back, level, maxPaths, r)
    ensures CountsFit(THROW, back, level, maxPaths) && r.numPaths > 0
  {
    hide Valid, NumPaths, Counted, BreaksCycles;
    ThrowDag(back, level, false);
    ThrowPaths(ForwardDag(THROW, back, level, false));
    CountedExactIff(ForwardDag(THROW, back, level, false), 0);
  }

  /** In a function without cycles nothing lies on a loop. */
  lemma AcyclicOffLoops(g: Adj, ends: set<nat>, d: Dag)
    requires Acyclic(g)
    ensures NumberedOffLoops(g, ends, d)
  {
    forall u: nat, v: nat | Numbered(d, u, v) ensures !OnLoop(g, ends, u, v) {
      if OnLoop(g, ends, u, v) {
        var p :| WalkFromTo(g, p, v, u);
        NoCycle(g, u, p);
      }
    }
  }

  /** Whatever the level and the cap, the analysis instruments this function for three
      paths.  It is split, reducible and without loops, and after a throw that is caught
      it stores the number 3. */
  method ThrowLeavesRange(level: nat, maxPaths: nat) returns (r: Result, code: map<Site, nat>, ghost back: set<Arc>)
    requires 3 <= maxPaths < U64
    ensures Instrumented(THROW, back, level, maxPaths, r, code) && r.numPaths == 3 && Reducible(THROW.succs, back)
    ensures NumberedOffLoops(THROW.succs, WriteBlocks(THROW, r), ForwardDag(THROW, back, level, r.simplified))
    ensures Run(THROW.succs, WriteBlocks(THROW, r), CAUGHT) && Exec(code, CAUGHT) == 3
    ensures !StoredInRange(THROW.succs, WriteBlocks(THROW, r), code, r.numPaths)
  {
    hide Emitted, Decided, CountsFit, StepsAgree, Exec, StepSum, BreaksCycles, Valid, WriteBlocks, Acyclic, NoCriticalEdges;
    hide NumberedOffLoops, WellFormed, EntryHasNoPreds, Run;
    ThrowIsSplit();
    ThrowIsAcyclic();
    r, code, back := Instrument(THROW, level, maxPaths);
    ThrowFits(back, level, maxPaths, r);
    SplitIsInstrumented(THROW, back, level, maxPaths, r, code);
    ThrowFacts(back, level, maxPaths, r, code);
    RunStores(THROW, back, level, maxPaths, r, code, CAUGHT);
    AcyclicOffLoops(THROW.succs, WriteBlocks(THROW, r), ForwardDag(THROW, back, level, r.simplified));
  }
}
