/** Why critical edges have to be split: two calls that unwind to one landing pad, an edge
    LLVM does not split, and two of the four paths under one number. */
module UnwindExample {
  import opened Graph
  import opened BackEdges
  import opened PathCount
  import opened PathIds
  import opened PathAnalysis
  import opened PathRegister
  import opened PathLoops
  import opened Words

  /** Blocks 1 and 2 end in calls that go on to 3 and 4, or unwind to 5. */
  const UNWIND := Function([[1, 2], [3, 5], [4, 5], [6], [6], [], []], {5, 6}, {}, {}, false)

  lemma UnwindEdges()
    ensures |UNWIND.succs| == 7 && UNWIND.succs[0] == [1, 2] && UNWIND.succs[1] == [3, 5] && UNWIND.succs[2] == [4, 5]
    ensures UNWIND.succs[3] == UNWIND.succs[4] == [6] && UNWIND.succs[5] == UNWIND.succs[6] == []
    ensures forall a: nat, b: nat :: Edge(UNWIND.succs, a, b) <==>
              (a, b) in {(0, 1), (0, 2), (1, 3), (1, 5), (2, 4), (2, 5), (3, 6), (4, 6)}
  {
  }

  lemma UnwindIsWellFormed()
    ensures WellFormed(UNWIND) && EntryHasNoPreds(UNWIND.succs) && Acyclic(UNWIND.succs)
  {
    UnwindEdges();
    hide Acyclic, Edge;
    UnwindIsAcyclic();
  }

  lemma UnwindIsAcyclic()
    ensures Acyclic(UNWIND.succs)
  {
    UnwindEdges();
    hide Edge;
    assert IsRank(UNWIND.succs, [3, 2, 2, 1, 1, 0, 0]);
    RankedIsAcyclic(UNWIND.succs);
  }

  lemma UnwindDag(back: set<Arc>, level: nat, simplified: bool)
    requires BreaksCycles(UNWIND.succs, back)
    ensures ForwardDag(UNWIND, back, level, simplified) == Dag(UNWIND.succs, {5, 6}, {})
  {
    UnwindIsWellFormed();
    UnwindEdges();
    PlainDag(UNWIND, back, level, simplified, UNWIND.succs);
  }

  lemma UnwindPaths(d: Dag)
    requires Valid(d) && d == Dag(UNWIND.succs, {5, 6}, {})
    ensures NumPaths(d, 3) == NumPaths(d, 4) == 1 && NumPaths(d, 1) == NumPaths(d, 2) == 2 && NumPaths(d, 0) == 4
  {
    UnwindEdges();
    assert NumPaths(d, 5) == 1 && NumPaths(d, 6) == 1;
    hide Valid, NumPaths;
    OneWay(d, 3, 6);
    OneWay(d, 4, 6);
    TwoWays(d, 1, 3, 5);
    TwoWays(d, 2, 4, 5);
    TwoWays(d, 0, 1, 2);
  }

  lemma UnwindReaches()
    ensures forall b: nat :: b <= 4 ==> Reaches(UNWIND.succs, 0, b)
  {
    UnwindEdges();
    hide Reaches, Edge;
    var g := UNWIND.succs;
    ReachesRefl(g, 0);
    ReachesStep(g, 0, 0, 1);
    ReachesStep(g, 0, 0, 2);
    ReachesStep(g, 0, 1, 3);
    ReachesStep(g, 0, 2, 4);
  }

  /** The analysis numbers its four paths 0 to 3. */
  ghost predicate UnwindTable(ev: map<Arc, nat>) {
    && ev.Keys == {(0, 1), (0, 2), (1, 3), (1, 5), (2, 4), (2, 5), (3, 6), (4, 6)}
    && ev[(0, 1)] == 0 && ev[(0, 2)] == 2 && ev[(1, 3)] == 0 && ev[(1, 5)] == 1
    && ev[(2, 4)] == 0 && ev[(2, 5)] == 1 && ev[(3, 6)] == 0 && ev[(4, 6)] == 0
  }

  lemma UnwindKeys(d: Dag, counts: map<nat, nat>, ev: map<Arc, nat>)
    requires Valid(d) && d == Dag(UNWIND.succs, {5, 6}, {}) && Values(d, counts, |d.succs|, ev)
    requires forall b: nat :: b <= 4 ==> b in counts
    ensures ev.Keys == {(0, 1), (0, 2), (1, 3), (1, 5), (2, 4), (2, 5), (3, 6), (4, 6)}
  {
    UnwindEdges();
    hide Valid, NumPaths, EdgeValue;
    forall a: Arc ensures a in ev <==> Edge(d.succs, a.0, a.1) {
      assert a == (a.0, a.1);
    }
  }

  lemma UnwindValues(d: Dag, counts: map<nat, nat>, ev: map<Arc, nat>)
    requires Valid(d) && d == Dag(UNWIND.succs, {5, 6}, {})
    requires Counts(d, counts) && Values(d, counts, |d.succs|, ev)
    ensures UnwindTable(ev)
  {
    UnwindEdges();
    UnwindPaths(d);
    UnwindReaches();
    assert forall b: nat :: b <= 4 ==> b in counts;
    hide Valid, NumPaths, Reaches, Values, Edge, Counts;
    UnwindKeys(d, counts, ev);
    TwoWayValues(d, counts, ev, 0, 1, 2);
    TwoWayValues(d, counts, ev, 1, 3, 5);
    TwoWayValues(d, counts, ev, 2, 4, 5);
    OneWayValue(d, counts, ev, 3, 6);
    OneWayValue(d, counts, ev, 4, 6);
  }

  lemma UnwindSites(arcs: set<Arc>)
    requires arcs == {(0, 1), (0, 2), (1, 3), (1, 5), (2, 4), (2, 5), (3, 6), (4, 6)}
    ensures ArcsAt(UNWIND.succs, arcs, Top(1)) == {(0, 1)} && ArcsAt(UNWIND.succs, arcs, Top(2)) == {(0, 2)}
    ensures ArcsAt(UNWIND.succs, arcs, Top(4)) == {(2, 4)} && ArcsAt(UNWIND.succs, arcs, Top(5)) == {(1, 5), (2, 5)}
    ensures ArcsAt(UNWIND.succs, arcs, Top(6)) == {}
  {
    UnwindEdges();
  }

  /** The code at the top of the landing pad serves both edges into it. */
  lemma UnwindCode(ev: map<Arc, nat>, code: map<Site, nat>)
    requires UnwindTable(ev) && EmittedFrom(UNWIND.succs, ev, ev.Keys, code)
    ensures Added(code, Top(1)) == Added(code, Top(4)) == Added(code, Top(6)) == 0
    ensures Added(code, Top(2)) == Added(code, Top(5)) == 2
  {
    var g := UNWIND.succs;
    UnwindSites(ev.Keys);
    ZeroSum(ev, {});
    hide ArcsAt, SetSum;
    SumOfOne(ev, ArcsAt(g, ev.Keys, Top(1)), (0, 1));
    SumOfOne(ev, ArcsAt(g, ev.Keys, Top(2)), (0, 2));
    SumOfOne(ev, ArcsAt(g, ev.Keys, Top(4)), (2, 4));
    SumOfPair(ev, ArcsAt(g, ev.Keys, Top(5)), (1, 5), (2, 5));
  }

  lemma SumOfOne(ev: map<Arc, nat>, arcs: set<Arc>, a: Arc)
    requires arcs == {a} && a in ev
    ensures SetSum(ev, arcs) == ev[a]
  {
    SetSumTake(ev, arcs, a);
    assert arcs - {a} == {};
  }

  lemma SumOfPair(ev: map<Arc, nat>, arcs: set<Arc>, a: Arc, b: Arc)
    requires arcs == {a, b} && a != b && a in ev && b in ev
    ensures SetSum(ev, arcs) == ev[a] + ev[b]
  {
    SetSumTake(ev, arcs, a);
    SumOfOne(ev, arcs - {a}, b);
  }

  // ----- the two runs

  /** The first call unwinds. */
  const FIRST: seq<nat> := [0] + [1] + [5]

  /** The second call returns. */
  const SECOND: seq<nat> := [0] + [2] + [4] + [6]

  lemma UnwindRuns(d: Dag)
    requires d == Dag(UNWIND.succs, {5, 6}, {})
    ensures Complete(d, FIRST, 0) && Complete(d, SECOND, 0)
  {
    UnwindEdges();
    hide Edge;
    var g := UNWIND.succs;
    WalkSnoc(g, [0], 1);
    WalkSnoc(g, [0] + [1], 5);
    WalkSnoc(g, [0], 2);
    WalkSnoc(g, [0] + [2], 4);
    WalkSnoc(g, [0] + [2] + [4], 6);
  }

  lemma AtEntry(g: Adj, ev: map<Arc, nat>, code: map<Site, nat>)
    requires EntryHasNoPreds(g) && GoodTable(g, ev) && EmittedFrom(g, ev, ev.Keys, code)
    ensures Exec(code, [0]) == 0 && StepSum(ev, [0]) == 0
  {
    hide EntryHasNoPreds, GoodTable, EmittedFrom, Added;
    EndAddsNothing(g, ev, code, 0);
  }

  /** What the edges of two steps amount to, and what the register holds after them. */
  lemma TwoSteps(g: Adj, ev: map<Arc, nat>, code: map<Site, nat>, a: nat, b: nat)
    requires EntryHasNoPreds(g) && GoodTable(g, ev) && EmittedFrom(g, ev, ev.Keys, code)
    ensures StepSum(ev, [0] + [a] + [b]) == StepValue(ev, 0, a) + StepValue(ev, a, b)
    ensures Exec(code, [0] + [a] + [b]) == (Added(code, Top(a)) + Added(code, Top(b))) % U32
  {
    hide *;
    AtEntry(g, ev, code);
    ExecSnoc(g, ev, code, [0], a);
    ExecSnoc(g, ev, code, [0] + [a], b);
    WrapAdd(Added(code, Top(a)), Added(code, Top(b)));
  }

  lemma UnwindNumbers(ev: map<Arc, nat>, code: map<Site, nat>)
    requires UnwindTable(ev)
    requires GoodTable(UNWIND.succs, ev) && EmittedFrom(UNWIND.succs, ev, ev.Keys, code)
    ensures StepSum(ev, FIRST) == 1 && StepSum(ev, SECOND) == 2
    ensures Exec(code, FIRST) == Exec(code, SECOND) == 2
  {
    hide Exec, StepSum, GoodTable, EmittedFrom, EntryHasNoPreds, WellFormed, Acyclic, Added;
    UnwindIsWellFormed();
    UnwindCode(ev, code);
    var g := UNWIND.succs;
    TwoSteps(g, ev, code, 1, 5);
    TwoSteps(g, ev, code, 2, 4);
    ExecSnoc(g, ev, code, [0] + [2] + [4], 6);
  }

  lemma UnwindFacts(back: set<Arc>, level: nat, maxPaths: nat, r: Result, code: map<Site, nat>)
    requires Emitted(UNWIND, back, level, maxPaths, r, code)
    ensures r.numPaths == 4
    ensures Run(UNWIND.succs, WriteBlocks(UNWIND, r), FIRST) && Run(UNWIND.succs, WriteBlocks(UNWIND, r), SECOND)
    ensures StepSum(r.edgeValues, FIRST) == 1 && StepSum(r.edgeValues, SECOND) == 2
    ensures Exec(code, FIRST) == Exec(code, SECOND) == 2
  {
    hide EmittedFrom, BreaksCycles, Counts, Values, NumPaths, Valid, StepSum, Exec, GoodTable, Walk, WriteBlocks;
    UnwindDag(back, level, r.simplified);
    var d := ForwardDag(UNWIND, back, level, r.simplified);
    UnwindPaths(d);
    UnwindValues(d, r.numPathsAtBB, r.edgeValues);
    UnwindRuns(d);
    ForwardEndsInWrite(UNWIND, back, level, maxPaths, r, code, FIRST);
    ForwardEndsInWrite(UNWIND, back, level, maxPaths, r, code, SECOND);
    EmittedIsGood(UNWIND, back, level, maxPaths, r, code);
    UnwindNumbers(r.edgeValues, code);
  }

  lemma UnwindFits(back: set<Arc>, level: nat, maxPaths: nat, r: Result)
    requires BreaksCycles(UNWIND.succs, back) && 4 <= maxPaths
    requires Valid(ForwardDag(UNWIND, back, level, false)) && Valid(ForwardDag(UNWIND, back, level, true))
    requires Decided(UNWIND, back, level, maxPaths, r)
    ensures CountsFit(UNWIND, back, level, maxPaths) && r.numPaths > 0
  {
    hide Valid, NumPaths, Counted, BreaksCycles;
    UnwindDag(back, level, false);
    UnwindPaths(ForwardDag(UNWIND, back, level, false));
    CountedExactIff(ForwardDag(UNWIND, back, level, false), 0);
  }

  lemma NotTheSum(back: set<Arc>, level: nat, maxPaths: nat, r: Result, code: map<Site, nat>)
    requires Emitted(UNWIND, back, level, maxPaths, r, code)
    requires Run(UNWIND.succs, WriteBlocks(UNWIND, r), FIRST)
    requires StepSum(r.edgeValues, FIRST) == 1 && Exec(code, FIRST) == 2
    ensures !Instrumented(UNWIND, back, level, maxPaths, r, code)
  {
    hide Emitted, Instrumented, StepSum, Exec;
    InstrumentedIff(UNWIND, back, level, maxPaths, r, code);
  }

  /** Whatever the level and the cap: the two runs have the numbers 1 and 2, and both
      leave 2 in the register. */
  method UnwindRunsCollide(level: nat, maxPaths: nat) returns (r: Result, code: map<Site, nat>, ghost back: set<Arc>)
    requires 4 <= maxPaths < U64
    ensures Emitted(UNWIND, back, level, maxPaths, r, code) && r.numPaths == 4
    ensures Run(UNWIND.succs, WriteBlocks(UNWIND, r), FIRST) && Run(UNWIND.succs, WriteBlocks(UNWIND, r), SECOND)
    ensures StepSum(r.edgeValues, FIRST) == 1 && StepSum(r.edgeValues, SECOND) == 2
    ensures Exec(code, FIRST) == Exec(code, SECOND) == 2
    ensures !Instrumented(UNWIND, back, level, maxPaths, r, code)
  {
    hide Emitted, Decided, CountsFit, Run, Exec, StepSum, StepsAgree, BreaksCycles, Valid;
    UnwindIsWellFormed();
    r, code, back := Instrument(UNWIND, level, maxPaths);
    UnwindFits(back, level, maxPaths, r);
    UnwindFacts(back, level, maxPaths, r, code);
    NotTheSum(back, level, maxPaths, r, code);
  }
}
