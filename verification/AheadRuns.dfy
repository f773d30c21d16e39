/** Runs without back-edges that may get past exits.  Each exit passed starts the
    numbering over while the register goes on, so their sums can exceed the number of
    paths without any loop. */
module AheadRuns {
  import opened Graph
  import opened BackEdges
  import opened PathCount
  import opened PathIds
  import opened PathAnalysis
  import opened PathRegister
  import opened PathLoops
  import opened LoopArcs

  /** The function without its back-edges.  Unlike the forward graph it goes on after
      exits. */
  function Ahead(f: Function, back: set<Arc>): (g: Adj)
    ensures |g| == |f.succs|
  {
    Without(f.succs, back)
  }

  /** Every run without back-edges has added less than the number of paths at every
      write. */
  ghost predicate AheadInRange(f: Function, back: set<Arc>, r: Result) {
    forall p :: Run(Ahead(f, back), WriteBlocks(f, r), p) ==> StepSum(r.edgeValues, p) < r.numPaths
  }

  // ----- how much such a run adds

  /** The sum at the last write that `p` has passed. */
  function LastWrite(ends: set<nat>, ev: map<Arc, nat>, p: seq<nat>): nat {
    if |p| <= 1 then 0
    else if p[|p| - 2] in ends then StepSum(ev, p[..|p| - 1])
    else LastWrite(ends, ev, p[..|p| - 1])
  }

  /** At the writes that `p` has passed the sum was below `n`. */
  ghost predicate PassedBelow(ends: set<nat>, ev: map<Arc, nat>, p: seq<nat>, n: nat) {
    forall i :: 0 < i < |p| && p[i - 1] in ends ==> StepSum(ev, p[..i]) < n
  }

  lemma {:induction false} LastWriteBelow(ends: set<nat>, ev: map<Arc, nat>, p: seq<nat>, n: nat)
    requires PassedBelow(ends, ev, p, n) && n > 0
    ensures LastWrite(ends, ev, p) < n
    decreases |p|
  {
    hide StepSum;
    if |p| <= 1 {
    } else {
      PassedPrefix(ends, ev, p, |p| - 1, n);
      LastWriteBelow(ends, ev, p[..|p| - 1], n);
    }
  }

  lemma PassedPrefix(ends: set<nat>, ev: map<Arc, nat>, p: seq<nat>, k: nat, n: nat)
    requires PassedBelow(ends, ev, p, n) && k <= |p|
    ensures PassedBelow(ends, ev, p[..k], n)
  {
    hide StepSum;
    forall i | 0 < i < |p[..k]| && p[..k][i - 1] in ends ensures StepSum(ev, p[..k][..i]) < n {
      assert p[..k][..i] == p[..i] && p[i - 1] in ends;
    }
  }

  lemma EmittedFacts(f: Function, back: set<Arc>, level: nat, maxPaths: nat, r: Result, code: map<Site, nat>)
    requires Emitted(f, back, level, maxPaths, r, code)
    ensures var d := ForwardDag(f, back, level, r.simplified);
            && Valid(d) && d.succs == ForwardSuccs(f, back) && |d.succs| > 0 && d.exits == f.exits
            && Counts(d, r.numPathsAtBB) && Values(d, r.numPathsAtBB, |d.succs|, r.edgeValues)
            && r.numPaths == NumPaths(d, 0) && 0 < r.numPaths <= maxPaths
    ensures WellFormed(f) && BreaksCycles(f.succs, back)
  {
    hide EmittedFrom, Counts, Values, Valid, NumPaths, BreaksCycles;
  }

  /** One step: room is used up, or an exit is passed and nothing is added. */
  lemma AheadStep(f: Function, back: set<Arc>, d: Dag, r: Result, u: nat, v: nat)
    requires Valid(d) && d.succs == ForwardSuccs(f, back) && |d.succs| > 0 && WellFormed(f)
    requires Counts(d, r.numPathsAtBB) && Values(d, r.numPathsAtBB, |d.succs|, r.edgeValues)
    requires Edge(Ahead(f, back), u, v)
    ensures var value := StepValue(r.edgeValues, u, v);
            var room, next := Room(d, r.numPathsAtBB, u), Room(d, r.numPathsAtBB, v);
            && next <= NumPaths(d, 0)
            && if u in WriteBlocks(f, r) then value == 0 else value + next <= room
  {
    assert Edge(d.succs, u, v) <==> u !in f.exits;
    assert u !in f.traps;
    hide Valid, Counts, Values, NumPaths, ForwardSuccs, Ahead, WellFormed;
    StepKeepsRoom(d, r.numPathsAtBB, r.edgeValues, u, v);
    RoomIsBounded(d, r.numPathsAtBB, v);
  }

  /** The forward graph with its counts and values, as the analysis leaves them. */
  ghost predicate Numbering(f: Function, back: set<Arc>, d: Dag, r: Result) {
    && Valid(d) && d.succs == ForwardSuccs(f, back) && |d.succs| > 0 && WellFormed(f)
    && Counts(d, r.numPathsAtBB) && Values(d, r.numPathsAtBB, |d.succs|, r.edgeValues)
    && r.numPaths == NumPaths(d, 0)
  }

  /** Since the last write passed no more than the number of paths has been added, less
      what may still follow. */
  ghost predicate WithinRoom(f: Function, d: Dag, r: Result, p: seq<nat>)
    requires Valid(d) && |d.succs| > 0 && p != []
  {
    StepSum(r.edgeValues, p) + Room(d, r.numPathsAtBB, p[|p| - 1])
    <= LastWrite(WriteBlocks(f, r), r.edgeValues, p) + r.numPaths
  }

  lemma StartsWithinRoom(f: Function, back: set<Arc>, d: Dag, r: Result, p: seq<nat>)
    requires Numbering(f, back, d, r) && |p| == 1
    ensures WithinRoom(f, d, r, p)
  {
    hide Valid, Counts, Values, NumPaths, Room, WriteBlocks, WellFormed;
    NoSteps(f.exits, back, r.edgeValues, p);
    RoomIsBounded(d, r.numPathsAtBB, p[0]);
  }

  lemma StaysWithinRoom(f: Function, back: set<Arc>, d: Dag, r: Result, p: seq<nat>)
    requires Numbering(f, back, d, r) && |p| > 1 && Edge(Ahead(f, back), p[|p| - 2], p[|p| - 1])
    requires WithinRoom(f, d, r, p[..|p| - 1])
    ensures WithinRoom(f, d, r, p)
  {
    hide Valid, Counts, Values, NumPaths, Room, StepSum, LastWrite, WriteBlocks, Edge, Ahead, WellFormed, ForwardSuccs;
    UnfoldSteps(f.exits, back, r.edgeValues, p);
    UnfoldLastWrite(WriteBlocks(f, r), r.edgeValues, p);
    AheadStep(f, back, d, r, p[|p| - 2], p[|p| - 1]);
  }

  lemma UnfoldLastWrite(ends: set<nat>, ev: map<Arc, nat>, p: seq<nat>)
    requires |p| > 1
    ensures LastWrite(ends, ev, p) ==
            if p[|p| - 2] in ends then StepSum(ev, p[..|p| - 1]) else LastWrite(ends, ev, p[..|p| - 1])
  {
  }

  /** A run without back-edges stays within that. */
  lemma {:induction false} AheadBound(f: Function, back: set<Arc>, d: Dag, r: Result, p: seq<nat>)
    requires Numbering(f, back, d, r) && Walk(Ahead(f, back), p) && p[0] == 0
    ensures WithinRoom(f, d, r, p)
    decreases |p|
  {
    if |p| == 1 {
      StartsWithinRoom(f, back, d, r, p);
    } else {
      WalkPrefix(Ahead(f, back), p, |p| - 1);
      assert Edge(Ahead(f, back), p[|p| - 2], p[|p| - 2 + 1]);
      hide Numbering, WithinRoom, Edge, Ahead;
      AheadBound(f, back, d, r, p[..|p| - 1]);
      StaysWithinRoom(f, back, d, r, p);
    }
  }

  /** Less than twice the number of paths, if the writes passed were in range. */
  lemma AheadBelowTwice(f: Function, back: set<Arc>, level: nat, maxPaths: nat, r: Result, code: map<Site, nat>,
                        p: seq<nat>)
    requires Emitted(f, back, level, maxPaths, r, code)
    requires Walk(Ahead(f, back), p) && p[0] == 0
    requires PassedBelow(WriteBlocks(f, r), r.edgeValues, p, r.numPaths)
    ensures StepSum(r.edgeValues, p) < 2 * r.numPaths
  {
    EmittedFacts(f, back, level, maxPaths, r, code);
    hide Emitted, Valid, ForwardDag, ForwardSuccs, Counts, Values, NumPaths, StepSum, LastWrite, Ahead, PassedBelow, Room;
    hide WellFormed, BreaksCycles, Walk, WriteBlocks;
    AheadBound(f, back, ForwardDag(f, back, level, r.simplified), r, p);
    LastWriteBelow(WriteBlocks(f, r), r.edgeValues, p, r.numPaths);
  }

  lemma RangePassesBelow(f: Function, back: set<Arc>, r: Result, p: seq<nat>)
    requires AheadInRange(f, back, r) && Walk(Ahead(f, back), p) && p[0] == 0
    ensures PassedBelow(WriteBlocks(f, r), r.edgeValues, p, r.numPaths)
  {
    var ends := WriteBlocks(f, r);
    hide StepSum, Ahead, WriteBlocks;
    forall i | 0 < i < |p| && p[i - 1] in ends ensures StepSum(r.edgeValues, p[..i]) < r.numPaths {
      WalkPrefix(Ahead(f, back), p, i);
      assert Run(Ahead(f, back), ends, p[..i]);
    }
  }

  /** A run without back-edges that adds too much has a first write at which it has, and
      there the sum has not wrapped around. */
  lemma {:induction false} FirstTooLarge(f: Function, back: set<Arc>, level: nat, maxPaths: nat, r: Result,
                                         code: map<Site, nat>, p: seq<nat>) returns (q: seq<nat>)
    requires Emitted(f, back, level, maxPaths, r, code)
    requires Run(Ahead(f, back), WriteBlocks(f, r), p) && StepSum(r.edgeValues, p) >= r.numPaths
    ensures Run(Ahead(f, back), WriteBlocks(f, r), q)
    ensures r.numPaths <= StepSum(r.edgeValues, q) < 2 * r.numPaths
    decreases |p|
  {
    var ends, ev := WriteBlocks(f, r), r.edgeValues;
    hide Emitted, StepSum, Ahead, WriteBlocks;
    if i :| 0 < i < |p| && p[i - 1] in ends && StepSum(ev, p[..i]) >= r.numPaths {
      WalkPrefix(Ahead(f, back), p, i);
      q := FirstTooLarge(f, back, level, maxPaths, r, code, p[..i]);
    } else {
      q := p;
      AheadBelowTwice(f, back, level, maxPaths, r, code, p);
    }
  }

  // ----- functions in which no run gets past an exit

  /** No run gets past an exit and then to a write. */
  ghost predicate NothingPassed(f: Function, ends: set<nat>) {
    forall x: nat, y: nat :: x in f.exits && Reaches(f.succs, 0, x) && Edge(f.succs, x, y) ==> !CanStop(f.succs, ends, y)
  }

  lemma AheadIsWalk(f: Function, back: set<Arc>, p: seq<nat>)
    requires Walk(Ahead(f, back), p)
    ensures Walk(f.succs, p)
  {
    forall i | 0 <= i < |p| - 1 ensures Edge(f.succs, p[i], p[i + 1]) {
      assert Edge(Ahead(f, back), p[i], p[i + 1]);
    }
  }

  /** There a run to a write passes no exit. */
  lemma StopsAtFirstExit(f: Function, ends: set<nat>, p: seq<nat>, i: nat)
    requires NothingPassed(f, ends) && Run(f.succs, ends, p) && i < |p| - 1
    ensures p[i] !in f.exits
  {
    PartReaches(f.succs, p, 0, i);
    PartReaches(f.succs, p, i + 1, |p| - 1);
    assert Edge(f.succs, p[i], p[i + 1]);
    hide Reaches, Edge;
    assert CanStop(f.succs, ends, p[i + 1]);
  }

  /** So without back-edges it is a forward path, with an id below the number of paths. */
  lemma NothingPassedIsInRange(f: Function, back: set<Arc>, level: nat, maxPaths: nat, r: Result, code: map<Site, nat>)
    requires Emitted(f, back, level, maxPaths, r, code) && NothingPassed(f, WriteBlocks(f, r))
    ensures AheadInRange(f, back, r)
  {
    EmittedFacts(f, back, level, maxPaths, r, code);
    hide Emitted;
    forall p | Run(Ahead(f, back), WriteBlocks(f, r), p) ensures StepSum(r.edgeValues, p) < r.numPaths {
      AheadToFirstExit(f, back, level, r, p);
    }
  }

  lemma AheadToFirstExit(f: Function, back: set<Arc>, level: nat, r: Result, p: seq<nat>)
    requires Run(Ahead(f, back), WriteBlocks(f, r), p) && NothingPassed(f, WriteBlocks(f, r))
    requires var d := ForwardDag(f, back, level, r.simplified);
             && Valid(d) && |d.succs| > 0 && r.numPaths == NumPaths(d, 0)
             && Counts(d, r.numPathsAtBB) && Values(d, r.numPathsAtBB, |d.succs|, r.edgeValues)
    ensures StepSum(r.edgeValues, p) < r.numPaths
  {
    AheadIsWalk(f, back, p);
    forall i | 0 <= i < |p| - 1 ensures (p[i], p[i + 1]) !in back && p[i] !in f.exits {
      assert Edge(Ahead(f, back), p[i], p[i + 1]);
      StopsAtFirstExit(f, WriteBlocks(f, r), p, i);
    }
    hide NothingPassed, Valid, Counts, Values, NumPaths, StepSum, PathSum, Edge;
    var d := ForwardDag(f, back, level, r.simplified);
    NoBackStepsIsForward(f, back, level, r.simplified, p);
    ForwardStepSum(d, r.numPathsAtBB, r.edgeValues, p);
    CompleteIdInRange(d, p, 0);
  }
}
