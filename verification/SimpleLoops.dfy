/** A finite test for any function: only loops that meet no block twice on the way round
    and runs that visit no block twice need a look. */
module SimpleLoops {
  import opened Finite
  import opened Graph
  import opened BackEdges
  import opened PathAnalysis
  import opened PathRegister
  import opened PathLoops
  import opened LoopArcs
  import opened LoopRange
  import opened Words

  /** Once round from `c[0]` back to it, where a run can come and from where it can end. */
  ghost predicate LiveLoop(g: Adj, ends: set<nat>, c: seq<nat>) {
    && Walk(g, c) && |c| > 1 && c[0] == c[|c| - 1]
    && Reaches(g, 0, c[0]) && CanStop(g, ends, c[0])
  }

  ghost predicate SimpleLoop(g: Adj, ends: set<nat>, c: seq<nat>) {
    LiveLoop(g, ends, c) && Distinct(c[1..])
  }

  /** What such a loop adds disappears in 32 bits. */
  ghost predicate SimpleLoopsWrap(g: Adj, ends: set<nat>, ev: map<Arc, nat>) {
    forall c :: SimpleLoop(g, ends, c) ==> StepSum(ev, c) % U32 == 0
  }

  /** There are finitely many. */
  lemma SimpleLoopIsShort(g: Adj, ends: set<nat>, c: seq<nat>)
    requires SimpleLoop(g, ends, c)
    ensures |c| <= |g| + 1
  {
    DistinctBelow(c[1..], |g|);
  }

  // ----- taking loops apart

  lemma PartOfLoop(g: Adj, ends: set<nat>, c: seq<nat>, i: nat, j: nat)
    requires LiveLoop(g, ends, c) && i < j < |c| && c[i] == c[j]
    ensures LiveLoop(g, ends, c[i..j + 1])
  {
    PartReaches(g, c, 0, i);
    PartReaches(g, c, i, |c| - 1);
    WalkPrefix(g, c, j + 1);
    WalkSuffix(g, c[..j + 1], i);
    assert c[..j + 1][i..] == c[i..j + 1];
    hide Reaches, Walk;
    ReachesJoin(g, 0, c[0], c[i]);
    StopsFrom(g, ends, c[i], c[0]);
  }

  lemma StopsFrom(g: Adj, ends: set<nat>, u: nat, v: nat)
    requires Reaches(g, u, v) && CanStop(g, ends, v)
    ensures CanStop(g, ends, u)
  {
    hide Reaches;
    var x :| x in ends && Reaches(g, v, x);
    ReachesJoin(g, u, v, x);
  }

  /** Without the part between two visits it is a shorter loop. */
  lemma RestOfLoop(g: Adj, ends: set<nat>, c: seq<nat>, i: nat, j: nat)
    requires LiveLoop(g, ends, c) && 0 < i < j < |c| && c[i] == c[j]
    ensures LiveLoop(g, ends, c[..i + 1] + c[j + 1..])
  {
    WalkPrefix(g, c, i + 1);
    WalkSuffix(g, c, j);
    hide Reaches, CanStop;
    WalkJoin(g, c[..i + 1], c[j..]);
    assert c[j..][1..] == c[j + 1..];
  }

  lemma {:induction false} LoopWraps(g: Adj, ends: set<nat>, ev: map<Arc, nat>, c: seq<nat>)
    requires LiveLoop(g, ends, c) && SimpleLoopsWrap(g, ends, ev)
    ensures StepSum(ev, c) % U32 == 0
    decreases |c|
  {
    hide LiveLoop, StepSum;
    assert |c| > 1 by { LoopIsLong(g, ends, c); }
    if Distinct(c[1..]) {
      assert SimpleLoop(g, ends, c);
    } else {
      var i, j := RepeatIn(c);
      PartOfLoop(g, ends, c, i, j);
      RestOfLoop(g, ends, c, i, j);
      LoopWraps(g, ends, ev, c[i..j + 1]);
      LoopWraps(g, ends, ev, c[..i + 1] + c[j + 1..]);
      LoopSplits(ev, c, i, j);
      ZeroPlusZero(StepSum(ev, c[i..j + 1]), StepSum(ev, c[..i + 1] + c[j + 1..]));
    }
  }

  lemma LoopIsLong(g: Adj, ends: set<nat>, c: seq<nat>)
    requires LiveLoop(g, ends, c)
    ensures |c| > 1
  {
  }

  lemma RepeatIn(c: seq<nat>) returns (i: nat, j: nat)
    requires |c| > 1 && !Distinct(c[1..])
    ensures 0 < i < j < |c| && c[i] == c[j]
  {
    var a, b :| 0 <= a < b < |c[1..]| && c[1..][a] == c[1..][b];
    i, j := a + 1, b + 1;
  }

  lemma ZeroPlusZero(a: nat, b: nat)
    requires a % U32 == 0 && b % U32 == 0
    ensures (a + b) % U32 == 0
  {
    WrapAdd(a, b);
  }

  // ----- loops of runs

  lemma LoopOfRun(g: Adj, ends: set<nat>, p: seq<nat>, i: nat, j: nat)
    requires Run(g, ends, p) && i < j < |p| && p[i] == p[j]
    ensures LiveLoop(g, ends, p[i..j + 1])
  {
    PartReaches(g, p, 0, i);
    PartReaches(g, p, i, |p| - 1);
    WalkPrefix(g, p, j + 1);
    WalkSuffix(g, p[..j + 1], i);
    assert p[..j + 1][i..] == p[i..j + 1];
  }

  /** A run that goes round the loop once. */
  lemma RunRound(g: Adj, ends: set<nat>, c: seq<nat>) returns (p: seq<nat>, i: nat, j: nat)
    requires LiveLoop(g, ends, c)
    ensures Run(g, ends, p) && i < j < |p| && p[i] == p[j] && p[i..j + 1] == c
  {
    var a :| WalkFromTo(g, a, 0, c[0]);
    var out := WayOut(g, ends, c[0]);
    hide Reaches, CanStop;
    WalkJoin(g, a, c);
    var ac := a + c[1..];
    i, j := |a| - 1, |ac| - 1;
    assert ac[i..j + 1] == c;
    p := JoinToRun(g, ends, ac, out);
    hide *;
    assert p[..|ac|] == ac;
    assert p[i..j + 1] == p[..|ac|][i..j + 1];
  }

  /** All loops of all runs add nothing in 32 bits exactly when those that meet no block
      twice do. */
  lemma LoopsWrapIff(g: Adj, ends: set<nat>, ev: map<Arc, nat>)
    ensures LoopsWrapToNothing(g, ends, ev) <==> SimpleLoopsWrap(g, ends, ev)
  {
    hide Run, LiveLoop, StepSum, Distinct;
    if SimpleLoopsWrap(g, ends, ev) {
      forall p, i, j | Run(g, ends, p) && 0 <= i < j < |p| && p[i] == p[j] ensures StepSum(ev, p[i..j + 1]) % U32 == 0 {
        LoopOfRun(g, ends, p, i, j);
        LoopWraps(g, ends, ev, p[i..j + 1]);
      }
    }
    if LoopsWrapToNothing(g, ends, ev) {
      forall c | SimpleLoop(g, ends, c) ensures StepSum(ev, c) % U32 == 0 {
        var p, i, j := RunRound(g, ends, c);
      }
    }
  }

  /** For every function, reducible or not, and every range up to 2^31: whether all writes
      of all runs are in range is decided by finitely many loops and
      runs. */
  lemma FiniteRangeTest(f: Function, back: set<Arc>, level: nat, maxPaths: nat, r: Result, code: map<Site, nat>, n: nat)
    requires Instrumented(f, back, level, maxPaths, r, code) && 0 < n <= INT32_MAX + 1
    ensures var ends := WriteBlocks(f, r);
            StoredInRange(f.succs, ends, code, n) <==>
            SimpleLoopsWrap(f.succs, ends, r.edgeValues) && SimpleStoredInRange(f.succs, ends, code, n)
  {
    hide *;
    StoredInRangeIff(f, back, level, maxPaths, r, code, n);
    LoopsWrapIff(f.succs, WriteBlocks(f, r), r.edgeValues);
  }
}
