/** When every write of every run stores a number below the number of paths.  The
    register has 32 bits and both passes cap the number of paths at 2^31 - 1, so a loop
    that adds something that does not vanish in 32 bits takes some run out of range. */
module LoopRange {
  import opened Arithmetic
  import opened Finite
  import opened Graph
  import opened BackEdges
  import opened PathCount
  import opened PathIds
  import opened PathAnalysis
  import opened PathRegister
  import opened PathLoops
  import opened LoopArcs
  import opened AheadRuns
  import opened LargestSum
  import opened Words

  /** At every write of every run the register is below `n`. */
  ghost predicate StoredInRange(g: Adj, ends: set<nat>, code: map<Site, nat>, n: nat) {
    forall p: seq<nat> :: Run(g, ends, p) ==> Exec(code, p) < n
  }

  /** It is for the finitely many runs that visit no block twice. */
  ghost predicate SimpleStoredInRange(g: Adj, ends: set<nat>, code: map<Site, nat>, n: nat) {
    forall p: seq<nat> :: Run(g, ends, p) && Distinct(p) ==> Exec(code, p) < n
  }

  // ----- steps of a 32-bit counter

  /** Steps up to 2^31 cannot jump over the upper half. */
  lemma {:induction false} Climb(a: nat, s: nat, n: nat) returns (m: nat)
    requires a < n <= INT32_MAX + 1 && 0 < s <= INT32_MAX + 1
    ensures n <= a + m * s < U32
    decreases n - a
  {
    if a + s >= n {
      m := 1;
    } else {
      m := Climb(a + s, s, n);
      MulStep(s, m + 1);
      m := m + 1;
    }
  }

  /** Longer steps go down around the upper half. */
  lemma {:induction false} Descend(a: nat, s: nat, n: nat) returns (m: nat)
    requires a < n <= INT32_MAX + 1 < s < U32
    ensures (a + m * s) % U32 >= n
    decreases a
  {
    if a + s < U32 {
      m := 1;
    } else {
      m := Descend(a + s - U32, s, n);
      MulStep(s, m + 1);
      StepRound(a, s, m * s, (m + 1) * s);
      m := m + 1;
    }
  }

  lemma StepRound(a: nat, s: nat, before: nat, after: nat)
    requires after == before + s && a + s >= U32
    ensures (a + after) % U32 == (a + s - U32 + before) % U32
  {
    assert a + after == a + s - U32 + before + U32;
  }

  lemma {:induction false} Multiples(a: nat, s: nat, m: nat)
    ensures (a + m * s) % U32 == (a % U32 + m * (s % U32)) % U32
    decreases m
  {
    if m == 0 {
    } else {
      Multiples(a, s, m - 1);
      MulStep(s, m);
      MulStep(s % U32, m);
      WrapBoth(a + (m - 1) * s, a % U32 + (m - 1) * (s % U32), s);
    }
  }

  lemma WrapBoth(x: nat, y: nat, s: nat)
    requires x % U32 == y % U32
    ensures (x + s) % U32 == (y + s % U32) % U32
  {
    WrapAdd(x, s);
    WrapAdd(y, s % U32);
    WrapAdd(s, y % U32);
  }

  /** Repeating a step that is not 0 in 32 bits leaves every range of up to 2^31. */
  lemma Escape(a: nat, s: nat, n: nat) returns (m: nat)
    requires 0 < n <= INT32_MAX + 1 && s % U32 != 0
    ensures (a + m * s) % U32 >= n
  {
    var b, t := a % U32, s % U32;
    if b >= n {
      m := 0;
    } else if t <= INT32_MAX + 1 {
      m := Climb(b, t, n);
      SmallMod(b + m * t);
    } else {
      m := Descend(b, t, n);
    }
    Multiples(a, s, m);
  }

  // ----- all functions

  lemma RunStores(f: Function, back: set<Arc>, level: nat, maxPaths: nat, r: Result, code: map<Site, nat>, p: seq<nat>)
    requires Instrumented(f, back, level, maxPaths, r, code) && Run(f.succs, WriteBlocks(f, r), p)
    ensures Exec(code, p) == StepSum(r.edgeValues, p) % U32
  {
    hide Instrumented, Exec, StepSum;
    RegisterOfWalk(f, back, level, maxPaths, r, code, p);
  }

  /** A loop that adds something in 32 bits takes some run out of range. */
  lemma LoopLeavesRange(f: Function, back: set<Arc>, level: nat, maxPaths: nat, r: Result, code: map<Site, nat>,
                        n: nat, p: seq<nat>, i: nat, j: nat) returns (q: seq<nat>)
    requires Instrumented(f, back, level, maxPaths, r, code) && 0 < n <= INT32_MAX + 1
    requires Run(f.succs, WriteBlocks(f, r), p) && i < j < |p| && p[i] == p[j]
    requires StepSum(r.edgeValues, p[i..j + 1]) % U32 != 0
    ensures Run(f.succs, WriteBlocks(f, r), q) && Exec(code, q) >= n
  {
    hide Instrumented, Run, StepSum, Exec, WriteBlocks;
    var m := Escape(StepSum(r.edgeValues, p), StepSum(r.edgeValues, p[i..j + 1]), n);
    q := Pump(f.succs, WriteBlocks(f, r), r.edgeValues, p, i, j, m);
    RunStores(f, back, level, maxPaths, r, code, q);
  }

  /** For every function, reducible or not, and every range up to 2^31: all writes of all
      runs are in range if and only if what loops add vanishes in 32 bits and the runs
      that visit no block twice store numbers in range. */
  lemma StoredInRangeIff(f: Function, back: set<Arc>, level: nat, maxPaths: nat, r: Result, code: map<Site, nat>, n: nat)
    requires Instrumented(f, back, level, maxPaths, r, code) && 0 < n <= INT32_MAX + 1
    ensures var ends := WriteBlocks(f, r);
            StoredInRange(f.succs, ends, code, n) <==>
            LoopsWrapToNothing(f.succs, ends, r.edgeValues) && SimpleStoredInRange(f.succs, ends, code, n)
  {
    var g, ends, ev := f.succs, WriteBlocks(f, r), r.edgeValues;
    hide Instrumented, Edge, StepSum, Exec, Distinct, WriteBlocks;
    if LoopsWrapToNothing(g, ends, ev) && SimpleStoredInRange(g, ends, code, n) {
      forall p: seq<nat> | Run(g, ends, p) ensures Exec(code, p) < n {
        var q := CutToSimple(g, ends, ev, p);
        RunStores(f, back, level, maxPaths, r, code, p);
        RunStores(f, back, level, maxPaths, r, code, q);
      }
    }
    if !LoopsWrapToNothing(g, ends, ev) {
      var p, i, j :| Run(g, ends, p) && 0 <= i < j < |p| && p[i] == p[j] && StepSum(ev, p[i..j + 1]) % U32 != 0;
      var q := LoopLeavesRange(f, back, level, maxPaths, r, code, n, p, i, j);
    }
  }

  // ----- reducible functions: runs that visit no block twice

  lemma SimpleStepIsAhead(g: Adj, back: set<Arc>, p: seq<nat>, k: nat)
    requires Reducible(g, back) && Walk(g, p) && p[0] == 0 && Distinct(p) && k + 1 < |p|
    ensures (p[k], p[k + 1]) !in back
  {
    hide Reducible, Walk;
    if (p[k], p[k + 1]) in back {
      var i := BackStepClosesLoop(g, back, p, k);
      assert false;
    }
  }

  /** They are those that take no back-edge. */
  lemma SimpleIffAhead(f: Function, back: set<Arc>, p: seq<nat>)
    requires Reducible(f.succs, back) && BreaksCycles(f.succs, back) && Walk(f.succs, p) && p[0] == 0
    ensures Distinct(p) <==> Walk(Ahead(f, back), p)
  {
    hide Reducible;
    if Distinct(p) {
      forall k | 0 <= k < |p| - 1 ensures Edge(Ahead(f, back), p[k], p[k + 1]) {
        SimpleStepIsAhead(f.succs, back, p, k);
        assert Edge(f.succs, p[k], p[k + 1]);
      }
    }
    if Walk(Ahead(f, back), p) { AheadIsDistinct(Ahead(f, back), p); }
  }

  lemma AheadIsDistinct(g: Adj, p: seq<nat>)
    requires Acyclic(g) && Walk(g, p)
    ensures Distinct(p)
  {
    forall i, j | 0 <= i < j < |p| ensures p[i] != p[j] {
      WalkPrefix(g, p, j + 1);
      WalkSuffix(g, p[..j + 1], i);
      var q := p[..j + 1][i..];
      assert q[0] == p[i] && q[|q| - 1] == p[j];
    }
  }

  /** They store numbers in range if and only if no run without back-edges adds too much. */
  lemma SimpleInRangeIff(f: Function, back: set<Arc>, level: nat, maxPaths: nat, r: Result, code: map<Site, nat>)
    requires Instrumented(f, back, level, maxPaths, r, code) && Reducible(f.succs, back) && maxPaths <= INT32_MAX
    ensures SimpleStoredInRange(f.succs, WriteBlocks(f, r), code, r.numPaths) <==> AheadInRange(f, back, r)
  {
    var ends, ev := WriteBlocks(f, r), r.edgeValues;
    EmittedFacts(f, back, level, maxPaths, r, code);
    hide Instrumented, Emitted, Reducible, BreaksCycles, Distinct, Ahead, WriteBlocks, StepSum, Exec;
    if AheadInRange(f, back, r) {
      forall p: seq<nat> | Run(f.succs, ends, p) && Distinct(p) ensures Exec(code, p) < r.numPaths {
        SimpleIffAhead(f, back, p);
        RunStores(f, back, level, maxPaths, r, code, p);
        assert Run(Ahead(f, back), ends, p);
        SmallMod(StepSum(ev, p));
      }
    } else {
      var p :| Run(Ahead(f, back), ends, p) && StepSum(ev, p) >= r.numPaths;
      var q := FirstTooLarge(f, back, level, maxPaths, r, code, p);
      AheadIsWalk(f, back, q);
      SimpleIffAhead(f, back, q);
      RunStores(f, back, level, maxPaths, r, code, q);
      SmallMod(StepSum(ev, q));
    }
  }

  /** A walk cut down to one that visits no block twice. */
  lemma {:induction false} SimpleWalk(g: Adj, p: seq<nat>) returns (q: seq<nat>)
    requires Walk(g, p)
    ensures Walk(g, q) && q[0] == p[0] && q[|q| - 1] == p[|p| - 1] && Distinct(q)
    ensures forall x :: x in q ==> x in p
    decreases |p|
  {
    if Distinct(p) {
      q := p;
    } else {
      var i, j :| 0 <= i < j < |p| && p[i] == p[j];
      WalkPrefix(g, p, i + 1);
      WalkSuffix(g, p, j);
      WalkJoin(g, p[..i + 1], p[j..]);
      q := SimpleWalk(g, p[..i + 1] + p[j..][1..]);
    }
  }

  /** The first exit of a run of a reducible function can be reached forward, so it is one
      of those that get a write. */
  lemma ReducibleExitsAreCounted(f: Function, back: set<Arc>, level: nat, maxPaths: nat, r: Result,
                                 code: map<Site, nat>, p: seq<nat>)
    requires Emitted(f, back, level, maxPaths, r, code) && Reducible(f.succs, back)
    requires Walk(f.succs, p) && p[0] == 0 && p[|p| - 1] in f.exits
    requires forall i :: 0 <= i < |p| - 1 ==> p[i] !in f.exits
    ensures p[|p| - 1] in r.numPathsAtBB
  {
    EmittedFacts(f, back, level, maxPaths, r, code);
    var d := ForwardDag(f, back, level, r.simplified);
    hide Emitted, Reducible, NumPaths, BreaksCycles, Values, Valid, ForwardDag, Walk, Complete;
    var q := SimpleToFirstExit(f, p);
    forall k | 0 <= k < |q| - 1 ensures (q[k], q[k + 1]) !in back {
      SimpleStepIsAhead(f.succs, back, q, k);
    }
    NoBackStepsIsForward(f, back, level, r.simplified, q);
    CompleteReaches(d, q, 0);
  }

  lemma SimpleToFirstExit(f: Function, p: seq<nat>) returns (q: seq<nat>)
    requires Walk(f.succs, p) && p[|p| - 1] in f.exits && forall i :: 0 <= i < |p| - 1 ==> p[i] !in f.exits
    ensures Walk(f.succs, q) && q[0] == p[0] && q[|q| - 1] == p[|p| - 1] && Distinct(q)
    ensures forall i :: 0 <= i < |q| - 1 ==> q[i] !in f.exits
  {
    q := SimpleWalk(f.succs, p);
    forall i | 0 <= i < |q| - 1 ensures q[i] !in f.exits {
      assert q[i] in q && q[i] != q[|q| - 1];
      var j :| 0 <= j < |p| && p[j] == q[i];
    }
  }

  lemma CompleteReaches(d: Dag, p: seq<nat>, b: nat)
    requires Complete(d, p, b)
    ensures p[|p| - 1] < |d.succs| && Reaches(d.succs, b, p[|p| - 1])
  {
    assert WalkFromTo(d.succs, p, b, p[|p| - 1]);
  }

  // ----- reducible functions: loops

  /** Step `k` of a walk takes a back-edge. */
  ghost predicate StepsBack(back: set<Arc>, p: seq<nat>, k: nat) {
    k + 1 < |p| && (p[k], p[k + 1]) in back
  }

  lemma WalkIsAhead(f: Function, back: set<Arc>, p: seq<nat>, n: nat)
    requires Walk(f.succs, p) && n < |p|
    requires forall k: nat :: k < n ==> !StepsBack(back, p, k)
    ensures Walk(Ahead(f, back), p[..n + 1])
  {
    var q := p[..n + 1];
    forall i | 0 <= i < |q| - 1 ensures Edge(Ahead(f, back), q[i], q[i + 1]) {
      assert Edge(f.succs, p[i], p[i + 1]);
      assert !StepsBack(back, p, i);
    }
  }

  lemma {:induction false} FirstStepBack(back: set<Arc>, p: seq<nat>, n: nat) returns (k: nat)
    ensures k <= n && (k < n ==> StepsBack(back, p, k))
    ensures forall i: nat :: i < k ==> !StepsBack(back, p, i)
    decreases n
  {
    if n == 0 {
      k := 0;
    } else {
      k := FirstStepBack(back, p, n - 1);
      if k == n - 1 && !StepsBack(back, p, k) { k := n; }
    }
  }

  /** The way back from an arc that is no back-edge takes one. */
  lemma ReturnStepsBack(f: Function, back: set<Arc>, u: nat, b: seq<nat>) returns (k: nat)
    requires Acyclic(Ahead(f, back)) && Walk(f.succs, b) && b[|b| - 1] == u && Edge(Ahead(f, back), u, b[0])
    ensures StepsBack(back, b, k) && Walk(Ahead(f, back), b[..k + 1])
  {
    hide Ahead, Edge, Acyclic;
    k := FirstStepBack(back, b, |b| - 1);
    WalkIsAhead(f, back, b, k);
    if k == |b| - 1 {
      assert b[..k + 1] == b;
      NoCycle(Ahead(f, back), u, b);
    }
  }

  lemma NoCycle(g: Adj, u: nat, b: seq<nat>)
    requires Acyclic(g) && Walk(g, b) && Edge(g, u, b[0])
    ensures b[|b| - 1] != u
  {
    WalkCons(g, u, b);
    hide Walk;
    var c := [u] + b;
    assert c[0] == u && c[|c| - 1] == b[|b| - 1];
  }

  /** The way `a` from the entry to an arc `u -> v`, and the way `b` back from it, whose
      step `k` is the first to take a back-edge. */
  ghost predicate Around(f: Function, back: set<Arc>, u: nat, v: nat, a: seq<nat>, b: seq<nat>, k: nat) {
    var g := Ahead(f, back);
    && WalkFromTo(g, a, 0, u) && Edge(g, u, v)
    && WalkFromTo(f.succs, b, v, u) && Distinct(b)
    && StepsBack(back, b, k) && Walk(g, b[..k + 1])
  }

  lemma ForwardIsAhead(f: Function, back: set<Arc>, p: seq<nat>)
    requires Walk(ForwardSuccs(f, back), p)
    ensures Walk(Ahead(f, back), p)
  {
    forall i | 0 <= i < |p| - 1 ensures Edge(Ahead(f, back), p[i], p[i + 1]) {
      assert Edge(ForwardSuccs(f, back), p[i], p[i + 1]);
    }
  }

  lemma ValuedIsForward(f: Function, back: set<Arc>, level: nat, maxPaths: nat, r: Result, code: map<Site, nat>,
                        u: nat, v: nat)
    requires Emitted(f, back, level, maxPaths, r, code) && StepValue(r.edgeValues, u, v) > 0
    ensures Edge(ForwardSuccs(f, back), u, v) && Reaches(ForwardSuccs(f, back), 0, u)
    ensures Edge(Ahead(f, back), u, v) && Acyclic(Ahead(f, back))
  {
    EmittedFacts(f, back, level, maxPaths, r, code);
    hide Emitted, NumPaths, Reaches, Ranked, Acyclic, EdgeValue, ForwardDag;
    assert Edge(ForwardSuccs(f, back), u, v);
  }

  lemma SomeWayAround(f: Function, back: set<Arc>, level: nat, maxPaths: nat, r: Result, code: map<Site, nat>,
                      u: nat, v: nat) returns (a: seq<nat>, b: seq<nat>, k: nat)
    requires Emitted(f, back, level, maxPaths, r, code)
    requires StepValue(r.edgeValues, u, v) > 0 && Reaches(f.succs, v, u)
    ensures Around(f, back, u, v, a, b, k)
  {
    ValuedIsForward(f, back, level, maxPaths, r, code, u, v);
    hide Emitted, Ahead, ForwardSuccs, StepsBack, Acyclic, StepValue, Reaches, Edge, Walk, Distinct;
    a := ForwardWay(f, back, u);
    b := SimpleWay(f.succs, v, u);
    k := ReturnStepsBack(f, back, u, b);
  }

  lemma ForwardWay(f: Function, back: set<Arc>, u: nat) returns (a: seq<nat>)
    requires Reaches(ForwardSuccs(f, back), 0, u)
    ensures |a| > 0 && WalkFromTo(Ahead(f, back), a, 0, u)
  {
    a :| WalkFromTo(ForwardSuccs(f, back), a, 0, u);
    hide ForwardSuccs, Ahead;
    ForwardIsAhead(f, back, a);
  }

  lemma SimpleWay(g: Adj, v: nat, u: nat) returns (b: seq<nat>)
    requires Reaches(g, v, u)
    ensures |b| > 0 && WalkFromTo(g, b, v, u) && Distinct(b)
  {
    var c :| WalkFromTo(g, c, v, u);
    b := SimpleWalk(g, c);
  }

  /** Both ways joined at the arc take no back-edge. */
  lemma WayIn(f: Function, back: set<Arc>, u: nat, v: nat, a: seq<nat>, b: seq<nat>, k: nat)
    requires Around(f, back, u, v, a, b, k)
    ensures WalkFromTo(Ahead(f, back), a + b[..k + 1], 0, b[k])
  {
    hide Ahead;
    var g := Ahead(f, back);
    WalkCons(g, u, b[..k + 1]);
    WalkJoin(g, a, [u] + b[..k + 1]);
    assert ([u] + b[..k + 1])[1..] == b[..k + 1];
  }

  /** The target of that back-edge is on the way to the arc. */
  lemma HeaderOnWay(f: Function, back: set<Arc>, u: nat, v: nat, a: seq<nat>, b: seq<nat>, k: nat) returns (at: nat)
    requires Around(f, back, u, v, a, b, k) && Reducible(f.succs, back)
    ensures at < |a| && a[at] == b[k + 1]
  {
    var w, h := a + b[..k + 1], b[k + 1];
    WayIn(f, back, u, v, a, b, k);
    AheadIsWalk(f, back, w);
    assert Dominates(f.succs, h, b[k]);
    assert WalkFromTo(f.succs, w, 0, b[k]);
    var m :| 0 <= m < |w| && w[m] == h;
    assert forall i :: 0 <= i <= k ==> b[i] != h;
    at := m;
  }

  /** Once to the target of the back-edge, round the loop, and out. */
  lemma RunAround(f: Function, back: set<Arc>, ends: set<nat>, u: nat, v: nat, a: seq<nat>, b: seq<nat>, k: nat,
                  at: nat) returns (p: seq<nat>)
    requires Around(f, back, u, v, a, b, k) && at < |a| && a[at] == b[k + 1] && CanStop(f.succs, ends, u)
    ensures Run(f.succs, ends, p) && a + b[..k + 1] + [b[k + 1]] <= p
  {
    assert k + 1 < |b|;
    hide *;
    var c := WayOut(f.succs, ends, u);
    RoundToArc(f, back, u, v, a, b, k, at);
    p := JoinToRun(f.succs, ends, a + b[..k + 1] + [b[k + 1]] + a[at..][1..], c);
    PrefixOfPrefix(a + b[..k + 1] + [b[k + 1]], a[at..][1..], p);
  }

  lemma PrefixOfPrefix<T>(w: seq<T>, x: seq<T>, p: seq<T>)
    requires w + x <= p
    ensures w <= p
  {
    assert w <= w + x;
  }

  lemma WayOut(g: Adj, ends: set<nat>, u: nat) returns (c: seq<nat>)
    requires CanStop(g, ends, u)
    ensures |c| > 0 && WalkFromTo(g, c, u, c[|c| - 1]) && c[|c| - 1] in ends
  {
    var x :| x in ends && Reaches(g, u, x);
    c :| WalkFromTo(g, c, u, x);
  }

  lemma JoinToRun(g: Adj, ends: set<nat>, q: seq<nat>, c: seq<nat>) returns (p: seq<nat>)
    requires Walk(g, q) && Walk(g, c) && q[0] == 0 && q[|q| - 1] == c[0] && c[|c| - 1] in ends
    ensures Run(g, ends, p) && q <= p
  {
    hide Edge;
    WalkJoin(g, q, c);
    p := q + c[1..];
  }

  /** To the target of the back-edge, round the loop, and to the arc again. */
  lemma RoundToArc(f: Function, back: set<Arc>, u: nat, v: nat, a: seq<nat>, b: seq<nat>, k: nat, at: nat)
    requires Around(f, back, u, v, a, b, k) && at < |a| && a[at] == b[k + 1]
    ensures WalkFromTo(f.succs, a + b[..k + 1] + [b[k + 1]] + a[at..][1..], 0, u)
  {
    var g, w := f.succs, a + b[..k + 1];
    WayIn(f, back, u, v, a, b, k);
    AheadIsWalk(f, back, w);
    AheadIsWalk(f, back, a);
    assert Edge(g, b[k], b[k + 1]);
    hide Around, Ahead;
    WalkSnoc(g, w, b[k + 1]);
    WalkSuffix(g, a, at);
    WalkJoin(g, w + [b[k + 1]], a[at..]);
  }

  /** If no run without back-edges adds too much, the loop adds something that does not
      vanish in 32 bits. */
  lemma LoopSum(f: Function, back: set<Arc>, level: nat, maxPaths: nat, r: Result, code: map<Site, nat>,
                u: nat, v: nat, a: seq<nat>, b: seq<nat>, k: nat, at: nat)
    requires Emitted(f, back, level, maxPaths, r, code) && AheadInRange(f, back, r) && Around(f, back, u, v, a, b, k)
    requires StepValue(r.edgeValues, u, v) > 0 && at < |a|
    ensures 0 < StepSum(r.edgeValues, (a + b[..k + 1])[at..] + [b[k + 1]]) < 2 * r.numPaths
  {
    var w, ev := a + b[..k + 1], r.edgeValues;
    WayIn(f, back, u, v, a, b, k);
    RangePassesBelow(f, back, r, w);
    AheadBelowTwice(f, back, level, maxPaths, r, code, w);
    BackAddsNothing(f, back, level, maxPaths, r, code, b[k], b[k + 1]);
    hide Emitted, AheadInRange, PassedBelow, Around, Ahead, Walk;
    StepSumSplit(ev, w, at);
    var loop := w[at..] + [b[k + 1]];
    assert loop[..|loop| - 1] == w[at..];
    assert w[at..][|a| - 1 - at] == u && w[at..][|a| - at] == v;
    ArcCounts(ev, w[at..], |a| - 1 - at);
  }

  lemma BackAddsNothing(f: Function, back: set<Arc>, level: nat, maxPaths: nat, r: Result, code: map<Site, nat>,
                        x: nat, h: nat)
    requires Emitted(f, back, level, maxPaths, r, code) && (x, h) in back
    ensures StepValue(r.edgeValues, x, h) == 0
  {
    if StepValue(r.edgeValues, x, h) > 0 {
      ValuedIsForward(f, back, level, maxPaths, r, code, x, h);
    }
  }

  /** An arc with a value that lies on a loop lies on one with a single back-edge. */
  lemma SmallLoop(f: Function, back: set<Arc>, level: nat, maxPaths: nat, r: Result, code: map<Site, nat>, u: nat, v: nat)
    returns (p: seq<nat>, i: nat, j: nat)
    requires Emitted(f, back, level, maxPaths, r, code) && Reducible(f.succs, back) && AheadInRange(f, back, r)
    requires StepValue(r.edgeValues, u, v) > 0 && OnLoop(f.succs, WriteBlocks(f, r), u, v)
    ensures Run(f.succs, WriteBlocks(f, r), p) && i < j < |p| && p[i] == p[j]
    ensures 0 < StepSum(r.edgeValues, p[i..j + 1]) < 2 * r.numPaths
  {
    hide Emitted, Reducible, AheadInRange, Around, StepValue, StepSum, Run, WriteBlocks;
    var a, b, k := SomeWayAround(f, back, level, maxPaths, r, code, u, v);
    AroundFits(f, back, u, v, a, b, k);
    i := HeaderOnWay(f, back, u, v, a, b, k);
    p := RunAround(f, back, WriteBlocks(f, r), u, v, a, b, k, i);
    j := |a| + k + 1;
    LoopSum(f, back, level, maxPaths, r, code, u, v, a, b, k, i);
    LoopInRun(p, a + b[..k + 1], b[k + 1], i);
    assert (a + b[..k + 1])[i] == a[i];
  }

  lemma LoopInRun(p: seq<nat>, w: seq<nat>, h: nat, i: nat)
    requires w + [h] <= p && i < |w|
    ensures |w| < |p| && p[i] == w[i] && p[|w|] == h && p[i..|w| + 1] == w[i..] + [h]
  {
    assert p[i..|w| + 1] == p[..|w| + 1][i..] == (w + [h])[i..];
    assert p[i] == (w + [h])[i] && p[|w|] == (w + [h])[|w|];
  }

  lemma AroundFits(f: Function, back: set<Arc>, u: nat, v: nat, a: seq<nat>, b: seq<nat>, k: nat)
    requires Around(f, back, u, v, a, b, k)
    ensures k + 1 < |b|
  {
  }

  lemma LoudArc(f: Function, back: set<Arc>, level: nat, maxPaths: nat, r: Result, code: map<Site, nat>)
    requires Emitted(f, back, level, maxPaths, r, code) && Reducible(f.succs, back) && AheadInRange(f, back, r)
    requires 2 * r.numPaths <= U32 && !LoopArcsAreZero(f.succs, WriteBlocks(f, r), r.edgeValues)
    ensures !LoopsWrapToNothing(f.succs, WriteBlocks(f, r), r.edgeValues)
  {
    hide Emitted, Reducible, AheadInRange, OnLoop, Run, StepSum, WriteBlocks;
    var a: Arc :| a in r.edgeValues && r.edgeValues[a] > 0 && OnLoop(f.succs, WriteBlocks(f, r), a.0, a.1);
    var p, i, j := SmallLoop(f, back, level, maxPaths, r, code, a.0, a.1);
    SmallMod(StepSum(r.edgeValues, p[i..j + 1]));
  }

  lemma QuietIsQuiet(g: Adj, ends: set<nat>, ev: map<Arc, nat>)
    requires LoopsAddNothing(g, ends, ev)
    ensures LoopsWrapToNothing(g, ends, ev)
  {
    hide Run, StepSum;
  }

  /** In a reducible function all writes of all runs, with loops and passed exits, are
      below the number of paths if and only if no arc that lies on a loop has a value and
      no run without back-edges adds too much. */
  lemma ReducibleInRangeIff(f: Function, back: set<Arc>, level: nat, maxPaths: nat, r: Result, code: map<Site, nat>)
    requires Instrumented(f, back, level, maxPaths, r, code) && Reducible(f.succs, back) && maxPaths <= INT32_MAX
    ensures var ends := WriteBlocks(f, r);
            StoredInRange(f.succs, ends, code, r.numPaths) <==>
            LoopArcsAreZero(f.succs, ends, r.edgeValues) && AheadInRange(f, back, r)
  {
    var g, ends, ev := f.succs, WriteBlocks(f, r), r.edgeValues;
    EmittedFacts(f, back, level, maxPaths, r, code);
    hide Reducible, SimpleStoredInRange, StoredInRange, LoopArcsAreZero, LoopsAddNothing, LoopsWrapToNothing;
    hide AheadInRange, Emitted, WriteBlocks, StepsAgree;
    StoredInRangeIff(f, back, level, maxPaths, r, code, r.numPaths);
    SimpleInRangeIff(f, back, level, maxPaths, r, code);
    if AheadInRange(f, back, r) {
      if LoopArcsAreZero(g, ends, ev) {
        QuietIffLoopArcsAreZero(g, ends, ev);
        QuietIsQuiet(g, ends, ev);
      } else {
        LoudArc(f, back, level, maxPaths, r, code);
      }
    }
  }

  lemma AheadIsRanked(f: Function, back: set<Arc>)
    requires WellFormed(f) && BreaksCycles(f.succs, back)
    ensures Closed(Ahead(f, back)) && Ranked(Ahead(f, back))
  {
    var g := Ahead(f, back);
    forall u, i | 0 <= u < |g| && 0 <= i < |g[u]| ensures g[u][i] < |g| {
      assert Edge(g, u, g[u][i]);
      EdgeTarget(f.succs, u, g[u][i]);
    }
  }

  /** The second condition as one number. */
  lemma AheadInRangeIff(f: Function, back: set<Arc>, r: Result)
    requires WellFormed(f) && BreaksCycles(f.succs, back) && f.succs != []
    ensures Closed(Ahead(f, back)) && Ranked(Ahead(f, back))
    ensures AheadInRange(f, back, r) <==> Most(Ahead(f, back), WriteBlocks(f, r), r.edgeValues, 0) < r.numPaths
  {
    AheadIsRanked(f, back);
    hide Closed, Ranked, Ahead, WriteBlocks, StepSum, Most;
    AllBelowIff(Ahead(f, back), WriteBlocks(f, r), r.edgeValues, r.numPaths);
  }

  // ----- the same on the graph alone

  /** Some exit can be reached forward. */
  ghost predicate Finishes(d: Dag, b: nat) {
    exists x :: x in d.exits && Reaches(d.succs, b, x)
  }

  /** A forward arc of an unmerged block that can be reached forward, with a successor
      listed before it that can reach an exit. */
  ghost predicate Numbered(d: Dag, u: nat, v: nat) {
    && Edge(d.succs, u, v) && Reaches(d.succs, 0, u) && u !in d.merge
    && exists i :: 0 <= i < LastIndex(d.succs[u], v) && Finishes(d, d.succs[u][i])
  }

  /** Exactly those arcs have a value. */
  lemma ValuedIffNumbered(d: Dag, counts: map<nat, nat>, ev: map<Arc, nat>, u: nat, v: nat)
    requires Valid(d) && Counts(d, counts) && Values(d, counts, |d.succs|, ev)
    ensures StepValue(ev, u, v) > 0 <==> Numbered(d, u, v)
  {
    hide NumPaths, SumOver, Reaches, Ranked;
    assert (u, v) in ev <==> u < |d.succs| && u in counts && Edge(d.succs, u, v);
    if (u, v) in ev {
      assert ev[(u, v)] == EdgeValue(d, u, v);
      var k := LastIndex(d.succs[u], v);
      OverPositive(d, u, k);
      forall i | 0 <= i < k ensures NumPaths(d, d.succs[u][i]) > 0 <==> Finishes(d, d.succs[u][i]) {
        PositiveIffExitReachable(d, d.succs[u][i]);
      }
    }
  }

  /** No numbered arc lies on a loop that a run can take. */
  ghost predicate NumberedOffLoops(g: Adj, ends: set<nat>, d: Dag) {
    forall u: nat, v: nat :: Numbered(d, u, v) ==> !OnLoop(g, ends, u, v)
  }

  lemma ZeroIffNumberedOff(f: Function, back: set<Arc>, level: nat, maxPaths: nat, r: Result, code: map<Site, nat>,
                           ends: set<nat>)
    requires Emitted(f, back, level, maxPaths, r, code)
    ensures LoopArcsAreZero(f.succs, ends, r.edgeValues) <==>
            NumberedOffLoops(f.succs, ends, ForwardDag(f, back, level, r.simplified))
  {
    var d, ev := ForwardDag(f, back, level, r.simplified), r.edgeValues;
    EmittedFacts(f, back, level, maxPaths, r, code);
    hide Emitted, OnLoop, Numbered, NumPaths, BreaksCycles, Valid, Counts, Values, ForwardDag;
    forall u: nat, v: nat ensures StepValue(ev, u, v) > 0 <==> Numbered(d, u, v) {
      ValuedIffNumbered(d, r.numPathsAtBB, ev, u, v);
    }
    forall a: Arc | a in ev ensures ev[a] > 0 <==> Numbered(d, a.0, a.1) {
      assert StepValue(ev, a.0, a.1) == ev[a];
    }
    if LoopArcsAreZero(f.succs, ends, ev) {
      forall u: nat, v: nat | Numbered(d, u, v) ensures !OnLoop(f.succs, ends, u, v) {
        assert StepValue(ev, u, v) > 0;
        assert (u, v) in ev;
      }
    }
  }

  /** The condition for a reducible function: no numbered arc on a loop, and a largest sum
      without back-edges below the number of paths. */
  lemma ReducibleInRangeIffGraph(f: Function, back: set<Arc>, level: nat, maxPaths: nat, r: Result, code: map<Site, nat>)
    requires Instrumented(f, back, level, maxPaths, r, code) && Reducible(f.succs, back) && maxPaths <= INT32_MAX
    ensures Closed(Ahead(f, back)) && Ranked(Ahead(f, back)) && f.succs != []
    ensures var ends := WriteBlocks(f, r);
            StoredInRange(f.succs, ends, code, r.numPaths) <==>
            && NumberedOffLoops(f.succs, ends, ForwardDag(f, back, level, r.simplified))
            && Most(Ahead(f, back), ends, r.edgeValues, 0) < r.numPaths
  {
    EmittedFacts(f, back, level, maxPaths, r, code);
    assert f.succs != [];
    assert Emitted(f, back, level, maxPaths, r, code);
    hide *;
    ReducibleInRangeIff(f, back, level, maxPaths, r, code);
    ZeroIffNumberedOff(f, back, level, maxPaths, r, code, WriteBlocks(f, r));
    AheadInRangeIff(f, back, r);
  }

  /** Where no run gets past an exit the first half is enough. */
  lemma NothingPassedInRangeIff(f: Function, back: set<Arc>, level: nat, maxPaths: nat, r: Result, code: map<Site, nat>)
    requires Instrumented(f, back, level, maxPaths, r, code) && Reducible(f.succs, back) && maxPaths <= INT32_MAX
    requires NothingPassed(f, WriteBlocks(f, r))
    ensures StoredInRange(f.succs, WriteBlocks(f, r), code, r.numPaths) <==>
            NumberedOffLoops(f.succs, WriteBlocks(f, r), ForwardDag(f, back, level, r.simplified))
  {
    assert Emitted(f, back, level, maxPaths, r, code);
    hide *;
    ReducibleInRangeIff(f, back, level, maxPaths, r, code);
    ZeroIffNumberedOff(f, back, level, maxPaths, r, code, WriteBlocks(f, r));
    NothingPassedIsInRange(f, back, level, maxPaths, r, code);
  }
}
