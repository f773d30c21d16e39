/** `emitPathCoverageEdges`: the code that keeps a path register, and the value
    that register holds when a run of the function stops. */
module PathRegister {
  import opened Arithmetic
  import opened Finite
  import opened Graph
  import opened DepthFirst
  import opened BackEdges
  import opened PathCount
  import opened PathIds
  import opened PathAnalysis
  import opened Words

  /** Where an increment goes: the top of the edge's target when the source
      branches, otherwise the end of its source. */
  datatype Site = Top(bb: nat) | End(bb: nat)

  function SiteOf(g: Adj, a: Arc): Site
    requires a.0 < |g|
  {
    if |g[a.0]| > 1 then Top(a.1) else End(a.0)
  }

  /** How much the straight-line code at a site adds to the register. */
  function Added(code: map<Site, nat>, s: Site): nat {
    if s in code then code[s] else 0
  }

  ghost function SetSum(ev: map<Arc, nat>, arcs: set<Arc>): nat
    requires arcs <= ev.Keys
  {
    if arcs == {} then 0
    else
      var a :| a in arcs;
      ev[a] + SetSum(ev, arcs - {a})
  }

  lemma {:induction false} SetSumTake(ev: map<Arc, nat>, arcs: set<Arc>, a: Arc)
    requires arcs <= ev.Keys && a in arcs
    ensures SetSum(ev, arcs) == ev[a] + SetSum(ev, arcs - {a})
    decreases arcs
  {
    var b :| b in arcs && SetSum(ev, arcs) == ev[b] + SetSum(ev, arcs - {b});
    if a != b {
      SetSumTake(ev, arcs - {b}, a);
      SetSumTake(ev, arcs - {a}, b);
      assert arcs - {b} - {a} == arcs - {a} - {b};
    }
  }

  ghost function ArcsAt(g: Adj, arcs: set<Arc>, s: Site): set<Arc>
    requires forall a: Arc :: a in arcs ==> a.0 < |g|
  {
    set a | a in arcs && SiteOf(g, a) == s
  }

  /** Each site adds the values of exactly the edges that were placed there. */
  ghost predicate EmittedFrom(g: Adj, ev: map<Arc, nat>, arcs: set<Arc>, code: map<Site, nat>)
    requires arcs <= ev.Keys && forall a: Arc :: a in ev ==> a.0 < |g|
  {
    forall s :: Added(code, s) == SetSum(ev, ArcsAt(g, arcs, s))
  }

  lemma EmitOne(g: Adj, ev: map<Arc, nat>, arcs: set<Arc>, code: map<Site, nat>, a: Arc)
    requires arcs <= ev.Keys && a in ev && a !in arcs && forall a: Arc :: a in ev ==> a.0 < |g|
    requires EmittedFrom(g, ev, arcs, code)
    ensures ev[a] == 0 ==> EmittedFrom(g, ev, arcs + {a}, code)
    ensures EmittedFrom(g, ev, arcs + {a}, code[SiteOf(g, a) := Added(code, SiteOf(g, a)) + ev[a]])
  {
    var code' := code[SiteOf(g, a) := Added(code, SiteOf(g, a)) + ev[a]];
    forall s
      ensures Added(code', s) == SetSum(ev, ArcsAt(g, arcs + {a}, s))
      ensures ev[a] == 0 ==> Added(code, s) == SetSum(ev, ArcsAt(g, arcs + {a}, s))
    {
      if s == SiteOf(g, a) {
        SetSumTake(ev, ArcsAt(g, arcs + {a}, s), a);
        assert ArcsAt(g, arcs + {a}, s) - {a} == ArcsAt(g, arcs, s);
      } else {
        assert ArcsAt(g, arcs + {a}, s) == ArcsAt(g, arcs, s);
      }
    }
  }

  /** The emission loop; the table is walked in no particular order. */
  method Emit(g: Adj, ev: map<Arc, nat>) returns (code: map<Site, nat>)
    requires forall a: Arc :: a in ev ==> a.0 < |g|
    ensures EmittedFrom(g, ev, ev.Keys, code)
  {
    hide EmittedFrom;
    code := map[];
    EmitNone(g, ev);
    var todo := ev.Keys;
    while todo != {}
      invariant todo <= ev.Keys
      invariant EmittedFrom(g, ev, ev.Keys - todo, code)
      decreases todo
    {
      var a :| a in todo;
      EmitOne(g, ev, ev.Keys - todo, code, a);
      assert ev.Keys - todo + {a} == ev.Keys - (todo - {a});
      todo := todo - {a};
      if ev[a] == 0 { continue; }
      var s := SiteOf(g, a);
      code := code[s := Added(code, s) + ev[a]];
    }
    assert ev.Keys - {} == ev.Keys;
  }

  lemma EmitNone(g: Adj, ev: map<Arc, nat>)
    requires forall a: Arc :: a in ev ==> a.0 < |g|
    ensures EmittedFrom(g, ev, ev.Keys - ev.Keys, map[])
  {
    assert ev.Keys - ev.Keys == {};
    forall s ensures SetSum(ev, ArcsAt(g, {}, s)) == 0 {
      assert ArcsAt(g, {}, s) == {};
    }
  }

  // ----- running the emitted code

  /** The register on arrival in the last block of `p`, past that block's
      increments; 32-bit additions wrap. */
  function Exec(code: map<Site, nat>, p: seq<nat>): nat
    requires p != []
  {
    var last := p[|p| - 1];
    if |p| == 1 then Added(code, Top(last)) % U32
    else (Exec(code, p[..|p| - 1]) + Added(code, End(p[|p| - 2])) + Added(code, Top(last))) % U32
  }

  function StepValue(ev: map<Arc, nat>, u: nat, v: nat): nat {
    if (u, v) in ev then ev[(u, v)] else 0
  }

  /** The edge values met along a run, back-edges counting nothing. */
  function StepSum(ev: map<Arc, nat>, p: seq<nat>): nat {
    if |p| <= 1 then 0 else StepSum(ev, p[..|p| - 1]) + StepValue(ev, p[|p| - 2], p[|p| - 1])
  }

  /** Non-zero values only on edges of the graph that leave a branching block. */
  ghost predicate GoodTable(g: Adj, ev: map<Arc, nat>) {
    forall a: Arc :: a in ev ==> Edge(g, a.0, a.1) && (ev[a] > 0 ==> |g[a.0]| > 1)
  }

  lemma SoleIncomingEdge(g: Adj, traps: set<nat>, u: nat, v: nat, a: nat)
    requires NoCriticalEdges(g, traps) && v !in traps && Edge(g, u, v) && Edge(g, a, v) && |g[a]| > 1
    ensures u == a
  {
    var i :| 0 <= i < |g[u]| && g[u][i] == v;
    var j :| 0 <= j < |g[a]| && g[a][j] == v;
  }

  /** Entering `v` from `u` adds exactly the value of that edge. */
  lemma TopAddsEdge(g: Adj, traps: set<nat>, ev: map<Arc, nat>, u: nat, v: nat)
    requires NoCriticalEdges(g, traps) && v !in traps && GoodTable(g, ev) && Edge(g, u, v)
    ensures SetSum(ev, ArcsAt(g, ev.Keys, Top(v))) == StepValue(ev, u, v)
  {
    var arcs := ArcsAt(g, ev.Keys, Top(v));
    forall a | a in arcs ensures a == (u, v) { SoleIncomingEdge(g, traps, u, v, a.0); }
    if (u, v) in arcs {
      SetSumTake(ev, arcs, (u, v));
      assert arcs - {(u, v)} == {};
    } else {
      assert arcs == {};
    }
  }

  lemma {:induction false} ZeroSum(ev: map<Arc, nat>, arcs: set<Arc>)
    requires arcs <= ev.Keys && forall a: Arc :: a in arcs ==> ev[a] == 0
    ensures SetSum(ev, arcs) == 0
    decreases arcs
  {
    if a: Arc :| a in arcs {
      ZeroSum(ev, arcs - {a});
      SetSumTake(ev, arcs, a);
    }
  }

  /** Whatever the table: where critical edges are split, each step adds the value of its
      edge, at the end of the block it leaves or at the top of the one it enters. */
  lemma EveryStepAddsItsEdge(g: Adj, traps: set<nat>, ev: map<Arc, nat>, code: map<Site, nat>, u: nat, v: nat)
    requires NoCriticalEdges(g, traps) && v !in traps && Edge(g, u, v)
    requires (forall a: Arc :: a in ev ==> a.0 < |g| && Edge(g, a.0, a.1)) && EmittedFrom(g, ev, ev.Keys, code)
    ensures Added(code, End(u)) + Added(code, Top(v)) == StepValue(ev, u, v)
  {
    var (end, top) := (ArcsAt(g, ev.Keys, End(u)), ArcsAt(g, ev.Keys, Top(v)));
    assert Added(code, End(u)) == SetSum(ev, end) && Added(code, Top(v)) == SetSum(ev, top);
    forall a | a in top ensures a == (u, v) && |g[u]| > 1 { SoleIncomingEdge(g, traps, u, v, a.0); }
    forall a | a in end ensures a == (u, v) && |g[u]| <= 1 { OnlySuccessor(g, u, v, a.1); }
    hide EmittedFrom, Added, NoCriticalEdges;
    if (u, v) in ev {
      var arcs := if |g[u]| > 1 then top else end;
      assert (u, v) in arcs && end + top == {(u, v)} == arcs;
      SetSumTake(ev, arcs, (u, v));
      assert arcs - {(u, v)} == {};
    } else {
      assert end == {} && top == {};
    }
  }

  lemma OnlySuccessor(g: Adj, u: nat, v: nat, w: nat)
    requires Edge(g, u, v) && Edge(g, u, w) && |g[u]| <= 1
    ensures v == w
  {
  }

  lemma EntryAddsNothing(g: Adj, ev: map<Arc, nat>)
    requires GoodTable(g, ev) && EntryHasNoPreds(g)
    ensures SetSum(ev, ArcsAt(g, ev.Keys, Top(0))) == 0
  {
    ZeroSum(ev, ArcsAt(g, ev.Keys, Top(0)));
  }

  /** Every step of a run out of traps adds, in 32 bits, the value of its edge. */
  ghost predicate StepsAgree(g: Adj, traps: set<nat>, ev: map<Arc, nat>, code: map<Site, nat>) {
    forall u: nat, v: nat :: Reaches(g, 0, u) && Edge(g, u, v) && v !in traps ==>
      Added(code, Top(v)) % U32 == StepValue(ev, u, v) % U32
  }

  /** After every run that does not end in a trap, loops included, the register holds
      the sum of the edge values met, modulo 2^32. */
  ghost predicate RegisterSums(g: Adj, traps: set<nat>, ev: map<Arc, nat>, code: map<Site, nat>) {
    forall p :: Walk(g, p) && p[0] == 0 && p[|p| - 1] !in traps ==> Exec(code, p) == StepSum(ev, p) % U32
  }

  /** Where critical edges are split, every step adds the value of its edge. */
  lemma SplitStepsAgree(g: Adj, traps: set<nat>, ev: map<Arc, nat>, code: map<Site, nat>)
    requires NoCriticalEdges(g, traps) && GoodTable(g, ev) && EmittedFrom(g, ev, ev.Keys, code)
    ensures StepsAgree(g, traps, ev, code)
  {
    hide NoCriticalEdges, SetSum, Reaches;
    forall u: nat, v: nat | Edge(g, u, v) && v !in traps ensures Added(code, Top(v)) == StepValue(ev, u, v) {
      TopAddsEdge(g, traps, ev, u, v);
    }
  }

  /** Nothing is added outside the tops of blocks, and nothing at the entry. */
  lemma EndAddsNothing(g: Adj, ev: map<Arc, nat>, code: map<Site, nat>, u: nat)
    requires GoodTable(g, ev) && EmittedFrom(g, ev, ev.Keys, code)
    ensures Added(code, End(u)) == 0
    ensures EntryHasNoPreds(g) ==> Added(code, Top(0)) == 0
  {
    hide SetSum;
    ZeroSum(ev, ArcsAt(g, ev.Keys, End(u)));
    if EntryHasNoPreds(g) { EntryAddsNothing(g, ev); }
  }

  /** The register after one more step. */
  lemma ExecSnoc(g: Adj, ev: map<Arc, nat>, code: map<Site, nat>, p: seq<nat>, v: nat)
    requires GoodTable(g, ev) && EmittedFrom(g, ev, ev.Keys, code) && p != []
    ensures Exec(code, p + [v]) == (Exec(code, p) + Added(code, Top(v))) % U32
    ensures StepSum(ev, p + [v]) == StepSum(ev, p) + StepValue(ev, p[|p| - 1], v)
  {
    hide *;
    UnfoldExec(code, p, v);
    StepSumSnoc(ev, p, v);
    EndAddsNothing(g, ev, code, p[|p| - 1]);
  }

  lemma UnfoldExec(code: map<Site, nat>, p: seq<nat>, v: nat)
    requires p != []
    ensures Exec(code, p + [v]) == (Exec(code, p) + Added(code, End(p[|p| - 1])) + Added(code, Top(v))) % U32
  {
    UnfoldLast(code, p + [v]);
    hide Exec, Added;
    assert (p + [v])[..|p|] == p;
  }

  lemma UnfoldLast(code: map<Site, nat>, q: seq<nat>)
    requires |q| > 1
    ensures Exec(code, q) ==
            (Exec(code, q[..|q| - 1]) + Added(code, End(q[|q| - 2])) + Added(code, Top(q[|q| - 1]))) % U32
  {
  }

  lemma StepSumSnoc(ev: map<Arc, nat>, p: seq<nat>, v: nat)
    requires p != []
    ensures StepSum(ev, p + [v]) == StepSum(ev, p) + StepValue(ev, p[|p| - 1], v)
  {
    hide StepValue;
    assert (p + [v])[..|p|] == p;
  }

  /** Along any run from the entry that keeps out of traps the register holds the sum. */
  lemma {:induction false} RegisterIsSum(g: Adj, traps: set<nat>, ev: map<Arc, nat>, code: map<Site, nat>, p: seq<nat>)
    requires EntryHasNoPreds(g) && GoodTable(g, ev) && EmittedFrom(g, ev, ev.Keys, code)
    requires StepsAgree(g, traps, ev, code)
    requires Walk(g, p) && p[0] == 0 && forall i :: 0 <= i < |p| ==> p[i] !in traps
    ensures Exec(code, p) == StepSum(ev, p) % U32
    decreases |p|
  {
    hide GoodTable, EmittedFrom, EntryHasNoPreds;
    if |p| == 1 {
      EndAddsNothing(g, ev, code, 0);
    } else {
      var q, u, v := p[..|p| - 1], p[|p| - 2], p[|p| - 1];
      WalkPrefix(g, p, |p| - 1);
      assert Edge(g, p[|p| - 2], p[|p| - 2 + 1]);
      assert WalkFromTo(g, q, 0, u);
      RegisterIsSum(g, traps, ev, code, q);
      assert Added(code, Top(v)) % U32 == StepValue(ev, u, v) % U32;
      hide *;
      ExecSnoc(g, ev, code, q, v);
      assert q + [v] == p;
      SameStep(StepSum(ev, q), Added(code, Top(v)), StepValue(ev, u, v));
    }
  }

  /** The register is right after every run if and only if it is right on every edge a
      run can take. */
  lemma RegisterSumsIff(g: Adj, traps: set<nat>, ev: map<Arc, nat>, code: map<Site, nat>)
    requires Closed(g) && EntryHasNoPreds(g) && GoodTable(g, ev) && EmittedFrom(g, ev, ev.Keys, code)
    requires forall b :: b in traps && b < |g| ==> g[b] == []
    ensures RegisterSums(g, traps, ev, code) <==> StepsAgree(g, traps, ev, code)
  {
    hide GoodTable, EmittedFrom, EntryHasNoPreds, Exec, StepSum, StepValue, Added;
    if RegisterSums(g, traps, ev, code) {
      forall u: nat, v: nat | Reaches(g, 0, u) && Edge(g, u, v) && v !in traps
        ensures Added(code, Top(v)) % U32 == StepValue(ev, u, v) % U32
      {
        StepOfSums(g, traps, ev, code, u, v);
      }
    }
    if StepsAgree(g, traps, ev, code) {
      forall p | Walk(g, p) && p[0] == 0 && p[|p| - 1] !in traps ensures Exec(code, p) == StepSum(ev, p) % U32 {
        KeepsOutOfTraps(g, traps, p);
        RegisterIsSum(g, traps, ev, code, p);
      }
    }
  }

  /** A register that is right before a step and after it is right on the edge. */
  lemma StepOfSums(g: Adj, traps: set<nat>, ev: map<Arc, nat>, code: map<Site, nat>, u: nat, v: nat)
    requires Closed(g) && GoodTable(g, ev) && EmittedFrom(g, ev, ev.Keys, code)
    requires forall b :: b in traps && b < |g| ==> g[b] == []
    requires RegisterSums(g, traps, ev, code) && Reaches(g, 0, u) && Edge(g, u, v) && v !in traps
    ensures Added(code, Top(v)) % U32 == StepValue(ev, u, v) % U32
  {
    hide GoodTable, EmittedFrom, Exec, StepSum, StepValue, Added;
    var p :| WalkFromTo(g, p, 0, u);
    EdgeTarget(g, u, v);
    WalkSnoc(g, p, v);
    assert Exec(code, p) == StepSum(ev, p) % U32;
    assert Exec(code, p + [v]) == StepSum(ev, p + [v]) % U32;
    hide *;
    ExecSnoc(g, ev, code, p, v);
    SameStep(StepSum(ev, p), Added(code, Top(v)), StepValue(ev, u, v));
  }

  /** A walk that does not end in a trap enters none. */
  lemma KeepsOutOfTraps(g: Adj, traps: set<nat>, p: seq<nat>)
    requires forall b :: b in traps && b < |g| ==> g[b] == []
    requires Walk(g, p) && p[|p| - 1] !in traps
    ensures forall i :: 0 <= i < |p| ==> p[i] !in traps
  {
    forall i | 0 <= i < |p| ensures p[i] !in traps {
      if i < |p| - 1 { assert Edge(g, p[i], p[i + 1]); }
    }
  }

  lemma SameStep(a: nat, x: nat, y: nat)
    ensures (a % U32 + x) % U32 == (a + y) % U32 <==> x % U32 == y % U32
  {
    WrapAdd(a, x);
    Cancel(a, x, y);
  }

  lemma Cancel(a: nat, x: nat, y: nat)
    ensures (a + x) % U32 == (a + y) % U32 <==> x % U32 == y % U32
  {
    if (a + x) % U32 == (a + y) % U32 {
      assert x - y == U32 * ((a + x) / U32 - (a + y) / U32);
    }
    if x % U32 == y % U32 {
      assert (a + x) - (a + y) == U32 * (x / U32 - y / U32);
    }
  }

  lemma WrapAdd(a: nat, b: nat)
    ensures (a % U32 + b) % U32 == (a + b) % U32
  {
    assert a + b == U32 * (a / U32) + (a % U32 + b);
  }

  // ----- forward runs

  lemma {:induction false} PathSumSnoc(d: Dag, p: seq<nat>)
    requires Valid(d) && Walk(d.succs, p) && |p| > 1
    ensures Walk(d.succs, p[..|p| - 1]) && Edge(d.succs, p[|p| - 2], p[|p| - 1])
    ensures PathSum(d, p) == PathSum(d, p[..|p| - 1]) + EdgeValue(d, p[|p| - 2], p[|p| - 1])
    decreases |p|
  {
    hide EdgeValue, Closed, Ranked;
    WalkPrefix(d.succs, p, |p| - 1);
    PathSumCons(d, p);
    if |p| > 2 {
      PathSumSnoc(d, p[1..]);
      PathSumCons(d, p[..|p| - 1]);
      assert p[1..][..|p| - 2] == p[..|p| - 1][1..];
    }
  }

  /** On a forward run the table gives the path's id. */
  lemma {:induction false} ForwardStepSum(d: Dag, counts: map<nat, nat>, ev: map<Arc, nat>, p: seq<nat>)
    requires Valid(d) && Counts(d, counts) && Values(d, counts, |d.succs|, ev)
    requires Walk(d.succs, p) && p[0] == 0
    ensures StepSum(ev, p) == PathSum(d, p)
    decreases |p|
  {
    hide EdgeValue, Valid, NumPaths;
    if |p| <= 1 {
    } else {
      PathSumSnoc(d, p);
      ForwardStepSum(d, counts, ev, p[..|p| - 1]);
      assert WalkFromTo(d.succs, p[..|p| - 1], 0, p[|p| - 2]);
      assert (p[|p| - 2], p[|p| - 1]) in ev;
    }
  }

  lemma ValueOf(d: Dag, counts: map<nat, nat>, ev: map<Arc, nat>, u: nat, v: nat)
    requires Valid(d) && Values(d, counts, |d.succs|, ev) && u in counts && Edge(d.succs, u, v)
    ensures StepValue(ev, u, v) == EdgeValue(d, u, v)
  {
    hide EdgeValue;
    assert (u, v) in ev;
  }

  lemma NoValue(d: Dag, counts: map<nat, nat>, ev: map<Arc, nat>, u: nat, v: nat)
    requires Valid(d) && Values(d, counts, |d.succs|, ev) && !Edge(d.succs, u, v)
    ensures StepValue(ev, u, v) == 0
  {
    hide EdgeValue;
    assert (u, v) !in ev;
  }

  /** The second of two branches carries the paths of the first. */
  lemma TwoWayValues(d: Dag, counts: map<nat, nat>, ev: map<Arc, nat>, u: nat, v: nat, w: nat)
    requires Valid(d) && Values(d, counts, |d.succs|, ev) && u in counts && u < |d.succs|
    requires d.succs[u] == [v, w] && v != w && d.merge == {}
    ensures v < |d.succs| && (u, v) in ev && (u, w) in ev && ev[(u, v)] == 0 && ev[(u, w)] == NumPaths(d, v)
  {
    hide NumPaths, Ranked;
    assert d.succs[u][0] == v && Edge(d.succs, u, v) && Edge(d.succs, u, w);
    assert LastIndex([v, w], v) == 0 && LastIndex([v, w], w) == 1;
    assert SumOver(d, u, 0) == 0;
    assert SumOver(d, u, 1) == SumOver(d, u, 0) + NumPaths(d, v);
  }

  lemma OneWayValue(d: Dag, counts: map<nat, nat>, ev: map<Arc, nat>, u: nat, v: nat)
    requires Valid(d) && Values(d, counts, |d.succs|, ev) && u in counts && u < |d.succs|
    requires d.succs[u] == [v] && d.merge == {}
    ensures (u, v) in ev && ev[(u, v)] == 0
  {
    hide NumPaths, Ranked;
    assert Edge(d.succs, u, v) && LastIndex([v], v) == 0;
    assert SumOver(d, u, 0) == 0;
  }

  lemma DivergeOnce(p: seq<nat>, q: seq<nat>, i: nat, j: nat)
    requires DivergeAt(p, q, i) && DivergeAt(p, q, j)
    ensures i == j
  {
    assert forall k :: 0 <= k <= i ==> p[k] == p[..i + 1][k] == q[..i + 1][k] == q[k];
    assert forall k :: 0 <= k <= j ==> p[k] == p[..j + 1][k] == q[..j + 1][k] == q[k];
  }

  /** And nothing else is: two forward paths that share a number first part at a branch of
      three or more ways of a simplified function, at a guard-only branch at level 1, or at
      a guard-only branch of two ways at level 2. */
  lemma SharedNumberIsCollapsed(f: Function, back: set<Arc>, level: nat, maxPaths: nat, r: Result,
                                p: seq<nat>, q: seq<nat>, i: nat)
    requires Valid(ForwardDag(f, back, level, false)) && Valid(ForwardDag(f, back, level, true)) && f.succs != []
    requires Analyzed(f, back, level, maxPaths, r) && r.numPaths > 0
    requires Walk(ForwardSuccs(f, back), p) && p[0] == 0 && p[|p| - 1] in f.exits
    requires Walk(ForwardSuccs(f, back), q) && q[0] == 0 && q[|q| - 1] in f.exits
    requires DivergeAt(p, q, i) && StepSum(r.edgeValues, p) == StepSum(r.edgeValues, q)
    ensures var ways := |ForwardSuccs(f, back)[p[i]]|;
            || (r.simplified && ways > 2)
            || (level == 1 && p[i] in f.guardOnly && ways > 1)
            || (level == 2 && p[i] in f.guardOnly && ways == 2)
  {
    var d := ForwardDag(f, back, level, r.simplified);
    assert d.succs == ForwardSuccs(f, back) && d.exits == f.exits;
    hide NumPaths, Counts, Values, Valid, StepSum, PathSum;
    ForwardStepSum(d, r.numPathsAtBB, r.edgeValues, p);
    ForwardStepSum(d, r.numPathsAtBB, r.edgeValues, q);
    assert p != q;
    SharedIdDivergesAtMerge(d, p, q, 0);
    var j: nat :| DivergeAt(p, q, j) && p[j] in d.merge;
    DivergeOnce(p, q, i, j);
  }

  /** The function, a right analysis of it at `level` and the code emitted for it. */
  ghost predicate Emitted(f: Function, back: set<Arc>, level: nat, maxPaths: nat, r: Result, code: map<Site, nat>) {
    && WellFormed(f) && !Skipped(f) && BreaksCycles(f.succs, back)
    && Valid(ForwardDag(f, back, level, false)) && Valid(ForwardDag(f, back, level, true))
    && Analyzed(f, back, level, maxPaths, r) && r.numPaths > 0
    && (forall a: Arc :: a in r.edgeValues ==> a.0 < |f.succs|)
    && EmittedFrom(f.succs, r.edgeValues, r.edgeValues.Keys, code)
    && EntryHasNoPreds(f.succs)
  }

  /** The code is also right on every edge, as it is where critical edges are split. */
  ghost predicate Instrumented(f: Function, back: set<Arc>, level: nat, maxPaths: nat, r: Result, code: map<Site, nat>) {
    Emitted(f, back, level, maxPaths, r, code) && StepsAgree(f.succs, f.traps, r.edgeValues, code)
  }

  lemma {:induction false} FilterShorter(u: nat, succs: seq<nat>, back: set<Arc>)
    ensures |Filter(u, succs, back)| <= |succs|
  {
    if succs == [] {
    } else {
      FilterShorter(u, succs[1..], back);
    }
  }

  /** A non-zero value sits on an edge that leaves a branching block. */
  lemma AnalysisGivesGoodTable(f: Function, back: set<Arc>, level: nat, simplified: bool, counts: map<nat, nat>,
                               ev: map<Arc, nat>)
    requires Valid(ForwardDag(f, back, level, simplified))
    requires var d := ForwardDag(f, back, level, simplified); Values(d, counts, |d.succs|, ev)
    ensures GoodTable(f.succs, ev)
  {
    hide Valid, NumPaths;
    var d := ForwardDag(f, back, level, simplified);
    forall a: Arc | a in ev ensures Edge(f.succs, a.0, a.1) && (ev[a] > 0 ==> |f.succs[a.0]| > 1) {
      assert (a.0, a.1) in ev && Edge(d.succs, a.0, a.1);
      FilterShorter(a.0, f.succs[a.0], back);
      assert ev[a] == EdgeValue(d, a.0, a.1);
    }
  }

  lemma EmittedIsGood(f: Function, back: set<Arc>, level: nat, maxPaths: nat, r: Result, code: map<Site, nat>)
    requires Emitted(f, back, level, maxPaths, r, code)
    ensures GoodTable(f.succs, r.edgeValues) && EmittedFrom(f.succs, r.edgeValues, r.edgeValues.Keys, code)
  {
    hide NumPaths, Counts, Values, EmittedFrom, BreaksCycles, Valid;
    AnalysisGivesGoodTable(f, back, level, r.simplified, r.numPathsAtBB, r.edgeValues);
  }

  /** For every function: the register holds the sum of the edge values after all runs
      if and only if every step agrees. */
  lemma InstrumentedIff(f: Function, back: set<Arc>, level: nat, maxPaths: nat, r: Result, code: map<Site, nat>)
    requires Emitted(f, back, level, maxPaths, r, code)
    ensures RegisterSums(f.succs, f.traps, r.edgeValues, code) <==> Instrumented(f, back, level, maxPaths, r, code)
  {
    hide NumPaths, EmittedFrom, BreaksCycles, Valid, Analyzed, GoodTable, StepsAgree, RegisterSums, EntryHasNoPreds;
    EmittedIsGood(f, back, level, maxPaths, r, code);
    RegisterSumsIff(f.succs, f.traps, r.edgeValues, code);
  }

  /** Splitting the critical edges is enough. */
  lemma SplitIsInstrumented(f: Function, back: set<Arc>, level: nat, maxPaths: nat, r: Result, code: map<Site, nat>)
    requires Emitted(f, back, level, maxPaths, r, code) && NoCriticalEdges(f.succs, f.traps)
    ensures Instrumented(f, back, level, maxPaths, r, code)
  {
    hide Emitted, NoCriticalEdges, EmittedFrom, GoodTable, StepsAgree;
    EmittedIsGood(f, back, level, maxPaths, r, code);
    SplitStepsAgree(f.succs, f.traps, r.edgeValues, code);
  }

  /** `instrumentPathCoverage` up to the exits: analyse, and emit code if there is
      anything to number. */
  method Instrument(f: Function, level: nat, maxPaths: nat)
    returns (r: Result, code: map<Site, nat>, ghost back: set<Arc>)
    requires WellFormed(f) && EntryHasNoPreds(f.succs) && maxPaths < U64
    ensures r.numPaths <= maxPaths && (Skipped(f) ==> r.numPaths == 0) && (r.numPaths == 0 ==> code == map[])
    ensures forall a: Arc :: a in r.edgeValues ==> a.0 < |f.succs|
    ensures r.numPaths > 0 ==> EmittedFrom(f.succs, r.edgeValues, r.edgeValues.Keys, code)
    ensures !Skipped(f) ==>
              && BreaksCycles(f.succs, back) && back == BackArcs(f.succs)
              && Valid(ForwardDag(f, back, level, false)) && Valid(ForwardDag(f, back, level, true))
              && Decided(f, back, level, maxPaths, r)
              && (r.numPaths > 0 && CountsFit(f, back, level, maxPaths) ==> Emitted(f, back, level, maxPaths, r, code))
  {
    hide BreaksCycles, BackArcs, Valid, EmittedFrom, Decided, Analyzed, CountsFit, EntryHasNoPreds;
    r, back := Analyze(f, level, maxPaths);
    code := map[];
    if !Skipped(f) { AnalyzedIff(f, back, level, maxPaths, r); }
    if r.numPaths > 0 { code := Emit(f.succs, r.edgeValues); }
  }

  /** The one kind of duplicate the split leaves: a trap listed twice. */
  ghost predicate TrapsListedOnce(f: Function) {
    forall u, i, j :: 0 <= u < |f.succs| && 0 <= i < j < |f.succs[u]| && f.succs[u][i] == f.succs[u][j]
      ==> f.succs[u][i] !in f.traps
  }

  lemma {:induction false} FilterDistinct(u: nat, succs: seq<nat>, back: set<Arc>)
    requires Distinct(succs)
    ensures Distinct(Filter(u, succs, back))
  {
    if succs == [] {
    } else {
      FilterDistinct(u, succs[1..], back);
      var kept := Filter(u, succs[1..], back);
      forall i | 0 <= i < |kept| ensures kept[i] != succs[0] {
        assert kept[i] in succs[1..];
      }
    }
  }

  lemma ForwardSuccsDistinct(f: Function, back: set<Arc>, level: nat, simplified: bool)
    requires NoCriticalEdges(f.succs, f.traps) && TrapsListedOnce(f) && Valid(ForwardDag(f, back, level, simplified))
    ensures LiveDistinctFrom(ForwardDag(f, back, level, simplified), 0)
  {
    hide Valid, NumPaths, Reaches;
    var d := ForwardDag(f, back, level, simplified);
    forall c: nat | c < |d.succs| ensures Distinct(d.succs[c]) {
      assert Distinct(f.succs[c]);
      FilterDistinct(c, f.succs[c], back);
    }
  }

  lemma ForwardWalkIsWalk(f: Function, back: set<Arc>, level: nat, simplified: bool, p: seq<nat>)
    requires Walk(ForwardDag(f, back, level, simplified).succs, p)
    ensures Walk(f.succs, p)
  {
    var d := ForwardDag(f, back, level, simplified);
    forall i | 0 <= i < |p| - 1 ensures Edge(f.succs, p[i], p[i + 1]) {
      assert Edge(d.succs, p[i], p[i + 1]);
    }
  }

  /** What the emitted code leaves after any walk of an instrumented function that does
      not end in a trap. */
  lemma RegisterOfWalk(f: Function, back: set<Arc>, level: nat, maxPaths: nat, r: Result, code: map<Site, nat>,
                       p: seq<nat>)
    requires Instrumented(f, back, level, maxPaths, r, code)
    requires Walk(f.succs, p) && p[0] == 0 && p[|p| - 1] !in f.traps
    ensures Exec(code, p) == StepSum(r.edgeValues, p) % U32
  {
    hide NumPaths, EmittedFrom, Values, Counts, StepsAgree, BreaksCycles, Exec, StepSum;
    EmittedIsGood(f, back, level, maxPaths, r, code);
    KeepsOutOfTraps(f.succs, f.traps, p);
    RegisterIsSum(f.succs, f.traps, r.edgeValues, code, p);
  }

  /** At every level, a run to an exit that takes no back-edge leaves its path
      id in the register, below the number of paths. */
  lemma ForwardRunStoresId(f: Function, back: set<Arc>, level: nat, maxPaths: nat, r: Result, code: map<Site, nat>,
                           p: seq<nat>)
    requires Instrumented(f, back, level, maxPaths, r, code) && r.numPaths <= U32
    requires Complete(ForwardDag(f, back, level, r.simplified), p, 0) && p[|p| - 1] !in f.traps
    ensures Exec(code, p) == PathSum(ForwardDag(f, back, level, r.simplified), p) < r.numPaths
  {
    hide NumPaths, PathSum, EmittedFrom, Values, Counts, StepsAgree, BreaksCycles, Exec, StepSum;
    var d := ForwardDag(f, back, level, r.simplified);
    ForwardWalkIsWalk(f, back, level, r.simplified, p);
    RegisterOfWalk(f, back, level, maxPaths, r, code, p);
    ForwardStepSum(d, r.numPathsAtBB, r.edgeValues, p);
    CompleteIdInRange(d, p, 0);
    SmallMod(PathSum(d, p));
  }

  lemma SmallMod(a: nat)
    requires a < U32
    ensures a % U32 == a
  {
  }

  /** At every level each number below the number of paths is the id of some forward
      path, which the register holds at its end unless that is a trap. */
  lemma EveryRegisterValueReached(f: Function, back: set<Arc>, level: nat, maxPaths: nat, r: Result,
                                  code: map<Site, nat>, k: nat) returns (p: seq<nat>)
    requires Instrumented(f, back, level, maxPaths, r, code) && k < r.numPaths <= U32
    requires LiveDistinctFrom(ForwardDag(f, back, level, r.simplified), 0)
    ensures Complete(ForwardDag(f, back, level, r.simplified), p, 0)
    ensures PathSum(ForwardDag(f, back, level, r.simplified), p) == k
    ensures p[|p| - 1] !in f.traps ==> Exec(code, p) == k
  {
    hide NumPaths, PathSum, EmittedFrom, Values, Counts, BreaksCycles, Exec, LiveDistinctFrom;
    var d := ForwardDag(f, back, level, r.simplified);
    p := EveryIdReached(d, 0, k);
    if p[|p| - 1] !in f.traps { ForwardRunStoresId(f, back, level, maxPaths, r, code, p); }
  }

  /** Strict mode: different forward runs leave different values. */
  lemma StrictRegisterIsUnique(f: Function, back: set<Arc>, level: nat, maxPaths: nat, r: Result,
                               code: map<Site, nat>, p: seq<nat>, q: seq<nat>)
    requires Instrumented(f, back, level, maxPaths, r, code) && r.numPaths <= U32
    requires (level == 0 || level > 2) && !r.simplified
    requires Complete(ForwardDag(f, back, level, false), p, 0) && p[|p| - 1] !in f.traps
    requires Complete(ForwardDag(f, back, level, false), q, 0) && q[|q| - 1] !in f.traps
    requires Exec(code, p) == Exec(code, q)
    ensures p == q
  {
    hide NumPaths, PathSum, EmittedFrom, Values, Counts, StepsAgree, BreaksCycles, Exec;
    ForwardRunStoresId(f, back, level, maxPaths, r, code, p);
    ForwardRunStoresId(f, back, level, maxPaths, r, code, q);
    StrictIdsAreUnique(ForwardDag(f, back, level, false), p, q, 0);
  }

  // ----- runs with loops and passed exits

  /** How many steps of a run take a back-edge or get past an exit, where a call that
      does not return unwinds. */
  function Restarts(exits: set<nat>, back: set<Arc>, p: seq<nat>): nat {
    if |p| <= 1 then 0
    else
      var u, v := p[|p| - 2], p[|p| - 1];
      Restarts(exits, back, p[..|p| - 1]) + if (u, v) in back || u in exits then 1 else 0
  }

  /** What a run standing in `u` may still add before the next restart. */
  ghost function Room(d: Dag, counts: map<nat, nat>, u: nat): nat
    requires Valid(d) && 0 < |d.succs|
  {
    if u in counts then counts[u] else NumPaths(d, 0)
  }

  lemma RoomIsBounded(d: Dag, counts: map<nat, nat>, u: nat)
    requires Valid(d) && 0 < |d.succs| && Counts(d, counts)
    ensures Room(d, counts, u) <= NumPaths(d, 0)
  {
    if u in counts {
      var w :| WalkFromTo(d.succs, w, 0, u);
      SumStaysInRange(d, w);
    }
  }

  lemma StepKeepsRoom(d: Dag, counts: map<nat, nat>, ev: map<Arc, nat>, u: nat, v: nat)
    requires Valid(d) && 0 < |d.succs| && Counts(d, counts) && Values(d, counts, |d.succs|, ev)
    ensures Edge(d.succs, u, v) ==> StepValue(ev, u, v) + Room(d, counts, v) <= Room(d, counts, u)
    ensures !Edge(d.succs, u, v) ==> StepValue(ev, u, v) == 0
  {
    hide NumPaths, EdgeValue;
    assert (u, v) in ev <==> u in counts && Edge(d.succs, u, v);
    RoomIsBounded(d, counts, v);
    if u in counts && Edge(d.succs, u, v) {
      EdgeFits(d, u, v);
      ReachesStep(d.succs, 0, u, v);
    }
  }

  /** A run from the entry with `k` restarts has added at most `(k + 1) * numPaths` minus
      what may still follow. */
  lemma {:induction false} LoopsAddBounded(f: Function, back: set<Arc>, level: nat, simplified: bool,
                                           counts: map<nat, nat>, ev: map<Arc, nat>, p: seq<nat>)
    requires f.succs != [] && Valid(ForwardDag(f, back, level, simplified))
    requires var d := ForwardDag(f, back, level, simplified);
             Counts(d, counts) && Values(d, counts, |d.succs|, ev)
    requires Walk(f.succs, p) && p[0] == 0
    ensures var d := ForwardDag(f, back, level, simplified);
            StepSum(ev, p) + Room(d, counts, p[|p| - 1]) <= (Restarts(f.exits, back, p) + 1) * NumPaths(d, 0)
    decreases |p|
  {
    hide NumPaths, Valid, Counts, Values, Room, ForwardDag, StepSum, Restarts;
    var d := ForwardDag(f, back, level, simplified);
    ForwardDagSuccs(f, back, level, simplified);
    if |p| == 1 {
      NoSteps(f.exits, back, ev, p);
      RoomIsBounded(d, counts, p[0]);
    } else {
      var q := p[..|p| - 1];
      WalkPrefix(f.succs, p, |p| - 1);
      LoopsAddBounded(f, back, level, simplified, counts, ev, q);
      assert Edge(f.succs, p[|p| - 2], p[|p| - 2 + 1]);
      LoopStep(f, back, d, counts, ev, p);
    }
  }

  lemma NoSteps(exits: set<nat>, back: set<Arc>, ev: map<Arc, nat>, p: seq<nat>)
    requires |p| == 1
    ensures StepSum(ev, p) == 0 && Restarts(exits, back, p) == 0
  {
  }

  lemma ForwardDagSuccs(f: Function, back: set<Arc>, level: nat, simplified: bool)
    ensures ForwardDag(f, back, level, simplified).succs == ForwardSuccs(f, back)
  {
  }

  /** One step of a run keeps the bound. */
  lemma LoopStep(f: Function, back: set<Arc>, d: Dag, counts: map<nat, nat>, ev: map<Arc, nat>, p: seq<nat>)
    requires Valid(d) && |d.succs| > 0 && d.succs == ForwardSuccs(f, back)
    requires Counts(d, counts) && Values(d, counts, |d.succs|, ev)
    requires |p| > 1 && Edge(f.succs, p[|p| - 2], p[|p| - 1])
    requires var q := p[..|p| - 1];
             StepSum(ev, q) + Room(d, counts, p[|p| - 2]) <= (Restarts(f.exits, back, q) + 1) * NumPaths(d, 0)
    ensures StepSum(ev, p) + Room(d, counts, p[|p| - 1]) <= (Restarts(f.exits, back, p) + 1) * NumPaths(d, 0)
  {
    var q, u, v := p[..|p| - 1], p[|p| - 2], p[|p| - 1];
    var again := (u, v) in back || u in f.exits;
    assert Edge(d.succs, u, v) <==> !again;
    hide *;
    StepKeepsRoom(d, counts, ev, u, v);
    RoomIsBounded(d, counts, v);
    UnfoldSteps(f.exits, back, ev, p);
    OneStepMore(Restarts(f.exits, back, q), Restarts(f.exits, back, p), NumPaths(d, 0), StepSum(ev, q),
                Room(d, counts, u), StepValue(ev, u, v), Room(d, counts, v), again);
  }

  lemma UnfoldSteps(exits: set<nat>, back: set<Arc>, ev: map<Arc, nat>, p: seq<nat>)
    requires |p| > 1
    ensures StepSum(ev, p) == StepSum(ev, p[..|p| - 1]) + StepValue(ev, p[|p| - 2], p[|p| - 1])
    ensures Restarts(exits, back, p) == Restarts(exits, back, p[..|p| - 1])
                                      + if (p[|p| - 2], p[|p| - 1]) in back || p[|p| - 2] in exits then 1 else 0
  {
  }

  /** A forward step uses up room, a restart gives back the room of the entry. */
  lemma OneStepMore(k: nat, k': nat, n: nat, sum: nat, room: nat, value: nat, next: nat, again: bool)
    requires sum + room <= (k + 1) * n && next <= n
    requires if again then k' == k + 1 && value == 0 else k' == k && value + next <= room
    ensures sum + value + next <= (k' + 1) * n
  {
    MulStep(n, k + 2);
  }

  /** Where the emitted code writes: the exits that can be reached forward, without those
      that no run gets to. */
  ghost function WriteBlocks(f: Function, r: Result): (ends: set<nat>) {
    set b | b in f.exits && b in r.numPathsAtBB && b !in f.traps
  }

  /** A forward path ends in a write. */
  lemma ForwardEndsInWrite(f: Function, back: set<Arc>, level: nat, maxPaths: nat, r: Result, code: map<Site, nat>,
                           p: seq<nat>)
    requires Emitted(f, back, level, maxPaths, r, code)
    requires Complete(ForwardDag(f, back, level, r.simplified), p, 0) && p[|p| - 1] !in f.traps
    ensures p[|p| - 1] in WriteBlocks(f, r)
  {
    hide NumPaths, EmittedFrom, Values, BreaksCycles, Valid;
    var d := ForwardDag(f, back, level, r.simplified);
    assert WalkFromTo(d.succs, p, 0, p[|p| - 1]);
  }

  /** Every run up to a write, whatever loops it takes and exits it passes: with `k`
      restarts it has added at most `(k + 1) * numPaths - 1` (before 32-bit wrap-around). */
  lemma CompleteRunBound(f: Function, back: set<Arc>, level: nat, maxPaths: nat, r: Result, code: map<Site, nat>,
                         p: seq<nat>)
    requires Instrumented(f, back, level, maxPaths, r, code)
    requires Walk(f.succs, p) && p[0] == 0 && p[|p| - 1] in f.exits && p[|p| - 1] !in f.traps
    ensures Exec(code, p) == StepSum(r.edgeValues, p) % U32
    ensures StepSum(r.edgeValues, p) < (Restarts(f.exits, back, p) + 1) * r.numPaths
  {
    hide EmittedFrom, Values, StepsAgree, BreaksCycles, Exec, StepSum, Restarts, Reaches;
    RegisterOfWalk(f, back, level, maxPaths, r, code, p);
    LoopsAddBounded(f, back, level, r.simplified, r.numPathsAtBB, r.edgeValues, p);
  }
}
