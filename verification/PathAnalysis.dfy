/** `PathAnalysis::analyze`: the four steps put together, with the cap on the
    number of paths and the collapse of multi-way branches. */
module PathAnalysis {
  import opened Finite
  import opened Graph
  import opened DepthFirst
  import opened BackEdges
  import opened PathCount
  import opened PathIds
  import opened Words

  /** A function as the analysis sees it.  Block 0 is the entry; `exits` are the
      blocks holding a return, resume, unreachable or noreturn call;
      `traps` are the exits that hold nothing but `unreachable`;
      `registerUnsafe` stands for `callsSetjmp` or `isCoroutineFunction`. */
  datatype Function = Function(succs: Adj, exits: set<nat>, traps: set<nat>, guardOnly: set<nat>, registerUnsafe: bool)

  ghost predicate WellFormed(f: Function) {
    && Closed(f.succs) && f.exits <= Below(|f.succs|) && f.traps <= f.exits
    && forall b :: b in f.traps && b < |f.succs| ==> f.succs[b] == []
  }

  predicate ShouldMaxMerge(level: nat, guardOnly: bool, nsuccs: nat, simplified: bool) {
    || (simplified && nsuccs > 2)
    || (level == 1 && nsuccs > 1 && guardOnly)
    || (level == 2 && nsuccs == 2 && guardOnly)
  }

  /** Forward successors: none for an exit block, otherwise all but back-edges. */
  function ForwardSuccs(f: Function, back: set<Arc>): (fwd: Adj)
    ensures |fwd| == |f.succs|
    ensures forall u: nat, v: nat :: Edge(fwd, u, v) <==> Edge(f.succs, u, v) && (u, v) !in back && u !in f.exits
  {
    var fwd := seq(|f.succs|, u requires 0 <= u < |f.succs| =>
                     if u in f.exits then [] else Filter(u, f.succs[u], back));
    assert forall u: nat, v: nat :: Edge(fwd, u, v) <==> Edge(f.succs, u, v) && (u, v) !in back && u !in f.exits;
    fwd
  }

  function ForwardDag(f: Function, back: set<Arc>, level: nat, simplified: bool): (d: Dag) {
    var fwd := ForwardSuccs(f, back);
    Dag(fwd, f.exits,
        set b | b in Below(|fwd|) && ShouldMaxMerge(level, b in f.guardOnly, |fwd[b]|, simplified))
  }

  lemma ForwardIsValid(f: Function, back: set<Arc>, level: nat, simplified: bool)
    requires WellFormed(f) && BreaksCycles(f.succs, back)
    ensures Valid(ForwardDag(f, back, level, simplified))
  {
    var fwd := ForwardSuccs(f, back);
    assert Closed(fwd) by {
      forall u, i | 0 <= u < |fwd| && 0 <= i < |fwd[u]| ensures fwd[u][i] < |fwd| {
        assert Edge(fwd, u, fwd[u][i]);
        EdgeTarget(f.succs, u, fwd[u][i]);
      }
    }
    var rank :| IsRank(Without(f.succs, back), rank);
    assert IsRank(fwd, rank) by {
      forall u: nat, v: nat | Edge(fwd, u, v) && v < |fwd| ensures rank[v] < rank[u] {
        assert Edge(Without(f.succs, back), u, v);
      }
    }
    forall b | b in f.exits ensures fwd[b] == [] {
      assert b in Below(|f.succs|);
      assert forall v: nat :: !Edge(fwd, b, v);
    }
  }

  lemma {:induction false} FilterNothing(u: nat, succs: seq<nat>)
    ensures Filter(u, succs, {}) == succs
  {
    if succs == [] {
    } else {
      FilterNothing(u, succs[1..]);
    }
  }

  /** A function of two-way branches without loops is analyzed as it is, up to its exits,
      at every level. */
  lemma PlainDag(f: Function, back: set<Arc>, level: nat, simplified: bool, g: Adj)
    requires BreaksCycles(f.succs, back) && Acyclic(f.succs) && f.guardOnly == {} && |g| == |f.succs|
    requires forall b :: 0 <= b < |g| ==> |g[b]| <= 2 && g[b] == if b in f.exits then [] else f.succs[b]
    ensures back == {} && ForwardDag(f, back, level, simplified) == Dag(g, f.exits, {})
  {
    AcyclicLosesNothing(f.succs, back);
    hide BreaksCycles, Acyclic;
    var fwd := ForwardSuccs(f, back);
    forall u | 0 <= u < |fwd| ensures fwd[u] == g[u] {
      FilterNothing(u, f.succs[u]);
    }
    assert fwd == g;
  }

  /** Relaxed counts at most what restricted counts, restricted at most what
      strict counts; so do the 64-bit counts when the largest fits. */
  lemma LevelsAreOrdered(f: Function, back: set<Arc>, simplified: bool, strict: nat, b: nat)
    requires WellFormed(f) && BreaksCycles(f.succs, back) && b < |f.succs| && (strict == 0 || strict > 2)
    ensures Valid(ForwardDag(f, back, 1, simplified)) && Valid(ForwardDag(f, back, 2, simplified))
    ensures Valid(ForwardDag(f, back, strict, simplified))
    ensures NumPaths(ForwardDag(f, back, 1, simplified), b) <= NumPaths(ForwardDag(f, back, 2, simplified), b)
    ensures NumPaths(ForwardDag(f, back, 2, simplified), b) <= NumPaths(ForwardDag(f, back, strict, simplified), b)
    ensures NumPaths(ForwardDag(f, back, strict, simplified), b) < U64 ==>
              Counted(ForwardDag(f, back, 1, simplified), b) <= Counted(ForwardDag(f, back, 2, simplified), b)
              <= Counted(ForwardDag(f, back, strict, simplified), b)
  {
    hide Valid, NumPaths, Counted;
    ForwardIsValid(f, back, 1, simplified);
    ForwardIsValid(f, back, 2, simplified);
    ForwardIsValid(f, back, strict, simplified);
    var relaxed, restricted := ForwardDag(f, back, 1, simplified), ForwardDag(f, back, 2, simplified);
    MergingCountsLess(restricted, relaxed, b);
    MergingCountsLess(ForwardDag(f, back, strict, simplified), restricted, b);
  }

  lemma MergingCountsLess(d: Dag, e: Dag, b: nat)
    requires Valid(d) && Valid(e) && b < |d.succs|
    requires d.succs == e.succs && d.exits == e.exits && d.merge <= e.merge
    ensures NumPaths(e, b) <= NumPaths(d, b) && (NumPaths(d, b) < U64 ==> Counted(e, b) <= Counted(d, b))
  {
    hide NumPaths, Counted;
    MoreMergingCountsLess(d, e, b);
    if NumPaths(d, b) < U64 { MoreMergingCountedLess(d, e, b); }
  }

  /** Collapsing multi-way branches never counts more. */
  lemma SimplifyingCountsLess(f: Function, back: set<Arc>, level: nat, b: nat)
    requires WellFormed(f) && BreaksCycles(f.succs, back) && b < |f.succs|
    ensures Valid(ForwardDag(f, back, level, true)) && Valid(ForwardDag(f, back, level, false))
    ensures NumPaths(ForwardDag(f, back, level, true), b) <= NumPaths(ForwardDag(f, back, level, false), b)
    ensures NumPaths(ForwardDag(f, back, level, false), b) < U64 ==>
              Counted(ForwardDag(f, back, level, true), b) <= Counted(ForwardDag(f, back, level, false), b)
  {
    hide Valid, NumPaths, Counted;
    ForwardIsValid(f, back, level, true);
    ForwardIsValid(f, back, level, false);
    MergingCountsLess(ForwardDag(f, back, level, false), ForwardDag(f, back, level, true), b);
  }

  // ----- the edge-value pass

  ghost predicate Counts(d: Dag, counts: map<nat, nat>)
    requires Valid(d)
  {
    && (forall b: nat :: b in counts <==> b < |d.succs| && Reaches(d.succs, 0, b))
    && (forall b :: b in counts ==> counts[b] == NumPaths(d, b))
  }

  /** The table holds exactly the forward edges of the counted blocks below `n`. */
  ghost predicate Values(d: Dag, counts: map<nat, nat>, n: nat, ev: map<Arc, nat>)
    requires Valid(d)
  {
    forall u: nat, v: nat ::
      && ((u, v) in ev <==> u < n && u in counts && Edge(d.succs, u, v))
      && ((u, v) in ev ==> ev[(u, v)] == EdgeValue(d, u, v))
  }

  /** The counts of the first `k` successors added up in 64 bits. */
  function Prefix(succs: seq<nat>, counts: map<nat, nat>, k: nat): nat
    requires k <= |succs|
  {
    if k == 0 then 0
    else if succs[k - 1] in counts then (Prefix(succs, counts, k - 1) + counts[succs[k - 1]]) % U64
    else Prefix(succs, counts, k - 1)
  }

  ghost function TableValue(d: Dag, counts: map<nat, nat>, u: nat, v: nat): nat
    requires Edge(d.succs, u, v)
  {
    if u in d.merge then 0 else Prefix(d.succs[u], counts, LastIndex(d.succs[u], v))
  }

  /** The table as the code fills it, whatever the counts are. */
  ghost predicate Tabled(d: Dag, counts: map<nat, nat>, n: nat, ev: map<Arc, nat>) {
    forall u: nat, v: nat ::
      && ((u, v) in ev <==> u < n && u in counts && Edge(d.succs, u, v))
      && ((u, v) in ev ==> ev[(u, v)] == TableValue(d, counts, u, v))
  }

  /** Exact counts that fit give exact edge values. */
  lemma TabledIsExact(d: Dag, counts: map<nat, nat>, ev: map<Arc, nat>)
    requires Valid(d) && |d.succs| > 0 && Counts(d, counts) && NumPaths(d, 0) < U64
    requires Tabled(d, counts, |d.succs|, ev)
    ensures Values(d, counts, |d.succs|, ev)
  {
    hide Valid, NumPaths, Counts;
    forall u: nat, v: nat | (u, v) in ev ensures ev[(u, v)] == EdgeValue(d, u, v) {
      if u !in d.merge { PrefixIsSum(d, counts, u, LastIndex(d.succs[u], v)); }
    }
  }

  lemma {:induction false} PrefixIsSum(d: Dag, counts: map<nat, nat>, u: nat, k: nat)
    requires Valid(d) && |d.succs| > 0 && Counts(d, counts) && NumPaths(d, 0) < U64
    requires u in counts && u < |d.succs| && k <= |d.succs[u]| && u !in d.merge
    ensures Prefix(d.succs[u], counts, k) == SumOver(d, u, k)
    decreases k
  {
    if k == 0 {
    } else {
      PrefixIsSum(d, counts, u, k - 1);
      SumFits(d, u, k);
      hide NumPaths, Reaches;
      ChildCounted(d, counts, u, k - 1);
    }
  }

  /** No block counts more than the entry. */
  lemma EntryCountsMost(d: Dag, u: nat)
    requires Valid(d) && u < |d.succs| && Reaches(d.succs, 0, u)
    ensures |d.succs| > 0 && NumPaths(d, u) <= NumPaths(d, 0)
  {
    var w :| WalkFromTo(d.succs, w, 0, u);
    SumStaysInRange(d, w);
  }

  lemma SumFits(d: Dag, u: nat, k: nat)
    requires Valid(d) && u < |d.succs| && Reaches(d.succs, 0, u) && u !in d.merge && k <= |d.succs[u]|
    ensures |d.succs| > 0 && SumOver(d, u, k) <= NumPaths(d, 0)
  {
    EntryCountsMost(d, u);
    if u in d.exits {
      assert k == 0;
    } else {
      SumOverGrows(d, u, k, |d.succs[u]|);
    }
  }

  /** Only the row of `u` changed, and it holds the first `k` successors. */
  ghost predicate Row(d: Dag, counts: map<nat, nat>, ev0: map<Arc, nat>, ev: map<Arc, nat>, u: nat, k: nat)
    requires u < |d.succs| && k <= |d.succs[u]|
  {
    && (forall a: Arc :: a.0 != u ==> (a in ev <==> a in ev0) && (a in ev ==> ev[a] == ev0[a]))
    && (forall v: nat :: (u, v) in ev <==> v in d.succs[u][..k])
    && (forall v: nat :: v in d.succs[u][..k] ==>
          ev[(u, v)] == if u in d.merge then 0 else Prefix(d.succs[u], counts, LastIndex(d.succs[u][..k], v)))
  }

  lemma OneMore(succs: seq<nat>, k: nat)
    requires k < |succs|
    ensures succs[..k + 1] == succs[..k] + [succs[k]]
    ensures forall v: nat :: v in succs[..k + 1] <==> v in succs[..k] || v == succs[k]
  {
  }

  lemma RowGrows(d: Dag, counts: map<nat, nat>, ev0: map<Arc, nat>, ev: map<Arc, nat>, u: nat, k: nat)
    requires u < |d.succs| && k < |d.succs[u]| && Row(d, counts, ev0, ev, u, k)
    ensures Row(d, counts, ev0, ev[(u, d.succs[u][k]) := if u in d.merge then 0 else Prefix(d.succs[u], counts, k)], u, k + 1)
  {
    hide LastIndex, Prefix;
    var succs, w := d.succs[u], d.succs[u][k];
    var ev' := ev[(u, w) := if u in d.merge then 0 else Prefix(succs, counts, k)];
    OneMore(succs, k);
    forall v: nat | v in succs[..k + 1]
      ensures ev'[(u, v)] == if u in d.merge then 0 else Prefix(succs, counts, LastIndex(succs[..k + 1], v))
    {
      LastIndexSnoc(succs[..k], w, v);
    }
  }

  lemma LastIndexSnoc(s: seq<nat>, w: nat, v: nat)
    requires v in s + [w]
    ensures v != w ==> v in s
    ensures LastIndex(s + [w], v) == if v == w then |s| else LastIndex(s, v)
  {
    assert (s + [w])[..|s|] == s;
  }

  lemma RowStarts(d: Dag, counts: map<nat, nat>, u: nat, ev: map<Arc, nat>)
    requires u < |d.succs| && u in counts && Tabled(d, counts, u, ev)
    ensures Row(d, counts, ev, ev, u, 0) && Prefix(d.succs[u], counts, 0) == 0
  {
  }

  lemma PrefixStep(succs: seq<nat>, counts: map<nat, nat>, k: nat)
    requires k < |succs|
    ensures Prefix(succs, counts, k + 1) ==
            if succs[k] in counts then (Prefix(succs, counts, k) + counts[succs[k]]) % U64 else Prefix(succs, counts, k)
  {
  }

  method AssignRow(d: Dag, counts: map<nat, nat>, u: nat, ev0: map<Arc, nat>) returns (ev: map<Arc, nat>)
    requires u < |d.succs| && u in counts && Tabled(d, counts, u, ev0)
    ensures Tabled(d, counts, u + 1, ev)
  {
    ev := ev0;
    RowStarts(d, counts, u, ev);
    hide Row, Tabled, Prefix;
    var succs := d.succs[u];
    if u in d.merge {
      for k := 0 to |succs|
        invariant Row(d, counts, ev0, ev, u, k)
      {
        RowGrows(d, counts, ev0, ev, u, k);
        ev := ev[(u, succs[k]) := 0];
      }
    } else {
      var prefix := 0;
      for k := 0 to |succs|
        invariant Row(d, counts, ev0, ev, u, k) && prefix == Prefix(succs, counts, k)
      {
        RowGrows(d, counts, ev0, ev, u, k);
        PrefixStep(succs, counts, k);
        ev := ev[(u, succs[k]) := prefix];
        if succs[k] in counts { prefix := (prefix + counts[succs[k]]) % U64; }
      }
    }
    RowDone(d, counts, ev0, ev, u);
  }

  lemma ChildCounted(d: Dag, counts: map<nat, nat>, u: nat, k: nat)
    requires Valid(d) && Counts(d, counts) && u in counts && k < |d.succs[u]|
    ensures d.succs[u][k] in counts && d.succs[u][k] < |d.succs|
    ensures SumOver(d, u, k + 1) == SumOver(d, u, k) + counts[d.succs[u][k]]
  {
    ReachesStep(d.succs, 0, u, d.succs[u][k]);
  }

  lemma RowDone(d: Dag, counts: map<nat, nat>, ev0: map<Arc, nat>, ev: map<Arc, nat>, u: nat)
    requires u < |d.succs| && u in counts
    requires Tabled(d, counts, u, ev0) && Row(d, counts, ev0, ev, u, |d.succs[u]|)
    ensures Tabled(d, counts, u + 1, ev)
  {
    assert d.succs[u][..|d.succs[u]|] == d.succs[u];
  }

  method AssignEdgeValues(d: Dag, counts: map<nat, nat>) returns (ev: map<Arc, nat>)
    requires forall b :: b in d.exits && b < |d.succs| ==> d.succs[b] == []
    ensures Tabled(d, counts, |d.succs|, ev)
  {
    hide Tabled;
    ev := map[];
    NoValues(d, counts);
    for u := 0 to |d.succs|
      invariant Tabled(d, counts, u, ev)
    {
      if u in d.exits || u !in counts || d.succs[u] == [] {
        EmptyRow(d, counts, u, ev);
        continue;
      }
      ev := AssignRow(d, counts, u, ev);
    }
  }

  lemma NoValues(d: Dag, counts: map<nat, nat>)
    ensures Tabled(d, counts, 0, map[])
  {
  }

  lemma EmptyRow(d: Dag, counts: map<nat, nat>, u: nat, ev: map<Arc, nat>)
    requires u < |d.succs| && Tabled(d, counts, u, ev)
    requires u !in counts || d.succs[u] == []
    ensures Tabled(d, counts, u + 1, ev)
  {
  }

  // ----- the whole analysis

  datatype Result = Result(
    numPaths: nat, exits: set<nat>, numPathsAtBB: map<nat, nat>, edgeValues: map<Arc, nat>,
    simplified: bool, overCap: bool)

  /** Is there nothing to analyze? */
  predicate Skipped(f: Function) {
    f.succs == [] || f.registerUnsafe || f.exits == {}
  }

  ghost predicate Analyzed(f: Function, back: set<Arc>, level: nat, maxPaths: nat, r: Result)
    requires Valid(ForwardDag(f, back, level, false)) && Valid(ForwardDag(f, back, level, true)) && f.succs != []
  {
    var all := NumPaths(ForwardDag(f, back, level, false), 0);
    var collapsed := NumPaths(ForwardDag(f, back, level, true), 0);
    && r.simplified == (all > maxPaths)
    && r.overCap == (collapsed > maxPaths)
    && (r.numPaths > 0 <==> (if r.simplified then 1 < collapsed <= maxPaths else all > 1))
    && (if r.numPaths == 0 then r.exits == {} && r.numPathsAtBB == map[] && r.edgeValues == map[]
        else
          var d := ForwardDag(f, back, level, r.simplified);
          && r.numPaths == NumPaths(d, 0)
          && r.exits == f.exits
          && Counts(d, r.numPathsAtBB)
          && Values(d, r.numPathsAtBB, |d.succs|, r.edgeValues))
  }

  /** What the analysis decides, on 64-bit counts that may have wrapped around. */
  ghost predicate Decided(f: Function, back: set<Arc>, level: nat, maxPaths: nat, r: Result)
    requires Valid(ForwardDag(f, back, level, false)) && Valid(ForwardDag(f, back, level, true)) && f.succs != []
  {
    var all := Counted(ForwardDag(f, back, level, false), 0);
    var collapsed := Counted(ForwardDag(f, back, level, true), 0);
    && r.simplified == (all > maxPaths)
    && r.overCap == (all > maxPaths && collapsed > maxPaths)
    && (r.numPaths > 0 <==> (if r.simplified then 1 < collapsed <= maxPaths else all > 1))
    && (if r.numPaths == 0 then r.exits == {} && r.numPathsAtBB == map[] && r.edgeValues == map[]
        else
          var d := ForwardDag(f, back, level, r.simplified);
          && r.numPaths == Counted(d, 0)
          && r.exits == f.exits
          && WorklistCounts(d, r.numPathsAtBB)
          && Tabled(d, r.numPathsAtBB, |d.succs|, r.edgeValues))
  }

  /** No count that decides something has wrapped around below the cap. */
  ghost predicate CountsFit(f: Function, back: set<Arc>, level: nat, maxPaths: nat)
    requires Valid(ForwardDag(f, back, level, false)) && Valid(ForwardDag(f, back, level, true)) && f.succs != []
  {
    var all, collapsed := ForwardDag(f, back, level, false), ForwardDag(f, back, level, true);
    || NumPaths(all, 0) < U64
    || (Counted(all, 0) > maxPaths && (NumPaths(collapsed, 0) < U64 || Counted(collapsed, 0) > maxPaths))
  }

  /** On every function: what is collapsed.  Once simplified, a branch of three or more ways
      adds nothing; at level 1 a guard-only branch adds nothing, and at level 2 a guard-only
      branch of two ways. */
  lemma CollapsedAddsNothing(f: Function, back: set<Arc>, level: nat, maxPaths: nat, r: Result, u: nat, v: nat)
    requires Valid(ForwardDag(f, back, level, false)) && Valid(ForwardDag(f, back, level, true)) && f.succs != []
    requires Decided(f, back, level, maxPaths, r) && (u, v) in r.edgeValues
    ensures var ways := |ForwardSuccs(f, back)[u]|;
            || (r.simplified && ways > 2) || (level == 1 && u in f.guardOnly)
            || (level == 2 && u in f.guardOnly && ways == 2)
            ==> r.edgeValues[(u, v)] == 0
  {
    hide Valid, Counted, WorklistCounts;
    var d := ForwardDag(f, back, level, r.simplified);
    assert d.succs == ForwardSuccs(f, back) && u < |d.succs|;
    if |d.succs[u]| <= 1 {
      assert LastIndex(d.succs[u], v) == 0;
    }
  }

  /** The worklist's counts are exact as soon as the number of all paths fits. */
  lemma CountsAreExact(d: Dag, counts: map<nat, nat>)
    requires Valid(d) && |d.succs| > 0 && NumPaths(d, 0) < U64 && WorklistCounts(d, counts)
    ensures Counts(d, counts)
  {
    hide NumPaths, Counted, Valid, Reaches;
    forall b | b in counts ensures counts[b] == NumPaths(d, b) {
      EntryCountsMost(d, b);
      CountedExact(d, b);
    }
  }

  /** For every function and every 64-bit cap, the analysis is right about the paths
      exactly when no deciding count wrapped around. */
  lemma AnalyzedIff(f: Function, back: set<Arc>, level: nat, maxPaths: nat, r: Result)
    requires WellFormed(f) && BreaksCycles(f.succs, back) && f.succs != [] && maxPaths < U64
    requires Valid(ForwardDag(f, back, level, false)) && Valid(ForwardDag(f, back, level, true))
    requires Decided(f, back, level, maxPaths, r)
    ensures Analyzed(f, back, level, maxPaths, r) <==> CountsFit(f, back, level, maxPaths)
  {
    var all, collapsed := ForwardDag(f, back, level, false), ForwardDag(f, back, level, true);
    assert |all.succs| == |collapsed.succs| == |f.succs|;
    hide Valid, NumPaths, Counted, Tabled, Values, Counts, WorklistCounts, BreaksCycles, WellFormed, ForwardDag;
    SimplifyingCountsLess(f, back, level, 0);
    CountedExactIff(all, 0);
    CountedExactIff(collapsed, 0);
    if r.numPaths > 0 { ResultIsExact(f, back, level, r); }
  }

  lemma ResultIsExact(f: Function, back: set<Arc>, level: nat, r: Result)
    requires f.succs != [] && Valid(ForwardDag(f, back, level, r.simplified))
    requires var d := ForwardDag(f, back, level, r.simplified);
             WorklistCounts(d, r.numPathsAtBB) && Tabled(d, r.numPathsAtBB, |d.succs|, r.edgeValues)
    ensures var d := ForwardDag(f, back, level, r.simplified);
            |d.succs| > 0 && (NumPaths(d, 0) < U64 ==>
              Counts(d, r.numPathsAtBB) && Values(d, r.numPathsAtBB, |d.succs|, r.edgeValues))
  {
    hide Valid, NumPaths, Tabled, Values, Counts, WorklistCounts;
    var d := ForwardDag(f, back, level, r.simplified);
    if NumPaths(d, 0) < U64 {
      CountsAreExact(d, r.numPathsAtBB);
      TabledIsExact(d, r.numPathsAtBB, r.edgeValues);
    }
  }

  /** `analyze`, on every function; `AnalyzedIff` says when what it decides is right. */
  method Analyze(f: Function, level: nat, maxPaths: nat) returns (r: Result, ghost back: set<Arc>)
    requires WellFormed(f)
    ensures f.succs == [] || f.exits == {} || f.registerUnsafe ==> r == Result(0, {}, map[], map[], false, false)
    ensures f.succs != [] && f.exits != {} && !f.registerUnsafe ==>
              && BreaksCycles(f.succs, back) && back == BackArcs(f.succs)
              && Valid(ForwardDag(f, back, level, false)) && Valid(ForwardDag(f, back, level, true))
              && Decided(f, back, level, maxPaths, r)
    ensures r.numPaths == 0 || 2 <= r.numPaths <= maxPaths
    ensures forall a: Arc :: a in r.edgeValues ==> a.0 < |f.succs|
  {
    hide Valid, BreaksCycles, Counted, Tabled, WellFormed, WorklistCounts, ForwardDag, BackArcs;
    r := Result(0, {}, map[], map[], false, false);
    back := {};
    if Skipped(f) { return; }
    WellFormedIsClosed(f);
    var arcs := FindBackEdges(f.succs);
    back := arcs;
    ForwardIsValid(f, back, level, false);
    ForwardIsValid(f, back, level, true);
    SameBlocks(f, back, level);
    var d := ForwardDag(f, arcs, level, false);
    var num, counts := ComputeNumPaths(d);
    var simplified := false;
    if num > maxPaths {
      d := ForwardDag(f, arcs, level, true);
      num, counts := ComputeNumPaths(d);
      simplified := true;
      if num > maxPaths {
        r := Result(0, {}, map[], map[], true, true);
        return;
      }
    }
    if num <= 1 {
      r := Result(0, {}, map[], map[], simplified, false);
      return;
    }
    ExitsEnd(d);
    var ev := AssignEdgeValues(d, counts);
    TableInGraph(d, counts, ev);
    r := Result(num, f.exits, counts, ev, simplified, false);
  }

  lemma SameBlocks(f: Function, back: set<Arc>, level: nat)
    ensures |ForwardDag(f, back, level, false).succs| == |ForwardDag(f, back, level, true).succs| == |f.succs|
  {
  }

  lemma TableInGraph(d: Dag, counts: map<nat, nat>, ev: map<Arc, nat>)
    requires Tabled(d, counts, |d.succs|, ev)
    ensures forall a: Arc :: a in ev ==> a.0 < |d.succs|
  {
    forall a: Arc | a in ev ensures a.0 < |d.succs| { assert (a.0, a.1) in ev; }
  }

  lemma ExitsEnd(d: Dag)
    requires Valid(d)
    ensures forall b :: b in d.exits && b < |d.succs| ==> d.succs[b] == []
  {
  }

  lemma WellFormedIsClosed(f: Function)
    requires WellFormed(f)
    ensures Closed(f.succs)
  {
  }
}
