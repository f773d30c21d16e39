/** Pruning on the graphs the passes really see. Both leave edges into blocks that hold
    nothing but `unreachable` unsplit, and give those blocks no counter. Runs that come
    to an end never enter them. */
module TrapPruning {
  import opened Graph
  import opened Pruning

  /** Some way to end without entering a trap. */
  ghost predicate Live(g: Adj, traps: set<nat>, b: nat) {
    exists x: nat :: IsExit(g, x) && x !in traps && Reaches(g, b, x)
  }

  ghost predicate TrapsEnd(g: Adj, traps: set<nat>) {
    forall b :: b in traps && b < |g| ==> g[b] == []
  }

  /** The function after the split: traps lead nowhere, only edges into them may be
      critical, dead blocks branch nowhere, and no block is in an endless loop. */
  ghost predicate Split(g: Adj, traps: set<nat>) {
    && Closed(g) && NoCriticalEdges(g, traps) && EntryHasNoPreds(g)
    && TrapsEnd(g, traps)
    && (forall u: nat, v: nat :: Edge(g, u, v) ==> Reaches(g, 0, u))
    && (forall b: nat :: Reaches(g, 0, b) ==> CanExit(g, b))
  }

  ghost predicate GetsCounter(pass: Pass, noPrune: bool, g: Adj, traps: set<nat>, b: nat) {
    b !in traps && ShouldInstrument(pass, noPrune, g, b)
  }

  ghost predicate EndedRun(g: Adj, traps: set<nat>, p: seq<nat>) {
    CompleteRun(g, p) && p[|p| - 1] !in traps
  }

  // ----- the graph of the live blocks

  ghost function KeepLive(g: Adj, traps: set<nat>, succs: seq<nat>): (r: seq<nat>)
    ensures |r| <= |succs|
    ensures forall v :: v in r <==> v in succs && Live(g, traps, v)
  {
    if succs == [] then []
    else
      var rest := KeepLive(g, traps, succs[1..]);
      if Live(g, traps, succs[0]) then [succs[0]] + rest else rest
  }

  ghost function Cut(g: Adj, traps: set<nat>): (h: Adj)
    ensures |h| == |g|
    ensures forall u: nat, v: nat :: Edge(h, u, v) <==> Edge(g, u, v) && Live(g, traps, v)
  {
    var h := seq(|g|, u requires 0 <= u < |g| => KeepLive(g, traps, g[u]));
    assert forall u: nat, v: nat :: Edge(h, u, v) <==> Edge(g, u, v) && Live(g, traps, v);
    h
  }

  lemma CutRow(g: Adj, traps: set<nat>, u: nat)
    requires u < |g|
    ensures Cut(g, traps)[u] == KeepLive(g, traps, g[u])
  {
  }

  /** Two places in the kept list are two places in the list. */
  lemma {:induction false} KeptTwice(g: Adj, traps: set<nat>, succs: seq<nat>, i: nat, j: nat) returns (a: nat, b: nat)
    requires i < j < |KeepLive(g, traps, succs)|
    requires KeepLive(g, traps, succs)[i] == KeepLive(g, traps, succs)[j]
    ensures a < b < |succs| && succs[a] == succs[b] == KeepLive(g, traps, succs)[i]
    decreases |succs|
  {
    hide Live;
    var rest := KeepLive(g, traps, succs[1..]);
    if !Live(g, traps, succs[0]) {
      a, b := KeptTwice(g, traps, succs[1..], i, j);
      a, b := a + 1, b + 1;
    } else if i == 0 {
      assert rest[j - 1] in succs[1..];
      b :| 0 <= b < |succs[1..]| && succs[1..][b] == rest[j - 1];
      a, b := 0, b + 1;
    } else {
      a, b := KeptTwice(g, traps, succs[1..], i - 1, j - 1);
      a, b := a + 1, b + 1;
    }
  }

  // ----- liveness

  lemma LiveBefore(g: Adj, traps: set<nat>, u: nat, v: nat)
    requires Edge(g, u, v) && Live(g, traps, v)
    ensures Live(g, traps, u)
  {
    var x: nat :| IsExit(g, x) && x !in traps && Reaches(g, v, x);
    var p :| WalkFromTo(g, p, v, x);
    WalkCons(g, u, p);
    assert WalkFromTo(g, [u] + p, u, x);
  }

  lemma LiveGoesOn(g: Adj, traps: set<nat>, b: nat) returns (v: nat)
    requires Live(g, traps, b) && b < |g| && g[b] != []
    ensures Edge(g, b, v) && Live(g, traps, v)
  {
    var x: nat :| IsExit(g, x) && x !in traps && Reaches(g, b, x);
    var p :| WalkFromTo(g, p, b, x);
    assert |p| > 1;
    v := p[1];
    assert Edge(g, p[0], p[0 + 1]);
    WalkSuffix(g, p, 1);
    assert WalkFromTo(g, p[1..], v, x);
  }

  /** A walk to a live block is a walk of live blocks. */
  lemma {:induction false} WalkToLive(g: Adj, traps: set<nat>, p: seq<nat>)
    requires Walk(g, p) && Live(g, traps, p[|p| - 1])
    ensures Walk(Cut(g, traps), p) && Live(g, traps, p[0])
    decreases |p|
  {
    hide Live, Cut;
    if |p| == 1 {
    } else {
      WalkSuffix(g, p, 1);
      WalkToLive(g, traps, p[1..]);
      assert Edge(g, p[0], p[0 + 1]);
      LiveBefore(g, traps, p[0], p[1]);
      WalkCons(Cut(g, traps), p[0], p[1..]);
      assert [p[0]] + p[1..] == p;
    }
  }

  /** A walk of the cut graph from a live block stays among live blocks. */
  lemma {:induction false} CutWalk(g: Adj, traps: set<nat>, p: seq<nat>)
    requires Walk(Cut(g, traps), p) && Live(g, traps, p[0])
    ensures Walk(g, p) && Live(g, traps, p[|p| - 1])
    decreases |p|
  {
    hide Live, Cut;
    if |p| == 1 {
    } else {
      var n := |p| - 1;
      WalkPrefix(Cut(g, traps), p, n);
      CutWalk(g, traps, p[..n]);
      assert Edge(Cut(g, traps), p[n - 1], p[n - 1 + 1]);
      WalkSnoc(g, p[..n], p[n]);
      assert p[..n] + [p[n]] == p;
    }
  }

  lemma ExitIsLive(g: Adj, traps: set<nat>, x: nat)
    requires IsExit(g, x) && x !in traps
    ensures Live(g, traps, x)
  {
    ReachesRefl(g, x);
  }

  lemma CutExit(g: Adj, traps: set<nat>, b: nat)
    requires b < |g|
    ensures IsExit(g, b) ==> IsExit(Cut(g, traps), b)
    ensures Live(g, traps, b) && IsExit(Cut(g, traps), b) ==> IsExit(g, b)
  {
    hide Live;
    CutRow(g, traps, b);
    if Live(g, traps, b) && g[b] != [] {
      var v := LiveGoesOn(g, traps, b);
      assert Edge(Cut(g, traps), b, v);
    }
  }

  lemma RunIsCutRun(g: Adj, traps: set<nat>, p: seq<nat>)
    requires EndedRun(g, traps, p)
    ensures CompleteRun(Cut(g, traps), p) && Live(g, traps, 0)
    ensures forall i :: 0 <= i < |p| ==> Live(g, traps, p[i])
  {
    hide Live, Cut, IsExit;
    ExitIsLive(g, traps, p[|p| - 1]);
    WalkToLive(g, traps, p);
    CutExit(g, traps, p[|p| - 1]);
    forall i | 0 <= i < |p| ensures Live(g, traps, p[i]) {
      WalkPrefix(Cut(g, traps), p, i + 1);
      CutWalk(g, traps, p[..i + 1]);
    }
  }

  // ----- the cut graph is prepared

  lemma TrapsAreNotLive(g: Adj, traps: set<nat>, b: nat)
    requires TrapsEnd(g, traps) && b in traps && b < |g|
    ensures !Live(g, traps, b)
  {
    forall x: nat, p | WalkFromTo(g, p, b, x) ensures x == b {
      ClosedSetHoldsWalk(g, {b}, p);
    }
  }

  lemma CutHasNoCriticalEdges(g: Adj, traps: set<nat>)
    requires Split(g, traps)
    ensures NoCriticalEdges(Cut(g, traps), {})
  {
    hide Live, CanExit, Reaches;
    var h := Cut(g, traps);
    forall u, i, u', i' | 0 <= u < |h| && 0 <= i < |h[u]| && 0 <= u' < |h| && 0 <= i' < |h[u']|
      && |h[u]| > 1 && h[u][i] == h[u'][i']
      ensures u == u' && i == i'
    {
      var v := h[u][i];
      CutRow(g, traps, u);
      CutRow(g, traps, u');
      assert Edge(h, u, v) && Edge(h, u', v);
      EdgeTarget(g, u, v);
      if v in traps { TrapsAreNotLive(g, traps, v); }
      var a :| 0 <= a < |g[u]| && g[u][a] == v;
      var a' :| 0 <= a' < |g[u']| && g[u'][a'] == v;
      assert u == u';
      if i != i' {
        var c, d := KeptTwice(g, traps, g[u], if i < i' then i else i', if i < i' then i' else i);
      }
    }
  }

  lemma CutIsPrepared(g: Adj, traps: set<nat>)
    requires Split(g, traps) && Live(g, traps, 0)
    ensures Prepared(Cut(g, traps))
  {
    var h := Cut(g, traps);
    CutHasNoCriticalEdges(g, traps);
    hide Live, Cut, IsExit, NoCriticalEdges;
    forall b, i | 0 <= b < |h| && 0 <= i < |h[b]| ensures h[b][i] < |h| {
      assert Edge(h, b, h[b][i]);
      EdgeTarget(g, b, h[b][i]);
    }
    forall u: nat, v: nat | Edge(h, u, v) ensures Reaches(h, 0, u) {
      LiveBefore(g, traps, u, v);
      CutReaches(g, traps, u);
    }
    forall b: nat | Reaches(h, 0, b) ensures CanExit(h, b) {
      CutCanExit(g, traps, b);
    }
  }

  lemma CutReaches(g: Adj, traps: set<nat>, u: nat)
    requires Reaches(g, 0, u) && Live(g, traps, u)
    ensures Reaches(Cut(g, traps), 0, u)
  {
    hide Live, Cut;
    var p :| WalkFromTo(g, p, 0, u);
    WalkToLive(g, traps, p);
    assert WalkFromTo(Cut(g, traps), p, 0, u);
  }

  lemma CutCanExit(g: Adj, traps: set<nat>, b: nat)
    requires Live(g, traps, 0) && Reaches(Cut(g, traps), 0, b)
    ensures CanExit(Cut(g, traps), b)
  {
    hide Cut;
    var p :| WalkFromTo(Cut(g, traps), p, 0, b);
    CutWalk(g, traps, p);
    var x: nat :| IsExit(g, x) && x !in traps && Reaches(g, b, x);
    var q :| WalkFromTo(g, q, b, x);
    ExitIsLive(g, traps, x);
    WalkToLive(g, traps, q);
    CutExit(g, traps, x);
    assert WalkFromTo(Cut(g, traps), q, b, x);
  }

  // ----- what the cut graph needs a counter for has one

  lemma CutDominates(g: Adj, traps: set<nat>, a: nat, b: nat)
    requires Dominates(g, a, b) && Live(g, traps, 0)
    ensures Dominates(Cut(g, traps), a, b)
  {
    hide Live, Cut;
    forall p | WalkFromTo(Cut(g, traps), p, 0, b) ensures a in p { CutWalk(g, traps, p); }
  }

  lemma CutPostDominates(g: Adj, traps: set<nat>, a: nat, b: nat)
    requires PostDominates(g, a, b) && Live(g, traps, b)
    ensures PostDominates(Cut(g, traps), a, b)
  {
    hide Live, Cut, IsExit;
    forall p | Walk(Cut(g, traps), p) && p[0] == b && IsExit(Cut(g, traps), p[|p| - 1]) ensures a in p {
      CutWalk(g, traps, p);
      CutExit(g, traps, p[|p| - 1]);
    }
  }

  lemma CutFullDominator(g: Adj, traps: set<nat>, b: nat)
    requires FullDominator(g, b) && Live(g, traps, b) && Live(g, traps, 0)
    ensures FullDominator(Cut(g, traps), b)
  {
    hide Live, Cut, Dominates;
    var v := LiveGoesOn(g, traps, b);
    assert Edge(Cut(g, traps), b, v);
    forall s: nat | Edge(Cut(g, traps), b, s) ensures Dominates(Cut(g, traps), b, s) {
      CutDominates(g, traps, b, s);
    }
  }

  lemma CutFullPostDominator(g: Adj, traps: set<nat>, b: nat)
    requires FullPostDominator(g, b) && Live(g, traps, b)
    ensures FullPostDominator(Cut(g, traps), b)
  {
    hide Live, Cut, PostDominates;
    var u: nat :| Edge(g, u, b);
    assert Edge(Cut(g, traps), u, b);
    forall w: nat | Edge(Cut(g, traps), w, b) ensures PostDominates(Cut(g, traps), b, w) {
      LiveBefore(g, traps, w, b);
      CutPostDominates(g, traps, b, w);
    }
  }

  /** Two branches into a live block are two edges of the cut graph. */
  lemma CutJoin(g: Adj, traps: set<nat>, b: nat)
    requires Split(g, traps) && Live(g, traps, b) && b < |g| && !SinglePred(g, b) && exists u: nat :: Edge(g, u, b)
    ensures !SinglePred(Cut(g, traps), b)
  {
    if b in traps { TrapsAreNotLive(g, traps, b); }
    hide Live, Cut, Reaches, CanExit;
    var w: nat :| Edge(g, w, b);
    var k := BranchOfEdge(g, w, b);
    var u: nat, i: nat, v: nat, j: nat :| Branch(g, u, i, b) && Branch(g, v, j, b) && !(u == v && i == j);
    assert u != v;
    assert Edge(g, u, b) && Edge(g, v, b);
    var i' := BranchOfEdge(Cut(g, traps), u, b);
    var j' := BranchOfEdge(Cut(g, traps), v, b);
  }

  lemma CounterStays(pass: Pass, noPrune: bool, g: Adj, traps: set<nat>, b: nat)
    requires Split(g, traps) && Live(g, traps, b) && Live(g, traps, 0) && b < |g|
    requires ShouldInstrument(pass, noPrune, Cut(g, traps), b)
    ensures GetsCounter(pass, noPrune, g, traps, b)
  {
    if b in traps { TrapsAreNotLive(g, traps, b); }
    hide Live, Cut, Split, FullDominator, SinglePred;
    if b == 0 || noPrune {
    } else {
      if FullDominator(g, b) { CutFullDominator(g, traps, b); }
      if FullPostDominator(g, b) && !SinglePred(g, b) {
        CutFullPostDominator(g, traps, b);
        CutJoin(g, traps, b);
      }
    }
  }

  // ----- losslessness

  /** Among the blocks that runs can end from: a full dominator is followed by a full
      dominator or a counter. */
  ghost predicate DominatorsShow(pass: Pass, noPrune: bool, g: Adj, traps: set<nat>) {
    var h := Cut(g, traps);
    forall b: nat, s: nat :: FullDominator(h, b) && Edge(h, b, s) && s != 0 ==>
      FullDominator(h, s) || GetsCounter(pass, noPrune, g, traps, s)
  }

  ghost function TrapCounters(pass: Pass, noPrune: bool, g: Adj, traps: set<nat>): (c: set<nat>) {
    set b | 0 <= b < |g| && GetsCounter(pass, noPrune, g, traps, b)
  }

  /** A live block without a counter is one of the two kinds that need none. */
  lemma UncountedBlock(pass: Pass, noPrune: bool, g: Adj, traps: set<nat>, b: nat)
    requires TrapsEnd(g, traps) && Live(g, traps, b) && Live(g, traps, 0) && b < |g| && b != 0
    requires !GetsCounter(pass, noPrune, g, traps, b)
    ensures FullDominator(Cut(g, traps), b) || FullPostDominator(Cut(g, traps), b)
  {
    if b in traps { TrapsAreNotLive(g, traps, b); }
    hide Live, Cut, TrapsEnd, FullDominator, FullPostDominator, SinglePred;
    if FullDominator(g, b) {
      CutFullDominator(g, traps, b);
    } else {
      CutFullPostDominator(g, traps, b);
    }
  }

  /** The blocks that miss a counter: they come after a full dominator and are none. */
  ghost function Unshown(pass: Pass, noPrune: bool, g: Adj, traps: set<nat>): (c: set<nat>) {
    var h := Cut(g, traps);
    set s | 0 < s < |g| && !FullDominator(h, s) && !GetsCounter(pass, noPrune, g, traps, s)
            && exists b: nat :: FullDominator(h, b) && Edge(h, b, s)
  }

  lemma CutIsShown(pass: Pass, noPrune: bool, g: Adj, traps: set<nat>)
    requires Closed(g) && TrapsEnd(g, traps) && Live(g, traps, 0)
    ensures Shown(Cut(g, traps), TrapCounters(pass, noPrune, g, traps) + Unshown(pass, noPrune, g, traps))
  {
    var h := Cut(g, traps);
    hide Live, Cut, TrapsEnd, FullDominator, FullPostDominator, GetsCounter;
    forall b: nat, s: nat | Edge(h, b, s) ensures s < |g| { EdgeTarget(g, b, s); }
    forall b: nat | Reaches(h, 0, b) && b != 0
      ensures FullDominator(h, b) || FullPostDominator(h, b) || b in TrapCounters(pass, noPrune, g, traps)
    {
      var p :| WalkFromTo(h, p, 0, b);
      CutWalk(g, traps, p);
      if !GetsCounter(pass, noPrune, g, traps, b) { UncountedBlock(pass, noPrune, g, traps, b); }
    }
  }

  /** On any graph, with critical edges or endless loops: two ended runs that hit the same
      counters ran the same blocks if and only if they agree on the blocks that miss one. */
  lemma SameBlocksIff(pass: Pass, noPrune: bool, g: Adj, traps: set<nat>, p: seq<nat>, q: seq<nat>)
    requires Closed(g) && TrapsEnd(g, traps) && EndedRun(g, traps, p) && EndedRun(g, traps, q)
    requires forall b :: GetsCounter(pass, noPrune, g, traps, b) ==> (b in p <==> b in q)
    ensures (forall b :: b in p <==> b in q) <==>
            forall b :: b in Unshown(pass, noPrune, g, traps) ==> (b in p <==> b in q)
  {
    hide Closed, TrapsEnd, EndedRun, GetsCounter, CompleteRun, Live, Cut, Shown, Unshown;
    if forall b :: b in Unshown(pass, noPrune, g, traps) ==> (b in p <==> b in q) {
      RunIsCutRun(g, traps, p);
      RunIsCutRun(g, traps, q);
      CutIsShown(pass, noPrune, g, traps);
      CountersTell(Cut(g, traps), TrapCounters(pass, noPrune, g, traps) + Unshown(pass, noPrune, g, traps), p, q);
    }
  }

  /** If dominators show, no block misses a counter. */
  lemma LosslessIfShown(pass: Pass, noPrune: bool, g: Adj, traps: set<nat>, p: seq<nat>, q: seq<nat>)
    requires Closed(g) && TrapsEnd(g, traps) && DominatorsShow(pass, noPrune, g, traps)
    requires EndedRun(g, traps, p) && EndedRun(g, traps, q)
    requires forall b :: GetsCounter(pass, noPrune, g, traps, b) ==> (b in p <==> b in q)
    ensures forall b :: b in p <==> b in q
  {
    hide Closed, TrapsEnd, EndedRun, GetsCounter, FullDominator, Cut, Edge;
    SameBlocksIff(pass, noPrune, g, traps, p, q);
  }

  /** They do where all critical edges but those into traps are split. */
  lemma SplitShows(pass: Pass, noPrune: bool, g: Adj, traps: set<nat>)
    requires Split(g, traps) && Live(g, traps, 0)
    ensures DominatorsShow(pass, noPrune, g, traps)
  {
    var h := Cut(g, traps);
    CutIsPrepared(g, traps);
    PreparedIsShown(pass, noPrune, h);
    hide Live, Cut, Prepared, Split, FullDominator, FullPostDominator, GetsCounter, ShouldInstrument;
    forall b: nat, s: nat | FullDominator(h, b) && Edge(h, b, s) && s != 0
      ensures FullDominator(h, s) || GetsCounter(pass, noPrune, g, traps, s)
    {
      if !FullDominator(h, s) { CounterStays(pass, noPrune, g, traps, s); }
    }
  }

  /** So both passes lose nothing on split functions. */
  lemma PruningIsLossless(pass: Pass, noPrune: bool, g: Adj, traps: set<nat>, p: seq<nat>, q: seq<nat>)
    requires Split(g, traps) && EndedRun(g, traps, p) && EndedRun(g, traps, q)
    requires forall b :: GetsCounter(pass, noPrune, g, traps, b) ==> (b in p <==> b in q)
    ensures forall b :: b in p <==> b in q
  {
    hide Reaches, CanExit, NoCriticalEdges, DominatorsShow, EndedRun, GetsCounter, Live;
    RunIsCutRun(g, traps, p);
    SplitShows(pass, noPrune, g, traps);
    LosslessIfShown(pass, noPrune, g, traps, p, q);
  }

  /** Every ended run of a function whose dominators show hits a counter, but for one case:
      the LTO pass gives the entry none, and the run ends there in a function of several
      blocks. */
  lemma EndedRunIsCountedIff(pass: Pass, noPrune: bool, g: Adj, traps: set<nat>, p: seq<nat>)
    requires Closed(g) && TrapsEnd(g, traps) && EntryHasNoPreds(g) && DominatorsShow(pass, noPrune, g, traps)
    requires EndedRun(g, traps, p)
    ensures (exists b :: b in p && GetsCounter(pass, noPrune, g, traps, b)) <==>
            !(pass == LTO && !noPrune && |g| > 1 && g[0] == [])
  {
    if g[0] == [] {
      OnlyEntry(g, p);
      assert 0 in p && forall b :: b in p ==> b == 0;
      hide FullDominator, FullPostDominator, SinglePred, DominatorsShow;
    } else {
      var h := Cut(g, traps);
      RunIsCutRun(g, traps, p);
      var v := LiveGoesOn(g, traps, 0);
      assert Edge(h, 0, v);
      CutIsShown(pass, noPrune, g, traps);
      NoneUnshown(pass, noPrune, g, traps);
      EntryIsFullDominator(h);
      hide Live, Cut, Shown, FullDominator, CompleteRun, GetsCounter, DominatorsShow, Unshown, EndedRun;
      var counters := TrapCounters(pass, noPrune, g, traps) + Unshown(pass, noPrune, g, traps);
      var k := SomeCounterHit(h, counters, p, 0);
      assert p[k] in p;
    }
  }

  lemma NoneUnshown(pass: Pass, noPrune: bool, g: Adj, traps: set<nat>)
    requires DominatorsShow(pass, noPrune, g, traps)
    ensures Unshown(pass, noPrune, g, traps) == {}
  {
    hide FullDominator, GetsCounter, Cut, Edge;
  }
}
