/** `shouldInstrumentBlock` of both passes: full dominators, and full
    post-dominators with several predecessors, get no counter.  With critical
    edges split, the counters that remain still tell which blocks ran. */
module Pruning {
  import opened Graph

  datatype Pass = LTO | PCGUARD

  /** A block without successors ends the function. */
  ghost predicate IsExit(g: Adj, b: nat) {
    b < |g| && g[b] == []
  }

  /** Every walk from `b` to an exit passes `a`. */
  ghost predicate PostDominates(g: Adj, a: nat, b: nat) {
    forall p :: Walk(g, p) && p[0] == b && IsExit(g, p[|p| - 1]) ==> a in p
  }

  ghost predicate FullDominator(g: Adj, b: nat) {
    b < |g| && g[b] != [] && forall s: nat :: Edge(g, b, s) ==> Dominates(g, b, s)
  }

  ghost predicate FullPostDominator(g: Adj, b: nat) {
    (exists u: nat :: Edge(g, u, b)) && forall u: nat :: Edge(g, u, b) ==> PostDominates(g, b, u)
  }

  /** The `i`-th branch of `u` leads to `b`. */
  ghost predicate Branch(g: Adj, u: nat, i: nat, b: nat) {
    u < |g| && i < |g[u]| && g[u][i] == b
  }

  /** Exactly one branch in the whole function leads to `b`. */
  ghost predicate SinglePred(g: Adj, b: nat) {
    && (exists u: nat, i: nat :: Branch(g, u, i, b))
    && forall u: nat, i: nat, v: nat, j: nat :: Branch(g, u, i, b) && Branch(g, v, j, b) ==> u == v && i == j
  }

  ghost predicate ShouldInstrument(pass: Pass, noPrune: bool, g: Adj, b: nat) {
    if pass == LTO && !noPrune && b == 0 && |g| > 1 then false
    else if noPrune || b == 0 then true
    else !FullDominator(g, b) && !(FullPostDominator(g, b) && !SinglePred(g, b))
  }

  ghost predicate CompleteRun(g: Adj, p: seq<nat>) {
    Walk(g, p) && p[0] == 0 && IsExit(g, p[|p| - 1])
  }

  ghost predicate CanExit(g: Adj, b: nat) {
    exists x: nat :: IsExit(g, x) && Reaches(g, b, x)
  }

  /** Critical edges are split, dead blocks branch nowhere, and no block is trapped in
      an endless loop. */
  ghost predicate Prepared(g: Adj) {
    && Closed(g) && NoCriticalEdges(g, {}) && EntryHasNoPreds(g)
    && (forall u: nat, v: nat :: Edge(g, u, v) ==> Reaches(g, 0, u))
    && (forall b: nat :: Reaches(g, 0, b) ==> CanExit(g, b))
  }

  lemma BranchOfEdge(g: Adj, u: nat, b: nat) returns (i: nat)
    requires Edge(g, u, b)
    ensures Branch(g, u, i, b)
  {
    i :| 0 <= i < |g[u]| && g[u][i] == b;
  }

  /** A block that branches is a full dominator. */
  lemma BranchingIsFullDominator(g: Adj, b: nat)
    requires Prepared(g) && b < |g| && |g[b]| > 1
    ensures FullDominator(g, b)
  {
    forall s: nat, p | Edge(g, b, s) && WalkFromTo(g, p, 0, s) ensures b in p {
      assert |p| > 1;
      var u := p[|p| - 2];
      assert Edge(g, u, p[|p| - 2 + 1]);
      var i := BranchOfEdge(g, b, s);
      var j := BranchOfEdge(g, u, s);
    }
  }

  /** A block never loops straight to itself: it could not reach an exit. */
  lemma NoSelfTrap(g: Adj, b: nat)
    requires Prepared(g) && b < |g| && Reaches(g, 0, b)
    ensures g[b] != [b]
  {
    if g[b] == [b] {
      assert CanExit(g, b);
      var x: nat :| IsExit(g, x) && Reaches(g, b, x);
      var p :| WalkFromTo(g, p, b, x);
      ClosedSetHoldsWalk(g, {b}, p);
      assert false;
    }
  }

  /** With `s` the only successor of its dominator `b`, any other predecessor
      of `s` is reached through `s`. */
  lemma LatchBehindHeader(g: Adj, b: nat, s: nat, x: nat, w: seq<nat>)
    requires Prepared(g) && b < |g| && g[b] == [s] && Dominates(g, b, s) && b != s
    requires Edge(g, x, s) && x != b && WalkFromTo(g, w, 0, x)
    ensures s in w
  {
    EdgeTarget(g, x, s);
    WalkSnoc(g, w, s);
    assert WalkFromTo(g, w + [s], 0, s);
    var k :| 0 <= k < |w| && w[k] == b;
    assert Edge(g, w[k], w[k + 1]);
  }

  lemma {:induction false} LastVisit(w: seq<nat>, s: nat) returns (m: nat)
    requires s in w
    ensures m < |w| && w[m] == s && s !in w[m + 1..]
    decreases |w|
  {
    var n := |w| - 1;
    if w[n] == s {
      m := n;
    } else {
      m := LastVisit(w[..n], s);
      assert w[m + 1..] == w[..n][m + 1..] + [w[n]];
    }
  }

  /** A join whose predecessor is a full dominator heads a loop, and is a full
      dominator itself. */
  lemma HeaderIsFullDominator(g: Adj, b: nat, s: nat)
    requires Prepared(g) && FullDominator(g, b) && Edge(g, b, s) && !SinglePred(g, s)
    ensures FullDominator(g, s)
  {
    hide Prepared;
    var x := OtherPred(g, b, s);
    PreparedFacts(g, x, s);
    PreparedFacts(g, b, s);
    ReachesStep(g, 0, b, s);
    NoSelfTrap(g, b);
    NoSelfTrap(g, s);
    var w :| WalkFromTo(g, w, 0, x);
    LatchBehindHeader(g, b, s, x, w);
    var m := LastVisit(w, s);
    if |g[s]| > 1 {
      BranchingIsFullDominator(g, s);
    } else {
      assert m < |w| - 1;
      var t := w[m + 1];
      assert Edge(g, w[m], w[m + 1]);
      assert g[s] == [t];
      WalkSuffix(g, w, m + 1);
      forall q | WalkFromTo(g, q, 0, t) ensures s in q {
        var r := q + w[m + 1..][1..];
        WalkJoin(g, q, w[m + 1..]);
        LatchBehindHeader(g, b, s, x, r);
        assert w[m + 1..] == [t] + w[m + 1..][1..];
      }
    }
  }

  lemma PreparedFacts(g: Adj, x: nat, s: nat)
    requires Prepared(g) && Edge(g, x, s)
    ensures Reaches(g, 0, x) && s < |g|
  {
    EdgeTarget(g, x, s);
  }

  /** A join below a full dominator has another predecessor, and the full
      dominator does nothing but go there. */
  lemma OtherPred(g: Adj, b: nat, s: nat) returns (x: nat)
    requires Prepared(g) && FullDominator(g, b) && Edge(g, b, s) && !SinglePred(g, s)
    ensures g[b] == [s] && Edge(g, x, s) && x != b
  {
    var i := BranchOfEdge(g, b, s);
    var u: nat, j: nat, v: nat, k: nat :| Branch(g, u, j, s) && Branch(g, v, k, s) && !(u == v && j == k);
    x := if u == b then v else u;
  }

  lemma DominatorInRun(g: Adj, q: seq<nat>, a: nat, b: nat)
    requires CompleteRun(g, q) && b in q && Dominates(g, a, b)
    ensures a in q
  {
    var k :| 0 <= k < |q| && q[k] == b;
    WalkPrefix(g, q, k + 1);
    assert WalkFromTo(g, q[..k + 1], 0, b);
    assert forall y :: y in q[..k + 1] ==> y in q;
  }

  lemma PostDominatorInRun(g: Adj, q: seq<nat>, a: nat, b: nat)
    requires CompleteRun(g, q) && b in q && PostDominates(g, a, b)
    ensures a in q
  {
    var k :| 0 <= k < |q| && q[k] == b;
    WalkSuffix(g, q, k);
    assert forall y :: y in q[k..] ==> y in q;
  }

  /** What counters have to show of any graph: a full dominator is followed by a full
      dominator or a counter, and any other block without a counter is a full
      post-dominator. */
  ghost predicate Shown(g: Adj, counters: set<nat>) {
    && (forall b: nat, s: nat :: FullDominator(g, b) && Edge(g, b, s) && s != 0 ==> FullDominator(g, s) || s in counters)
    && (forall b: nat :: Reaches(g, 0, b) && b != 0 ==> FullDominator(g, b) || FullPostDominator(g, b) || b in counters)
  }

  /** Full dominators: follow the run forward to a counter. */
  lemma {:induction false} FullDominatorCovered(g: Adj, counters: set<nat>, p: seq<nat>, q: seq<nat>, i: nat)
    requires Shown(g, counters) && CompleteRun(g, p) && CompleteRun(g, q)
    requires forall b :: b in p && b in counters ==> b in q
    requires i < |p| && FullDominator(g, p[i])
    ensures p[i] in q
    decreases |p| - i
  {
    assert i < |p| - 1;
    var s := p[i + 1];
    assert Edge(g, p[i], p[i + 1]);
    assert Dominates(g, p[i], s);
    hide Dominates, PostDominates, Reaches, Edge;
    if s == 0 {
      assert q[0] == 0;
    } else if FullDominator(g, s) {
      FullDominatorCovered(g, counters, p, q, i + 1);
    } else {
      assert s in p && s in counters;
    }
    DominatorInRun(g, q, p[i], s);
  }

  /** Everything else: follow the run back through joins to a counter or the entry. */
  lemma {:induction false} BlockCovered(g: Adj, counters: set<nat>, p: seq<nat>, q: seq<nat>, i: nat)
    requires Shown(g, counters) && CompleteRun(g, p) && CompleteRun(g, q)
    requires forall b :: b in p && b in counters ==> b in q
    requires i < |p|
    ensures p[i] in q
    decreases i
  {
    hide FullDominator, FullPostDominator;
    if p[i] == 0 {
      assert q[0] == 0;
    } else if FullDominator(g, p[i]) {
      FullDominatorCovered(g, counters, p, q, i);
    } else if p[i] in counters {
      assert p[i] in p;
    } else {
      VisitedIsReached(g, p, i);
      assert Edge(g, p[i - 1], p[i - 1 + 1]);
      BlockCovered(g, counters, p, q, i - 1);
      FullPostDominatorOf(g, p[i], p[i - 1]);
      PostDominatorInRun(g, q, p[i], p[i - 1]);
    }
  }

  lemma VisitedIsReached(g: Adj, p: seq<nat>, i: nat)
    requires CompleteRun(g, p) && i < |p|
    ensures Reaches(g, 0, p[i])
  {
    WalkPrefix(g, p, i + 1);
    assert WalkFromTo(g, p[..i + 1], 0, p[i]);
  }

  lemma FullPostDominatorOf(g: Adj, b: nat, u: nat)
    requires FullPostDominator(g, b) && Edge(g, u, b)
    ensures PostDominates(g, b, u)
  {
  }

  /** On any graph whose counters show what they have to, split or not, two complete runs
      that hit the same counters ran the same blocks. */
  lemma CountersTell(g: Adj, counters: set<nat>, p: seq<nat>, q: seq<nat>)
    requires Shown(g, counters) && CompleteRun(g, p) && CompleteRun(g, q)
    requires forall b :: b in counters ==> (b in p <==> b in q)
    ensures forall b :: b in p <==> b in q
  {
    hide Shown, CompleteRun;
    forall i | 0 <= i < |p| ensures p[i] in q { BlockCovered(g, counters, p, q, i); }
    forall i | 0 <= i < |q| ensures q[i] in p { BlockCovered(g, counters, q, p, i); }
  }

  ghost function Counters(pass: Pass, noPrune: bool, g: Adj): (c: set<nat>) {
    set b | 0 <= b < |g| && ShouldInstrument(pass, noPrune, g, b)
  }

  /** Splitting the critical edges is enough. */
  lemma PreparedIsShown(pass: Pass, noPrune: bool, g: Adj)
    requires Prepared(g)
    ensures Shown(g, Counters(pass, noPrune, g))
  {
    hide Prepared, SinglePred, FullDominator, FullPostDominator;
    forall b: nat, s: nat | FullDominator(g, b) && Edge(g, b, s) && s != 0
      ensures FullDominator(g, s) || s in Counters(pass, noPrune, g)
    {
      PreparedFacts(g, b, s);
      if !SinglePred(g, s) { HeaderIsFullDominator(g, b, s); }
    }
    forall b: nat | Reaches(g, 0, b) ensures b < |g| { var p :| WalkFromTo(g, p, 0, b); }
  }

  /** The entry of a function that goes anywhere is a full dominator. */
  lemma EntryIsFullDominator(g: Adj)
    requires |g| > 0 && g[0] != []
    ensures FullDominator(g, 0)
  {
  }

  /** Where counters show what they have to, a run of more than one block hits one of them. */
  lemma {:induction false} SomeCounterHit(g: Adj, counters: set<nat>, p: seq<nat>, i: nat) returns (k: nat)
    requires Shown(g, counters) && CompleteRun(g, p) && i < |p| && FullDominator(g, p[i])
    requires forall u: nat :: !Edge(g, u, 0)
    ensures k < |p| && p[k] in counters
    decreases |p| - i
  {
    assert i < |p| - 1;
    var s := p[i + 1];
    assert Edge(g, p[i], p[i + 1]);
    hide Dominates, PostDominates, Reaches, Edge;
    if s in counters {
      k := i + 1;
    } else {
      k := SomeCounterHit(g, counters, p, i + 1);
    }
  }

  /** On a split function every complete run hits a counter, but for one case: the LTO pass
      gives the entry none, and the run ends there in a function of several blocks. */
  lemma RunIsCountedIff(pass: Pass, noPrune: bool, g: Adj, p: seq<nat>)
    requires Prepared(g) && CompleteRun(g, p)
    ensures (exists b :: b in p && ShouldInstrument(pass, noPrune, g, b)) <==>
            !(pass == LTO && !noPrune && |g| > 1 && g[0] == [])
  {
    if g[0] == [] {
      OnlyEntry(g, p);
      assert 0 in p && forall b :: b in p ==> b == 0;
      hide Prepared, FullDominator, FullPostDominator, SinglePred;
    } else {
      PreparedIsShown(pass, noPrune, g);
      EntryIsFullDominator(g);
      NoWayBack(g);
      hide Prepared, Shown, FullDominator, CompleteRun, ShouldInstrument;
      var k := SomeCounterHit(g, Counters(pass, noPrune, g), p, 0);
      assert p[k] in p;
    }
  }

  lemma NoWayBack(g: Adj)
    requires Prepared(g)
    ensures forall u: nat :: !Edge(g, u, 0)
  {
  }

  lemma OnlyEntry(g: Adj, p: seq<nat>)
    requires CompleteRun(g, p) && g[0] == []
    ensures p == [0]
  {
    assert |p| > 1 ==> Edge(g, p[0], p[0 + 1]);
  }

  // ----- which blocks have a counter, told from the complete runs alone

  /** A complete run has visited `a` whenever it visits `b`. */
  ghost predicate RanBefore(g: Adj, a: nat, b: nat) {
    forall p, i :: CompleteRun(g, p) && 0 <= i < |p| && p[i] == b ==> a in p[..i + 1]
  }

  /** A complete run still visits `a` whenever it visits `b`. */
  ghost predicate RunsAfter(g: Adj, a: nat, b: nat) {
    forall p, i :: CompleteRun(g, p) && 0 <= i < |p| && p[i] == b ==> a in p[i..]
  }

  /** Going on to its successors tells that `b` ran, or, where several branches meet in `b`,
      having come from any of them. */
  ghost predicate Redundant(g: Adj, b: nat) {
    || (b < |g| && g[b] != [] && forall s: nat :: Edge(g, b, s) ==> RanBefore(g, b, s))
    || (SeveralBranches(g, b) && forall u: nat :: Edge(g, u, b) ==> RunsAfter(g, b, u))
  }

  /** Two branches lead to `b`, of one block or of two. */
  ghost predicate SeveralBranches(g: Adj, b: nat) {
    exists u: nat, i: nat, v: nat, j: nat :: Branch(g, u, i, b) && Branch(g, v, j, b) && !(u == v && i == j)
  }

  /** A walk to an exit, from a block that a walk from the entry leads to, completes a run. */
  lemma CompletedRun(g: Adj, p: seq<nat>, q: seq<nat>)
    requires Walk(g, p) && p[0] == 0 && Walk(g, q) && p[|p| - 1] == q[0] && IsExit(g, q[|q| - 1])
    ensures CompleteRun(g, p + q[1..])
    ensures (p + q[1..])[..|p|] == p && (p + q[1..])[|p| - 1..] == q
  {
    WalkJoin(g, p, q);
    assert (p + q[1..])[|p| - 1..] == [q[0]] + q[1..] == q;
  }

  lemma DominatesIff(g: Adj, a: nat, b: nat)
    requires Prepared(g) && Reaches(g, 0, b)
    ensures Dominates(g, a, b) <==> RanBefore(g, a, b)
  {
    forall p, i | Dominates(g, a, b) && CompleteRun(g, p) && 0 <= i < |p| && p[i] == b ensures a in p[..i + 1] {
      WalkPrefix(g, p, i + 1);
      assert WalkFromTo(g, p[..i + 1], 0, b);
    }
    forall p | RanBefore(g, a, b) && WalkFromTo(g, p, 0, b) ensures a in p {
      assert CanExit(g, b);
      var x: nat :| IsExit(g, x) && Reaches(g, b, x);
      var q :| WalkFromTo(g, q, b, x);
      CompletedRun(g, p, q);
      assert (p + q[1..])[|p| - 1] == b;
    }
  }

  lemma PostDominatesIff(g: Adj, a: nat, b: nat)
    requires Reaches(g, 0, b)
    ensures PostDominates(g, a, b) <==> RunsAfter(g, a, b)
  {
    forall p, i | PostDominates(g, a, b) && CompleteRun(g, p) && 0 <= i < |p| && p[i] == b ensures a in p[i..] {
      WalkSuffix(g, p, i);
      assert p[i..][0] == b && p[i..][|p[i..]| - 1] == p[|p| - 1];
    }
    var p :| WalkFromTo(g, p, 0, b);
    forall q | RunsAfter(g, a, b) && Walk(g, q) && q[0] == b && IsExit(g, q[|q| - 1]) ensures a in q {
      CompletedRun(g, p, q);
      assert (p + q[1..])[|p| - 1] == b;
    }
  }

  lemma FullDominatorIff(g: Adj, b: nat)
    requires Prepared(g) && b < |g|
    ensures FullDominator(g, b) <==> g[b] != [] && forall s: nat :: Edge(g, b, s) ==> RanBefore(g, b, s)
  {
    forall s: nat | Edge(g, b, s) ensures Dominates(g, b, s) <==> RanBefore(g, b, s) {
      EdgeTarget(g, b, s);
      ReachesStep(g, 0, b, s);
      DominatesIff(g, b, s);
    }
    hide Prepared, Dominates, RanBefore;
  }

  lemma SeveralIff(g: Adj, b: nat)
    ensures (exists u: nat :: Edge(g, u, b)) && !SinglePred(g, b) <==> SeveralBranches(g, b)
  {
    assert forall u: nat, i: nat :: Branch(g, u, i, b) ==> Edge(g, u, b);
    if u: nat :| Edge(g, u, b) {
      var i := BranchOfEdge(g, u, b);
    }
  }

  lemma JoinIff(g: Adj, b: nat)
    requires Prepared(g) && b < |g|
    ensures FullPostDominator(g, b) && !SinglePred(g, b) <==>
            SeveralBranches(g, b) && forall u: nat :: Edge(g, u, b) ==> RunsAfter(g, b, u)
  {
    forall u: nat | Edge(g, u, b) ensures PostDominates(g, b, u) <==> RunsAfter(g, b, u) {
      assert Reaches(g, 0, u);
      PostDominatesIff(g, b, u);
    }
    hide Prepared, PostDominates, RunsAfter, SinglePred, SeveralBranches;
    SeveralIff(g, b);
  }

  /** On a split function the counters are those of the blocks that are not redundant, less
      the LTO pass's entry. */
  lemma CountedIff(pass: Pass, noPrune: bool, g: Adj, b: nat)
    requires Prepared(g) && b < |g|
    ensures ShouldInstrument(pass, noPrune, g, b) <==>
            noPrune || if b == 0 then pass == PCGUARD || |g| == 1 else !Redundant(g, b)
  {
    FullDominatorIff(g, b);
    JoinIff(g, b);
    hide Prepared, FullDominator, FullPostDominator, SinglePred, RanBefore, RunsAfter;
  }

  /** The entry always has a counter in the PCGUARD pass. */
  lemma PcguardCountsEntry(noPrune: bool, g: Adj)
    ensures ShouldInstrument(PCGUARD, noPrune, g, 0)
  {
  }

  /** Two complete runs that hit the same counters ran the same blocks. */
  lemma CleanPruningIsLossless(pass: Pass, noPrune: bool, g: Adj, p: seq<nat>, q: seq<nat>)
    requires Prepared(g) && CompleteRun(g, p) && CompleteRun(g, q)
    requires forall b :: ShouldInstrument(pass, noPrune, g, b) ==> (b in p <==> b in q)
    ensures forall b :: b in p <==> b in q
  {
    hide Prepared, CompleteRun, ShouldInstrument, Shown;
    PreparedIsShown(pass, noPrune, g);
    CountersTell(g, Counters(pass, noPrune, g), p, q);
  }

  // ----- why critical edges must be split

  /** Two loops that only an exception leaves: `2 -> 3 -> 4 -> 2` to the landing pad 5 and
      `7 -> 8 -> 9 -> 7` to the landing pad 10.  The edges into the pads are critical, and
      LLVM does not split those. */
  const TWO_PADS: Adj := [[1, 6], [2], [3, 5], [4, 5], [2], [11], [7], [8, 10], [9, 10], [7], [11], []]

  lemma PadEdges()
    ensures |TWO_PADS| == 12
    ensures forall u: nat, v: nat :: Edge(TWO_PADS, u, v) <==>
              (u, v) in {(0, 1), (0, 6), (1, 2), (2, 3), (2, 5), (3, 4), (3, 5), (4, 2), (5, 11), (6, 7), (7, 8), (7, 10),
                         (8, 9), (8, 10), (9, 7), (10, 11)}
    ensures forall b: nat :: IsExit(TWO_PADS, b) <==> b == 11
    ensures TWO_PADS[1] == [2] && TWO_PADS[2] == [3, 5] && TWO_PADS[3] == [4, 5] && TWO_PADS[5] == [11]
    ensures TWO_PADS[6] == [7] && TWO_PADS[7] == [8, 10] && TWO_PADS[8] == [9, 10] && TWO_PADS[10] == [11]
  {
  }

  /** Only the edges into the pads are. */
  lemma OnlyPadsAreCritical()
    ensures NoCriticalEdges(TWO_PADS, {5, 10}) && !NoCriticalEdges(TWO_PADS, {})
  {
    PadEdges();
    var g := TWO_PADS;
    forall u, i, u', i' | 0 <= u < |g| && 0 <= i < |g[u]| && 0 <= u' < |g| && 0 <= i' < |g[u']|
      && |g[u]| > 1 && g[u][i] == g[u'][i'] && g[u][i] !in {5, 10}
      ensures u == u' && i == i'
    {
      assert Edge(g, u, g[u][i]) && Edge(g, u', g[u'][i']);
      assert u in {0, 2, 3, 7, 8};
    }
    assert g[2][1] == g[3][1];
  }

  /** A walk that avoids `a` stays in a set that can only be left through `a`. */
  lemma {:induction false} AvoidingWalkStays(g: Adj, a: nat, inside: set<nat>, p: seq<nat>)
    requires Walk(g, p) && p[0] in inside && a !in p
    requires forall u: nat, v: nat :: u in inside && Edge(g, u, v) && v != a ==> v in inside
    ensures p[|p| - 1] in inside
    decreases |p|
  {
    if |p| <= 1 {
    } else {
      var n := |p| - 1;
      WalkPrefix(g, p, n);
      assert p[n] in p;
      assert a !in p[..n];
      AvoidingWalkStays(g, a, inside, p[..n]);
      assert Edge(g, p[n - 1], p[n - 1 + 1]);
    }
  }

  lemma DominatesBySet(g: Adj, a: nat, b: nat, inside: set<nat>)
    requires 0 in inside && b !in inside
    requires forall u: nat, v: nat :: u in inside && Edge(g, u, v) && v != a ==> v in inside
    ensures Dominates(g, a, b)
  {
    forall p | WalkFromTo(g, p, 0, b) ensures a in p {
      if a !in p { AvoidingWalkStays(g, a, inside, p); }
    }
  }

  lemma PostDominatesBySet(g: Adj, a: nat, b: nat, inside: set<nat>)
    requires b in inside && forall x :: x in inside ==> !IsExit(g, x)
    requires forall u: nat, v: nat :: u in inside && Edge(g, u, v) && v != a ==> v in inside
    ensures PostDominates(g, a, b)
  {
    forall p | Walk(g, p) && p[0] == b && IsExit(g, p[|p| - 1]) ensures a in p {
      if a !in p { AvoidingWalkStays(g, a, inside, p); }
    }
  }

  /** A block with two incoming branches that post-dominates both sources has no counter. */
  lemma JoinHasNoCounter(pass: Pass, g: Adj, b: nat, u: nat, i: nat, v: nat, j: nat)
    requires b != 0 && Branch(g, u, i, b) && Branch(g, v, j, b) && u != v
    requires forall w: nat :: Edge(g, w, b) ==> w == u || w == v
    requires PostDominates(g, b, u) && PostDominates(g, b, v)
    ensures !ShouldInstrument(pass, false, g, b)
  {
    hide PostDominates, FullDominator;
    assert Edge(g, u, b);
  }

  lemma DominatorHasNoCounter(pass: Pass, g: Adj, b: nat, s: nat, t: nat)
    requires b != 0 && b < |g| && g[b] != [] && (forall v: nat :: Edge(g, b, v) ==> v == s || v == t)
    requires Dominates(g, b, s) && Dominates(g, b, t)
    ensures !ShouldInstrument(pass, false, g, b)
  {
    hide Dominates, FullPostDominator, SinglePred;
  }

  lemma PadDominator(pass: Pass, b: nat, s: nat, t: nat, inside: set<nat>)
    requires (b, s, t, inside) in {(1, 2, 2, {0, 6, 7, 8, 9, 10, 11}), (2, 3, 5, {0, 1, 6, 7, 8, 9, 10, 11}),
                                   (6, 7, 7, {0, 1, 2, 3, 4, 5, 11}), (7, 8, 10, {0, 1, 2, 3, 4, 5, 6, 11})}
    ensures !ShouldInstrument(pass, false, TWO_PADS, b)
  {
    PadEdges();
    hide IsExit, ShouldInstrument, Dominates;
    DominatesBySet(TWO_PADS, b, s, inside);
    DominatesBySet(TWO_PADS, b, t, inside);
    DominatorHasNoCounter(pass, TWO_PADS, b, s, t);
  }

  lemma PadJoin(pass: Pass, b: nat, u: nat, i: nat, v: nat, inside: set<nat>)
    requires (b, u, i, v, inside) in {(5, 2, 1, 3, {2, 3, 4}), (10, 7, 1, 8, {7, 8, 9}), (11, 5, 0, 10, {5, 10})}
    ensures !ShouldInstrument(pass, false, TWO_PADS, b)
  {
    PadEdges();
    PadPreds(b, u, i, v, inside);
    hide IsExit, ShouldInstrument, PostDominates, Edge;
    PostDominatesBySet(TWO_PADS, b, u, inside);
    PostDominatesBySet(TWO_PADS, b, v, inside);
    JoinHasNoCounter(pass, TWO_PADS, b, u, i, v, i);
  }

  lemma PadPreds(b: nat, u: nat, i: nat, v: nat, inside: set<nat>)
    requires (b, u, i, v, inside) in {(5, 2, 1, 3, {2, 3, 4}), (10, 7, 1, 8, {7, 8, 9}), (11, 5, 0, 10, {5, 10})}
    ensures Branch(TWO_PADS, u, i, b) && Branch(TWO_PADS, v, i, b)
    ensures forall w: nat :: Edge(TWO_PADS, w, b) ==> w == u || w == v
    ensures forall w: nat, x: nat :: w in inside && Edge(TWO_PADS, w, x) && x != b ==> x in inside
  {
    PadEdges();
    hide Edge, IsExit;
  }

  lemma UncountedBlocks(pass: Pass)
    ensures forall b :: b in {1, 2, 5, 6, 7, 10, 11} ==> !ShouldInstrument(pass, false, TWO_PADS, b)
  {
    hide ShouldInstrument;
    PadDominator(pass, 1, 2, 2, {0, 6, 7, 8, 9, 10, 11});
    PadDominator(pass, 2, 3, 5, {0, 1, 6, 7, 8, 9, 10, 11});
    PadDominator(pass, 6, 7, 7, {0, 1, 2, 3, 4, 5, 11});
    PadDominator(pass, 7, 8, 10, {0, 1, 2, 3, 4, 5, 6, 11});
    PadJoin(pass, 5, 2, 1, 3, {2, 3, 4});
    PadJoin(pass, 10, 7, 1, 8, {7, 8, 9});
    PadJoin(pass, 11, 5, 0, 10, {5, 10});
  }

  lemma PadRuns()
    ensures CompleteRun(TWO_PADS, [0] + [1] + [2] + [5] + [11]) && CompleteRun(TWO_PADS, [0] + [6] + [7] + [10] + [11])
  {
    PadEdges();
    hide Edge;
    var g := TWO_PADS;
    WalkSnoc(g, [0], 1);
    WalkSnoc(g, [0] + [1], 2);
    WalkSnoc(g, [0] + [1] + [2], 5);
    WalkSnoc(g, [0] + [1] + [2] + [5], 11);
    WalkSnoc(g, [0], 6);
    WalkSnoc(g, [0] + [6], 7);
    WalkSnoc(g, [0] + [6] + [7], 10);
    WalkSnoc(g, [0] + [6] + [7] + [10], 11);
  }

  /** With the critical edges LLVM leaves in, two runs can hit the same counters and share
      only the first and last block. */
  lemma CriticalEdgesLoseBlocks(pass: Pass) returns (p: seq<nat>, q: seq<nat>)
    ensures CompleteRun(TWO_PADS, p) && CompleteRun(TWO_PADS, q)
    ensures forall b :: ShouldInstrument(pass, false, TWO_PADS, b) ==> (b in p <==> b in q)
    ensures 1 in p && 1 !in q && 6 in q && 6 !in p
  {
    hide CompleteRun, ShouldInstrument;
    p, q := [0] + [1] + [2] + [5] + [11], [0] + [6] + [7] + [10] + [11];
    PadRuns();
    UncountedBlocks(pass);
    assert forall b :: b in p <==> b in {0, 1, 2, 5, 11};
    assert forall b :: b in q <==> b in {0, 6, 7, 10, 11};
  }
}
