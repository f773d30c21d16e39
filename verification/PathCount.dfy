/** `PathAnalysis::computeNumPaths` and `shouldMaxMerge`: how many forward
    paths leave each block, counted bottom-up with an explicit worklist. */
module PathCount {
  import opened Finite
  import opened Graph
  import opened Words

  /** What is left of a function once back-edges are stripped: forward
      successors (none for exit blocks), the exit blocks, and the blocks whose
      branches are collapsed to one decision. */
  datatype Dag = Dag(succs: Adj, exits: set<nat>, merge: set<nat>)

  ghost predicate Valid(d: Dag) {
    && Closed(d.succs)
    && Ranked(d.succs)
    && forall b :: b in d.exits ==> b < |d.succs| && d.succs[b] == []
  }

  ghost function Rank(g: Adj): (rank: seq<nat>)
    requires Ranked(g)
    ensures IsRank(g, rank)
  {
    var rank :| IsRank(g, rank);
    rank
  }

  /** The recursive path count: 1 at an exit; elsewhere the sum over the
      listed successors, or their maximum where the branch is collapsed. */
  ghost function NumPaths(d: Dag, b: nat): nat
    requires Valid(d) && b < |d.succs|
    decreases Rank(d.succs)[b], 1, 0
  {
    if b in d.exits then 1
    else if b in d.merge then MaxOver(d, b, |d.succs[b]|)
    else SumOver(d, b, |d.succs[b]|)
  }

  /** The counts of the first `k` listed successors of `b`, added up. */
  ghost function SumOver(d: Dag, b: nat, k: nat): nat
    requires Valid(d) && b < |d.succs| && k <= |d.succs[b]|
    decreases Rank(d.succs)[b], 0, k
  {
    if k == 0 then 0
    else
      assert Edge(d.succs, b, d.succs[b][k - 1]);
      SumOver(d, b, k - 1) + NumPaths(d, d.succs[b][k - 1])
  }

  ghost function MaxOver(d: Dag, b: nat, k: nat): nat
    requires Valid(d) && b < |d.succs| && k <= |d.succs[b]|
    decreases Rank(d.succs)[b], 0, k
  {
    if k == 0 then 0
    else
      assert Edge(d.succs, b, d.succs[b][k - 1]);
      var c := NumPaths(d, d.succs[b][k - 1]);
      var m := MaxOver(d, b, k - 1);
      if c > m then c else m
  }

  // ----- the count in 64 bits

  /** What `uint64_t` arithmetic makes of the count. */
  ghost function Counted(d: Dag, b: nat): (n: nat)
    requires Valid(d) && b < |d.succs|
    ensures n < U64
    decreases Rank(d.succs)[b], 1, 0
  {
    if b in d.exits then 1
    else if b in d.merge then MaxCounted(d, b, |d.succs[b]|)
    else SumCounted(d, b, |d.succs[b]|)
  }

  ghost function SumCounted(d: Dag, b: nat, k: nat): (n: nat)
    requires Valid(d) && b < |d.succs| && k <= |d.succs[b]|
    ensures n < U64
    decreases Rank(d.succs)[b], 0, k
  {
    if k == 0 then 0
    else
      assert Edge(d.succs, b, d.succs[b][k - 1]);
      (SumCounted(d, b, k - 1) + Counted(d, d.succs[b][k - 1])) % U64
  }

  ghost function MaxCounted(d: Dag, b: nat, k: nat): (n: nat)
    requires Valid(d) && b < |d.succs| && k <= |d.succs[b]|
    ensures n < U64
    decreases Rank(d.succs)[b], 0, k
  {
    if k == 0 then 0
    else
      assert Edge(d.succs, b, d.succs[b][k - 1]);
      var c := Counted(d, d.succs[b][k - 1]);
      var m := MaxCounted(d, b, k - 1);
      if c > m then c else m
  }

  /** The 64-bit count of a block is right if and only if the number of its paths
      fits. */
  lemma CountedExactIff(d: Dag, b: nat)
    requires Valid(d) && b < |d.succs|
    ensures Counted(d, b) == NumPaths(d, b) <==> NumPaths(d, b) < U64
  {
    if NumPaths(d, b) < U64 { CountedExact(d, b); }
  }

  lemma {:induction false} CountedExact(d: Dag, b: nat)
    requires Valid(d) && b < |d.succs| && NumPaths(d, b) < U64
    ensures Counted(d, b) == NumPaths(d, b)
    decreases Rank(d.succs)[b], 1, 0
  {
    if b in d.exits {
    } else if b in d.merge {
      MaxExact(d, b, |d.succs[b]|);
    } else {
      SumExact(d, b, |d.succs[b]|);
    }
  }

  lemma {:induction false} SumExact(d: Dag, b: nat, k: nat)
    requires Valid(d) && b < |d.succs| && k <= |d.succs[b]| && SumOver(d, b, k) < U64
    ensures SumCounted(d, b, k) == SumOver(d, b, k)
    decreases Rank(d.succs)[b], 0, k
  {
    if k == 0 {
    } else {
      assert Edge(d.succs, b, d.succs[b][k - 1]);
      SumExact(d, b, k - 1);
      CountedExact(d, d.succs[b][k - 1]);
    }
  }

  lemma {:induction false} MaxExact(d: Dag, b: nat, k: nat)
    requires Valid(d) && b < |d.succs| && k <= |d.succs[b]| && MaxOver(d, b, k) < U64
    ensures MaxCounted(d, b, k) == MaxOver(d, b, k)
    decreases Rank(d.succs)[b], 0, k
  {
    if k == 0 {
    } else {
      assert Edge(d.succs, b, d.succs[b][k - 1]);
      MaxExact(d, b, k - 1);
      CountedExact(d, d.succs[b][k - 1]);
    }
  }

  // ----- the worklist

  /** `ready` is the source's state 1: the children were pushed. */
  datatype Frame = Frame(bb: nat, ready: bool)

  ghost predicate Pending(stack: seq<Frame>, from: nat, s: nat) {
    exists j :: from <= j < |stack| && stack[j].bb == s
  }

  ghost predicate Open(stack: seq<Frame>, b: nat) {
    exists i :: 0 <= i < |stack| && stack[i].bb == b && stack[i].ready
  }

  /** Everything on the stack or in the table was reached from the entry. */
  ghost predicate FromEntry(d: Dag, stack: seq<Frame>, out: map<nat, nat>) {
    && (forall i :: 0 <= i < |stack| ==> stack[i].bb < |d.succs| && Reaches(d.succs, 0, stack[i].bb))
    && (forall b :: b in out ==> b < |d.succs| && Reaches(d.succs, 0, b))
    && (0 in out || Pending(stack, 0, 0))
  }

  /** A table entry is a sentinel only while its frame is open. */
  ghost predicate Resolved(d: Dag, stack: seq<Frame>, out: map<nat, nat>)
    requires Valid(d)
  {
    forall b :: b in out && b < |d.succs| && !Open(stack, b) ==>
      out[b] == Counted(d, b) && forall s :: s in d.succs[b] ==> s in out
  }

  /** Whatever lies above an open frame is a proper descendant of it. */
  ghost predicate Descends(d: Dag, stack: seq<Frame>)
    requires Valid(d)
  {
    forall i, j :: 0 <= i < j < |stack| && stack[i].ready && stack[i].bb < |d.succs| && stack[j].bb < |d.succs| ==>
      Rank(d.succs)[stack[j].bb] < Rank(d.succs)[stack[i].bb]
  }

  /** Each child of an open frame is in the table or waits above the frame. */
  ghost predicate ChildrenWait(d: Dag, stack: seq<Frame>, out: map<nat, nat>) {
    forall i :: 0 <= i < |stack| && stack[i].ready && stack[i].bb < |d.succs| ==>
      stack[i].bb in out && forall s :: s in d.succs[stack[i].bb] ==> s in out || Pending(stack, i + 1, s)
  }

  ghost predicate Inv(d: Dag, stack: seq<Frame>, out: map<nat, nat>)
    requires Valid(d)
  {
    FromEntry(d, stack, out) && Resolved(d, stack, out) && Descends(d, stack) && ChildrenWait(d, stack, out)
  }

  lemma InitialInv(d: Dag)
    requires Valid(d) && |d.succs| > 0
    ensures Inv(d, [Frame(0, false)], map[])
  {
    ReachesRefl(d.succs, 0);
    assert [Frame(0, false)][0].bb == 0;
  }

  lemma PendingBelow(stack: seq<Frame>, f: Frame, from: nat, s: nat)
    requires Pending(stack + [f], from, s) && s != f.bb
    ensures Pending(stack, from, s)
  {
    var j :| from <= j < |stack + [f]| && (stack + [f])[j].bb == s;
    assert stack[j].bb == s;
  }

  lemma OpenSnoc(stack: seq<Frame>, f: Frame, b: nat)
    ensures Open(stack + [f], b) <==> Open(stack, b) || (f.bb == b && f.ready)
  {
    if Open(stack, b) {
      var i :| 0 <= i < |stack| && stack[i].bb == b && stack[i].ready;
      assert (stack + [f])[i].bb == b;
    }
    assert (stack + [f])[|stack|] == f;
  }

  /** Dropping a frame whose block is in the table keeps what does not
      depend on the table's values. */
  lemma DropFrame(d: Dag, stack: seq<Frame>, f: Frame, out: map<nat, nat>, out': map<nat, nat>)
    requires Valid(d) && FromEntry(d, stack + [f], out) && Descends(d, stack + [f]) && ChildrenWait(d, stack + [f], out)
    requires f.bb in out && out'.Keys == out.Keys
    ensures FromEntry(d, stack, out') && Descends(d, stack) && ChildrenWait(d, stack, out')
  {
    var full := stack + [f];
    assert forall i :: 0 <= i < |stack| ==> full[i] == stack[i];
    assert forall b :: b in out' <==> b in out;
    if 0 !in out { PendingBelow(stack, f, 0, 0); }
    forall i, s | 0 <= i < |stack| && stack[i].ready && stack[i].bb < |d.succs| && s in d.succs[stack[i].bb]
      ensures s in out' || Pending(stack, i + 1, s)
    {
      assert full[i].ready;
      if s !in out { PendingBelow(stack, f, i + 1, s); }
    }
  }

  /** State 0 on a block that is already in the table. */
  lemma SeenStep(d: Dag, stack: seq<Frame>, f: Frame, out: map<nat, nat>)
    requires Valid(d) && Inv(d, stack + [f], out) && !f.ready && f.bb in out
    ensures Inv(d, stack, out)
  {
    hide Counted, Open, Pending, FromEntry, Descends, ChildrenWait;
    DropFrame(d, stack, f, out, out);
    forall b | b in out && b < |d.succs| && !Open(stack, b)
      ensures out[b] == Counted(d, b) && forall s :: s in d.succs[b] ==> s in out
    {
      OpenSnoc(stack, f, b);
    }
  }

  /** At state 1 every child is in the table with its final count: no sentinel is read. */
  lemma ChildrenResolved(d: Dag, stack: seq<Frame>, f: Frame, out: map<nat, nat>, s: nat)
    requires Valid(d) && Inv(d, stack + [f], out) && f.ready && f.bb < |d.succs| && s in d.succs[f.bb]
    ensures s < |d.succs| && s in out && out[s] == Counted(d, s)
  {
    hide Counted;
    var full, n := stack + [f], |stack|;
    assert full[n] == f;
    assert s < |d.succs| by { var k :| 0 <= k < |d.succs[f.bb]| && d.succs[f.bb][k] == s; }
    assert Edge(d.succs, f.bb, s);
    forall i | 0 <= i < |full| && full[i].ready && full[i].bb < |d.succs| ensures full[i].bb != s {
      assert i < n ==> Rank(d.succs)[full[n].bb] < Rank(d.succs)[full[i].bb];
    }
  }

  lemma AggregateStep(d: Dag, stack: seq<Frame>, f: Frame, out: map<nat, nat>)
    requires Valid(d) && Inv(d, stack + [f], out) && f.ready && f.bb < |d.succs|
    ensures f.bb in out && Inv(d, stack, out[f.bb := Counted(d, f.bb)])
  {
    hide Counted, Pending, Open, FromEntry, Descends;
    assert (stack + [f])[|stack|] == f;
    var out' := out[f.bb := Counted(d, f.bb)];
    assert out'.Keys == out.Keys;
    DropFrame(d, stack, f, out, out');
    forall b | b in out' && b < |d.succs| && !Open(stack, b)
      ensures out'[b] == Counted(d, b) && forall s :: s in d.succs[b] ==> s in out'
    {
      OpenSnoc(stack, f, b);
      if b == f.bb {
        forall s | s in d.succs[b] ensures s in out { ChildrenResolved(d, stack, f, out, s); }
      }
    }
  }

  function Children(succs: seq<nat>): (r: seq<Frame>)
    ensures |r| == |succs| && forall i :: 0 <= i < |r| ==> r[i] == Frame(succs[i], false)
  {
    seq(|succs|, i requires 0 <= i < |succs| => Frame(succs[i], false))
  }

  /** State 0 on a new block: sentinel, state 1, children pushed. */
  lemma ExpandStep(d: Dag, stack: seq<Frame>, b: nat, out: map<nat, nat>)
    requires Valid(d) && Inv(d, stack + [Frame(b, false)], out) && b < |d.succs| && b !in out
    ensures Inv(d, stack + [Frame(b, true)] + Children(d.succs[b]), out[b := 0])
  {
    hide Counted, Resolved, Descends, ChildrenWait;
    ExpandKeepsChildren(d, stack, b, out);
    ExpandKeepsRank(d, stack, b, out);
    ExpandKeepsResolved(d, stack, b, out);
    ExpandFromEntry(d, stack, b, out);
  }

  lemma ExpandFromEntry(d: Dag, stack: seq<Frame>, b: nat, out: map<nat, nat>)
    requires Valid(d) && FromEntry(d, stack + [Frame(b, false)], out) && b < |d.succs|
    ensures FromEntry(d, stack + [Frame(b, true)] + Children(d.succs[b]), out[b := 0])
  {
    hide Reaches, Ranked;
    var before, after, n := stack + [Frame(b, false)], stack + [Frame(b, true)] + Children(d.succs[b]), |stack|;
    assert before[n].bb == b;
    forall i | 0 <= i < |after| ensures after[i].bb < |d.succs| && Reaches(d.succs, 0, after[i].bb) {
      if i <= n {
        assert after[i].bb == before[i].bb;
      } else {
        assert after[i].bb == d.succs[b][i - n - 1];
        ReachesStep(d.succs, 0, b, after[i].bb);
      }
    }
    if 0 !in out {
      var j :| 0 <= j < |before| && before[j].bb == 0;
      assert after[j].bb == 0;
    }
  }

  lemma ExpandKeepsResolved(d: Dag, stack: seq<Frame>, b: nat, out: map<nat, nat>)
    requires Valid(d) && Resolved(d, stack + [Frame(b, false)], out)
    requires b < |d.succs|
    ensures Resolved(d, stack + [Frame(b, true)] + Children(d.succs[b]), out[b := 0])
  {
    hide Counted;
    var before, after, n := stack + [Frame(b, false)], stack + [Frame(b, true)] + Children(d.succs[b]), |stack|;
    forall c | c in out[b := 0] && c < |d.succs| && !Open(after, c)
      ensures out[b := 0][c] == Counted(d, c) && forall s :: s in d.succs[c] ==> s in out[b := 0]
    {
      assert after[n].bb == b && after[n].ready;
      forall i | 0 <= i < |before| && before[i].ready ensures before[i].bb != c {
        assert before[i] == after[i];
      }
    }
  }

  lemma ExpandKeepsRank(d: Dag, stack: seq<Frame>, b: nat, out: map<nat, nat>)
    requires Valid(d) && Descends(d, stack + [Frame(b, false)])
    requires b < |d.succs|
    ensures Descends(d, stack + [Frame(b, true)] + Children(d.succs[b]))
  {
    var before, after, n := stack + [Frame(b, false)], stack + [Frame(b, true)] + Children(d.succs[b]), |stack|;
    forall i, j | 0 <= i < j < |after| && after[i].ready && after[i].bb < |d.succs| && after[j].bb < |d.succs|
      ensures Rank(d.succs)[after[j].bb] < Rank(d.succs)[after[i].bb]
    {
      assert i <= n;
      if j > n { assert Edge(d.succs, b, after[j].bb); }
      if i < n { assert before[i] == after[i] && before[n].bb == b; }
      if j < n { assert before[j] == after[j]; }
    }
  }

  lemma ExpandKeepsChildren(d: Dag, stack: seq<Frame>, b: nat, out: map<nat, nat>)
    requires ChildrenWait(d, stack + [Frame(b, false)], out)
    requires b < |d.succs|
    ensures ChildrenWait(d, stack + [Frame(b, true)] + Children(d.succs[b]), out[b := 0])
  {
    var before, after, n := stack + [Frame(b, false)], stack + [Frame(b, true)] + Children(d.succs[b]), |stack|;
    forall i | 0 <= i < |after| && after[i].ready && after[i].bb < |d.succs|
      ensures after[i].bb in out[b := 0]
      ensures forall s :: s in d.succs[after[i].bb] ==> s in out[b := 0] || Pending(after, i + 1, s)
    {
      assert i <= n;
      if i < n { assert before[i] == after[i]; }
      forall s | s in d.succs[after[i].bb] ensures s in out[b := 0] || Pending(after, i + 1, s) {
        if i == n {
          var k :| 0 <= k < |d.succs[b]| && d.succs[b][k] == s;
          assert after[n + 1 + k].bb == s;
        } else if s !in out {
          var j :| i + 1 <= j < |before| && before[j].bb == s;
          assert after[j].bb == s;
        }
      }
    }
  }

  /** An empty worklist leaves exactly the forward-reachable blocks, counted. */
  lemma DoneIsExact(d: Dag, out: map<nat, nat>)
    requires Valid(d) && |d.succs| > 0 && Inv(d, [], out)
    ensures forall b: nat :: b in out <==> b < |d.succs| && Reaches(d.succs, 0, b)
    ensures forall b :: b in out ==> out[b] == Counted(d, b)
  {
    hide Counted;
    assert forall b :: !Open([], b);
    assert !Pending([], 0, 0);
    forall b: nat | b < |d.succs| && Reaches(d.succs, 0, b) ensures b in out {
      var p :| WalkFromTo(d.succs, p, 0, b);
      ClosedSetHoldsWalk(d.succs, out.Keys, p);
    }
  }

  /** The aggregation at state 1. */
  method Aggregate(d: Dag, b: nat, out: map<nat, nat>) returns (total: nat)
    requires Valid(d) && b < |d.succs|
    requires forall s :: s in d.succs[b] ==> s < |d.succs| && s in out && out[s] == Counted(d, s)
    ensures total == Counted(d, b)
  {
    var succs := d.succs[b];
    total := 0;
    if b in d.exits {
      total := 1;
    } else if b in d.merge {
      for k := 0 to |succs|
        invariant total == MaxCounted(d, b, k)
      {
        var c := if succs[k] in out then out[succs[k]] else 0;
        if c > total { total := c; }
      }
    } else {
      for k := 0 to |succs|
        invariant total == SumCounted(d, b, k)
      {
        var c := if succs[k] in out then out[succs[k]] else 0;
        total := (total + c) % U64;
      }
    }
  }

  lemma TopFacts(d: Dag, stack: seq<Frame>, f: Frame, out: map<nat, nat>)
    requires Valid(d) && Inv(d, stack + [f], out)
    ensures f.bb < |d.succs| && out.Keys <= Below(|d.succs|)
  {
    assert (stack + [f])[|stack|] == f;
  }

  /** What the worklist leaves: the 64-bit count of every block it reached. */
  ghost predicate WorklistCounts(d: Dag, counts: map<nat, nat>)
    requires Valid(d)
  {
    && (forall b: nat :: b in counts <==> b < |d.succs| && Reaches(d.succs, 0, b))
    && (forall b :: b in counts ==> counts[b] == Counted(d, b))
  }

  /** The count of the entry, and of every forward-reachable block and no other. */
  method ComputeNumPaths(d: Dag) returns (total: nat, out: map<nat, nat>)
    requires Valid(d) && |d.succs| > 0
    ensures WorklistCounts(d, out) && total == Counted(d, 0)
  {
    hide Inv, Valid, Counted;
    out := map[];
    var stack := [Frame(0, false)];
    InitialInv(d);
    while stack != []
      invariant Inv(d, stack, out)
      decreases Below(|d.succs|) - out.Keys, |stack|
    {
      var top, below := stack[|stack| - 1], stack[..|stack| - 1];
      assert stack == below + [top];
      var b := top.bb;
      TopFacts(d, below, top, out);
      if !top.ready {
        if b in out {
          SeenStep(d, below, top, out);
          stack := below;
          continue;
        }
        ExpandStep(d, below, b, out);
        assert b in Below(|d.succs|);
        assert out[b := 0].Keys == out.Keys + {b};
        out := out[b := 0];
        stack := below + [Frame(b, true)] + Children(d.succs[b]);
        continue;
      }
      forall s | s in d.succs[b] ensures s < |d.succs| && s in out && out[s] == Counted(d, s) {
        ChildrenResolved(d, below, top, out, s);
      }
      AggregateStep(d, below, top, out);
      var sum := Aggregate(d, b, out);
      assert out.Keys == out[b := sum].Keys;
      out := out[b := sum];
      stack := below;
    }
    DoneIsExact(d, out);
    ReachesRefl(d.succs, 0);
    total := if 0 in out then out[0] else 0;
  }

  // ----- what the count means

  lemma OneWay(d: Dag, u: nat, v: nat)
    requires Valid(d) && u < |d.succs| && d.succs[u] == [v] && u !in d.exits && d.merge == {}
    ensures v < |d.succs| && NumPaths(d, u) == NumPaths(d, v) && Counted(d, u) == Counted(d, v)
  {
    assert d.succs[u][0] == v;
    assert SumOver(d, u, 0) == 0 && SumCounted(d, u, 0) == 0;
    assert SumOver(d, u, 1) == SumOver(d, u, 0) + NumPaths(d, v);
    assert SumCounted(d, u, 1) == (SumCounted(d, u, 0) + Counted(d, v)) % U64;
  }

  lemma TwoWays(d: Dag, u: nat, v: nat, w: nat)
    requires Valid(d) && u < |d.succs| && d.succs[u] == [v, w] && u !in d.exits && d.merge == {}
    ensures v < |d.succs| && w < |d.succs|
    ensures NumPaths(d, u) == NumPaths(d, v) + NumPaths(d, w)
    ensures Counted(d, u) == (Counted(d, v) + Counted(d, w)) % U64
  {
    assert d.succs[u][0] == v && d.succs[u][1] == w;
    SumOfTwo(d, u, v, w);
    CountedOfTwo(d, u, v, w);
  }

  lemma SumOfTwo(d: Dag, u: nat, v: nat, w: nat)
    requires Valid(d) && u < |d.succs| && v < |d.succs| && w < |d.succs| && d.succs[u] == [v, w]
    ensures SumOver(d, u, 2) == NumPaths(d, v) + NumPaths(d, w)
  {
    hide NumPaths;
    assert SumOver(d, u, 0) == 0;
    assert SumOver(d, u, 1) == SumOver(d, u, 0) + NumPaths(d, v);
  }

  lemma CountedOfTwo(d: Dag, u: nat, v: nat, w: nat)
    requires Valid(d) && u < |d.succs| && v < |d.succs| && w < |d.succs| && d.succs[u] == [v, w]
    ensures SumCounted(d, u, 2) == (Counted(d, v) + Counted(d, w)) % U64
  {
    hide Counted;
    assert SumCounted(d, u, 0) == 0;
    assert SumCounted(d, u, 1) == (SumCounted(d, u, 0) + Counted(d, v)) % U64;
  }

  /** A block counts at least one path exactly when it can reach an exit. */
  lemma {:induction false} PositiveIffExitReachable(d: Dag, b: nat)
    requires Valid(d) && b < |d.succs|
    ensures NumPaths(d, b) > 0 <==> exists x :: x in d.exits && Reaches(d.succs, b, x)
    decreases Rank(d.succs)[b]
  {
    if b in d.exits {
      ReachesRefl(d.succs, b);
    } else {
      forall k | 0 <= k < |d.succs[b]|
        ensures NumPaths(d, d.succs[b][k]) > 0 <==> exists x :: x in d.exits && Reaches(d.succs, d.succs[b][k], x)
      {
        assert Edge(d.succs, b, d.succs[b][k]);
        PositiveIffExitReachable(d, d.succs[b][k]);
      }
      OverPositive(d, b, |d.succs[b]|);
      ReachesViaChild(d, b);
    }
  }

  lemma {:induction false} OverPositive(d: Dag, b: nat, k: nat)
    requires Valid(d) && b < |d.succs| && k <= |d.succs[b]|
    ensures SumOver(d, b, k) > 0 <==> exists i :: 0 <= i < k && NumPaths(d, d.succs[b][i]) > 0
    ensures MaxOver(d, b, k) > 0 <==> exists i :: 0 <= i < k && NumPaths(d, d.succs[b][i]) > 0
    decreases k
  {
    if k == 0 {
    } else {
      OverPositive(d, b, k - 1);
    }
  }

  lemma ReachesViaChild(d: Dag, b: nat)
    requires Valid(d) && b < |d.succs| && b !in d.exits
    ensures (exists x :: x in d.exits && Reaches(d.succs, b, x)) <==>
            exists i :: 0 <= i < |d.succs[b]| && exists x :: x in d.exits && Reaches(d.succs, d.succs[b][i], x)
  {
    if x :| x in d.exits && Reaches(d.succs, b, x) {
      var p :| WalkFromTo(d.succs, p, b, x);
      assert |p| > 1;
      assert Edge(d.succs, p[0], p[0 + 1]);
      var i :| 0 <= i < |d.succs[b]| && d.succs[b][i] == p[1];
      WalkSuffix(d.succs, p, 1);
      assert WalkFromTo(d.succs, p[1..], d.succs[b][i], x);
    }
    if i :| 0 <= i < |d.succs[b]| && exists x :: x in d.exits && Reaches(d.succs, d.succs[b][i], x) {
      var x :| x in d.exits && Reaches(d.succs, d.succs[b][i], x);
      var p :| WalkFromTo(d.succs, p, d.succs[b][i], x);
      WalkCons(d.succs, b, p);
      assert WalkFromTo(d.succs, [b] + p, b, x);
    }
  }

  /** Collapsing more branches never raises a count. */
  lemma {:induction false} MoreMergingCountsLess(d: Dag, e: Dag, b: nat)
    requires Valid(d) && Valid(e) && b < |d.succs|
    requires d.succs == e.succs && d.exits == e.exits && d.merge <= e.merge
    ensures NumPaths(e, b) <= NumPaths(d, b)
    decreases Rank(d.succs)[b]
  {
    if b !in d.exits {
      forall k | 0 <= k < |d.succs[b]| ensures NumPaths(e, d.succs[b][k]) <= NumPaths(d, d.succs[b][k]) {
        assert Edge(d.succs, b, d.succs[b][k]);
        MoreMergingCountsLess(d, e, d.succs[b][k]);
      }
      OverMonotone(d, e, b, |d.succs[b]|);
    }
  }

  lemma {:induction false} OverMonotone(d: Dag, e: Dag, b: nat, k: nat)
    requires Valid(d) && Valid(e) && d.succs == e.succs && b < |d.succs| && k <= |d.succs[b]|
    requires forall i :: 0 <= i < |d.succs[b]| ==> NumPaths(e, d.succs[b][i]) <= NumPaths(d, d.succs[b][i])
    ensures SumOver(e, b, k) <= SumOver(d, b, k) && MaxOver(e, b, k) <= MaxOver(d, b, k)
    ensures MaxOver(e, b, k) <= SumOver(d, b, k)
    decreases k
  {
    if k == 0 {
    } else {
      OverMonotone(d, e, b, k - 1);
    }
  }

  /** As long as the paths fit, all of this holds of the 64-bit counts. */
  lemma CountedPositiveIff(d: Dag, b: nat)
    requires Valid(d) && b < |d.succs| && NumPaths(d, b) < U64
    ensures Counted(d, b) > 0 <==> exists x :: x in d.exits && Reaches(d.succs, b, x)
  {
    hide NumPaths, Counted, Reaches;
    CountedExact(d, b);
    PositiveIffExitReachable(d, b);
  }

  lemma MoreMergingCountedLess(d: Dag, e: Dag, b: nat)
    requires Valid(d) && Valid(e) && b < |d.succs| && NumPaths(d, b) < U64
    requires d.succs == e.succs && d.exits == e.exits && d.merge <= e.merge
    ensures Counted(e, b) <= Counted(d, b)
  {
    hide NumPaths, Counted;
    MoreMergingCountsLess(d, e, b);
    CountedExact(d, b);
    CountedExact(e, b);
  }
}
