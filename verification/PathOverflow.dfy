/** Where 64-bit path counts go wrong: 64 two-way branches in a row. */
module PathOverflow {
  import opened Graph
  import opened BackEdges
  import opened PathCount
  import opened PathAnalysis
  import opened Bits
  import opened Words

  /** The successors of block `b` in a row of `k` branches of two arms each. */
  function Arms(k: nat, b: nat): (s: seq<nat>) {
    if b >= 3 * k then [] else if b % 3 == 0 then [b + 1, b + 2] else if b % 3 == 1 then [b + 2] else [b + 1]
  }

  function Diamonds(k: nat): (d: Dag)
    ensures |d.succs| == 3 * k + 1
  {
    Dag(seq(3 * k + 1, b requires 0 <= b => Arms(k, b)), {3 * k}, {})
  }

  lemma DiamondsAreValid(k: nat)
    ensures Valid(Diamonds(k))
  {
    var d := Diamonds(k);
    var n := |d.succs|;
    forall u: nat, v: nat | Edge(d.succs, u, v) ensures u < v < n {
      assert v in Arms(k, u);
    }
    var rank := seq(n, i requires 0 <= i < n => (n - i) as nat);
    assert IsRank(d.succs, rank);
    forall b, i | 0 <= b < n && 0 <= i < |d.succs[b]| ensures d.succs[b][i] < n {
      assert Edge(d.succs, b, d.succs[b][i]);
    }
  }

  lemma {:induction false} DiamondCounts(k: nat, i: nat)
    requires i <= k
    ensures Valid(Diamonds(k)) && NumPaths(Diamonds(k), 3 * i) == Pow2(k - i)
    ensures Counted(Diamonds(k), 3 * i) == Pow2(k - i) % U64
    decreases k - i
  {
    hide Pow2, NumPaths, Counted, Valid, Diamonds;
    DiamondsAreValid(k);
    var d, b := Diamonds(k), 3 * i;
    if i == k {
      LastRow(k);
    } else {
      DiamondCounts(k, i + 1);
      DiamondRow(k, i);
      PowerStep(k - i);
      OneWay(d, b + 1, b + 3);
      OneWay(d, b + 2, b + 3);
      TwoWays(d, b, b + 1, b + 2);
      WrapTwice(Pow2(k - i - 1));
    }
  }

  lemma LastRow(k: nat)
    requires Valid(Diamonds(k))
    ensures NumPaths(Diamonds(k), 3 * k) == 1 == Pow2(0) && Counted(Diamonds(k), 3 * k) == 1
  {
  }

  lemma ArmsAt(k: nat, b: nat)
    requires b % 3 == 0 && b < 3 * k
    ensures Arms(k, b) == [b + 1, b + 2] && Arms(k, b + 1) == [b + 3] && Arms(k, b + 2) == [b + 3]
  {
    assert (b + 1) % 3 == 1 && (b + 2) % 3 == 2;
  }

  lemma DiamondRow(k: nat, i: nat)
    requires i < k
    ensures var d, b := Diamonds(k), 3 * i;
      && |d.succs| == 3 * k + 1 && d.merge == {} && b !in d.exits && b + 1 !in d.exits && b + 2 !in d.exits
      && d.succs[b] == [b + 1, b + 2] && d.succs[b + 1] == [b + 3] && d.succs[b + 2] == [b + 3]
  {
    ArmsAt(k, 3 * i);
  }

  lemma PowerStep(n: nat)
    requires n > 0
    ensures Pow2(n) == 2 * Pow2(n - 1)
  {
  }

  lemma {:induction false} WrapMultiple(a: nat, k: nat)
    ensures (a + k * U64) % U64 == a % U64
    decreases k
  {
    if k == 0 {
    } else {
      WrapMultiple(a, k - 1);
      WrapOnce(a + (k - 1) * U64);
    }
  }

  lemma WrapOnce(a: nat)
    ensures (a + U64) % U64 == a % U64
  {
  }

  lemma WrapTwice(x: nat)
    ensures (x % U64 + x % U64) % U64 == 2 * x % U64
  {
    DoubleOf(x, x / U64, x % U64);
  }

  lemma DoubleOf(x: nat, q: nat, r: nat)
    requires x == q * U64 + r
    ensures (r + r) % U64 == 2 * x % U64
  {
    WrapMultiple(2 * r, 2 * q);
  }

  lemma {:induction false} HighPowersWrap(k: nat)
    requires k >= 64
    ensures Pow2(k) % U64 == 0 && Pow2(k) >= U64
    decreases k
  {
    hide Pow2;
    if k == 64 {
      WordIsPower();
    } else {
      HighPowersWrap(k - 1);
      PowerStep(k);
      WrapTwice(Pow2(k - 1));
    }
  }

  /** With 64 branches or more the 64-bit count is 0, as if no exit could be reached. */
  lemma CountWraps(k: nat)
    requires k >= 64
    ensures Valid(Diamonds(k)) && Counted(Diamonds(k), 0) == 0 && NumPaths(Diamonds(k), 0) == Pow2(k) >= U64
  {
    hide Pow2, NumPaths, Counted, Valid;
    HighPowersWrap(k);
    DiamondCounts(k, 0);
  }

  // ----- such a function in the analysis

  /** A function of `k` two-way branches in a row and one exit. */
  function Branches(k: nat): (f: Function) {
    Function(Diamonds(k).succs, {3 * k}, {}, {}, false)
  }

  lemma BranchesAreWellFormed(k: nat)
    ensures WellFormed(Branches(k)) && Acyclic(Branches(k).succs) && !Skipped(Branches(k))
  {
    DiamondsAreValid(k);
    hide Diamonds, Ranked;
    assert 3 * k in Branches(k).exits;
    RankedIsAcyclic(Branches(k).succs);
  }

  lemma BranchesDag(k: nat, back: set<Arc>, level: nat, simplified: bool)
    requires BreaksCycles(Branches(k).succs, back)
    ensures ForwardDag(Branches(k), back, level, simplified) == Diamonds(k)
  {
    BranchesAreWellFormed(k);
    PlainDag(Branches(k), back, level, simplified, Branches(k).succs);
  }

  /** Whatever the level and the cap: from 64 branches on there are `2^k` paths and the
      analysis gives up, without a word about the cap. */
  method BranchesAreSkipped(k: nat, level: nat, maxPaths: nat) returns (r: Result, ghost back: set<Arc>)
    requires k >= 64 && maxPaths < U64
    ensures BreaksCycles(Branches(k).succs, back) && Valid(ForwardDag(Branches(k), back, level, false))
    ensures NumPaths(ForwardDag(Branches(k), back, level, false), 0) == Pow2(k) > maxPaths
    ensures r == Result(0, {}, map[], map[], false, false)
  {
    hide Branches, BreaksCycles, Diamonds, NumPaths, Counted, Valid, Pow2, ForwardDag, WellFormed, Acyclic;
    BranchesAreWellFormed(k);
    CountWraps(k);
    r, back := Analyze(Branches(k), level, maxPaths);
    BranchesDag(k, back, level, false);
  }
}
