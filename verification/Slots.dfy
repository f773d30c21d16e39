/** Map slots handed out by the LTO pass: one id per instrumented location, a
    copy of a function's ids per calling context, and a range for its paths. */
module Slots {

  import opened Arithmetic
  import opened Words

  /** What the pass needs to know of a function: its instrumented locations,
      `call_counter`, whether contexts are on, and `NumPaths` of its entry
      (0 when path coverage skips it). */
  datatype Function = Function(sites: nat, callers: nat, ctxMode: bool, paths: nat)

  /** Contexts are expanded for functions with several callers and more than
      one location. */
  predicate CtxActive(f: Function) {
    f.ctxMode && f.callers > 1 && f.sites > 1
  }

  function Contexts(f: Function): (n: nat)
    ensures n > 0 && (n > 1 <==> f.ctxMode && f.callers > 1 && f.sites > 1) && (n > 1 ==> n == f.callers)
  {
    if CtxActive(f) then f.callers else 1
  }

  /** The slots of one function: ids `start + 1 .. start + sites`, repeated per
      context, then `paths` slots per context from `base` on. */
  datatype Layout = Layout(start: nat, sites: nat, contexts: nat, base: nat, paths: nat, next: nat)

  /** Block slot `id + sites * ctx` of location `i` under context `ctx`. */
  function BlockSlot(l: Layout, i: nat, ctx: nat): nat {
    l.start + 1 + i + l.sites * ctx
  }

  /** Path slot `base + path + cid * NumPaths`. */
  function PathSlot(l: Layout, path: nat, ctx: nat): nat {
    l.base + path + l.paths * ctx
  }

  /** Path coverage is skipped where the range would pass 2^31. */
  function ReservedPaths(base: nat, f: Function): nat {
    if base + f.paths * Contexts(f) > INT32_MAX then 0 else f.paths
  }

  function LayoutOf(start: nat, f: Function): Layout {
    var base := start + f.sites * Contexts(f);
    var paths := ReservedPaths(base, f);
    Layout(start, f.sites, Contexts(f), base, paths, base + paths * Contexts(f))
  }

  class Allocator {
    /** `afl_global_id` */
    var globalId: nat

    constructor (start: nat)
      ensures globalId == if start < 4 then 4 else start
    {
      globalId := if start < 4 then 4 else start;
    }

    /** Pre-increment, as at every instrumented location. */
    method IssueId() returns (id: nat)
      modifies this
      ensures globalId == old(globalId) + 1 && id == globalId
    {
      globalId := globalId + 1;
      id := globalId;
    }

    /** One id per instrumented location. */
    method IssueIds(sites: nat) returns (ids: seq<nat>)
      modifies this
      ensures globalId == old(globalId) + sites && |ids| == sites
      ensures forall i :: 0 <= i < sites ==> ids[i] == old(globalId) + 1 + i
    {
      ids := [];
      for i := 0 to sites
        invariant globalId == old(globalId) + i && |ids| == i
        invariant forall k :: 0 <= k < i ==> ids[k] == old(globalId) + 1 + k
      {
        var id := IssueId();
        ids := ids + [id];
      }
    }

    /** The range of a function's paths, where it still fits. */
    method ReservePaths(f: Function) returns (paths: nat)
      modifies this
      ensures paths == ReservedPaths(old(globalId), f)
      ensures globalId == old(globalId) + paths * Contexts(f)
    {
      paths := 0;
      if f.paths != 0 {
        var reservation := if CtxActive(f) then f.paths * f.callers else f.paths;
        if !(reservation > INT32_MAX || globalId + reservation > INT32_MAX) {
          paths := f.paths;
          globalId := globalId + reservation;
        }
      }
    }

    /** One function: issue its ids, expand contexts, reserve its paths. */
    method InstrumentFunction(f: Function) returns (ids: seq<nat>, l: Layout)
      modifies this
      ensures l == LayoutOf(old(globalId), f) && globalId == l.next
      ensures |ids| == l.sites && forall i :: 0 <= i < |ids| ==> ids[i] == BlockSlot(l, i, 0)
    {
      hide ReservedPaths;
      var start := globalId;
      ids := IssueIds(f.sites);
      var inThisFunction := if f.ctxMode && f.callers > 1 && f.sites > 1 then f.sites else 0;
      if inThisFunction != 0 && f.callers > 1 {
        globalId := globalId + inThisFunction * (f.callers - 1);
        MulStep(f.sites, f.callers);
      }
      var base := globalId;
      var paths := ReservePaths(f);
      l := Layout(start, f.sites, Contexts(f), base, paths, globalId);
    }

    /** All functions of a module, one after the other. */
    method InstrumentModule(fs: seq<Function>) returns (layouts: seq<Layout>)
      modifies this
      ensures layouts == LayoutAll(old(globalId), fs)
      ensures globalId == FinalId(old(globalId), fs)
    {
      layouts := [];
      ghost var start := globalId;
      for i := 0 to |fs|
        invariant layouts == LayoutAll(start, fs[..i]) && globalId == FinalId(start, fs[..i])
      {
        var ids, l := InstrumentFunction(fs[i]);
        assert fs[..i + 1][..i] == fs[..i];
        layouts := layouts + [l];
      }
      assert fs[..|fs|] == fs;
    }
  }

  function FinalId(start: nat, fs: seq<Function>): nat {
    if fs == [] then start else LayoutOf(FinalId(start, fs[..|fs| - 1]), fs[|fs| - 1]).next
  }

  function LayoutAll(start: nat, fs: seq<Function>): (ls: seq<Layout>)
    ensures |ls| == |fs|
  {
    if fs == [] then []
    else LayoutAll(start, fs[..|fs| - 1]) + [LayoutOf(FinalId(start, fs[..|fs| - 1]), fs[|fs| - 1])]
  }

  /** `__afl_final_loc`: the first multiple of 8 above the last id. */
  function FinalLoc(globalId: nat): nat {
    (globalId + 8) / 8 * 8
  }

  // ----- one function

  ghost predicate IsBlockSlot(l: Layout, s: nat) {
    exists i: nat, ctx: nat :: i < l.sites && ctx < l.contexts && s == BlockSlot(l, i, ctx)
  }

  ghost predicate IsPathSlot(l: Layout, s: nat) {
    exists p: nat, ctx: nat :: p < l.paths && ctx < l.contexts && s == PathSlot(l, p, ctx)
  }

  ghost predicate Shaped(l: Layout) {
    && l.contexts > 0 && l.base == l.start + l.sites * l.contexts && l.next == l.base + l.paths * l.contexts
  }

  lemma {:induction false} MultiplesApart(n: nat, i: nat, j: nat)
    requires i < j
    ensures n * i + n <= n * j
    decreases j
  {
    assert n * j == n * (j - 1) + n;
    if i < j - 1 { MultiplesApart(n, i, j - 1); }
  }

  /** A pair (offset below `n`, block) is determined by `offset + n * block`. */
  lemma PairIsUnique(n: nat, a: nat, i: nat, b: nat, j: nat)
    requires a < n && b < n && a + n * i == b + n * j
    ensures a == b && i == j
  {
    if i < j { MultiplesApart(n, i, j); } else if j < i { MultiplesApart(n, j, i); }
  }

  lemma PairIsBounded(n: nat, a: nat, i: nat, m: nat)
    requires a < n && i < m
    ensures a + n * i < n * m
  {
    MultiplesApart(n, i, m);
  }

  lemma BlockSlotsInjective(l: Layout, i: nat, ctx: nat, i': nat, ctx': nat)
    requires i < l.sites && i' < l.sites && BlockSlot(l, i, ctx) == BlockSlot(l, i', ctx')
    ensures i == i' && ctx == ctx'
  {
    PairIsUnique(l.sites, i, ctx, i', ctx');
  }

  lemma PathSlotsInjective(l: Layout, p: nat, ctx: nat, p': nat, ctx': nat)
    requires p < l.paths && p' < l.paths && PathSlot(l, p, ctx) == PathSlot(l, p', ctx')
    ensures p == p' && ctx == ctx'
  {
    PairIsUnique(l.paths, p, ctx, p', ctx');
  }

  /** Block slots fill `start + 1 .. base`, path slots `base .. next - 1`. */
  lemma SlotRanges(l: Layout, s: nat)
    requires Shaped(l)
    ensures IsBlockSlot(l, s) ==> l.start < s <= l.base
    ensures IsPathSlot(l, s) ==> l.base <= s < l.next
  {
    hide BlockSlot, PathSlot;
    if IsBlockSlot(l, s) {
      var i: nat, ctx: nat :| i < l.sites && ctx < l.contexts && s == BlockSlot(l, i, ctx);
      BlockSlotInRange(l, i, ctx);
    }
    if IsPathSlot(l, s) {
      var p: nat, ctx: nat :| p < l.paths && ctx < l.contexts && s == PathSlot(l, p, ctx);
      PathSlotInRange(l, p, ctx);
    }
  }

  lemma BlockSlotInRange(l: Layout, i: nat, ctx: nat)
    requires Shaped(l) && i < l.sites && ctx < l.contexts
    ensures l.start < BlockSlot(l, i, ctx) <= l.base
  {
    PairIsBounded(l.sites, i, ctx, l.contexts);
  }

  lemma PathSlotInRange(l: Layout, p: nat, ctx: nat)
    requires Shaped(l) && p < l.paths && ctx < l.contexts
    ensures l.base <= PathSlot(l, p, ctx) < l.next
  {
    PairIsBounded(l.paths, p, ctx, l.contexts);
  }

  // ----- a module

  /** The layouts of a module follow each other without gaps. */
  lemma {:induction false} LayoutsFollow(start: nat, fs: seq<Function>, k: nat, m: nat)
    requires k < m < |fs|
    ensures var ls := LayoutAll(start, fs);
            Shaped(ls[k]) && Shaped(ls[m]) && ls[k].next <= ls[m].start && ls[m].next <= FinalId(start, fs)
    decreases |fs|
  {
    hide Shaped, LayoutOf;
    var n := |fs| - 1;
    LayoutIsShaped(FinalId(start, fs[..n]), fs[n]);
    if m < n {
      LayoutsFollow(start, fs[..n], k, m);
    } else {
      LayoutWithin(start, fs[..n], k);
    }
  }

  lemma LayoutIsShaped(start: nat, f: Function)
    ensures Shaped(LayoutOf(start, f)) && LayoutOf(start, f).start == start <= LayoutOf(start, f).next
  {
  }

  lemma {:induction false} LayoutWithin(start: nat, fs: seq<Function>, k: nat)
    requires k < |fs|
    ensures Shaped(LayoutAll(start, fs)[k]) && start <= LayoutAll(start, fs)[k].start
    ensures LayoutAll(start, fs)[k].next <= FinalId(start, fs)
    decreases |fs|
  {
    hide Shaped, LayoutOf;
    var n := |fs| - 1;
    LayoutIsShaped(FinalId(start, fs[..n]), fs[n]);
    if k < n { LayoutWithin(start, fs[..n], k); } else if n > 0 { LayoutWithin(start, fs[..n], 0); GrowsFrom(start, fs[..n]); }
  }

  lemma {:induction false} GrowsFrom(start: nat, fs: seq<Function>)
    ensures start <= FinalId(start, fs)
    decreases |fs|
  {
    if fs == [] {
    } else {
      GrowsFrom(start, fs[..|fs| - 1]);
      LayoutIsShaped(FinalId(start, fs[..|fs| - 1]), fs[|fs| - 1]);
    }
  }

  /** Slots of different functions never meet, except that the first path slot
      of a function may be the last id issued before it. */
  lemma FunctionsDoNotOverlap(start: nat, fs: seq<Function>, k: nat, m: nat, s: nat)
    requires k < |fs| && m < |fs|
    ensures var ls := LayoutAll(start, fs);
            && (k != m && IsBlockSlot(ls[k], s) ==> !IsBlockSlot(ls[m], s))
            && (k != m && IsPathSlot(ls[k], s) ==> !IsPathSlot(ls[m], s))
            && (IsPathSlot(ls[k], s) && IsBlockSlot(ls[m], s) ==> s == ls[k].base && m <= k)
  {
    hide IsBlockSlot, IsPathSlot, LayoutAll;
    var ls := LayoutAll(start, fs);
    LayoutWithin(start, fs, k);
    LayoutWithin(start, fs, m);
    SlotRanges(ls[k], s);
    SlotRanges(ls[m], s);
    if k < m { LayoutsFollow(start, fs, k, m); } else if m < k { LayoutsFollow(start, fs, m, k); }
  }

  /** Path 0 under context 0 shares its slot with the last location under the
      last context of the same function, whenever there is such a location. */
  lemma FirstPathSlotIsShared(start: nat, f: Function)
    requires f.sites > 0 && LayoutOf(start, f).paths > 0
    ensures var l := LayoutOf(start, f);
            PathSlot(l, 0, 0) == BlockSlot(l, l.sites - 1, l.contexts - 1)
  {
    var l := LayoutOf(start, f);
    assert l.sites * l.contexts == l.sites + l.sites * (l.contexts - 1);
  }

  /** The last function before `k` that takes any slot takes block slots only. */
  ghost predicate EndsInBlocks(ls: seq<Layout>, k: nat)
    requires k <= |ls|
  {
    k > 0 && if ls[k - 1].sites == 0 && ls[k - 1].paths == 0 then EndsInBlocks(ls, k - 1) else ls[k - 1].paths == 0
  }

  ghost predicate SomeBlockSlot(ls: seq<Layout>, s: nat) {
    exists m :: 0 <= m < |ls| && IsBlockSlot(ls[m], s)
  }

  /** Each function starts where the one before it ended. */
  lemma {:induction false} StartsWhereLastEnded(start: nat, fs: seq<Function>, k: nat)
    requires k < |fs|
    ensures LayoutAll(start, fs)[k] == LayoutOf(FinalId(start, fs[..k]), fs[k])
    ensures LayoutAll(start, fs)[k].start == if k == 0 then start else LayoutAll(start, fs)[k - 1].next
    decreases |fs|
  {
    hide LayoutOf;
    var n := |fs| - 1;
    LayoutIsShaped(FinalId(start, fs[..n]), fs[n]);
    if k < n {
      StartsWhereLastEnded(start, fs[..n], k);
      assert fs[..n][..k] == fs[..k];
    } else if n > 0 {
      assert fs[..n][..n - 1] == fs[..n - 1];
    }
  }

  /** Block slots of other functions than the `k`-th lie at or below its start or above
      its end. */
  lemma BlockSlotsOutside(start: nat, fs: seq<Function>, k: nat, m: nat, s: nat)
    requires k < |fs| && m < |fs| && m != k && IsBlockSlot(LayoutAll(start, fs)[m], s)
    ensures s <= LayoutAll(start, fs)[k].start || LayoutAll(start, fs)[k].next < s
  {
    hide IsBlockSlot, LayoutAll;
    LayoutWithin(start, fs, m);
    SlotRanges(LayoutAll(start, fs)[m], s);
    if k < m { LayoutsFollow(start, fs, k, m); } else { LayoutsFollow(start, fs, m, k); }
  }

  lemma LastBlockSlot(l: Layout)
    requires Shaped(l) && l.sites > 0
    ensures IsBlockSlot(l, l.base)
  {
    MulStep(l.sites, l.contexts);
    assert l.base == BlockSlot(l, l.sites - 1, l.contexts - 1);
  }

  /** The id a function starts from is a block slot exactly when the last slots taken
      before it are block slots. */
  lemma {:induction false} StartIsSharedIff(start: nat, fs: seq<Function>, k: nat)
    requires k < |fs|
    ensures SomeBlockSlot(LayoutAll(start, fs), LayoutAll(start, fs)[k].start) <==> EndsInBlocks(LayoutAll(start, fs), k)
    decreases k
  {
    hide IsBlockSlot, LayoutAll, LayoutOf, FinalId;
    var ls := LayoutAll(start, fs);
    var s := ls[k].start;
    StartsWhereLastEnded(start, fs, k);
    LayoutWithin(start, fs, k);
    SlotRanges(ls[k], s);
    if k == 0 {
      forall m | 0 <= m < |ls| ensures !IsBlockSlot(ls[m], s) {
        LayoutWithin(start, fs, m);
        SlotRanges(ls[m], s);
      }
    } else {
      var l := ls[k - 1];
      LayoutWithin(start, fs, k - 1);
      if l.sites == 0 && l.paths == 0 {
        StartIsSharedIff(start, fs, k - 1);
      } else if l.paths == 0 {
        LastBlockSlot(l);
      } else {
        assert l.base < l.next;
        forall m | 0 <= m < |ls| ensures !IsBlockSlot(ls[m], s) {
          SlotRanges(ls[m], s) by { LayoutWithin(start, fs, m); }
          if m != k - 1 && IsBlockSlot(ls[m], s) { BlockSlotsOutside(start, fs, k - 1, m, s); }
        }
      }
    }
  }

  /** The base of a function with paths, its path slot 0, is also a block slot if and only
      if the function has a location, or the last slots taken before it are block slots. */
  lemma BaseIsSharedIff(start: nat, fs: seq<Function>, k: nat)
    requires k < |fs| && LayoutAll(start, fs)[k].paths > 0
    ensures SomeBlockSlot(LayoutAll(start, fs), PathSlot(LayoutAll(start, fs)[k], 0, 0)) <==>
            fs[k].sites > 0 || EndsInBlocks(LayoutAll(start, fs), k)
  {
    hide IsBlockSlot, LayoutAll, FinalId;
    var l := LayoutAll(start, fs)[k];
    LayoutWithin(start, fs, k);
    StartsWhereLastEnded(start, fs, k);
    assert PathSlot(l, 0, 0) == l.base && l.sites == fs[k].sites;
    if l.sites > 0 {
      LastBlockSlot(l);
    } else {
      StartIsSharedIff(start, fs, k);
    }
  }

  /** It happens across functions too: the second function here has no location of its
      own, and its first path slot is the block slot of the first. */
  lemma SharedAcrossFunctions()
    ensures var ls := LayoutAll(4, [Function(1, 0, false, 0), Function(0, 0, false, 2)]);
            |ls| == 2 && PathSlot(ls[1], 0, 0) == BlockSlot(ls[0], 0, 0) == 5
  {
    var f, g := Function(1, 0, false, 0), Function(0, 0, false, 2);
    assert [f, g][..1] == [f] && [f][..0] == [];
    assert FinalId(4, [f]) == LayoutOf(FinalId(4, []), f).next == 5;
  }

  /** Every slot of the module is below the published map size, which is a multiple of 8. */
  lemma SlotsBelowFinalLoc(start: nat, fs: seq<Function>, k: nat, s: nat)
    requires k < |fs| && (IsBlockSlot(LayoutAll(start, fs)[k], s) || IsPathSlot(LayoutAll(start, fs)[k], s))
    ensures start <= s < FinalLoc(FinalId(start, fs)) && FinalLoc(FinalId(start, fs)) % 8 == 0
    ensures FinalLoc(FinalId(start, fs)) <= FinalId(start, fs) + 8
  {
    hide IsBlockSlot, IsPathSlot, LayoutAll, FinalId;
    LayoutWithin(start, fs, k);
    SlotRanges(LayoutAll(start, fs)[k], s);
    Aligned(FinalId(start, fs));
  }

  lemma Aligned(id: nat)
    ensures id < FinalLoc(id) <= id + 8 && FinalLoc(id) % 8 == 0
  {
  }
}
