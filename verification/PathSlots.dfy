/** The map index a run writes at an exit: path base, path register and context, added
    in 32 bits. */
module PathSlots {
  import opened Graph
  import opened BackEdges
  import opened PathAnalysis
  import opened PathRegister
  import opened PathLoops
  import opened AheadRuns
  import opened LargestSum
  import opened LoopRange
  import opened LoopingExample
  import opened Slots
  import opened Words

  /** The index for a stored number under context `cid`. */
  function PathIndex(l: Layout, stored: nat, cid: nat): (i: nat)
    ensures i < U32
  {
    (l.base + stored + l.paths * cid) % U32
  }

  /** The range that is reserved for the context. */
  ghost predicate InContext(l: Layout, index: nat, cid: nat) {
    l.base + l.paths * cid <= index < l.base + l.paths * cid + l.paths
  }

  /** The layout of a function whose paths were given slots. */
  ghost predicate Reserved(l: Layout) {
    Shaped(l) && l.paths > 0 && l.next <= INT32_MAX
  }

  lemma PathsAreReserved(start: nat, f: Slots.Function)
    requires LayoutOf(start, f).paths > 0
    ensures Reserved(LayoutOf(start, f))
  {
  }

  lemma ContextFits(l: Layout, cid: nat)
    requires Reserved(l) && cid < l.contexts
    ensures l.base + l.paths * cid + l.paths <= l.next
  {
    MultiplesApart(l.paths, cid, l.contexts);
  }

  /** Whatever is stored: its index is in the range of its context if and only if it is
      below the number of paths. */
  lemma IndexInContextIff(l: Layout, stored: nat, cid: nat)
    requires Reserved(l) && cid < l.contexts && stored < U32
    ensures InContext(l, PathIndex(l, stored, cid), cid) <==> stored < l.paths
  {
    ContextFits(l, cid);
    var at := l.base + l.paths * cid;
    WrapIndex(at, stored);
    assert PathIndex(l, stored, cid) == (at + stored) % U32;
  }

  lemma WrapIndex(at: nat, stored: nat)
    requires at < U32 && stored < U32
    ensures (at + stored) % U32 == if at + stored < U32 then at + stored else at + stored - U32
  {
  }

  /** An index in the range of its context is a path slot of its function. */
  lemma InContextIsPathSlot(l: Layout, index: nat, cid: nat)
    requires InContext(l, index, cid) && cid < l.contexts
    ensures IsPathSlot(l, index)
  {
    var p: nat := index - l.base - l.paths * cid;
    assert index == PathSlot(l, p, cid);
  }

  /** Every write of every run under every context is in the range of its context. */
  ghost predicate RunsIndexInContext(g: Adj, ends: set<nat>, code: map<Site, nat>, l: Layout) {
    forall p: seq<nat>, cid: nat ::
      Run(g, ends, p) && cid < l.contexts ==> InContext(l, PathIndex(l, Exec(code, p), cid), cid)
  }

  /** That is so if and only if every number stored is below the number of paths. */
  lemma IndicesInContextIff(g: Adj, ends: set<nat>, code: map<Site, nat>, l: Layout)
    requires Reserved(l)
    ensures RunsIndexInContext(g, ends, code, l) <==> StoredInRange(g, ends, code, l.paths)
  {
    hide InContext, PathIndex, Reserved, Shaped;
    if RunsIndexInContext(g, ends, code, l) {
      forall p: seq<nat> | Run(g, ends, p) ensures Exec(code, p) < l.paths {
        FirstContext(l);
        RegisterFits(code, p);
        assert InContext(l, PathIndex(l, Exec(code, p), 0), 0);
        IndexInContextIff(l, Exec(code, p), 0);
      }
    }
    if StoredInRange(g, ends, code, l.paths) {
      forall p: seq<nat>, cid: nat | Run(g, ends, p) && cid < l.contexts
        ensures InContext(l, PathIndex(l, Exec(code, p), cid), cid)
      {
        RegisterFits(code, p);
        IndexInContextIff(l, Exec(code, p), cid);
      }
    }
  }

  lemma FirstContext(l: Layout)
    requires Reserved(l)
    ensures l.contexts > 0
  {
  }

  lemma RegisterFits(code: map<Site, nat>, p: seq<nat>)
    requires p != []
    ensures Exec(code, p) < U32
  {
  }

  /** For a reducible function: if and only if no numbered arc lies on a loop and the
      largest sum without back-edges is below the number of paths. */
  lemma ReducibleIndicesIff(f: PathAnalysis.Function, back: set<Arc>, level: nat, maxPaths: nat, r: Result,
                            code: map<Site, nat>, l: Layout)
    requires Instrumented(f, back, level, maxPaths, r, code) && Reducible(f.succs, back) && maxPaths <= INT32_MAX
    requires Reserved(l) && l.paths == r.numPaths
    ensures Closed(Ahead(f, back)) && Ranked(Ahead(f, back)) && f.succs != []
    ensures var ends := WriteBlocks(f, r);
            RunsIndexInContext(f.succs, ends, code, l) <==>
            && NumberedOffLoops(f.succs, ends, ForwardDag(f, back, level, r.simplified))
            && Most(Ahead(f, back), ends, r.edgeValues, 0) < r.numPaths
  {
    hide *;
    IndicesInContextIff(f.succs, WriteBlocks(f, r), code, l);
    ReducibleInRangeIffGraph(f, back, level, maxPaths, r, code);
  }

  /** In range, what a run of one function writes is below the final location, is no path
      slot of another function, and is a block slot only at its own function's base. */
  lemma InRangeIndexIsOwn(g: Adj, ends: set<nat>, code: map<Site, nat>, start: nat, fs: seq<Slots.Function>,
                          k: nat, m: nat, p: seq<nat>, cid: nat)
    requires k < |fs| && m < |fs| && LayoutAll(start, fs)[k].paths > 0
    requires StoredInRange(g, ends, code, LayoutAll(start, fs)[k].paths)
    requires Run(g, ends, p) && cid < LayoutAll(start, fs)[k].contexts
    ensures var ls := LayoutAll(start, fs);
            var index := PathIndex(ls[k], Exec(code, p), cid);
            && index < FinalLoc(FinalId(start, fs))
            && (m != k ==> !IsPathSlot(ls[m], index))
            && (IsBlockSlot(ls[m], index) ==> index == ls[k].base)
  {
    StartsWhereLastEnded(start, fs, k);
    PathsAreReserved(FinalId(start, fs[..k]), fs[k]);
    var ls := LayoutAll(start, fs);
    var index := PathIndex(ls[k], Exec(code, p), cid);
    IndicesInContextIff(g, ends, code, ls[k]);
    assert InContext(ls[k], index, cid);
    InContextIsPathSlot(ls[k], index, cid);
    hide *;
    FunctionsDoNotOverlap(start, fs, k, m, index);
    SlotsBelowFinalLoc(start, fs, k, index);
  }

  /** Out of range it need not be: enough rounds of one loop write past the map of any
      module. */
  lemma LoopingPassesFinalLoc(back: set<Arc>, level: nat, maxPaths: nat, r: Result, code: map<Site, nat>,
                              start: nat, fs: seq<Slots.Function>, k: nat) returns (p: seq<nat>)
    requires Instrumented(LOOPING, back, level, maxPaths, r, code)
    requires k < |fs| && FinalLoc(FinalId(start, fs)) + 2 < U32
    ensures Run(LOOPING.succs, WriteBlocks(LOOPING, r), p)
    ensures PathIndex(LayoutAll(start, fs)[k], Exec(code, p), 0) > FinalLoc(FinalId(start, fs))
  {
    hide Instrumented, Run, Exec, LayoutAll, FinalId, WriteBlocks;
    var l, end := LayoutAll(start, fs)[k], FinalLoc(FinalId(start, fs));
    LoopingFacts(back, level, maxPaths, r, code);
    LayoutWithin(start, fs, k);
    var m: nat := (end - l.base) / 2;
    p := Pump(LOOPING.succs, WriteBlocks(LOOPING, r), r.edgeValues, ROUND, 1, 3, m);
    RunStores(LOOPING, back, level, maxPaths, r, code, p);
    SmallMod(2 + m * 2);
    WrapIndex(l.base, 2 + m * 2);
  }
}
