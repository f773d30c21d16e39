# AFL++: path coverage, pruning, mutation, minimisation

This project models the parts of AFL++ that compute something hard to see through,
and proves what they compute. Control-flow graphs are blocks `0 .. n-1` with ordered
successor lists, entry 0, a set of exits and a set of guard-only blocks.

- **Path coverage** (`Graph`, `DepthFirst`, `BackEdges`, `PathCount`, `PathOverflow`, `PathIds`,
  `PathAnalysis`, `PathRegister`, `PathLoops`, `LoopArcs`, `AheadRuns`, `LargestSum`,
  `LoopRange`, `SimpleLoops`, `UnwindExample`, `LoopingExample`, `ThrowExample`): the
  Ball-Larus numbering of PathCoverage.h, from the back-edge search to the code that adds
  to the 32-bit path register. The ids of forward runs are exactly `0 .. numPaths - 1`.
  Something else can be stored when counts wrap around, when critical edges are left in,
  and, because the register is set once at entry, when a run loops or goes on after an
  exit. For each of these the exact condition is proved.
- **Coverage pruning** (`Pruning`, `TrapPruning`): on split functions blocks without a
  counter lose no information; on all others it is shown what decides.
- **Map slots** (`Slots`, `PathSlots`) of the LTO pass, with the index a run writes, and
  the **no-abort closure** (`NoAbort`) of the PCGUARD pass.
- **Corpus minimiser** (`CminQueue`, `CminTraces`, `CminWorker`, `CminSelect`): the job
  protocol as a state machine over all interleavings, and the greedy cover.
- **Havoc mutator** (`Shuffle`, `AsciiNumber`, `HavocEdits`, `HavocDraws`, `HavocExact`,
  `HavocRuns`, `Havoc`): all 37 strategies on real buffers. For given random numbers each
  step makes one edit; over all random numbers, the edits of a step and the logs of a whole
  call are exactly those the strategies allow.
- **Virgin map** (`VirginMap`, `Chunks`, `Coverage64`, `Coverage32`): word scans against their
  meaning on bytes.
- **List over a pool** (`PoolList`), **growing buffer** (`PowerRounding`, `Realloc`),
  **hash arithmetic** (`WideMath`, `TailReads`, `LittleEndian`). `Finite`, `Bits`, `Words`
  and `Arithmetic` are shared.

Random numbers are parameters. So are traces, dictionaries, the order of messages and
whether an allocation succeeds.

Where code and comments disagree the model follows the code:

- `next_pow2` promises the next power of two, or 0 on overflow; it smears 32 bits only
  (`PowerRounding.NextPow2Exact`, `PowerRounding.ZeroExact`, `PowerRounding.GapAbove`).
- `afl_realloc` promises to free the buffer and return NULL for a size below 1; the
  code allocates 64 bytes (`Realloc.ZeroRequestAllocates`, `Realloc.Buffer.Realloc`).
- `MUT_ARITH32BE` says big-endian; it adds to the little-endian reading
  (`HavocEdits.Arith32BigIsRightIff`).
- `has_new_bits_unclassified` promises an untouched trace when it returns 0; that needs
  the scanned part to be the whole map (`Coverage64.HasNewBitsUnclassified`,
  `Coverage64.KeptOnZeroIff`).
- The LTO pass issues ids by pre-increment and takes the last one as base of the path
  range, so one slot can be shared (`Slots.BaseIsSharedIff`).
- `emitPathCoverageEdges` takes every critical edge to be split; LLVM leaves edges into
  exception pads and out of indirect branches, and then the register can be wrong
  (`PathRegister.RegisterSumsIff`, `UnwindExample.UnwindRunsCollide`).
- A number of paths above the cap is to be collapsed or reported; from 2^64 paths on it
  can be neither (`PathAnalysis.AnalyzedIff`, `PathOverflow.BranchesAreSkipped`).
- The comments take the path index to stay in its range and nothing to come after a call
  that does not return. A run that goes round a loop can leave the range, and so can one
  that throws and catches (`PathSlots.ReducibleIndicesIff`,
  `PathSlots.LoopingPassesFinalLoc`, `ThrowExample.ThrowLeavesRange`).

## Model

| member | source | states |
|---|---|---|
| `BackEdges.FindBackEdges` | instrumentation/PathCoverage.h:378-437 | the search ends on every graph, irreducible or with unreachable blocks, and drops exactly the arcs that a recursive depth-first search, in the order of the lists, finds to lead back; what it leaves is ranked and acyclic, each arc it drops closes a cycle of kept arcs, and no block is cut off from the entry |
| `BackEdges.StartAt` | instrumentation/PathCoverage.h:395-428 | one call of the closure finds what the recursive search from its root finds, keeps the search invariant (stack is a discovery walk, finish order falls along kept arcs) and reaches every new block from its root |
| `BackEdges.ResumePush` | instrumentation/PathCoverage.h:418-424 | from any stack the explicit search goes on like the recursive one: a newly found block is the recursive call |
| `BackEdges.PopStep` | instrumentation/PathCoverage.h:404-410 | finishing a block keeps the search invariant, with its finish number above all its kept successors' |
| `BackEdges.DropStep` | instrumentation/PathCoverage.h:414-416 | dropping an arc to a block on the stack keeps the search invariant: a kept walk leads back |
| `BackEdges.PushStep` | instrumentation/PathCoverage.h:418-424 | discovering a block keeps the search invariant |
| `BackEdges.SkipStep` | instrumentation/PathCoverage.h:412-426 | passing over an arc to a finished block keeps the search invariant |
| `BackEdges.SearchBreaksCycles` | instrumentation/PathCoverage.h:378-437 | a search that has seen every block has an acyclic rest, with the finish order as rank |
| `BackEdges.AcyclicLosesNothing` | instrumentation/PathCoverage.h:378-437 | an acyclic graph loses no arc, whichever arc set meets the contract |
| `PathCount.ComputeNumPaths` | instrumentation/PathCoverage.h:439-537 | the two-state worklist ends with an entry for exactly the blocks reachable forward, each the 64-bit sum or maximum over its successors |
| `PathCount.Aggregate` | instrumentation/PathCoverage.h:492-529 | the 64-bit sum or maximum over finished children is the 64-bit count of the block |
| `PathCount.ChildrenResolved` | instrumentation/PathCoverage.h:472-519 | in every reachable worklist state the children of a block being aggregated hold their final counts, never the sentinel |
| `PathCount.DoneIsExact` | instrumentation/PathCoverage.h:459-537 | an empty worklist means exact counts for exactly the reachable blocks |
| `PathCount.CountedExactIff` | instrumentation/PathCoverage.h:493-529 | the 64-bit count of a block is its number of paths if and only if that number is below 2^64 |
| `PathOverflow.CountWraps` | instrumentation/PathCoverage.h:513-529 | from 64 two-way branches in a row on there are 2^k paths and they are counted as 0 |
| `PathOverflow.BranchesAreSkipped` | instrumentation/PathCoverage.h:199-229 | so a function of that kind comes back with no path, not simplified and not over the cap, whatever the level and the cap |
| `PathCount.CountedPositiveIff` | instrumentation/PathCoverage.h:493-529 | as long as the paths fit in 64 bits, the computed count is positive if and only if an exit can be reached forward |
| `PathCount.MoreMergingCountedLess` | instrumentation/PathCoverage.h:503-523 | as long as they fit, merging at more blocks never raises the computed count |
| `PathIds.EdgeFits` | instrumentation/PathCoverage.h:249-256 | the value of an edge plus the count behind it is at most the count of its block |
| `PathIds.SumStaysInRange` | instrumentation/PathCoverage.h:231-258 | for every forward path the sum of its edge values plus the count at its end is at most the count at its start, at every level |
| `PathIds.CompleteIdInRange` | instrumentation/PathCoverage.h:231-258 | the id of a complete path is below the number of paths |
| `PathIds.EdgesDisjoint` | instrumentation/PathCoverage.h:249-256 | the id intervals of two successors of an unmerged block are disjoint |
| `PathIds.SharedIdDivergesAtMerge` | instrumentation/PathCoverage.h:241-256 | two different complete paths with one id first part at a merged block |
| `PathIds.StrictIdsAreUnique` | instrumentation/PathCoverage.h:249-256 | where nothing is merged, different complete paths have different ids |
| `PathIds.EveryIdReached` | instrumentation/PathCoverage.h:231-258 | every number below the count is the id of some complete path, if no live successor is listed twice |
| `PathIds.DuplicateWastesId` | instrumentation/PathCoverage.h:252-254 | a live successor listed twice leaves an id that no path has, because the table is keyed by the pair of blocks |
| `PathIds.EveryIdReachedIff` | instrumentation/PathCoverage.h:231-258 | where nothing is merged, every id is used if and only if no reachable block lists a live successor twice |
| `PathIds.IdFixesPrefix` | instrumentation/PathCoverage.h:231-258 | an id inside the interval of an unmerged prefix belongs to a path with that prefix |
| `PathAnalysis.Analyze` | instrumentation/PathCoverage.h:116-262 | on every function: skipped functions, simplification, giving up and the table, as 64-bit counts that may have wrapped around decide them |
| `PathAnalysis.AnalyzedIff` | instrumentation/PathCoverage.h:199-262 | what is decided is right about the paths (simplified exactly above the cap, given up exactly when even that is too much, otherwise exact counts and prefix-sum edge values) if and only if no count that decides something wrapped around below the cap |
| `PathAnalysis.CollapsedAddsNothing` | instrumentation/PathCoverage.h:367-376 | on the table of every function: once simplified, an edge out of a block of three or more forward successors adds nothing; at level 1 no edge out of a guard-only block does, at level 2 none out of one with two forward successors |
| `PathRegister.SharedNumberIsCollapsed` | instrumentation/PathCoverage.h:367-376 | conversely, two complete paths that share a number first part at a block of several forward successors that is collapsed in one of these ways |
| `PathAnalysis.ForwardIsValid` | instrumentation/PathCoverage.h:180-198 | the cached forward graph, exits cut and back-edges dropped, is a ranked graph at every level |
| `PathAnalysis.LevelsAreOrdered` | instrumentation/PathCoverage.h:367-376 | level 1 counts at most level 2, level 2 at most the strict level, at every block, and so do the computed counts as soon as the strict one fits in 64 bits |
| `PathAnalysis.SimplifyingCountsLess` | instrumentation/PathCoverage.h:200-220 | the simplified count is at most the full one, at every block, and so is the computed one as soon as the full one fits in 64 bits |
| `PathAnalysis.AssignRow` | instrumentation/PathCoverage.h:241-256 | one block's edge values: zero where it merges, 64-bit prefix sums otherwise, the last listing of a successor winning |
| `PathAnalysis.AssignEdgeValues` | instrumentation/PathCoverage.h:231-258 | the edge values of all counted blocks, whatever the counts are |
| `PathAnalysis.CountsAreExact` | instrumentation/PathCoverage.h:200-220 | if the number of all paths fits in 64 bits every computed count is exact |
| `PathAnalysis.TabledIsExact` | instrumentation/PathCoverage.h:231-258 | and then so is every edge value |
| `PathRegister.Emit` | instrumentation/PathCoverage.h:567-585 | each insertion point gets the sum of the values of the arcs sent to it, each arc once |
| `PathRegister.RegisterIsSum` | instrumentation/PathCoverage.h:563-585 | where every step adds the value of its edge in 32 bits, the register holds the sum of the edge values along any run that keeps out of unreachable-only blocks, modulo 2^32, back-edges adding nothing |
| `PathRegister.RegisterSumsIff` | instrumentation/PathCoverage.h:563-585 | the register holds that sum after every run if and only if, on every edge a run can take, the code at the top of the target adds the value of the edge in 32 bits |
| `PathRegister.SplitStepsAgree` | instrumentation/PathCoverage.h:573-577 | it does where critical edges are split, except into blocks that hold only `unreachable` |
| `PathRegister.EveryStepAddsItsEdge` | instrumentation/PathCoverage.h:563-585 | whatever the edge values: where critical edges are split, each step adds the value of its edge, at the end of the block it leaves or at the top of the one it enters |
| `PathRegister.ForwardStepSum` | instrumentation/PathCoverage.h:231-258 | along a forward path the table gives the edge values of the analysis |
| `PathRegister.AnalysisGivesGoodTable` | instrumentation/PathCoverage.h:235-256 | every arc with a value leaves a branching block |
| `PathRegister.Instrument` | instrumentation/SanitizerCoverageLTO.so.cc:2771-2808 | analysis and emission together, on every function: code emitted from the table of the analysis if there is more than one path, and from the exact edge values where no deciding count wrapped around |
| `PathRegister.InstrumentedIff` | instrumentation/SanitizerCoverageLTO.so.cc:2771-2808 | such a function is instrumented, as the results below ask for, if and only if its register holds the sum after every run |
| `PathRegister.SplitIsInstrumented` | instrumentation/PathCoverage.h:573-577 | and it is if its critical edges are split |
| `UnwindExample.UnwindRunsCollide` | instrumentation/PathCoverage.h:563-585 | why they have to be: in a function of two calls that unwind to one landing pad, whose edges LLVM leaves unsplit, the paths numbered 1 and 2 both store 2, at every level and cap |
| `PathRegister.RegisterOfWalk` | instrumentation/PathCoverage.h:563-585 | so the register of any walk of an instrumented function is its sum in 32 bits |
| `PathRegister.ForwardSuccsDistinct` | instrumentation/PathCoverage.h:573-577 | splitting leaves no live successor listed twice, if no block lists an unreachable-only one twice |
| `PathRegister.ForwardRunStoresId` | instrumentation/PathCoverage.h:116-262 | a run without back-edges stores its path id, below the number of paths |
| `PathRegister.EveryRegisterValueReached` | instrumentation/PathCoverage.h:231-258 | if no live successor is listed twice, every number below the number of paths is the id of a forward path, which stores it unless it ends in an unreachable-only block |
| `PathRegister.StrictRegisterIsUnique` | instrumentation/PathCoverage.h:367-376 | at the strict level two forward runs that store the same number are the same run |
| `PathRegister.LoopsAddBounded` | instrumentation/PathCoverage.h:563-585 | at every point of a run that takes back-edges and passes exits k times in all, the sum leaves room for the rest below (k+1) times the number of paths |
| `PathRegister.CompleteRunBound` | instrumentation/PathCoverage.h:563-585 | a run up to a write, with k back-edges and passed exits, sums to less than (k+1) times the number of paths |
| `PathRegister.ForwardEndsInWrite` | instrumentation/SanitizerCoverageLTO.so.cc:2881-2886 | a forward path ends at an exit that gets a write |
| `PathLoops.Pump` | instrumentation/PathCoverage.h:563-585 | going round a loop m more times is again a run, and adds m times what the loop adds |
| `PathLoops.CutToSimple` | instrumentation/PathCoverage.h:563-585 | when what loops add vanishes in 32 bits every run has a run without repeated blocks that stores the same number |
| `PathLoops.SimpleRunIsShort` | instrumentation/PathCoverage.h:563-585 | runs without repeated blocks are no longer than the function, so they can be tried one by one |
| `LoopArcs.QuietIffLoopArcsAreZero` | instrumentation/PathCoverage.h:563-585 | the loops of all runs, past exits or not, add nothing if and only if no arc that lies on a loop a run can take has a value |
| `LoopRange.Escape` | instrumentation/PathCoverage.h:579-582 | repeating a step that is not 0 in 32 bits takes a 32-bit register out of every range up to 2^31 |
| `LoopRange.LoopLeavesRange` | instrumentation/PathCoverage.h:563-585 | so a loop that adds something in 32 bits takes some run out of every such range |
| `LoopRange.StoredInRangeIff` | instrumentation/PathCoverage.h:563-585 | for every function, irreducible ones too: all writes of all runs, those after a passed exit included, store numbers in a range up to 2^31 if and only if what loops add vanishes in 32 bits and the runs without repeated blocks are in range |
| `SimpleLoops.LoopsWrapIff` | instrumentation/PathCoverage.h:563-585 | what the loops of all runs add vanishes in 32 bits if and only if it does for the loops that meet no block twice |
| `SimpleLoops.SimpleLoopIsShort` | instrumentation/PathCoverage.h:563-585 | those are at most one longer than the function, so there are finitely many |
| `SimpleLoops.FiniteRangeTest` | instrumentation/PathCoverage.h:563-585 | so for every function finitely many loops and runs decide whether all writes of all runs, of whatever length, are in range |
| `AheadRuns.AheadBound` | instrumentation/PathCoverage.h:152-198 | without back-edges a run has added, since the last write it passed, no more than the number of paths |
| `AheadRuns.FirstTooLarge` | instrumentation/PathCoverage.h:563-585 | a run without back-edges that adds too much has a first write at which it has, where the sum is below twice the number of paths and so has not wrapped around |
| `LargestSum.MostIsBound` | instrumentation/PathCoverage.h:231-258 | no way to a write adds more than the largest sum, computed block by block |
| `LargestSum.AllBelowIff` | instrumentation/PathCoverage.h:231-258 | on a graph without cycles all runs add less than n at every write if and only if that number at the entry is below n |
| `LoopRange.SimpleInRangeIff` | instrumentation/PathCoverage.h:563-585 | in a reducible function the runs without repeated blocks store numbers below the number of paths if and only if no run without back-edges adds too much |
| `LoopRange.SmallLoop` | instrumentation/PathCoverage.h:563-585 | then an arc with a value on a loop of a reducible function lies on a loop that adds something below twice the number of paths |
| `LoopRange.ReducibleInRangeIff` | instrumentation/PathCoverage.h:563-585 | with the cap of 2^31 - 1 both passes set, all writes of all runs of a reducible function store numbers below the number of paths if and only if no arc on a loop has a value and no run without back-edges adds too much |
| `LoopRange.ValuedIffNumbered` | instrumentation/PathCoverage.h:231-258 | an arc has a value if and only if its block is unmerged and reachable forward and a successor listed before it can reach an exit |
| `LoopRange.ReducibleInRangeIffGraph` | instrumentation/PathCoverage.h:563-585 | the same condition on the graph: no numbered arc on a loop, and a largest sum without back-edges below the number of paths |
| `LoopRange.NothingPassedInRangeIff` | instrumentation/PathCoverage.h:563-585 | where no run gets past an exit to a write the first half is the exact condition |
| `LoopRange.ReducibleExitsAreCounted` | instrumentation/SanitizerCoverageLTO.so.cc:2883-2886 | the first exit of a run of a reducible function is one that gets a write |
| `LoopingExample.LoopingBackEdges` | instrumentation/PathCoverage.h:378-437 | whichever arcs are dropped from the example, it is the one that ends its loop |
| `LoopingExample.LoopingLeavesRange` | instrumentation/PathCoverage.h:563-585 | at every level and cap the analysis instruments the example for two paths, and one round of its loop stores the number 2 |
| `ThrowExample.ThrowLeavesRange` | instrumentation/PathCoverage.h:138-172 | why the second half is needed: at every level and cap a split function without any loop, which throws and catches, is instrumented for three paths and stores the number 3 after the catch |
| `TrapPruning.PruningIsLossless` | instrumentation/SanitizerCoverageLTO.so.cc:1591-1628 | so on split functions, where unreachable-only blocks get no counter, the counters of two runs that end tell whether they executed the same set of blocks |
| `TrapPruning.SameBlocksIff` | instrumentation/SanitizerCoverageLTO.so.cc:1591-1628 | on any graph, with unsplit edges or endless loops, for both passes, with and without pruning: two runs that end and agree on the counters execute the same set of blocks if and only if they agree on the blocks after a full dominator that are none and have no counter |
| `TrapPruning.LosslessIfShown` | instrumentation/SanitizerCoverageLTO.so.cc:1591-1628 | so if every block after a full dominator is one too or has a counter, such runs execute the same set of blocks |
| `TrapPruning.SplitShows` | instrumentation/SanitizerCoverageLTO.so.cc:1771-1773 | that holds once critical edges are split, except into unreachable-only blocks |
| `TrapPruning.CutIsPrepared` | instrumentation/SanitizerCoverageLTO.so.cc:1771-1773 | without the blocks that only lead there, such a graph has no critical edge left |
| `TrapPruning.CounterStays` | instrumentation/SanitizerCoverageLTO.so.cc:1596-1627 | and a block that needs a counter in that smaller graph has one |
| `Pruning.CountersTell` | instrumentation/SanitizerCoverageLTO.so.cc:1591-1628 | the same for any graph and any counters that show enough |
| `Pruning.PreparedIsShown` | instrumentation/SanitizerCoveragePCGUARD.so.cc:1347-1375 | which the counters of both passes do where critical edges are split |
| `Pruning.CleanPruningIsLossless` | instrumentation/SanitizerCoverageLTO.so.cc:1591-1628 | losslessness for graphs without unreachable-only blocks |
| `Pruning.RunIsCountedIff` | instrumentation/SanitizerCoverageLTO.so.cc:1591-1628 | on a split function every complete run hits a counter, except in the LTO pass, when pruning, in a function of several blocks whose entry branches nowhere |
| `TrapPruning.EndedRunIsCountedIff` | instrumentation/SanitizerCoverageLTO.so.cc:1591-1628 | the same for the runs that end in functions with unreachable-only blocks, wherever every block after a full dominator is one too or has a counter |
| `Pruning.PcguardCountsEntry` | instrumentation/SanitizerCoveragePCGUARD.so.cc:1347-1375 | the entry always has a counter in the PCGUARD pass |
| `Pruning.CountedIff` | instrumentation/SanitizerCoverageLTO.so.cc:1591-1628 | on a split function, which blocks have a counter, told from complete runs: without pruning all; else all but the LTO entry of a function of several blocks, the blocks every run that visits one of their successors has visited, and the joins every run that visits one of their predecessors goes on to visit |
| `Pruning.BlockCovered` | instrumentation/SanitizerCoveragePCGUARD.so.cc:1347-1375 | each block of a run is in every run that executes all its instrumented blocks |
| `Pruning.FullDominatorCovered` | instrumentation/SanitizerCoverageLTO.so.cc:1623-1626 | the same for a full dominator, by following the run forward to an instrumented block |
| `Pruning.BranchingIsFullDominator` | instrumentation/SanitizerCoverageLTO.so.cc:1519-1531 | a block with several successors dominates all of them once critical edges are split |
| `Pruning.HeaderIsFullDominator` | instrumentation/SanitizerCoverageLTO.so.cc:1519-1547 | a successor with several predecessors of a full dominator is a full dominator itself |
| `Pruning.CriticalEdgesLoseBlocks` | instrumentation/SanitizerCoveragePCGUARD.so.cc:1279-1303 | what is lost where LLVM does not split: in a graph of two loops left by exceptions only, two runs agree on the counters of either pass and share only the first and last block |
| `Pruning.OnlyPadsAreCritical` | instrumentation/SanitizerCoverageLTO.so.cc:1771-1773 | its critical edges all go to landing pads |
| `NoAbort.CollectNoAbort` | instrumentation/SanitizerCoveragePCGUARD.so.cc:559-688 | ends on every call graph with the least set that holds the defined roots and is closed under direct calls to defined functions, which is the set of functions called from a root |
| `NoAbort.AddCallees` | instrumentation/SanitizerCoveragePCGUARD.so.cc:671-684 | draining one function keeps the invariant: all seen functions are called from a root and, unless queued, closed |
| `Slots.Allocator.IssueIds` | instrumentation/SanitizerCoverageLTO.so.cc:2665-2685 | one fresh id per location, in order, above the last one issued |
| `Slots.Allocator.ReservePaths` | instrumentation/SanitizerCoverageLTO.so.cc:2838-2863 | reserves paths times contexts, or nothing when that would pass 2^31 |
| `Slots.Allocator.InstrumentFunction` | instrumentation/SanitizerCoverageLTO.so.cc:2513-2531 | ids, their copies per context and the path range of a function follow each other without a gap |
| `Slots.Allocator.InstrumentModule` | instrumentation/SanitizerCoverageLTO.so.cc:2838-2863 | the layouts of all functions of a module, each starting where the last one ended |
| `Slots.BlockSlotsInjective` | instrumentation/SanitizerCoverageLTO.so.cc:2016-2022 | a location and a context determine their slot |
| `Slots.PathSlotsInjective` | instrumentation/SanitizerCoverageLTO.so.cc:2888-2901 | a path number below the number of paths and a context determine their slot |
| `Slots.SlotRanges` | instrumentation/SanitizerCoverageLTO.so.cc:2861-2863 | block slots of a function lie above its start up to its base, the slots of its path numbers from the base up to its end |
| `Slots.LayoutsFollow` | instrumentation/SanitizerCoverageLTO.so.cc:2513-2531 | the ranges of two functions of a module are apart and below the final id |
| `Slots.FunctionsDoNotOverlap` | instrumentation/SanitizerCoverageLTO.so.cc:2861-2863 | no two functions share a block slot or a slot of their path numbers, and such a slot meets a block slot only at the base of its function |
| `Slots.FirstPathSlotIsShared` | instrumentation/SanitizerCoverageLTO.so.cc:2861-2863 | that meeting happens in any function with a location: its first path slot is its last block slot |
| `Slots.BaseIsSharedIff` | instrumentation/SanitizerCoverageLTO.so.cc:2861-2863 | over a module the base of a function with paths is a block slot if and only if the function has a location, or the last function before it that takes slots takes block slots only |
| `Slots.StartIsSharedIff` | instrumentation/SanitizerCoverageLTO.so.cc:2665-2678 | the id a function starts from is a block slot if and only if the last slots taken before it are |
| `Slots.SharedAcrossFunctions` | instrumentation/SanitizerCoverageLTO.so.cc:2861-2863 | two functions that share a slot |
| `Slots.SlotsBelowFinalLoc` | instrumentation/SanitizerCoverageLTO.so.cc:1333-1345 | every block slot and every slot of a path number is below the final location, which is a multiple of 8 at most 8 past the last id |
| `PathSlots.IndexInContextIff` | instrumentation/SanitizerCoverageLTO.so.cc:2888-2901 | whatever the register holds, the 32-bit index is in the range of its context if and only if the register is below the number of paths |
| `PathSlots.IndicesInContextIff` | instrumentation/SanitizerCoverageLTO.so.cc:2883-2901 | every write of every run is in the range of its context, under every context, if and only if every number stored is below the number of paths |
| `PathSlots.ReducibleIndicesIff` | instrumentation/SanitizerCoverageLTO.so.cc:2883-2901 | for a reducible function: if and only if no numbered arc lies on a loop and the largest sum without back-edges is below the number of paths |
| `PathSlots.InRangeIndexIsOwn` | instrumentation/SanitizerCoverageLTO.so.cc:2883-2901 | then what it writes is below the final location, no path slot of another function, and a block slot only at its own base |
| `PathSlots.LoopingPassesFinalLoc` | instrumentation/SanitizerCoverageLTO.so.cc:2888-2901 | otherwise it need not be: enough rounds of the example write past the map of any module |
| `CminQueue.StepKeepsInv` | afl-cmin.py:518-522 | every step of the dispatcher, of any worker and of the collector keeps: each file is queued, held or done as often as it was sent, one None is left per unfinished worker and is the last job |
| `CminQueue.RunKeepsInv` | afl-cmin.py:562-599 | so does every run, under any interleaving |
| `CminQueue.NeverStuck` | afl-cmin.py:806-833 | in every state that satisfies the invariant and is not final some step is possible |
| `CminQueue.StepLowersMeasure` | afl-cmin.py:562-599 | every step uses up exactly one unit of a measure |
| `CminQueue.RunsEnd` | afl-cmin.py:806-833 | so no run is longer than the measure of its first state |
| `CminQueue.FinalIsExact` | afl-cmin.py:816-833 | in a final state each file was traced as often as it was queued, and one progress message per file was read |
| `CminQueue.BatchesAreAPartition` | afl-cmin.py:806-808 | the batches hold each file exactly once, none is empty or longer than the chunk |
| `CminQueue.BatchAt` | afl-cmin.py:806-808 | the batches take the files in order and are full but for the last |
| `CminQueue.ChunkIsLargest` | afl-cmin.py:806-806 | the chunk size is the largest up to 128 of which every worker can have a full batch, or 1 |
| `CminQueue.EveryFileTracedOnce` | afl-cmin.py:806-833 | a finished run traces every file exactly once and sends one progress message for each |
| `CminTraces.DecodeAllEncodeAll` | afl-cmin.py:616-620 | reading back what was written gives the trace, whatever follows it |
| `CminTraces.AppendedIsStored` | afl-cmin.py:591-595 | a trace appended to a pack is found at the old end of the pack |
| `CminTraces.StoredStays` | afl-cmin.py:591-595 | and stays there when more is appended |
| `CminTraces.DetectItemSize` | afl-cmin.py:305-308 | the narrowest item type that holds the size, and none exactly when not even eight bytes do |
| `CminWorker.Absorb` | afl-cmin.py:586-589 | each tuple of the trace keeps the lower of its old holder and this file; used exactly if one changed |
| `CminWorker.TraceFile` | afl-cmin.py:567-597 | one file keeps the worker's report exact: lowest holders, counts, crashes, the pack byte for byte and the messages in order |
| `CminWorker.RunWorker` | afl-cmin.py:552-599 | after any batches the report holds, per tuple, the lowest holder among the worker's files and the number of occurrences, and is otherwise determined by the order of the files: the pack has the traces of those that improved on the ones before, the messages say where, the crashes are listed in order |
| `CminWorker.LowersIff` | afl-cmin.py:586-589 | a file lowers an index if and only if one of its tuples had no holder with an index as low among the files before it |
| `CminWorker.AbsorbKeepsKept` | afl-cmin.py:586-594 | a file that is still the lowest holder of something was packed when it was traced |
| `CminSelect.MergeLowest` | afl-cmin.py:834-834 | the pointwise minimum of the workers' arrays |
| `CminSelect.MergeIsGlobalLowest` | afl-cmin.py:825-834 | for any split of the files the merged entry of a seen tuple is the lowest file of all that holds it, and that file was packed by its worker |
| `CminSelect.CollectInfo` | afl-cmin.py:814-821 | for any order of messages every packed file has an entry that locates its trace in its worker's pack |
| `CminSelect.KeptHasInfo` | afl-cmin.py:816-821 | a packed file has a trace_info entry when all messages have arrived |
| `CminSelect.CountOneIsUnique` | afl-cmin.py:915-918 | a tuple counted once has one holder |
| `CminSelect.CountedIffSeen` | afl-cmin.py:827-831 | the summed counter of a tuple is positive exactly if some assigned file holds it |
| `CminSelect.PickSoleHolders` | afl-cmin.py:913-927 | the first stage goes through the tuples in order and saves the file of the next tuple counted once whose file is not saved yet, until there is none; each file once, and its trace queued for reading |
| `CminSelect.CombineTraces` | afl-cmin.py:612-621 | the set of all tuples in the jobs of a pack |
| `CminSelect.ReadBack` | afl-cmin.py:929-944 | the tuples read back are exactly those covered by the saved files |
| `CminSelect.PickRest` | afl-cmin.py:946-960 | the second stage covers every tuple seen; each file it adds is the lowest holder of a tuple not covered so far, behind which every tuple in the list was, so that the list is gone through backwards |
| `CminSelect.Minimize` | afl-cmin.py:814-960 | the saved files cover every tuple any file has, no file is saved twice, each was, when saved, the lowest holder of a tuple not yet covered, and the list of saved files is the selection of the two stages |
| `CminSelect.SelectionIsDetermined` | afl-cmin.py:913-960 | the files, their order and the list of tuples leave one selection only |
| `CminSelect.RarestIsNext` | afl-cmin.py:860-960 | with the tuples sorted by how often they occur, most often first, each file of the second stage is the lowest holder of a rarest tuple not yet covered |
| `CminSelect.FinishedRunGathers` | afl-cmin.py:806-833 | the reports at the end of any run of the job protocol are what the selection needs: every file is in exactly one report |
| `CminSelect.WidthsAreValidIff` | afl-cmin.py:733-769 | with the type codes main picks the mark for no file fits its item and is above every file index, and every tuple fits its item exactly if it has a place in the workers' arrays |
| `Shuffle.ShuffleBlock` | include/afl-mutations.h:2308-2334 | the block becomes its swaps with the drawn positions, the rest of the buffer is untouched |
| `Shuffle.SwapsMoveBySource` | include/afl-mutations.h:2318-2330 | each byte comes from the position the swaps composed give, whatever the bytes are |
| `Shuffle.ShuffleIsSingleCycle` | include/afl-mutations.h:2318-2330 | for every choice of random numbers the positions form one single cycle |
| `Shuffle.NoFixedPosition` | include/afl-mutations.h:2318-2330 | so in a block of more than one byte no position keeps its byte |
| `AsciiNumber.ReadNumber` | include/afl-mutations.h:2433-2449 | the value of the longest prefix of the digits that fits in 64 bits signed |
| `AsciiNumber.Modify` | include/afl-mutations.h:2453-2525 | none of the eight changes leaves the signed 64-bit range, and the field keeps at least one and at most its old number of bytes |
| `AsciiNumber.ReadBackDigits` | include/afl-mutations.h:2527-2530 | the printed digits read back as the number |
| `AsciiNumber.DecimalPrints` | include/afl-mutations.h:2527-2530 | what is printed is a minus exactly for negative numbers, then digits that read back as the magnitude |
| `AsciiNumber.ModifyMeans` | include/afl-mutations.h:2451-2525 | the eight strategies: one more, one less, twice, half toward zero, a draw, the draw more, the draw less, the complement, of the value or, where that could leave 64 bits, of the value without its last digit |
| `HavocEdits.NumberEditMeans` | include/afl-mutations.h:2426-2563 | the edit prints that value over the digits of the signed number read, or over all but the last of them |
| `AsciiNumber.DecimalFits` | include/afl-mutations.h:2527-2530 | a printed 64-bit number has at most 20 characters |
| `HavocEdits.ExchangeTwice` | include/afl-mutations.h:2246-2288 | exchanging two blocks is its own inverse |
| `HavocEdits.AllowedKeepsLength` | include/afl-mutations.h:1876-2748 | whatever a strategy is allowed to do is legal and leaves between 1 and max_len bytes |
| `HavocExact.DecisionIff` | include/afl-mutations.h:1876-2748 | for each of the 37 strategies and every input: an edit, or another draw, comes out for some random numbers if and only if the strategy allows it there |
| `HavocExact.DecisionFits` | include/afl-mutations.h:1876-2748 | whatever numbers are drawn, the edit decided on is one the strategy allows, and a redraw one that may happen |
| `HavocExact.EveryEdit` | include/afl-mutations.h:1876-2748 | every allowed edit is decided on for some numbers |
| `HavocRuns.LogsIff` | include/afl-mutations.h:1874-2748 | over whole calls: the logs that some numbers give are exactly those that follow the drawn strategies, stop with the last step, and make an allowed edit or a possible redraw each time |
| `HavocEdits.ByteStepChanges` | include/afl-mutations.h:1884-2244 | a byte strategy other than an interesting value never writes back the byte it found |
| `HavocEdits.ByteStepIff` | include/afl-mutations.h:1884-2244 | what the byte strategies may write: a byte that differs in exactly one bit, any other byte, the byte mirrored in 0 to 255, a byte up to 35 or exactly 1 further up or down round the 256, an interesting value |
| `HavocEdits.ArithMeaning` | include/afl-mutations.h:1977-2073 | word arithmetic adds or subtracts modulo the word size in the byte order of its strategy |
| `HavocEdits.Arith32BigAddsLittle` | include/afl-mutations.h:2075-2087 | adding to a 32-bit big-endian word in fact adds to its little-endian reading |
| `HavocEdits.Arith32BigIsRightIff` | include/afl-mutations.h:2075-2087 | so the big-endian reading grows by the addend if and only if 1 is added to four bytes of 0xff |
| `HavocDraws.Below` | include/afl-fuzz.h:1530-1557 | a number below the limit, 0 for a limit of 0 or 1 |
| `HavocDraws.BelowIs` | include/afl-fuzz.h:1530-1557 | each number below the limit can be drawn |
| `HavocDraws.ChooseBlockLen` | include/afl-mutations.h:1773-1812 | a length from 1 to the limit and to 32, 128 or 32768 as the cycle count allows, and 1 for the limit 0 |
| `HavocDraws.EveryBlockLen` | include/afl-mutations.h:1773-1812 | each of these lengths is drawn for some numbers |
| `HavocDraws.BlockLenRange` | include/afl-mutations.h:1773-1812 | late in a run each third of the numbers stands for one range of lengths, and a tenth of the last third for the longest blocks |
| `HavocExact.RandomFill` | include/afl-mutations.h:2147-2151 | a constant block repeats any byte, or the byte before its place |
| `HavocDraws.NewByteIff` | include/afl-mutations.h:1884-2244 | a byte can be written if and only if the strategy allows it |
| `HavocDraws.WordIsAllowed` | include/afl-mutations.h:1905-2087 | the word written is one the strategy allows |
| `HavocDraws.EveryWord` | include/afl-mutations.h:1905-2087 | and each of those is written for some number |
| `HavocDraws.EndOfNumber` | include/afl-mutations.h:2426-2448 | where a number that is found ends does not depend on how it is read |
| `Havoc.Mutator.ReplaceVia` | include/afl-mutations.h:2102-2180 | head, block and tail put together in the scratch buffer replace the input |
| `Havoc.Mutator.ExchangeBlocks` | include/afl-mutations.h:2246-2288 | two disjoint blocks of the input change places through the scratch buffer |
| `Havoc.Mutator.InsertInPlace` | include/afl-mutations.h:2626-2646 | the tail moves up and the token goes in between |
| `Havoc.Mutator.Delete` | include/afl-mutations.h:2290-2306 | the tail moves down over the deleted bytes |
| `Havoc.Mutator.CloneMutation` | include/afl-mutations.h:2102-2180 | for the numbers drawn, inserts the copy or the constant block, or keeps a short input, or asks for another draw, each exactly when the sizes say so |
| `Havoc.Mutator.OverwriteMutation` | include/afl-mutations.h:2182-2217 | for the numbers drawn, overwrites the block by the copy or the constant |
| `Havoc.Mutator.SwitchMutation` | include/afl-mutations.h:2246-2288 | for the numbers drawn, exchanges two blocks that cannot overlap |
| `Havoc.Mutator.DeleteMutation` | include/afl-mutations.h:2290-2306 | for the numbers drawn, deletes the block, never the whole input |
| `Havoc.Mutator.ShuffleMutation` | include/afl-mutations.h:2308-2334 | for the numbers drawn, shuffles the block inside the input |
| `Havoc.Mutator.InsertOneMutation` | include/afl-mutations.h:2355-2382 | for the numbers drawn, inserts the byte unless that passes max_len |
| `Havoc.Mutator.AsciiMutation` | include/afl-mutations.h:2384-2563 | for the numbers drawn, both write-back branches replace the number found by the decimal form of its changed value, within max_len |
| `Havoc.Mutator.InsertAsciiMutation` | include/afl-mutations.h:2565-2606 | overwrites bytes by the last digits of the number drawn, inside the input |
| `Havoc.Mutator.TokenMutation` | include/afl-mutations.h:2608-2686 | overwrites or inserts the token drawn only where it fits |
| `Havoc.Mutator.SpliceMutation` | include/afl-mutations.h:2688-2740 | overwrites or inserts the block of the other input drawn, one-byte inputs included |
| `Havoc.Mutator.FindDigit` | include/afl-mutations.h:2388-2424 | finds the first digit from the start on, wrapping once, if and only if there is one |
| `Havoc.Mutator.Step` | include/afl-mutations.h:1876-2748 | one attempt at any of the 37 strategies makes the edit the numbers decide on in the buffer, or changes nothing and asks for another draw |
| `Havoc.Mutator.Mutate` | include/afl-mutations.h:1874-2748 | the step loop logs what the draws give until enough steps were done; replaying the log of edits gives the buffer |
| `Havoc.AflMutate` | include/afl-mutations.h:1814-2748 | no buffer, no input or no memory for a scratch buffer that is needed gives 0 and changes nothing; otherwise the result follows the strategies drawn from the chosen table, is the replay of the log, and is between 1 and max_len bytes long |
| `HavocRuns.ReplayKeepsLength` | include/afl-mutations.h:1876-2748 | over every log of allowed edits the input keeps between 1 and max_len bytes |
| `VirginMap.VerdictConcat` | src/afl-fuzz-bitmap.c:234-267 | the verdict on two pieces of a map is the larger of their verdicts |
| `VirginMap.Class8IsClass` | src/afl-fuzz-bitmap.c:50-63 | the class of a hit count is its highest set bit, 0 for 0 |
| `VirginMap.ClassIsUnique` | src/afl-fuzz-bitmap.c:50-63 | and no other number is |
| `VirginMap.AfterIsStartMinusSeen` | include/coverage-64.h:102-124 | over any run the virgin map is the start map without the union of the classified traces |
| `VirginMap.ClearedDrops` | include/coverage-64.h:102-124 | a find lowers the number of set virgin bits |
| `VirginMap.FindsAreBounded` | src/afl-fuzz-bitmap.c:225-267 | over any run at most 8 traces per map byte are finds |
| `VirginMap.SecondTimeNothing` | src/afl-fuzz-bitmap.c:225-267 | the same trace is never a find twice in a row |
| `Coverage64.DiscoverWord` | include/coverage-64.h:96-126 | one word raises the verdict to that of its eight bytes and clears their bits |
| `Coverage64.SplitCleared` | include/coverage-64.h:122-122 | clearing a word clears its bytes one by one |
| `Coverage64.SplitNewBits` | include/coverage-64.h:102-102 | a word has a bit in common with the virgin word if and only if one of its bytes has |
| `Coverage64.SplitClassified` | include/coverage-64.h:30-43 | four 16-bit lookups classify the eight bytes one by one |
| `Coverage64.HasNewBits` | src/afl-fuzz-bitmap.c:234-267 | the scan returns 2 for a byte hit for the first time, 1 for a new hit-count class only, 0 for nothing new, and clears exactly the bits seen |
| `Coverage64.ClassifyCounts` | include/coverage-64.h:77-92 | replaces every byte of the map in place by its highest set bit |
| `Coverage64.Skim` | include/coverage-64.h:197-210 | 1 if and only if classifying the raw trace would bring new bits |
| `Coverage64.HasNewBitsUnclassified` | src/afl-fuzz-bitmap.c:279-300 | skimming first gives what classifying and scanning gives; the slow path is taken exactly if the whole map has new bits, and what the trace then holds |
| `Coverage64.KeptOnZeroIff` | src/afl-fuzz-bitmap.c:269-300 | every trace has its old bytes whenever 0 is returned if and only if the scanned part is the whole map, for every map size |
| `Coverage64.OverwrittenForNothing` | src/afl-fuzz-bitmap.c:269-300 | for every smaller part a trace whose bytes change although 0 is returned |
| `Chunks.ScanStep` | src/afl-fuzz-bitmap.c:253-260 | for any word size: one more chunk scanned is the map scanned that far |
| `Chunks.FreshAnywhere` | include/coverage-64.h:197-210 | for any word size: a raw map brings new bits if and only if one of its chunks does |
| `Coverage32.DiscoverWord` | include/coverage-32.h:86-113 | the same for four bytes |
| `Coverage32.DiscoverHalves` | include/coverage-32.h:86-113 | two 32-bit steps on the halves of a word do what one 64-bit step does |
| `Coverage32.SplitClassified` | include/coverage-32.h:26-37 | two 16-bit lookups classify the four bytes one by one |
| `Coverage32.HasNewBits` | src/afl-fuzz-bitmap.c:243-267 | the 32-bit scan has the same meaning on bytes |
| `Coverage32.ClassifyCounts` | include/coverage-32.h:67-82 | so does the 32-bit classification |
| `Coverage32.Skim` | include/coverage-32.h:117-130 | and the 32-bit skim |
| `Coverage32.FreshAgrees` | include/coverage-32.h:117-130 | a raw 64-bit word is worth a closer look if and only if one of its halves is |
| `Coverage32.SameBytes` | include/coverage-32.h:86-130 | a map cut into 32-bit words has the bytes of the map cut into 64-bit words |
| `Coverage32.ScansAgree` | include/coverage-32.h:86-113 | both scans of the same memory return the same verdict and leave the same virgin bytes |
| `Coverage32.SkimsAgree` | include/coverage-32.h:116-130 | the 32-bit and the 64-bit skim of the same memory give the same answer |
| `Coverage32.ClassificationsAgree` | include/coverage-32.h:67-82 | and both classifications leave the same bytes |
| `PoolList.LinkIn` | include/list.h:91-94 | an element linked in front of the head extends the ring at its end, all neighbours pointing at each other |
| `PoolList.LinkOut` | include/list.h:156-157 | taking an element out leaves the ring of the others |
| `PoolList.PreAlloc` | include/afl-prealloc.h:60-90 | while fewer than 64 are taken the scan finds the first unused element, afterwards a new one is made if there is memory; the counter counts the used pool elements, which are the taken ones |
| `PoolList.PreFree` | include/afl-prealloc.h:109-142 | the double-free and negative-counter errors meet exactly the elements that are not taken; otherwise the books are kept and the element is unused |
| `PoolList.SomeUnused` | include/afl-prealloc.h:60-90 | below the pool size some element is unused |
| `PoolList.List.Append` | include/list.h:72-96 | from any valid list, the first use included, the contents grow by the item at the end; fails exactly for want of memory once the pool is used up |
| `PoolList.List.Remove` | include/list.h:150-168 | succeeds if and only if the item is there, and takes out its first occurrence |
| `PoolList.List.Contains` | include/list.h:172-182 | true if and only if the item is there |
| `PoolList.List.Clear` | include/list.h:136-146 | visits all items once in order and leaves the list empty |
| `PoolList.List.Unlink` | include/list.h:125-132 | removing the element at a position keeps ring, contents and books |
| `PowerRounding.NextPow2Exact` | include/alloc-inl.h:608-627 | the result is the least power of two not below the argument if and only if the argument is from 1 to 2^63 and one less than it has no 32 zero bits in a row below its highest bit |
| `PowerRounding.ZeroExact` | include/alloc-inl.h:605-627 | zero, the answer to an overflow, comes out exactly for 0 and above 2^63 without such a gap |
| `PowerRounding.SmearFills` | include/alloc-inl.h:619-624 | the five shifts fill all bits below the highest if and only if there is no gap |
| `PowerRounding.SmearBits` | include/alloc-inl.h:619-624 | a bit is set after the five shifts if and only if one of the 32 bits from it up was set |
| `PowerRounding.IsLeast` | include/alloc-inl.h:605-627 | no smaller power of two will do |
| `PowerRounding.GapAbove` | include/alloc-inl.h:619-625 | one past 2^k, for every k from 32 to 62, the result is no power of two |
| `Realloc.Buffer.Realloc` | include/alloc-inl.h:665-718 | old bytes stay, new ones are zero, the stored size is right; the room covers the request if and only if request and header fit in 64 bits; NULL comes back exactly for a refused growth, which frees the buffer, or a request that wraps to nothing on NULL |
| `Realloc.Enlarge` | include/alloc-inl.h:700-716 | moving, clearing and writing the size in front keeps the contents |
| `Realloc.NextSizeFits` | include/alloc-inl.h:685-698 | the new size is at least 64 and at least what is needed, overflow included |
| `Realloc.RunAmortized` | include/alloc-inl.h:665-718 | over any run of requests that round, the size is a power of two from 64 up, covers all requests, is less than twice the largest or 64, and less was moved than it |
| `Realloc.AllAmortizedIff` | include/alloc-inl.h:665-718 | all of that holds over all runs of requests up to a bound if and only if the bound is at most 2^32 bytes in all |
| `Realloc.AllMoveLessIff` | include/alloc-inl.h:665-718 | that less is moved than the buffer holds, alone, if and only if the bound is below 2^33 |
| `Realloc.ZeroRequestAllocates` | include/alloc-inl.h:685-698 | a request for nothing gets 64 bytes |
| `Realloc.SmallRounds` | include/alloc-inl.h:619-625 | every request up to 2^32 bytes in all rounds |
| `Realloc.AmortizationFails` | include/alloc-inl.h:685-698 | past 2^32, at every power of two, three requests move more than the buffer ends up holding |
| `WideMath.Add64CarryFirst` | include/t1ha_bits.h:1117-1133 | sum and carry are the exact sum |
| `WideMath.Add64CarryNext` | include/t1ha_bits.h:1135-1152 | sum and carry are the exact sum with the carry in |
| `WideMath.Add64CarryLast` | include/t1ha_bits.h:1154-1170 | the sum up to a multiple of 2^64, and exact where it fits |
| `WideMath.Mul64x64To128` | include/t1ha_bits.h:1173-1204 | high and low word are exactly the 128-bit product, through both carry chains |
| `WideMath.Add128` | include/t1ha_bits.h:1370-1382 | the sum modulo 2^128 |
| `WideMath.Mul128` | include/t1ha_bits.h:1384-1397 | the product modulo 2^128 |
| `TailReads.ForwardReadsTail` | include/t1ha_bits.h:681-683 | one masked read is the little-endian value of the tail |
| `TailReads.UndersideReadsTail` | include/t1ha_bits.h:769-776 | one shifted read that ends with the tail is too |
| `TailReads.ByteReadsTail` | include/t1ha_bits.h:812-844 | so is the byte switch, through every fall-through |
| `TailReads.MixedReadsTail` | include/t1ha_bits.h:691-714 | so is the switch that reads half and quarter words |
| `TailReads.TailFormsAgree` | include/t1ha_bits.h:676-850 | all forms that may be used read the same number, for every tail length |
| `LittleEndian.DecodeEncode` | afl-cmin.py:593-593 | a number written in enough bytes reads back |
| `LittleEndian.EncodeDecode` | afl-cmin.py:617-619 | bytes read as a number write back |
| `LittleEndian.SwapMeansBig` | include/types.h:133-148 | storing a swapped word makes its big-endian reading the word |
| `LittleEndian.SwapTwice` | include/types.h:133-148 | swapping twice changes nothing |

## Left out

- PathAnalysis.Analyze: setjmp and coroutine detection is one flag.
- PathRegister.RegisterSumsIff: the entry has no predecessor, as in every LLVM function.
- SimpleLoops.FiniteRangeTest: for irreducible functions the runs without repeated blocks have to be tried one by one; LoopRange.ReducibleInRangeIffGraph needs no runs.
- LoopRange.StoredInRangeIff: a run is any walk of the function's graph, so also one that leaves a block in which a call that is no invoke does not return.
- TrapPruning.SameBlocksIff: which graphs have a losing pair of runs is not characterised, only what tells the runs of a pair apart.
- TrapPruning.PruningIsLossless: assumes that dead blocks branch nowhere, every block can reach an exit, and LLVM split all critical edges but those into unreachable-only blocks; TrapPruning.SameBlocksIff assumes none of these. Post-dominance is over walks to exits, while LLVM's tree also gives an endless loop a root, so that blocks before one can have more counters than here. The rules for skipped, artificial and persistent-loop blocks are not modelled.
- Slots.Allocator.InstrumentFunction: `afl_global_id` does not wrap at 2^32; the context id read again at an exit is taken to be below the number of callers.
- NoAbort.CollectNoAbort: the roots are given; finding them among constructors, resolvers and exit registrations is name matching.
- CminWorker.RunWorker: traces are given, not produced by a target; a batch-mode crash is a file with an empty trace.
- CminSelect.Minimize: the order of the tuples is a parameter; file naming, linking, hashing, the crash directory and the no-dedup mode are not modelled.
- HavocDraws.Below: the generator, the rejection of biased values and the redrawing until two positions differ are not modelled; a step has its own list of numbers, one for each use, and missing ones count as 0.
- Havoc.Mutator.Mutate: the drawn strategies are a stream that can end early, so that redrawing for ever is not modelled; `len` plus a block size does not wrap at 2^32.
- Havoc.AflMutate: the contents of the four strategy tables are parameters.
- Coverage64.Skim: the AVX2 and AVX-512 forms are not modelled.
- TailReads.TailFormsAgree: which form a build uses, and that a read before or past the tail stays on its page, are not modelled.
- LLVM code building, metadata, section names and debug output of both passes.
- The guard-array layout of the PCGUARD pass.
- The fork server, shared memory, queue scheduling, MOpt, IJON and the rest of the fuzzer's run time.
- The vector and AES forms of the t1ha hash, and its mixing rounds.
- The canary and tracking allocators of alloc-inl.h, `afl_realloc_exact` and `afl_swap_bufs`: they would only add easy members.
- `simplify_trace` and the bit counters of afl-fuzz-bitmap.c, for the same reason.
