# Verified models of the WASM analyzers

This project models the offline analysis engine of the repository in Dafny and proves what its
algorithms compute: the call graph with its recursion and depth searches, the search for strongly
connected components with the enumeration of their cycles, the two reachability analyses, the module
comparison, the approximate dominator tree and the iterative exact one, the stack scan, the duplicate
finder with its hash, the spec-type printer and the translation that slices its output, and the polling loop of the Soroban
submission example. Check it with `dafny verify dfyconfig.toml`.

A module is a list of imports, a list of local functions with optional instruction lists, and a
list of exports. Local functions are numbered after the function imports. Code that updates fields
or captured variables is a class or a method with loops, each proved against a specification
function or predicate; the general laws are lemmas about those specifications.

| file | models |
|---|---|
| `Collections.dfy`, `Digraphs.dfy`, `Numerals.dfy`, `WasmModules.dfy` | lists, sorting and counting; walks, cycles and simple chains; numerals in a base; decoded modules |
| `CallGraphs.dfy`, `RecursionSearch.dfy`, `CallDepth.dfy` | `src/analyzer/call-graph-builder.ts` |
| `ComponentSearch.dfy` | `tarjanScc` and `classifyScc` of `src/utils/wasm-static-analysis.ts` |
| `CycleLists.dfy`, `CycleLimits.dfy`, `CycleSearch.dfy`, `ShortestCycles.dfy`, `CycleReports.dfy` | `enumerateCyclesInScc` and `shortestCycleInScc` of the same file, and what `analyzeRecursion` reports of a component |
| `Reachability.dfy`, `FirstChains.dfy`, `SearchDepths.dfy`, `DepthExactness.dfy`, `RecordedRoots.dfy` | `src/analyzer/reachability-analyzer.ts`: the analysis, what its depths are, which roots it records |
| `FunctionDependencies.dfy`, `DependencyComparison.dfy` | `src/analyzer/function-dependency-analyzer.ts` |
| `AnalysesAgree.dfy`, `WholeAnalysis.dfy` | the two analyses of one module set side by side, and run from module to reports |
| `DominatorTree.dfy`, `DominatorMetrics.dfy` | `src/analyzer/dominator-tree.ts` |
| `PostOrders.dfy`, `DominatorFixpoint.dfy`, `DominatorPasses.dfy`, `ComputedDominators.dfy`, `DominatorReports.dfy` | `reachableBlocks`, `computeDominators` and the end of `buildCfg` of `src/examples/218-wasm-dominators.ts` |
| `DominatorsAgree.dfy` | the exact dominators set beside the approximation |
| `StackUsage.dfy` | `src/analyzer/stack-usage-analyzer.ts` |
| `SpecTypeNames.dfy`, `TypeScriptTypes.dfy` | `resolveTypeName` and `toTypeScriptType` |
| `PolynomialHash.dfy`, `DuplicateFinder.dfy`, `DuplicateClusters.dfy` | `examples/wasm-duplicates/analyzer.js` |
| `TransactionPolling.dfy` | `pollForTerminalResult` and `normalizePositiveInteger` |

## What the proofs found

- The call graph keys import nodes by their position among all imports, the dependency analyzer by
  their function index. For given imports the two analyses agree on every module exactly when the
  function imports come first (`AgreeIffFunctionImportsFirst`); for any other import list a
  module with one call makes them disagree (`MisplacedImportDisagrees`).
- The recorded reachability depth is not the call distance (`DepthMayExceedDistance`). It is the
  length of the shortest walk the depth-first traversals follow, and so it is the distance exactly
  when they follow some shortest walk, which graph and roots alone decide (`DepthIsDistanceIff`).
  Where some shortest walk comes through a caller whose root chains all have one length the depth is
  exact in whatever order calls are listed, and for a function with one caller only then
  (`OneLengthIsExact`, `ExactInEveryOrderIff`).
- `reachedFrom` holds the roots that reachable callers hand on, one each, so a root that reaches a
  function may be missing (`RootMayBeMissing`). Which roots are recorded, and when all are, is exact
  (`RecordedIffHanded`, `RecordsAllRootsIff`); with one root none is missing (`OneRootIsComplete`).
- `detectRecursion` leaves functions on `recStack` when it returns early. That is harmless: they are
  all reported, and what is reported is exactly the set of functions that can reach a cycle. The
  other analysis of recursion finds the functions on cycles; the first reports those that lead to them
  as well (`ReachesCycleIff`).
- `enumerateCyclesInScc` blocks functions and still reports what an exhaustive search would, in the
  same order (`EnumerateCyclesInScc`). Each simple cycle comes as often as it has functions, once from
  each (`ReportIsComplete`, `EachRotationIsListed`). The limit `maxCycles` can be exceeded, since the
  functions still being searched go on until a call leads to the start: exactly when there are more
  cycles than the limit and some function of the cycle that reaches it calls the start after the next
  function of that cycle (`ExceedsLimitIff`, `LimitMayBeExceeded`).
- The assigned immediate dominator is the true one exactly for sole predecessors and for blocks that
  only the entry strictly dominates (`ExactIff`, `AssignedMayBeCoarse`). The depth walk runs for ever
  exactly when sole predecessors lead into a ring, which only unreachable blocks can
  (`WalkStopsIff`, `ReachableWalkStops`, `SelfLoopIsRing`).
- The iterative `computeDominators` ends, and its immediate dominators are the true ones for every
  graph (`ImmediateDominators`); the two analyses agree on a block exactly in those two cases
  (`ApproximationAgreesIff`). Its field `dominatedBy` is documented as all blocks strictly dominated
  and holds the immediately dominated ones; the two are the same exactly when there are no
  grandchildren (`ListsAllDominatedIff`, `RowLeavesOutLast`). `exitDominators` is documented to leave
  the exits out; an exit is listed exactly when it dominates the others, and one without successors
  exactly when it is the only one (`ExitIsListedIff`, `DeadEndIsListedIff`, `RowListsItsExit`).
- `compareDependencies` reports functions of one module only in the direction opposite to functions
  of both modules (`AddedDirection`), so its report is a patch exactly for shared functions and for
  those with nothing to report (`ReportIsPatchIff`).
- A user-defined type named like a primitive whose TypeScript name differs, or like a property every
  object inherits (`constructor`), is mistranslated; nothing else is (`SlicingAgreesIff`).
- More than three unknown names do not make the status `partial`: a call after them puts it back to
  `estimated` (`LaterCallHidesPartial`). It is partial exactly when, besides, the last call, return or
  unknown name is an unknown name (`StatusIff`). `minStackDepth` is always 0; the other depths are
  sums of table effects for every body (`ReportCounts`) and the operand stack's heights for straight
  ones (`StraightLineReport`).
- `normalizePositiveInteger(0.5, …)` is 0, and the polling loop has a bound exactly when the interval
  is at least 1 or the timeout is not positive (`NormalizedIsPositiveIff`, `BoundedIff`). It is then
  ceil(timeout / interval) + 1 attempts, and no smaller number will do (`LeastBound`).
- A second `build()` counts every call again: `Build` adds the module's calls to those recorded before.

## Model

| member | source | states |
|---|---|---|
| CallGraphs.CallGraphBuilder.constructor | src/analyzer/call-graph-builder.ts:53-109 | one node per function import, keyed by its position among all imports, and one per local function; no edges |
| CallGraphs.ExportedIff | src/analyzer/call-graph-builder.ts:94-104 | a node is of kind exported exactly when it is a local function that some function export names |
| CallGraphs.ImportedNodeIs | src/analyzer/call-graph-builder.ts:62-79 | the node of an import: kind, `module.name`, the two names, no exports and no calls counted |
| CallGraphs.LocalNodeIs | src/analyzer/call-graph-builder.ts:82-108 | the node of a local function: name, the names of exactly its function exports in order, exported exactly when there are any, and the numbers of its `call_indirect` and index-less `call` instructions |
| CallGraphs.CallGraphBuilder.ExtractCalls | src/analyzer/call-graph-builder.ts:152-179 | the direct targets in order, and the numbers of indirect and unresolved calls; none without a body |
| WasmModules.CallTargetsWitness | src/analyzer/call-graph-builder.ts:166-168 | a target is listed exactly when some instruction named `call` carries its index |
| WasmModules.CallTargetsCount | src/analyzer/call-graph-builder.ts:166-168 | and as often as there are positions that hold such an instruction |
| WasmModules.CallTargetsInOrder | src/analyzer/call-graph-builder.ts:166-168 | in the order of the instructions |
| WasmModules.FunctionImportCountIs | src/analyzer/call-graph-builder.ts:55-59 | the import count is the number of positions that hold a function import |
| WasmModules.DisplayNameIs | src/analyzer/call-graph-builder.ts:86 | a function without a name is shown as `func_` followed by digits that read back as its index in base ten |
| Numerals.NumeralReadsBack | src/analyzer/call-graph-builder.ts:86 | reading a numeral in its base gives the number back; each digit is below the base and there is no leading zero |
| CallGraphs.CallGraphBuilder.AddEdge | src/analyzer/call-graph-builder.ts:181-202 | updates outgoing list, incoming list and edge count as one recorded call does, and does nothing unless both ends are known |
| CallGraphs.RecordCallDescribes | src/analyzer/call-graph-builder.ts:181-202 | each recorded call keeps outgoing lists, incoming lists and edges one and the same duplicate-free relation, with exact counts and the lists in the order of the first calls |
| CallGraphs.CallGraphBuilder.AnalyzeFunction | src/analyzer/call-graph-builder.ts:128-149 | records one body's direct calls and adds its indirect and unresolved calls to its node's counters |
| CallGraphs.CallGraphBuilder.AnalyzeCallRelationships | src/analyzer/call-graph-builder.ts:125-150 | records the bodies of all local functions, in order |
| CallGraphs.RecordFunctionsDescribes | src/analyzer/call-graph-builder.ts:125-150 | after any number of bodies the three lists describe exactly the calls recorded before and those of the bodies |
| CallGraphs.RecordFunctionsTally | src/analyzer/call-graph-builder.ts:143-148 | after any number of bodies each node keeps its identity and has grown by exactly its own indirect and unresolved calls |
| CallGraphs.ModuleCallsCount | src/analyzer/call-graph-builder.ts:125-202 | each pair of known functions is recorded as often as the caller's instructions name the callee |
| CallGraphs.BuiltOnce | src/analyzer/call-graph-builder.ts:111-202 | built once, an edge exists exactly for a pair of known functions joined by a call instruction, and counts those instructions |
| CallGraphs.TotalsAgree | src/analyzer/call-graph-builder.ts:181-202 | after any recorded calls, total outgoing = total incoming = number of edges |
| CallGraphs.SortedEdgesCount | src/analyzer/call-graph-builder.ts:117-120 | sorting the edges loses and repeats none, and keeps their counts |
| CallGraphs.CallGraphBuilder.Build | src/analyzer/call-graph-builder.ts:111-123 | nodes by index, edges strictly ascending by caller then callee and all direct, describing the calls recorded before plus the module's; each node's two counters grown by its own body's calls; the reported recursion set and depth are those of the graph |
| RecursionSearch.Search.Dfs | src/analyzer/call-graph-builder.ts:270-292 | keeps the search invariant: what stays marked is on the path or reported, the reported reach a cycle, the rest is finished callees first |
| RecursionSearch.BackEdge | src/analyzer/call-graph-builder.ts:283-287 | meeting a function still marked means that both ends can reach a cycle, even when an early return left the mark |
| RecursionSearch.DetectRecursion | src/analyzer/call-graph-builder.ts:265-301 | reports exactly the functions from which a call cycle is reachable, in any node order; the unreported ones are listed callees first |
| RecursionSearch.CycleMembersReachCycle | src/analyzer/call-graph-builder.ts:283-287 | every function on a cycle is among the reported |
| Digraphs.CalleesFirstIsAcyclic | src/analyzer/call-graph-builder.ts:290-291 | functions listed callees first can reach no cycle |
| ComponentSearch.Search.StrongConnect | src/utils/wasm-static-analysis.ts:2117-2143 | keeps the search invariant: indices along the stack, each lowlink an index the function reaches on the stack, finished components closed |
| ComponentSearch.SegmentIsComponent | src/utils/wasm-static-analysis.ts:2133-2142 | what comes off the stack when lowlink and index agree is one full class of mutual reachability |
| ComponentSearch.TarjanScc | src/utils/wasm-static-analysis.ts:2109-2149 | the components are the classes of mutual reachability of exactly what the given functions reach, each after those it calls into |
| ComponentSearch.ComponentsInOrder | src/utils/wasm-static-analysis.ts:2109-2149 | components are disjoint, and no call leads to a later one |
| ComponentSearch.RecursiveIffOnCycle | src/utils/wasm-static-analysis.ts:2252-2263 | a component is classified as recursive if and only if its functions lie on call cycles |
| CycleLists.CyclesComplete | src/utils/wasm-static-analysis.ts:2179-2206 | the exhaustive search from a path lists exactly the simple cycles that begin with it |
| CycleLists.AllCyclesHold | src/utils/wasm-static-analysis.ts:2208-2216 | searched from every member it lists exactly the simple cycles of the members |
| CycleLists.AllCyclesDistinct | src/utils/wasm-static-analysis.ts:2208-2216 | no list comes twice |
| CycleLists.EachRotationIsListed | src/utils/wasm-static-analysis.ts:2208-2216 | with a cycle each of its rotations is listed, and they differ |
| CycleLimits.WithinLimit | src/utils/wasm-static-analysis.ts:2180-2190 | a limit that is not exceeded changes nothing |
| CycleLimits.BeyondLimit | src/utils/wasm-static-analysis.ts:2180-2190 | a limit that is reached cuts the list there; only beginnings of the last cycle follow, each closed by a later call to the start |
| CycleLimits.ReportedIsCut | src/utils/wasm-static-analysis.ts:2208-2218 | the same over all members |
| CycleLimits.ReportedAreCycles | src/utils/wasm-static-analysis.ts:2154-2219 | whatever the limit, every list reported is a simple cycle of the members |
| CycleLimits.ExceedsLimitIff | src/utils/wasm-static-analysis.ts:2180-2190 | the report exceeds the limit if and only if there are more cycles and a function of the cycle that reaches it calls the start after the next function of the cycle |
| CycleSearch.BlockedHasNone | src/utils/wasm-static-analysis.ts:2193-2202 | no cycle that begins with the path goes through a blocked function off it |
| CycleSearch.Enumeration.Unblock | src/utils/wasm-static-analysis.ts:2171-2177 | unblocks the function and those waiting for it, directly or not, and nothing that was blocked when the search of the function began |
| CycleSearch.Enumeration.Circuit | src/utils/wasm-static-analysis.ts:2179-2206 | adds exactly what the exhaustive search reports through the function under the limit, and keeps the waiting lists right while the limit is not reached |
| CycleReports.ComponentIsConnected | src/utils/wasm-static-analysis.ts:2355-2366 | the members of a component reach each other without leaving it, as the enumeration asks |
| CycleReports.EnumerateCyclesInScc | src/utils/wasm-static-analysis.ts:2154-2219 | for connected members the result is that of the exhaustive search under the limit, list by list |
| CycleReports.ReportIsComplete | src/utils/wasm-static-analysis.ts:2154-2219 | when the limit leaves room, exactly the simple cycles, each once from every function on it |
| CycleReports.LimitMayBeExceeded | tests/wasm-recursion.test.ts:391-404 | two functions for which a limit of 1 gives two cycles, and no limit gives one cycle twice |
| ShortestCycles.ShortestCycleInScc | src/utils/wasm-static-analysis.ts:2222-2250 | the length of a shortest closed walk within the members, nothing exactly when there is none |
| ShortestCycles.ShortestIsLeastCycle | src/utils/wasm-static-analysis.ts:1897-1898 | that is the least number of functions on a simple cycle |
| CycleReports.ReportComponent | src/utils/wasm-static-analysis.ts:2368-2424 | members ascending and those of the component; self-recursive, non-recursive, of two and of more functions exactly by the number of members and a call of the only one to itself; shortest length and cycles; there is a shortest length exactly for a recursive kind |
| ComponentSearch.ReachesCycleIff | src/analyzer/call-graph-builder.ts:265-301 | `detectRecursion` reports exactly the functions that reach a component classified as recursive |
| CallDepth.CalculateDepth | src/analyzer/call-graph-builder.ts:306-321 | 0 on a function already on the chain, else the length of the longest simple chain that avoids it; ends because fewer functions are left |
| CallDepth.CalculateMaxDepth | src/analyzer/call-graph-builder.ts:303-329 | the number of functions on the longest simple call chain of the graph, cycles included |
| Digraphs.AcyclicDepthBoundsAllWalks | src/analyzer/call-graph-builder.ts:265-329 | when no function is reported recursive it bounds all call chains, simple or not |
| Digraphs.CyclesAllowEveryLength | src/analyzer/call-graph-builder.ts:307-307 | from a function reported recursive there are call chains of every length |
| Reachability.ReachabilityAnalyzer.constructor | src/analyzer/reachability-analyzer.ts:34-45 | the custom roots if any, else the exported functions |
| Reachability.ExportedIndicesWitness | src/analyzer/reachability-analyzer.ts:40-44 | the default roots are exactly the indices of the exported nodes |
| Reachability.ExportedIndicesAscend | src/analyzer/reachability-analyzer.ts:42-44 | and, from nodes in index order, each once and ascending |
| Reachability.ReachabilityAnalyzer.Initialize | src/analyzer/reachability-analyzer.ts:54-70 | every function unreachable at depth -1, then each known root reachable at depth 0 |
| Reachability.ReachabilityAnalyzer.TraverseFrom | src/analyzer/reachability-analyzer.ts:124-160 | changes map and visited set as the specified visit does, and ends because fewer functions are unvisited |
| Reachability.FoundRoot | src/analyzer/reachability-analyzer.ts:162-176 | a reachable function has a root to pass on, and that root reaches it |
| Reachability.RelaxIsSound | src/analyzer/reachability-analyzer.ts:141-158 | following one call keeps every entry sound, including the simple chain that explains each depth |
| Reachability.VisitIsSound | src/analyzer/reachability-analyzer.ts:124-160 | a traversal keeps entries sound, never raises a depth, and expands all it marks |
| Reachability.AfterRootsIsSound | src/analyzer/reachability-analyzer.ts:73-75 | after any number of roots all entries are sound and only functions below the remaining roots may be unexpanded |
| Reachability.FinalEntries | src/analyzer/reachability-analyzer.ts:47-75 | the final map is sound: reachable exactly from a root, every recorded root reaches its function by at least one call, none repeats, each reachable non-root has one |
| Reachability.ReachabilityAnalyzer.Analyze | src/analyzer/reachability-analyzer.ts:47-122 | the map is that final map with the recorded roots sorted, the reachable list is exactly what the roots reach, and lists and statistics say what the map says; rows strictly ascend by function, and so do the roots of each |
| Reachability.ReachabilityAnalyzer.Compile | src/analyzer/reachability-analyzer.ts:77-103 | reachable and unreachable lists split the functions, ascending; exactly one row for each function with several recorded roots, strictly ascending by function |
| Reachability.SortedEntryKeeps | src/analyzer/reachability-analyzer.ts:88-93 | sorting keeps reachability, depth and the roots, and puts several distinct roots in ascending order |
| Reachability.ReachabilityAnalyzer.CalculateStatistics | src/analyzer/reachability-analyzer.ts:178-202 | the number of reachable functions and the greatest recorded depth |
| Reachability.SortedEntriesStaySound | src/analyzer/reachability-analyzer.ts:88-93 | sorting the recorded roots in place keeps the whole map sound |
| Reachability.DepthIsSandwiched | src/analyzer/reachability-analyzer.ts:138-155 | a recorded depth is the length of a real call walk from a root, and depth + 1 never exceeds the call graph's maximum depth |
| Reachability.ReportedDepthBelowMaxDepth | src/analyzer/reachability-analyzer.ts:178-201 | the reported maximum depth + 1 never exceeds the call graph's maximum depth |
| Reachability.ShallowDepthsAreExact | src/analyzer/reachability-analyzer.ts:63-75 | depth 0 is being a root, depth 1 is being called by a root without being one |
| FirstChains.NextIsFirst | src/analyzer/reachability-analyzer.ts:124-160 | a depth-first search that takes calls in order meets each function by the first of all simple chains to it |
| SearchDepths.DepthsAreLeast | src/analyzer/reachability-analyzer.ts:73-75 | after any number of roots each depth is the least length of a walk followed so far, and -1 where there is none |
| SearchDepths.DepthIsShortestFollowed | src/analyzer/reachability-analyzer.ts:124-160 | the recorded depth is the length of the shortest walk the traversals follow, and -1 exactly when they follow none |
| SearchDepths.DepthIsDistanceIff | src/analyzer/reachability-analyzer.ts:151-155 | the depth of a reachable function is its call distance if and only if some shortest walk from the roots is followed, a condition on graph and roots |
| DepthExactness.OneLengthIsExact | src/analyzer/reachability-analyzer.ts:124-160 | it is the distance in every order of calls and roots when a shortest walk comes through a function all of whose root chains have one length |
| DepthExactness.SoleCallerDepth | src/analyzer/reachability-analyzer.ts:138-155 | from one root, a function with one caller is recorded one below the first chain to that caller |
| DepthExactness.ExactInEveryOrderIff | src/analyzer/reachability-analyzer.ts:124-160 | its depth is the distance in every order of calls if and only if all chains to that caller have one length |
| DepthExactness.DepthMayExceedDistance | src/analyzer/reachability-analyzer.ts:129-130 | a four-function graph in which a function two calls away is recorded at depth 3 |
| RecordedRoots.RecordedIffHanded | src/analyzer/reachability-analyzer.ts:141-149 | a root is recorded for a function if and only if a reachable caller hands it on: its own index for a root, else the last root on the first chain from the first root that reaches it |
| RecordedRoots.FoundRootIsOwner | src/analyzer/reachability-analyzer.ts:162-176 | the root `findRoot` passes on is that one |
| RecordedRoots.RecordsAllRootsIff | src/analyzer/reachability-analyzer.ts:141-149 | every root that reaches a function by a call is recorded if and only if each is handed on by a reachable caller |
| RecordedRoots.SharedRowsAreHanded | src/analyzer/reachability-analyzer.ts:80-103 | the report of a run has a row for a function exactly when two different roots are handed to it, and the row lists exactly the roots handed to it |
| RecordedRoots.OneRootIsComplete | src/analyzer/reachability-analyzer.ts:141-149 | with one root it is recorded exactly where it reaches by a call |
| RecordedRoots.RootMayBeMissing | src/analyzer/reachability-analyzer.ts:162-176 | a graph with two roots in which one reaches a function and is not recorded for it |
| FunctionDependencies.GetImportDefinition | src/analyzer/function-dependency-analyzer.ts:327-341 | the import at a position that holds a function import with as many function imports before it as the index says; nothing exactly when there is no such position |
| FunctionDependencies.ImportDefinition | src/analyzer/function-dependency-analyzer.ts:327-341 | there is one exactly for indices below the number of function imports |
| FunctionDependencies.ImportDefinitionIff | src/analyzer/function-dependency-analyzer.ts:327-341 | it is that import: a definition is found if and only if it stands at such a position |
| FunctionDependencies.ExtractDependencies | src/analyzer/function-dependency-analyzer.ts:227-325 | index and display name, ascending duplicate-free lists of exactly the local functions, imports, globals and tables the body names, memory counts and the total |
| FunctionDependencies.DescribedCalls | src/analyzer/function-dependency-analyzer.ts:253-273 | a function is listed as local exactly when a `call` names it and it is not below the import count; an imported call is listed with module and name exactly when a `call` names the index and the function import at that index has them |
| FunctionDependencies.DescribedAccesses | src/analyzer/function-dependency-analyzer.ts:275-299 | globals and tables listed are exactly the indices of `global.get`, `global.set`, `table.get` and `table.set` |
| FunctionDependencies.DescribedMemory | src/analyzer/function-dependency-analyzer.ts:283-292 | the four memory counts are the numbers of positions whose name contains `.load`, contains `.store` but not `.load`, is `memory.size`, is `memory.grow` |
| FunctionDependencies.ContainsIff | src/analyzer/function-dependency-analyzer.ts:284-286 | a name contains a text exactly when it is something, the text, and something again |
| FunctionDependencies.DescribedTotal | src/analyzer/function-dependency-analyzer.ts:302-325 | index and name, each list strictly ascending, and the total, in which memory counts once |
| FunctionDependencies.FunctionDependencyAnalyzer.constructor | src/analyzer/function-dependency-analyzer.ts:59-71 | one described entry for each local function and no other |
| FunctionDependencies.Traverse | src/analyzer/function-dependency-analyzer.ts:85-109 | keeps the found functions, imports and globals consistent; what it adds is within the returned depth and closed under calls; the depth is the deepest level, by first chains, at which an added function calls another |
| FunctionDependencies.GetTransitiveDependencies | src/analyzer/function-dependency-analyzer.ts:79-120 | exactly the local functions reached and the unions of their imports and globals; the depth is the deepest level at which one of them calls another, at least every shortest distance, at most their number |
| FunctionDependencies.SearchIsClosure | src/analyzer/function-dependency-analyzer.ts:85-119 | a search that meets its contract yields that closure, whatever the order of calls |
| AnalysesAgree.ImportKeysAreIndices | src/analyzer/call-graph-builder.ts:61-78 | with the function imports first, an import's node key is its function index |
| AnalysesAgree.FunctionImportsFirstAgree | src/analyzer/function-dependency-analyzer.ts:79-120 | with the function imports first, for every module and local function, what the call graph reaches is what the transitive dependencies hold |
| AnalysesAgree.MisplacedImportDisagrees | src/analyzer/call-graph-builder.ts:63-65 | whenever a function index holds another kind of import, a module calling that index makes the analyses disagree |
| AnalysesAgree.AgreeIffFunctionImportsFirst | src/analyzer/call-graph-builder.ts:53-78 | the analyses agree on every module with these imports exactly when the function imports come first |
| WholeAnalysis.NodeListIsGraph | src/analyzer/call-graph-builder.ts:116-116 | the node list of a built graph meets what the reachability analyzer asks for and has the builder's calls |
| WholeAnalysis.AnalyzeFrom | src/analyzer/reachability-analyzer.ts:47-122 | building, reachability from one function and its transitive dependencies in one run: with the function imports first both reports name the same functions; always the reported depth + 1 is at most the reported maximum depth |
| DependencyComparison.CompareDependencies | src/analyzer/function-dependency-analyzer.ts:122-215 | each list holds exactly the rows due, one per function, ascending |
| DependencyComparison.ComparisonMirrors | src/analyzer/function-dependency-analyzer.ts:122-215 | comparing the other way round swaps added and removed and leaves unchanged alone |
| DependencyComparison.ReportIsPatch | src/analyzer/function-dependency-analyzer.ts:146-185 | for a function of both modules, taking out the added and putting in the removed items turns one module's lists into the other's |
| DependencyComparison.ReportIsPatchIff | src/analyzer/function-dependency-analyzer.ts:135-208 | the report patches a function's lists if and only if both modules have the function or both have nothing for it |
| DependencyComparison.UnchangedIffEqual | src/analyzer/function-dependency-analyzer.ts:187-191 | a function is unchanged exactly when its three lists are equal in both modules |
| DependencyComparison.AddedDirection | src/analyzer/function-dependency-analyzer.ts:135-208 | added items are the current module's alone for functions of both modules, and the other module's for one-sided functions |
| DependencyComparison.AddedItems | src/analyzer/function-dependency-analyzer.ts:132-208 | the added list has a row exactly for functions of the other module which the current one lacks, or has with something the other lacks; the row holds all such items ascending, or for a new function everything |
| DependencyComparison.RemovedItems | src/analyzer/function-dependency-analyzer.ts:132-194 | the removed list, with the modules exchanged |
| DominatorTree.CalculateDominators | src/analyzer/dominator-tree.ts:52-66 | every block is recorded as dominated by itself alone |
| DominatorTree.FindCommonDominator | src/analyzer/dominator-tree.ts:101-112 | a common member of the two sets, or the entry exactly when there is none |
| DominatorTree.FoldPredecessors | src/analyzer/dominator-tree.ts:89-95 | the fold over the predecessors is the one block they all are, or the entry |
| DominatorTree.CalculateImmediateDominators | src/analyzer/dominator-tree.ts:68-99 | every block gets nothing, its sole predecessor or the entry, by that rule |
| DominatorTree.AssignedStrictlyDominates | src/analyzer/dominator-tree.ts:72-96 | a reachable block other than the entry is assigned a reachable strict dominator |
| DominatorTree.ChainDominates | src/analyzer/dominator-tree.ts:114-124 | every block on a block's chain lies on every entry path to it |
| DominatorTree.ExactIff | src/analyzer/dominator-tree.ts:84-95 | the assigned block is the true immediate dominator exactly for sole predecessors and for blocks only the entry strictly dominates |
| DominatorTree.AssignedMayBeCoarse | src/analyzer/dominator-tree.ts:89-95 | a graph with a loop in which the entry is assigned although a nearer block dominates |
| DominatorTree.CalculateDepth | src/analyzer/dominator-tree.ts:114-124 | the number of steps to the root, whenever the walk stops |
| DominatorTree.WalkStopsIff | src/analyzer/dominator-tree.ts:118-121 | the walk stops exactly when sole predecessors do not lead into a ring of such blocks |
| DominatorTree.ReachableWalkStops | src/analyzer/dominator-tree.ts:118-121 | from a reachable block the walk stops |
| DominatorTree.SelfLoopIsRing | src/analyzer/dominator-tree.ts:84-87 | a block that is its own only predecessor is such a ring |
| DominatorMetrics.CountDominatedBlocks | src/analyzer/dominator-tree.ts:126-146 | the number of blocks whose chain goes through the block, also where chains run for ever |
| DominatorMetrics.CountedBlocksAreDominated | src/analyzer/dominator-tree.ts:126-146 | every block counted is dominated by the block |
| DominatorMetrics.ChainSize | src/analyzer/dominator-tree.ts:114-124 | a walk of n steps meets n + 1 different blocks |
| DominatorMetrics.DepthBound | src/analyzer/dominator-tree.ts:114-124 | depth is at most the number of strict dominators |
| DominatorMetrics.ReachableUnderEntry | src/analyzer/dominator-tree.ts:114-124 | the walk from a reachable block ends at the entry |
| DominatorMetrics.EntryCountsAll | src/analyzer/dominator-tree.ts:126-146 | when all blocks are reachable the entry's count is the number of blocks |
| DominatorMetrics.SubtreesAndDepthsAddUp | src/analyzer/dominator-tree.ts:114-146 | when all walks stop, the counts add up to the sum of depth + 1 |
| DominatorMetrics.FindUnreachableBlocks | src/analyzer/dominator-tree.ts:189-208 | exactly the blocks no path from the entry leads to, each once, in block order |
| DominatorMetrics.Calculate | src/analyzer/dominator-tree.ts:35-50 | one row per block with its assigned dominator, depth and count, the greatest depth, and the unreachable blocks, each once and in block order |
| PostOrders.FillPredecessors | src/examples/218-wasm-dominators.ts:496-504 | a block is listed among the predecessors of another exactly when that is one of its successors, and once |
| PostOrders.FilledIsWellFormed | src/examples/218-wasm-dominators.ts:496-504 | blocks whose successors are blocks then form a graph as `computeDominators` asks, with the same flow |
| PostOrders.ReachableBlocks | src/examples/218-wasm-dominators.ts:521-533 | the queue search visits exactly the blocks reachable from the entry |
| PostOrders.Traversal.Dfs | src/examples/218-wasm-dominators.ts:585-593 | lists each newly visited block once, after everything visited from it, and each but the last before one of its predecessors |
| ComputedDominators.ReversePostOrder | src/examples/218-wasm-dominators.ts:580-595 | the reachable blocks, each once, the entry first, every other block after one of its predecessors |
| ComputedDominators.Intersect | src/examples/218-wasm-dominators.ts:606-618 | the two fingers meet where exactly the common ancestors of both blocks stand above; the nested loops end |
| DominatorFixpoint.MeetIsCandidate | src/examples/218-wasm-dominators.ts:627-636 | the meet of the processed predecessors is again dominated by every strict dominator of the block, and leads down to it through later blocks only |
| DominatorPasses.PassStep | src/examples/218-wasm-dominators.ts:623-641 | recomputing one block keeps the pass invariant, and a candidate that changes moves strictly up |
| ComputedDominators.RunPass | src/examples/218-wasm-dominators.ts:622-641 | a pass without a change has reached the fixpoint, one with a change lowers the measure that bounds the number of passes |
| DominatorFixpoint.FixpointIsExact | src/examples/218-wasm-dominators.ts:620-643 | at the fixpoint the blocks above a block are exactly its dominators, and its candidate is its immediate dominator |
| ComputedDominators.ImmediateDominators | src/examples/218-wasm-dominators.ts:560-643 | for every graph the iteration ends with the true immediate dominator of each reachable block, -1 for the entry |
| DominatorReports.LevelCountsDominators | src/examples/218-wasm-dominators.ts:652-665 | the level in the tree is the number of strict dominators |
| DominatorReports.PartsStep | src/examples/218-wasm-dominators.ts:671-679 | counting a block and passing its size on to its parent completes its subtree and counts nothing twice |
| DominatorReports.ComputeDominators | src/examples/218-wasm-dominators.ts:560-741 | idom, depth as the number of strict dominators, children, subtree size as the number of blocks dominated, the reachable blocks on every path to each reachable block without successors or terminating, the strict dominators of loop headers, and the greatest depth |
| DominatorsAgree.ImmediateIsUnique | src/examples/218-wasm-dominators.ts:540-541 | a reachable block has at most one immediate dominator |
| DominatorsAgree.EntryCountsReachable | tests/wasm-dominators.test.ts:299-304 | the subtree size of the entry is the number of reachable blocks, its depth 0 |
| DominatorsAgree.ApproximationAgreesIff | src/analyzer/dominator-tree.ts:84-95 | for one graph the approximate and the exact analysis agree on a block if and only if it has a sole predecessor or only the entry strictly dominates it |
| DominatorsAgree.ListsAllDominatedIff | src/examples/218-wasm-dominators.ts:544-545 | `dominatedBy` holds all blocks strictly dominated if and only if none of those immediately dominated immediately dominates another |
| DominatorsAgree.RowLeavesOutLast | src/examples/218-wasm-dominators.ts:655-665 | in three blocks in a row the first dominates the last, which its set leaves out |
| DominatorsAgree.ExitIsListedIff | src/examples/218-wasm-dominators.ts:686-708 | a reachable exit is among the reported exit dominators if and only if it dominates all other reachable exits |
| DominatorsAgree.ExitDominatorsIff | src/examples/218-wasm-dominators.ts:686-708 | a block is among the exit dominators if and only if some reachable block has no successor or is terminating, the block is reachable, and it lies on every walk from the entry to every such block |
| DominatorsAgree.ReturningReport | src/examples/218-wasm-dominators.ts:686-708 | for a body with a `return` in one arm of an `if`, whose block has a successor, only the entry dominates all exits |
| DominatorsAgree.DeadEndIsListedIff | src/examples/218-wasm-dominators.ts:686-708 | an exit without successors is reported if and only if it is the only exit reached |
| DominatorsAgree.RowListsItsExit | src/examples/218-wasm-dominators.ts:548-549 | the only exit of three blocks in a row is reported |
| StackUsage.EffectIsArity | src/analyzer/stack-usage-analyzer.ts:31-101 | the table gives pushes less pops for every instruction it shares with the arity rules of sections 2.4 and 3.3 of the WebAssembly Core Specification, which list the names on their own; it leaves out `end` and lists nothing else but `unreachable` |
| StackUsage.IntBinaryRows | src/analyzer/stack-usage-analyzer.ts:39-60 | the integer operations with effect -1 are exactly the fifteen binary operators and ten comparisons |
| StackUsage.IntUnaryRows | src/analyzer/stack-usage-analyzer.ts:62-89 | those with effect 0 are exactly the tests, unary operators, conversions and loads of their type; no effect is other than 1, 0, -1 or -2 |
| StackUsage.IntConstAndStoreRows | src/analyzer/stack-usage-analyzer.ts:33-92 | `const` alone has effect 1, the stores alone have effect -2 |
| StackUsage.FloatBinaryRows | src/analyzer/stack-usage-analyzer.ts:45-60 | the float operations with effect -1 are exactly the seven binary operators and six comparisons |
| StackUsage.FloatUnaryRows | src/analyzer/stack-usage-analyzer.ts:62-89 | those with effect 0, in the same way |
| StackUsage.FloatConstAndStoreRows | src/analyzer/stack-usage-analyzer.ts:33-92 | those with effects 1 and -2 |
| StackUsage.PlainRows | src/analyzer/stack-usage-analyzer.ts:91-101 | the rows without a type prefix, each name with its number, and no others |
| StackUsage.ArityIsMove | src/analyzer/stack-usage-analyzer.ts:191-227 | no instruction with an arity is caught by the name tests before the table, and the scan moves the depth by pushes less pops |
| StackUsage.CalculateStackMetrics | src/analyzer/stack-usage-analyzer.ts:167-248 | reports what the specified scan of the body yields |
| StackUsage.ReportCounts | src/analyzer/stack-usage-analyzer.ts:187-248 | for every body: final depth and operations are given by how many instructions have each effect and how many are control instructions, and the maximum is the greatest depth after any part of the body |
| StackUsage.StepCounts | src/analyzer/stack-usage-analyzer.ts:192-231 | what one instruction adds: its effect, less one for `br_if` and `call_indirect`; one operation for control instructions but `return` and for effects other than zero |
| StackUsage.ScanIsMachine | src/analyzer/stack-usage-analyzer.ts:188-232 | for a body the operand-stack machine runs without underflow, current and maximum depth are the machine's heights |
| StackUsage.StraightLineReport | src/analyzer/stack-usage-analyzer.ts:167-248 | such a body, with or without its closing `end`, is reported exact, with the machine's final and greatest height |
| StackUsage.StoreReport | src/analyzer/stack-usage-analyzer.ts:33-86 | a store of a constant at a constant address: greatest depth 2, final depth 0, three operations |
| StackUsage.StatusIff | src/analyzer/stack-usage-analyzer.ts:191-247 | the exact condition of each of the four statuses, on the instructions and the number of different unknown names among them; minimum depth 0 |
| StackUsage.PartialScanIff | src/analyzer/stack-usage-analyzer.ts:220-226 | the scan is partial if and only if more than three unknown names occur and none of the calls, indirect calls and returns comes after the last of them |
| StackUsage.UnsupportedAreUnknown | src/analyzer/stack-usage-analyzer.ts:220-225 | the unsupported names are exactly the unknown names that occur, each once |
| StackUsage.UnknownIff | src/analyzer/stack-usage-analyzer.ts:192-226 | which names are unknown, and which make the report an estimate, by the names alone |
| StackUsage.ReportedNames | src/analyzer/stack-usage-analyzer.ts:220-247 | the names reported are exactly the unknown ones among the instructions, each once |
| StackUsage.UnknownNamesCount | src/analyzer/stack-usage-analyzer.ts:220-246 | as many names are reported as different unknown names occur |
| StackUsage.LaterCallHidesPartial | src/analyzer/stack-usage-analyzer.ts:192-213 | a body of four unknown names is partial; with one call added it is estimated, with the same four names reported |
| SpecTypeNames.ReadOne | src/examples/113-typed-contract-client.ts:425-533 | a printed type followed by a separator determines the type, up to primitive-like names, and what follows |
| SpecTypeNames.PrintsAlikeIff | src/examples/113-typed-contract-client.ts:425-533 | two types print alike if and only if they are the same once user types named like primitives are read as primitives |
| SpecTypeNames.UniquelyReadable | src/examples/113-typed-contract-client.ts:425-533 | without such names the printed string determines the type |
| SpecTypeNames.PrintedForms | src/examples/113-typed-contract-client.ts:500-533 | the printed form of options, results, vectors, maps, tuples and unrecognized types |
| SpecTypeNames.PrintedItems | src/examples/113-typed-contract-client.ts:520-522 | tuple items are joined by a comma and a blank |
| SpecTypeNames.PrintedBytes | src/examples/113-typed-contract-client.ts:524-526 | fixed-size bytes are printed with digits that read back as the size |
| SpecTypeNames.PrintedPrimitives | src/examples/113-typed-contract-client.ts:428-498 | the eighteen primitive names |
| TypeScriptTypes.SlicingAgreesIff | src/examples/113-typed-contract-client.ts:619-678 | slicing the printed string agrees with translating the type if and only if the type inside its vectors and options is not a misread user type |
| TypeScriptTypes.TranslationAgreesIff | src/examples/113-typed-contract-client.ts:648-677 | the same for every table that finds identifiers only |
| TypeScriptTypes.LookUpIsTable | src/examples/113-typed-contract-client.ts:620-650 | the source's table is such a table, and gives every primitive its target |
| TypeScriptTypes.PrimitiveTargets | src/examples/113-typed-contract-client.ts:620-650 | the target of each of the eighteen primitive names |
| TypeScriptTypes.SlicedForms | src/examples/113-typed-contract-client.ts:652-658 | `Vec<` and `Option<` are taken off any string and replaced |
| TypeScriptTypes.ByBeginning | src/examples/113-typed-contract-client.ts:660-674 | what begins like bytes, a tuple, a map or a result has one target, whatever follows |
| TypeScriptTypes.OtherForms | src/examples/113-typed-contract-client.ts:676-677 | any other string is its own translation |
| TypeScriptTypes.LookUpIff | src/examples/113-typed-contract-client.ts:648-650 | a lookup finds exactly the primitives' names and the inherited names |
| TypeScriptTypes.InheritedNames | src/examples/113-typed-contract-client.ts:620-650 | the twelve names every object inherits |
| TypeScriptTypes.MisreadNames | src/examples/113-typed-contract-client.ts:648-650 | user types called `address` and `constructor` are misread inside an option and a vector |
| PolynomialHash.SimpleHash | examples/wasm-duplicates/analyzer.js:198-205 | the base-31 polynomial of the bytes reduced to signed 32 bits, and its absolute value in hexadecimal |
| PolynomialHash.RoundIsPolynomial | examples/wasm-duplicates/analyzer.js:201-202 | shifting with 32-bit wrap-around, subtracting, adding and reducing is multiplying by 31 |
| PolynomialHash.HashConcat | examples/wasm-duplicates/analyzer.js:198-205 | the hash of a concatenation is determined by the two hashes and the length of the second part |
| PolynomialHash.FingerprintIsWhole | examples/wasm-duplicates/analyzer.js:193-205 | a fingerprint has at most eight digits and is never cut; two are equal exactly when the hashes are equal up to sign |
| PolynomialHash.HashExamples | examples/wasm-duplicates/analyzer.js:198-205 | three bytes hashed, and six that overflow to a negative number |
| DuplicateFinder.DecodeInstructions | examples/wasm-duplicates/analyzer.js:134-157 | the specified decoding, a missing operand at the end included |
| DuplicateFinder.CountInstructions | examples/wasm-duplicates/analyzer.js:159-175 | counts exactly the instructions the decoder yields |
| DuplicateFinder.DecodeLaws | examples/wasm-duplicates/analyzer.js:134-157 | the five access opcodes take the next byte as operand kind, if there is one; every other byte stands alone |
| DuplicateFinder.PlainTokenIs | examples/wasm-duplicates/analyzer.js:152 | the text of such a byte is `0x` and two digits that read back as the byte |
| DuplicateFinder.NormalizedExample | examples/wasm-duplicates/analyzer.js:123-157 | the text of a body that ends within an access |
| DuplicateFinder.NormalizedIff | examples/wasm-duplicates/analyzer.js:123-132 | two bodies have the same normalized text if and only if they decode alike |
| DuplicateFinder.CompareBuffers | examples/wasm-duplicates/analyzer.js:207-213 | true exactly for equal buffers |
| DuplicateFinder.CalculateSimilarity | examples/wasm-duplicates/analyzer.js:177-191 | the share of equal positions in per cent, 100 for two empty texts |
| DuplicateFinder.SimilarityIsFullIff | examples/wasm-duplicates/analyzer.js:177-191 | at most 100, and 100 exactly for equal texts |
| DuplicateFinder.SimilarityIsShare | examples/wasm-duplicates/analyzer.js:177-191 | similarity times the longer length is one hundred times the number of positions at which the texts agree |
| DuplicateFinder.DuplicateIsSimilar | examples/wasm-duplicates/analyzer.js:94-121 | for thresholds up to 100 the three tests together are the similarity test |
| DuplicateFinder.DuplicateIff | examples/wasm-duplicates/analyzer.js:94-121 | the three tests: equal size and bytes, equal instructions when asked for, similarity of at least the threshold |
| DuplicateFinder.FindDuplicates | examples/wasm-duplicates/analyzer.js:88-104 | the reference followed by the matching candidates, in order |
| DuplicateFinder.ClusterInOrder | examples/wasm-duplicates/analyzer.js:88-104 | after the reference come exactly the candidates with another index that pass a test, in their order |
| DuplicateClusters.ClusterMembers | examples/wasm-duplicates/analyzer.js:48-51 | a cluster is exactly the reference and the unseen functions that match it, each once |
| DuplicateClusters.ClusterIsSimilarity | examples/wasm-duplicates/analyzer.js:48-121 | for thresholds up to 100 each new cluster is exactly the unseen functions similar to the reference |
| DuplicateClusters.PartitionIsComplete | examples/wasm-duplicates/analyzer.js:39-70 | the clusters are disjoint and hold exactly the given functions |
| DuplicateClusters.IdenticalBodiesStayTogether | examples/wasm-duplicates/analyzer.js:48-70 | after any number of references each cluster holds both or neither of two functions with identical bodies |
| DuplicateClusters.DetectDuplicates | examples/wasm-duplicates/analyzer.js:39-86 | groups and statistics are those of the clusters |
| DuplicateClusters.GroupsInOrder | examples/wasm-duplicates/analyzer.js:52-66 | one group for each cluster of several functions, in order |
| DuplicateClusters.SeveralAscend | examples/wasm-duplicates/analyzer.js:52 | which clusters those are: exactly the ones of at least two functions, in order |
| DuplicateClusters.GroupIs | examples/wasm-duplicates/analyzer.js:53-58 | a group lists its members' indices ascending, and its fingerprint reads back as the absolute hash of the first member |
| DuplicateClusters.GroupSums | examples/wasm-duplicates/analyzer.js:55-57 | size and instruction count of a group are sums over its members |
| DuplicateClusters.StatsCount | examples/wasm-duplicates/analyzer.js:42-69 | unique + duplicated counts the clustered functions, one group per cluster of several, and the largest group size is that of some group and an upper bound of all |
| DuplicateClusters.StatsSumGroups | examples/wasm-duplicates/analyzer.js:42-69 | duplicated bytes, instructions and functions are sums over the groups; the clusters without a group hold the unique functions |
| DuplicateClusters.StatsAddUp | examples/wasm-duplicates/analyzer.js:72-85 | unique + duplicated = total, and duplicated bytes never exceed total bytes |
| TransactionPolling.PollForTerminalResult | src/examples/110-soroban-transaction-submission.ts:154-233 | for every server and clock for which some attempt decides it ends at the first that does, with the outcome that attempt gives, within ceil(timeout / interval) + 1 attempts when there is a bound |
| TransactionPolling.OutcomeIsUnique | src/examples/110-soroban-transaction-submission.ts:166-232 | server and clock determine that outcome |
| TransactionPolling.OutcomesIff | src/examples/110-soroban-transaction-submission.ts:166-227 | each of the five outcomes: which answer gives it, with which clock, after which earlier answers |
| TransactionPolling.RunIff | src/examples/110-soroban-transaction-submission.ts:219-231 | a run's clock: after an attempt before the timeout the interval passes, or the timeout is reached |
| TransactionPolling.AttemptsBound | src/examples/110-soroban-transaction-submission.ts:219-231 | sleeps that last at least as long as asked bound the number of undecided attempts |
| TransactionPolling.LeastBound | src/examples/110-soroban-transaction-submission.ts:219-231 | that bound is the least: no smaller number of attempts decides every permitted run |
| TransactionPolling.FinalAnswerIff | src/examples/110-soroban-transaction-submission.ts:177-191 | a final answer is returned at attempt n exactly when it is given there and no earlier attempt ended the run |
| TransactionPolling.MissesAreHonest | src/examples/110-soroban-transaction-submission.ts:200-227 | a timeout is reported only with the timeout elapsed, for the first time; unavailability only at the first miss out of retention |
| TransactionPolling.NormalizedIsPositiveIff | src/examples/110-soroban-transaction-submission.ts:133-148 | the result is positive exactly unless a number strictly between 0 and 1 was supplied |
| TransactionPolling.NormalizeIs | src/examples/110-soroban-transaction-submission.ts:133-148 | absent, non-finite and non-positive options give the fallback, others the greatest integer not above them |
| TransactionPolling.HalfNormalizesToZero | src/examples/110-soroban-transaction-submission.ts:143-147 | one half normalizes to 0 |
| TransactionPolling.ZeroIntervalNeedNotEnd | src/examples/110-soroban-transaction-submission.ts:219-231 | with no positive interval and a positive timeout a permitted run goes on after any number of attempts |
| TransactionPolling.BoundedIff | src/examples/110-soroban-transaction-submission.ts:219-231 | some number of attempts bounds every permitted run if and only if the interval is at least 1 or the timeout is not positive |

## Left out

- CallGraphs.CallGraphBuilder.Build: of the statistics only recursion and maximum depth; the busiest functions, the functions without calls and the totals are single folds over the node list. `callType` is always `direct`, which `Build` proves.
- RecursionSearch.Search.Dfs: not the branch for a missing node, since every recorded call leads to a known function (`DescribedGraphIsClosed`). The same holds for `CallDepth.CalculateDepth`.
- Reachability.ReachabilityAnalyzer.Analyze: leaves out `averageDepth`, `rootsWithNoOutgoing` and the plain totals, which are single folds.
- Reachability.ReachabilityAnalyzer.CalculateStatistics: leaves out the average depth.
- FunctionDependencies.Traverse: the captured sets and lists of the closure are passed in and out as one value instead of being updated in place; aliasing is not captured.
- ComponentSearch.TarjanScc: leaves out what `analyzeRecursion` adds from indirect calls.
- CycleReports.EnumerateCyclesInScc: asks for members that reach each other among themselves, which components do (`ComponentIsConnected`); for other lists nothing is claimed.
- CycleReports.ReportComponent: leaves out the edge list and `hasIndirectCycle`.
- WholeAnalysis.AnalyzeFrom: builds the graph once; reachability from several roots is covered by `Reachability.ReachabilityAnalyzer.Analyze`.
- DependencyComparison.CompareDependencies: takes the two dependency maps in ascending key order, which is the order the analyzer fills them in.
- DominatorTree.FindCommonDominator: tries the members of the first set in ascending order, not in insertion order; the sets of the stub have one member.
- DominatorMetrics.Calculate: requires that every depth walk stops, since the source does not return otherwise (`WalkStopsIff` says exactly when); leaves out `entryCoverage` and `findLoopHeaders`, which do not compute what they are called.
- ComputedDominators.ImmediateDominators: requires successors that are blocks and predecessor lists that mirror them; the mirroring is proved of the loop that fills them (`FilledIsWellFormed`), the parsing before it is not part of this model. The branches for missing blocks and for blocks without processed predecessors are then never taken.
- DominatorReports.ComputeDominators: `exitDominators` and `loopHeaderDominators` are sets, since the report sorts them; leaves out `multiPredBlocks` and `entryCoverage`. Children are looked for in ascending order.
- StackUsage.CalculateStackMetrics: lists the unsupported names by first occurrence; the final sort of that list is left out. Instruction names equal to properties every object inherits are treated as unknown.
- StackUsage.StraightLineReport: says nothing about bodies with control flow, where branch arms are summed and the pops of `if` and `br_table` are not counted, so no bound holds.
- DuplicateFinder.CalculateSimilarity: real arithmetic; floating-point rounding of the quotient is not modelled.
- DuplicateClusters.DetectDuplicates: the similarity label of a group is left out because `determineSimilarity` is defined nowhere in the file, so the source throws at its first group; so are the percentage and its rounding.
- TransactionPolling.PollForTerminalResult: requires that some attempt decides, since the source loops for ever otherwise (`BoundedIff` says when every permitted run is bounded); console output and the text of the reason are left out.
- The options `minSize` (a filter before the modelled code) and `exactOnly` (read nowhere) of the duplicate finder.
- Comparison, ranking and averages of stack metrics: single folds over the modelled reports.
- `cfg-builder.ts` and `buildCfg`, the WASM parser and reader, the command line, text and JSON output, and every network call: the models start from decoded modules, valid control-flow graphs, byte bodies, type trees and arbitrary server answers.
- Identifiers in user type names are ASCII letters, digits and underscores.
