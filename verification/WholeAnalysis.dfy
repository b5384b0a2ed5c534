/**
 * The call graph builder, the reachability analyzer and the dependency analyzer run on one module, and
 * their reports compared.
 */
module WholeAnalysis {
  import opened Collections
  import opened WasmModules
  import opened Digraphs
  import opened CallGraphs
  import opened Reachability
  import opened FunctionDependencies
  import opened AnalysesAgree

  /** The node list a builder hands out is what the reachability analyzer asks for, and has the builder's calls. */
  lemma NodeListIsGraph(list: seq<CallGraphNode>, nodes: Nodes)
    requires IsNodeList(list, nodes)
    ensures Indexed(list) && GraphOf(list) == Outgoing(nodes)
  {
    forall v ensures v in Indices(list) <==> v in nodes {
      IndexHasNode(list, v);
    }
    assert GraphOf(list).Keys == nodes.Keys;
    forall v | v in nodes ensures GraphOf(list)[v] == nodes[v].outgoingCalls {
      var n := FindNode(list, v).value;
      var k :| 0 <= k < |list| && list[k] == n;
    }
  }

  /** A graph built once, as the analyzer receives it. */
  ghost predicate IsBuilt(m: WasmModule, graph: CallGraph, g: Graph) {
    && IsBuiltGraph(m, g) && Closed(g)
    && Indexed(graph.nodes) && GraphOf(graph.nodes) == g && IsMaxDepth(g, graph.maxDepth)
  }

  method BuildGraph(m: WasmModule) returns (graph: CallGraph, ghost g: Graph)
    ensures IsBuilt(m, graph, g)
  {
    var builder := new CallGraphBuilder(m);
    graph := builder.Build([]);
    ghost var nodes, edges := builder.nodes, builder.edges;
    ghost var calls := ModuleCalls(m, nodes.Keys);
    assert [] + calls == calls;
    BuiltOnce(m, nodes, edges);
    DescribedGraphIsClosed(nodes, edges, calls);
    NodeListIsGraph(graph.nodes, nodes);
    g := Outgoing(nodes);
  }

  method ReachFrom(graph: CallGraph, ghost g: Graph, f: int) returns (reach: Result)
    requires Indexed(graph.nodes) && GraphOf(graph.nodes) == g && Closed(g) && IsMaxDepth(g, graph.maxDepth) && f in g
    ensures Elements(reach.reachableFunctions) == ReachableFrom(g, {f})
    ensures reach.maxDepth + 1 <= graph.maxDepth
  {
    var analyzer := new ReachabilityAnalyzer(graph, [f]);
    reach := analyzer.Analyze();
    ghost var entries := analyzer.entries;
    RootIsReached(g, f);
    assert f in Elements(reach.reachableFunctions);
    ReportedDepthBelowMaxDepth(g, [f], entries, reach, graph.maxDepth);
  }

  lemma RootIsReached(g: Graph, f: int)
    requires f in g
    ensures Elements([f]) == {f} && f in ReachableFrom(g, {f})
  {
    ReachesSelf(g, f);
  }

  /** The dependency report for `f` lists the functions and imports it depends on. */
  lemma ReportedDependencies(deps: DependencyMap, f: int, t: Transitive)
    requires IsClosure(deps, f, t)
    ensures Elements(t.allReachableFunctions) + Elements(t.allImportedFunctions) == Depended(deps, f)
  {
    forall x ensures x in Elements(t.allImportedFunctions) <==>
      x in set v, y | v in LocalReach(deps, f) && y in IndexList(deps[v].importedFunctionCalls) :: y
    {}
  }

  method DependenciesOf(m: WasmModule, f: int) returns (t: Transitive, ghost deps: DependencyMap)
    ensures IsDependencyMap(m, deps)
    ensures Elements(t.allReachableFunctions) + Elements(t.allImportedFunctions) == Depended(deps, f)
  {
    var analyzer := new FunctionDependencyAnalyzer(m);
    var found := analyzer.functionDependencies;
    t := GetTransitiveDependencies(found, f);
    ReportedDependencies(found, f, t);
    deps := found;
  }

  /**
   * Both analyses of the functions `f` reaches. When the function imports come first they report the
   * same functions; always, `f` is reported and the depth stays below the call graph's maximum depth.
   */
  method AnalyzeFrom(m: WasmModule, f: int) returns (graph: CallGraph, reach: Result, dependencies: Transitive)
    requires IsLocal(m, f)
    ensures FunctionImportsFirst(m.imports) ==>
      Elements(reach.reachableFunctions) ==
        Elements(dependencies.allReachableFunctions) + Elements(dependencies.allImportedFunctions)
    ensures f in reach.reachableFunctions && reach.maxDepth + 1 <= graph.maxDepth
  {
    ghost var g, deps;
    graph, g := BuildGraph(m);
    assert f in g;
    reach := ReachFrom(graph, g, f);
    RootIsReached(g, f);
    assert f in Elements(reach.reachableFunctions);
    dependencies, deps := DependenciesOf(m, f);
    if FunctionImportsFirst(m.imports) {
      FunctionImportsFirstAgree(m);
      assert IsBuiltGraph(m, g) && IsDependencyMap(m, deps) && IsLocal(m, f);
    }
  }
}
