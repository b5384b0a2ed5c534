/** `CallGraphBuilder`: nodes and edges filled in from call instructions, then searched. */
module CallGraphs {
  import opened Collections
  import opened WasmModules
  import opened Digraphs
  import CallDepth
  import RecursionSearch

  datatype NodeKind = LocalNode | ImportedNode | ExportedNode

  datatype CallGraphNode = CallGraphNode(
    index: int, name: string, kind: NodeKind, exportNames: seq<string>,
    importModule: Option<string>, importName: Option<string>,
    outgoingCalls: seq<int>, incomingCalls: seq<int>, indirectCalls: nat, unresolvedCalls: nat)

  datatype CallType = Direct | Indirect | Unresolved

  datatype CallGraphEdge = CallGraphEdge(caller: int, callee: int, callType: CallType, count: nat)

  datatype CallGraph = CallGraph(
    nodes: seq<CallGraphNode>, edges: seq<CallGraphEdge>, recursiveFunctions: seq<int>, maxDepth: int)

  type Nodes = map<int, CallGraphNode>

  function Outgoing(nodes: Nodes): Graph { map i | i in nodes :: nodes[i].outgoingCalls }

  function Incoming(nodes: Nodes): Graph { map i | i in nodes :: nodes[i].incomingCalls }

  function EdgePairs(edges: seq<CallGraphEdge>): seq<(int, int)> {
    seq(|edges|, i requires 0 <= i < |edges| => (edges[i].caller, edges[i].callee))
  }

  /** The first `c` comes before the first `d`. */
  ghost predicate OccursBefore(calls: seq<(int, int)>, c: (int, int), d: (int, int)) {
    exists i :: 0 <= i < |calls| && calls[i] == c && d !in calls[..i]
  }

  /** Callees and callers stand in the order of their first recorded calls. */
  ghost predicate InCallOrder(n: CallGraphNode, calls: seq<(int, int)>) {
    var out, inc := n.outgoingCalls, n.incomingCalls;
    && (forall a, b :: 0 <= a < b < |out| ==> OccursBefore(calls, (n.index, out[a]), (n.index, out[b])))
    && (forall a, b :: 0 <= a < b < |inc| ==> OccursBefore(calls, (inc[a], n.index), (inc[b], n.index)))
  }

  /** The node's call lists are duplicate-free and hold its callees and callers in recorded order. */
  ghost predicate NodeDescribes(n: CallGraphNode, calls: seq<(int, int)>) {
    && NoDuplicates(n.outgoingCalls) && NoDuplicates(n.incomingCalls)
    && (forall t :: t in n.outgoingCalls <==> (n.index, t) in calls)
    && (forall s :: s in n.incomingCalls <==> (s, n.index) in calls)
    && InCallOrder(n, calls)
  }

  lemma OccursBeforeStill(calls: seq<(int, int)>, c: (int, int), d: (int, int), e: (int, int))
    requires OccursBefore(calls, c, d)
    ensures OccursBefore(calls + [e], c, d)
  {
    var i :| 0 <= i < |calls| && calls[i] == c && d !in calls[..i];
    assert (calls + [e])[i] == c && (calls + [e])[..i] == calls[..i];
  }

  lemma NewComesLast(calls: seq<(int, int)>, c: (int, int), d: (int, int))
    requires c in calls && d !in calls
    ensures OccursBefore(calls + [d], c, d)
  {
    var i :| 0 <= i < |calls| && calls[i] == c;
    assert (calls + [d])[i] == c && (calls + [d])[..i] == calls[..i];
  }

  /** One more call leaves the order of both lists that of the first calls. */
  lemma LinkedInOrder(n: CallGraphNode, calls: seq<(int, int)>, caller: int, callee: int)
    requires InCallOrder(n, calls)
    requires forall t :: t in n.outgoingCalls <==> (n.index, t) in calls
    requires forall s :: s in n.incomingCalls <==> (s, n.index) in calls
    ensures InCallOrder(Linked(n, caller, callee), calls + [(caller, callee)])
  {
    var out, inc := Linked(n, caller, callee).outgoingCalls, Linked(n, caller, callee).incomingCalls;
    var more := calls + [(caller, callee)];
    forall a, b | 0 <= a < b < |out| ensures OccursBefore(more, (n.index, out[a]), (n.index, out[b])) {
      assert out[a] == n.outgoingCalls[a] && out[a] in n.outgoingCalls;
      StaysInOrder(n, calls, caller, callee, out[a], out[b], b < |n.outgoingCalls|);
    }
    forall a, b | 0 <= a < b < |inc| ensures OccursBefore(more, (inc[a], n.index), (inc[b], n.index)) {
      assert inc[a] == n.incomingCalls[a] && inc[a] in n.incomingCalls;
      StaysInOrderIn(n, calls, caller, callee, inc[a], inc[b], b < |n.incomingCalls|);
    }
  }

  lemma StaysInOrder(n: CallGraphNode, calls: seq<(int, int)>, caller: int, callee: int, t: int, u: int, known: bool)
    requires forall t :: t in n.outgoingCalls <==> (n.index, t) in calls
    requires t in n.outgoingCalls
    requires if known then OccursBefore(calls, (n.index, t), (n.index, u))
             else n.index == caller && u == callee && u !in n.outgoingCalls
    ensures OccursBefore(calls + [(caller, callee)], (n.index, t), (n.index, u))
  {
    if known {
      OccursBeforeStill(calls, (n.index, t), (n.index, u), (caller, callee));
    } else {
      NewComesLast(calls, (n.index, t), (caller, callee));
    }
  }

  lemma StaysInOrderIn(n: CallGraphNode, calls: seq<(int, int)>, caller: int, callee: int, t: int, u: int, known: bool)
    requires forall s :: s in n.incomingCalls <==> (s, n.index) in calls
    requires t in n.incomingCalls
    requires if known then OccursBefore(calls, (t, n.index), (u, n.index))
             else n.index == callee && u == caller && u !in n.incomingCalls
    ensures OccursBefore(calls + [(caller, callee)], (t, n.index), (u, n.index))
  {
    if known {
      OccursBeforeStill(calls, (t, n.index), (u, n.index), (caller, callee));
    } else {
      NewComesLast(calls, (t, n.index), (caller, callee));
    }
  }

  /**
   * Outgoing lists, incoming lists and the edge list all describe the same duplicate-free
   * relation, and each edge counts the recorded calls between its ends.
   */
  ghost predicate DescribesCalls(nodes: Nodes, edges: seq<CallGraphEdge>, calls: seq<(int, int)>) {
    && (forall c :: c in calls ==> c.0 in nodes && c.1 in nodes)
    && (forall i :: i in nodes ==> nodes[i].index == i && NodeDescribes(nodes[i], calls))
    && EdgesCount(edges, calls)
  }

  ghost predicate EdgesCount(edges: seq<CallGraphEdge>, calls: seq<(int, int)>) {
    && NoDuplicates(EdgePairs(edges))
    && (forall c :: c in EdgePairs(edges) <==> c in calls)
    && (forall k :: 0 <= k < |edges| ==>
         edges[k].count == Occurrences(calls, EdgePairs(edges)[k]) && edges[k].callType == Direct)
  }

  function FindEdge(edges: seq<CallGraphEdge>, caller: int, callee: int): (r: Option<nat>)
    ensures r.Some? ==> r.value < |edges| && EdgePairs(edges)[r.value] == (caller, callee)
    ensures r.None? ==> (caller, callee) !in EdgePairs(edges)
  {
    if edges == [] then None
    else
      var n := |edges| - 1;
      assert EdgePairs(edges) == EdgePairs(edges[..n]) + [(edges[n].caller, edges[n].callee)];
      match FindEdge(edges[..n], caller, callee)
      case Some(k) => Some(k)
      case None => if edges[n].caller == caller && edges[n].callee == callee then Some(n) else None
  }

  lemma CountAgain(edges: seq<CallGraphEdge>, calls: seq<(int, int)>, k: nat)
    requires EdgesCount(edges, calls) && k < |edges|
    ensures EdgesCount(edges[k := edges[k].(count := edges[k].count + 1)],
                       calls + [EdgePairs(edges)[k]])
  {
    var next := edges[k := edges[k].(count := edges[k].count + 1)];
    assert EdgePairs(next) == EdgePairs(edges);
    assert EdgePairs(edges)[k] in EdgePairs(edges);
    CountOneMore(calls, EdgePairs(edges)[k]);
    forall j | 0 <= j < |next|
      ensures next[j].count == Occurrences(calls + [EdgePairs(edges)[k]], EdgePairs(next)[j])
    {
      assert edges[j].count == Occurrences(calls, EdgePairs(edges)[j]);
    }
  }

  lemma CountOneMore(calls: seq<(int, int)>, c: (int, int))
    ensures forall d :: Occurrences(calls + [c], d) == Occurrences(calls, d) + if c == d then 1 else 0
  {
    assert (calls + [c])[..|calls|] == calls;
  }

  lemma CountNew(edges: seq<CallGraphEdge>, calls: seq<(int, int)>, e: CallGraphEdge)
    requires EdgesCount(edges, calls) && (e.caller, e.callee) !in EdgePairs(edges)
    requires e.count == 1 && e.callType == Direct
    ensures EdgesCount(edges + [e], calls + [(e.caller, e.callee)])
  {
    var c := (e.caller, e.callee);
    assert EdgePairs(edges + [e]) == EdgePairs(edges) + [c];
    CountOneMore(calls, c);
    OccursIff(calls, c);
    forall j | 0 <= j < |edges + [e]|
      ensures (edges + [e])[j].count == Occurrences(calls + [c], EdgePairs(edges + [e])[j])
    {
      if j < |edges| {
        assert EdgePairs(edges)[j] in EdgePairs(edges);
        assert edges[j].count == Occurrences(calls, EdgePairs(edges)[j]);
      }
    }
  }

  /** The effect of one recorded call on one node. */
  function Linked(n: CallGraphNode, caller: int, callee: int): CallGraphNode {
    var out := if n.index == caller && callee !in n.outgoingCalls then n.outgoingCalls + [callee] else n.outgoingCalls;
    var inc := if n.index == callee && caller !in n.incomingCalls then n.incomingCalls + [caller] else n.incomingCalls;
    n.(outgoingCalls := out, incomingCalls := inc)
  }

  lemma LinkedDescribes(n: CallGraphNode, calls: seq<(int, int)>, caller: int, callee: int)
    requires NodeDescribes(n, calls)
    ensures NodeDescribes(Linked(n, caller, callee), calls + [(caller, callee)])
  {
    LinkedInOrder(n, calls, caller, callee);
  }

  function RecordEdge(edges: seq<CallGraphEdge>, caller: int, callee: int): seq<CallGraphEdge> {
    match FindEdge(edges, caller, callee)
    case Some(k) => edges[k := edges[k].(count := edges[k].count + 1)]
    case None => edges + [CallGraphEdge(caller, callee, Direct, 1)]
  }

  datatype Recorded = Recorded(nodes: Nodes, edges: seq<CallGraphEdge>)

  /** What one `addEdge` makes of the graph: nothing unless both ends are known functions. */
  function RecordCall(r: Recorded, caller: int, callee: int): Recorded {
    if caller in r.nodes && callee in r.nodes then
      Recorded(map i | i in r.nodes :: Linked(r.nodes[i], caller, callee), RecordEdge(r.edges, caller, callee))
    else r
  }

  function RecordAll(r: Recorded, caller: int, targets: seq<int>): Recorded {
    if targets == [] then r
    else
      var n := |targets| - 1;
      RecordCall(RecordAll(r, caller, targets[..n]), caller, targets[n])
  }

  function TallyUnresolved(r: Recorded, i: int, instrs: seq<Instr>): Recorded {
    if i in r.nodes then
      var n := r.nodes[i];
      r.(nodes := r.nodes[i := n.(indirectCalls := n.indirectCalls + CountOf(instrs, IsIndirectCall),
                                  unresolvedCalls := n.unresolvedCalls + CountOf(instrs, IsUnresolvedCall))])
    else r
  }

  /** The graph after the first `k` local functions have been analyzed. */
  function RecordFunctions(m: WasmModule, r: Recorded, k: nat): Recorded
    requires k <= |m.functions|
  {
    if k == 0 then r
    else
      RecordBody(RecordFunctions(m, r, k - 1), FunctionImportCount(m.imports) + k - 1,
        InstructionsOf(m.functions[k - 1]))
  }

  /** The graph after the body of function `i` has been analyzed. */
  function RecordBody(r: Recorded, i: int, instrs: seq<Instr>): Recorded {
    TallyUnresolved(RecordAll(r, i, CallTargets(instrs)), i, instrs)
  }

  lemma RecordOneMore(m: WasmModule, r: Recorded, k: nat, after: Recorded)
    requires k < |m.functions|
    requires after ==
      RecordBody(RecordFunctions(m, r, k), FunctionImportCount(m.imports) + k, InstructionsOf(m.functions[k]))
    ensures after == RecordFunctions(m, r, k + 1)
  {}

  /** A node keeps its identity; its two counters grow by the indirect and the unresolved calls of `instrs`. */
  predicate IsTallied(before: CallGraphNode, after: CallGraphNode, instrs: seq<Instr>) {
    after == before.(outgoingCalls := after.outgoingCalls, incomingCalls := after.incomingCalls,
                     indirectCalls := before.indirectCalls + CountOf(instrs, IsIndirectCall),
                     unresolvedCalls := before.unresolvedCalls + CountOf(instrs, IsUnresolvedCall))
  }

  /** The body of function `i` if it is among the first `k` local functions. */
  function BodyUpTo(m: WasmModule, k: nat, i: int): seq<Instr> {
    if i < FunctionImportCount(m.imports) + k then Body(m, i) else []
  }

  ghost predicate AreTallied(m: WasmModule, before: Nodes, after: Nodes) {
    before.Keys == after.Keys && forall i :: i in after ==> IsTallied(before[i], after[i], Body(m, i))
  }

  lemma {:induction false} RecordAllTallies(r: Recorded, caller: int, targets: seq<int>, i: int)
    requires i in r.nodes
    ensures i in RecordAll(r, caller, targets).nodes
    ensures IsTallied(r.nodes[i], RecordAll(r, caller, targets).nodes[i], [])
  {
    if targets != [] { RecordAllTallies(r, caller, targets[..|targets| - 1], i); }
  }

  /** After the first `k` bodies each node counts exactly its own indirect and unresolved calls among them. */
  lemma {:induction false} RecordFunctionsTally(m: WasmModule, r: Recorded, k: nat, i: int)
    requires k <= |m.functions| && i in r.nodes
    ensures i in RecordFunctions(m, r, k).nodes
    ensures IsTallied(r.nodes[i], RecordFunctions(m, r, k).nodes[i], BodyUpTo(m, k, i))
  {
    if k > 0 {
      var f := FunctionImportCount(m.imports) + k - 1;
      var before := RecordFunctions(m, r, k - 1);
      RecordFunctionsTally(m, r, k - 1, i);
      RecordAllTallies(before, f, CallTargets(InstructionsOf(m.functions[k - 1])), i);
      assert i == f ==> BodyUpTo(m, k - 1, i) == [] && BodyUpTo(m, k, i) == InstructionsOf(m.functions[k - 1]);
      assert i != f ==> BodyUpTo(m, k, i) == BodyUpTo(m, k - 1, i);
    }
  }

  lemma AllFunctionsTallied(m: WasmModule, r: Recorded)
    requires RecordFunctions(m, r, |m.functions|).nodes.Keys == r.nodes.Keys
    ensures AreTallied(m, r.nodes, RecordFunctions(m, r, |m.functions|).nodes)
  {
    forall i | i in r.nodes
      ensures IsTallied(r.nodes[i], RecordFunctions(m, r, |m.functions|).nodes[i], Body(m, i))
    {
      RecordFunctionsTally(m, r, |m.functions|, i);
      assert BodyUpTo(m, |m.functions|, i) == Body(m, i);
    }
  }

  /** The calls of one body whose ends are both known functions. */
  function ResolvedCalls(known: set<int>, caller: int, targets: seq<int>): seq<(int, int)> {
    if targets == [] then []
    else
      var n := |targets| - 1;
      ResolvedCalls(known, caller, targets[..n]) +
        if caller in known && targets[n] in known then [(caller, targets[n])] else []
  }

  /** The calls of the bodies `lists`, whose functions are numbered from `first`. */
  function CallsOfBodies(known: set<int>, first: int, lists: seq<seq<int>>): seq<(int, int)> {
    if lists == [] then []
    else
      var n := |lists| - 1;
      CallsOfBodies(known, first, lists[..n]) + ResolvedCalls(known, first + n, lists[n])
  }

  /** The targets named by each local function. */
  function TargetLists(m: WasmModule): seq<seq<int>> {
    seq(|m.functions|, k requires 0 <= k < |m.functions| => CallTargets(InstructionsOf(m.functions[k])))
  }

  function ModuleCalls(m: WasmModule, known: set<int>): seq<(int, int)> {
    CallsOfBodies(known, FunctionImportCount(m.imports), TargetLists(m))
  }

  /** One `addEdge` keeps the three lists describing the same relation. */
  lemma RecordCallDescribes(r: Recorded, calls: seq<(int, int)>, caller: int, callee: int)
    requires DescribesCalls(r.nodes, r.edges, calls) && caller in r.nodes && callee in r.nodes
    ensures var r' := RecordCall(r, caller, callee);
      DescribesCalls(r'.nodes, r'.edges, calls + [(caller, callee)])
  {
    forall i | i in r.nodes
      ensures NodeDescribes(Linked(r.nodes[i], caller, callee), calls + [(caller, callee)])
    {
      LinkedDescribes(r.nodes[i], calls, caller, callee);
    }
    RecordEdgeCounts(r.edges, calls, caller, callee);
  }

  lemma RecordEdgeCounts(edges: seq<CallGraphEdge>, calls: seq<(int, int)>, caller: int, callee: int)
    requires EdgesCount(edges, calls)
    ensures EdgesCount(RecordEdge(edges, caller, callee), calls + [(caller, callee)])
  {
    match FindEdge(edges, caller, callee) {
      case Some(k) => CountAgain(edges, calls, k);
      case None => CountNew(edges, calls, CallGraphEdge(caller, callee, Direct, 1));
    }
  }

  lemma {:induction false} RecordAllDescribes(r: Recorded, calls: seq<(int, int)>, caller: int, targets: seq<int>)
    requires DescribesCalls(r.nodes, r.edges, calls)
    ensures var r' := RecordAll(r, caller, targets);
      && r'.nodes.Keys == r.nodes.Keys
      && DescribesCalls(r'.nodes, r'.edges, calls + ResolvedCalls(r.nodes.Keys, caller, targets))
  {
    if targets != [] {
      var n := |targets| - 1;
      RecordAllDescribes(r, calls, caller, targets[..n]);
      var before := RecordAll(r, caller, targets[..n]);
      var soFar := calls + ResolvedCalls(r.nodes.Keys, caller, targets[..n]);
      if caller in before.nodes && targets[n] in before.nodes {
        RecordCallDescribes(before, soFar, caller, targets[n]);
        assert RecordCall(before, caller, targets[n]).nodes.Keys == before.nodes.Keys;
        assert soFar + [(caller, targets[n])] == calls + ResolvedCalls(r.nodes.Keys, caller, targets);
      } else {
        assert soFar == calls + ResolvedCalls(r.nodes.Keys, caller, targets);
      }
    } else {
      assert calls + ResolvedCalls(r.nodes.Keys, caller, targets) == calls;
    }
  }

  lemma TallyDescribes(r: Recorded, calls: seq<(int, int)>, i: int, instrs: seq<Instr>)
    requires DescribesCalls(r.nodes, r.edges, calls)
    ensures var r' := TallyUnresolved(r, i, instrs);
      r'.nodes.Keys == r.nodes.Keys && DescribesCalls(r'.nodes, r'.edges, calls)
  {
    var r' := TallyUnresolved(r, i, instrs);
    forall j | j in r'.nodes ensures r'.nodes[j].index == j && NodeDescribes(r'.nodes[j], calls) {
      assert NodeDescribes(r.nodes[j], calls);
    }
  }

  lemma RecordBodyDescribes(r: Recorded, calls: seq<(int, int)>, i: int, instrs: seq<Instr>)
    requires DescribesCalls(r.nodes, r.edges, calls)
    ensures var r' := RecordBody(r, i, instrs);
      && r'.nodes.Keys == r.nodes.Keys
      && DescribesCalls(r'.nodes, r'.edges, calls + ResolvedCalls(r.nodes.Keys, i, CallTargets(instrs)))
  {
    RecordAllDescribes(r, calls, i, CallTargets(instrs));
    TallyDescribes(RecordAll(r, i, CallTargets(instrs)),
      calls + ResolvedCalls(r.nodes.Keys, i, CallTargets(instrs)), i, instrs);
  }

  lemma NextBody(known: set<int>, first: int, lists: seq<seq<int>>, k: nat, calls: seq<(int, int)>)
    requires k < |lists|
    ensures calls + CallsOfBodies(known, first, lists[..k]) + ResolvedCalls(known, first + k, lists[k])
      == calls + CallsOfBodies(known, first, lists[..k + 1])
  {
    assert lists[..k + 1][..k] == lists[..k];
  }

  /** Analyzing the bodies keeps the three lists describing the same relation, extended by the module's calls. */
  lemma {:induction false} RecordFunctionsDescribes(m: WasmModule, r: Recorded, calls: seq<(int, int)>, k: nat)
    requires k <= |m.functions| && DescribesCalls(r.nodes, r.edges, calls)
    ensures DescribesBodies(m, r.nodes.Keys, RecordFunctions(m, r, k), calls, k)
  {
    if k > 0 {
      RecordFunctionsDescribes(m, r, calls, k - 1);
      RecordNextDescribes(m, r.nodes.Keys, RecordFunctions(m, r, k - 1), calls, k - 1);
    } else {
      NoBodies(m, r, calls);
    }
  }

  /** The functions are the `known` ones, and the lists describe `calls` and those of the first `k` bodies. */
  ghost predicate DescribesBodies(m: WasmModule, known: set<int>, r: Recorded, calls: seq<(int, int)>, k: nat)
    requires k <= |m.functions|
  {
    && r.nodes.Keys == known
    && DescribesCalls(r.nodes, r.edges,
         calls + CallsOfBodies(known, FunctionImportCount(m.imports), TargetLists(m)[..k]))
  }

  lemma NoBodies(m: WasmModule, r: Recorded, calls: seq<(int, int)>)
    requires DescribesCalls(r.nodes, r.edges, calls)
    ensures DescribesBodies(m, r.nodes.Keys, r, calls, 0)
  {
    assert calls + CallsOfBodies(r.nodes.Keys, FunctionImportCount(m.imports), TargetLists(m)[..0]) == calls;
  }

  lemma RecordNextDescribes(m: WasmModule, known: set<int>, r: Recorded, calls: seq<(int, int)>, k: nat)
    requires k < |m.functions| && DescribesBodies(m, known, r, calls, k)
    ensures DescribesBodies(
      m, known, RecordBody(r, FunctionImportCount(m.imports) + k, InstructionsOf(m.functions[k])), calls, k + 1)
  {
    var first, lists := FunctionImportCount(m.imports), TargetLists(m);
    RecordBodyDescribes(r, calls + CallsOfBodies(known, first, lists[..k]), first + k, InstructionsOf(m.functions[k]));
    NextBody(known, first, lists, k, calls);
  }

  lemma {:induction false} ResolvedCallsCount(known: set<int>, caller: int, targets: seq<int>, i: int, t: int)
    ensures Occurrences(ResolvedCalls(known, caller, targets), (i, t)) ==
      if i == caller && i in known && t in known then Occurrences(targets, t) else 0
  {
    if targets != [] {
      var n := |targets| - 1;
      ResolvedCallsCount(known, caller, targets[..n], i, t);
      CountOneMore(ResolvedCalls(known, caller, targets[..n]), (caller, targets[n]));
      assert ResolvedCalls(known, caller, targets[..n]) + [] == ResolvedCalls(known, caller, targets[..n]);
    }
  }

  /** How often the lists name `t` for function `i`, both known. */
  function CountIn(known: set<int>, first: int, lists: seq<seq<int>>, i: int, t: int): nat {
    if i in known && t in known && first <= i < first + |lists| then Occurrences(lists[i - first], t) else 0
  }

  lemma CountInStep(known: set<int>, first: int, lists: seq<seq<int>>, i: int, t: int)
    requires lists != []
    ensures var n := |lists| - 1;
      CountIn(known, first, lists, i, t) == CountIn(known, first, lists[..n], i, t) +
        if i == first + n && i in known && t in known then Occurrences(lists[n], t) else 0
  {
    var n := |lists| - 1;
    assert first <= i < first + n ==> lists[..n][i - first] == lists[i - first];
  }

  lemma JoinedCount(whole: seq<(int, int)>, front: seq<(int, int)>, back: seq<(int, int)>, c: (int, int))
    requires whole == front + back
    ensures Occurrences(whole, c) == Occurrences(front, c) + Occurrences(back, c)
  {
    OccurrencesConcat(front, back, c);
  }

  lemma LastBodyCount(known: set<int>, first: int, lists: seq<seq<int>>, c: (int, int))
    requires lists != []
    ensures var n := |lists| - 1;
      Occurrences(CallsOfBodies(known, first, lists), c) ==
        Occurrences(CallsOfBodies(known, first, lists[..n]), c) +
        Occurrences(ResolvedCalls(known, first + n, lists[n]), c)
  {
    var n := |lists| - 1;
    JoinedCount(CallsOfBodies(known, first, lists), CallsOfBodies(known, first, lists[..n]),
      ResolvedCalls(known, first + n, lists[n]), c);
  }

  lemma {:induction false} CallsOfBodiesCount(known: set<int>, first: int, lists: seq<seq<int>>, i: int, t: int)
    ensures Occurrences(CallsOfBodies(known, first, lists), (i, t)) == CountIn(known, first, lists, i, t)
  {
    if lists != [] {
      BodiesCountStep(known, first, lists, i, t);
      CallsOfBodiesCount(known, first, lists[..|lists| - 1], i, t);
    }
  }

  lemma BodiesCountStep(known: set<int>, first: int, lists: seq<seq<int>>, i: int, t: int)
    requires lists != []
    ensures var front := lists[..|lists| - 1];
      Occurrences(CallsOfBodies(known, first, lists), (i, t)) - CountIn(known, first, lists, i, t) ==
        Occurrences(CallsOfBodies(known, first, front), (i, t)) - CountIn(known, first, front, i, t)
  {
    var n := |lists| - 1;
    CountInStep(known, first, lists, i, t);
    ResolvedCallsCount(known, first + n, lists[n], i, t);
    LastBodyCount(known, first, lists, (i, t));
  }

  /** Each pair of known functions is recorded as often as the caller's body names the callee. */
  lemma ModuleCallsCount(m: WasmModule, known: set<int>, i: int, t: int)
    ensures Occurrences(ModuleCalls(m, known), (i, t)) == if i in known && t in known then CallCount(m, i, t) else 0
  {
    var first, lists := FunctionImportCount(m.imports), TargetLists(m);
    CallsOfBodiesCount(known, first, lists, i, t);
    CallCountFromLists(m, i, t);
  }

  lemma CallCountFromLists(m: WasmModule, i: int, t: int)
    ensures var first := FunctionImportCount(m.imports);
      CallCount(m, i, t) == if first <= i < first + |m.functions| then Occurrences(TargetLists(m)[i - first], t) else 0
  {
    var first := FunctionImportCount(m.imports);
    if IsLocal(m, i) {
      assert TargetLists(m)[i - first] == CallTargets(Body(m, i));
    } else {
      assert Body(m, i) == [];
      assert Occurrences(CallTargets([]), t) == 0;
    }
  }

  class CallGraphBuilder {
    const wasmModule: WasmModule
    const importCount: nat
    var nodes: Nodes
    /** The keys of `nodes` in insertion order. */
    var order: seq<int>
    var edges: seq<CallGraphEdge>

    ghost predicate Keyed()
      reads this
    {
      && importCount == FunctionImportCount(wasmModule.imports)
      && NoDuplicates(order) && Elements(order) == nodes.Keys
    }

    constructor (m: WasmModule)
      ensures Keyed() && wasmModule == m && edges == []
      ensures forall i :: i in nodes <==> IsFunctionIndex(m, i)
      ensures forall i :: i in nodes ==> nodes[i] == InitialNode(m, i)
      ensures DescribesCalls(nodes, edges, [])
    {
      wasmModule := m;
      importCount := FunctionImportCount(m.imports);
      nodes, order, edges := map[], [], [];
      new;
      AddImports();
      AddLocals();
    }

    method AddImports()
      requires Keyed() && nodes == map[]
      modifies this`nodes, this`order
      ensures Keyed() && forall i :: i in nodes <==> IsImportKey(wasmModule, i)
      ensures forall i :: i in nodes ==> nodes[i] == ImportNode(wasmModule, i)
    {
      var m := wasmModule;
      for idx := 0 to |m.imports|
        invariant Keyed()
        invariant forall i :: i in nodes <==> 0 <= i < idx && IsImportKey(m, i)
        invariant forall i :: i in nodes ==> nodes[i] == ImportNode(m, i)
      {
        if m.imports[idx].kind == FunctionKind {
          SetNode(ImportNode(m, idx));
        }
      }
    }

    /** A local function takes the place of an import node with the same key. */
    method AddLocals()
      requires Keyed() && forall i :: i in nodes <==> IsImportKey(wasmModule, i)
      requires forall i :: i in nodes ==> nodes[i] == ImportNode(wasmModule, i)
      modifies this`nodes, this`order
      ensures Keyed() && forall i :: i in nodes <==> IsFunctionIndex(wasmModule, i)
      ensures forall i :: i in nodes ==> nodes[i] == InitialNode(wasmModule, i)
    {
      var m := wasmModule;
      for idx := 0 to |m.functions|
        invariant Keyed()
        invariant forall i :: i in nodes <==> importCount <= i < importCount + idx || IsImportKey(m, i)
        invariant forall i :: i in nodes ==>
          nodes[i] == if importCount <= i < importCount + idx then LocalFunctionNode(m, i) else ImportNode(m, i)
      {
        SetNode(LocalFunctionNode(m, importCount + idx));
      }
    }

    /** `Map.set`: a key already present keeps its place in the iteration order. */
    method SetNode(n: CallGraphNode)
      requires Keyed()
      modifies this`nodes, this`order
      ensures Keyed() && nodes == old(nodes)[n.index := n] && old(order) <= order
    {
      if n.index !in nodes {
        assert n.index !in Elements(order);
        order := order + [n.index];
      }
      nodes := nodes[n.index := n];
      assert Elements(order) == nodes.Keys;
    }

    /** Records one call between two known functions. */
    method AddEdge(caller: int, callee: int)
      requires forall i :: i in nodes ==> nodes[i].index == i
      modifies this`nodes, this`edges
      ensures Recorded(nodes, edges) == RecordCall(old(Recorded(nodes, edges)), caller, callee)
    {
      if caller in nodes && callee in nodes {
        LinkNodes(caller, callee);
        CountEdge(caller, callee);
      }
    }

    method LinkNodes(caller: int, callee: int)
      requires caller in nodes && callee in nodes && forall i :: i in nodes ==> nodes[i].index == i
      modifies this`nodes
      ensures nodes == map i | i in old(nodes) :: Linked(old(nodes)[i], caller, callee)
    {
      ghost var before := nodes;
      if callee !in nodes[caller].outgoingCalls {
        nodes := nodes[caller := nodes[caller].(outgoingCalls := nodes[caller].outgoingCalls + [callee])];
      }
      if caller !in nodes[callee].incomingCalls {
        nodes := nodes[callee := nodes[callee].(incomingCalls := nodes[callee].incomingCalls + [caller])];
      }
      assert nodes.Keys == before.Keys;
      forall i | i in before ensures nodes[i] == Linked(before[i], caller, callee) {
        assert before[i].index == i;
      }
    }

    method CountEdge(caller: int, callee: int)
      modifies this`edges
      ensures edges == RecordEdge(old(edges), caller, callee)
    {
      match FindEdge(edges, caller, callee) {
        case Some(k) =>
          edges := edges[k := edges[k].(count := edges[k].count + 1)];
        case None =>
          edges := edges + [CallGraphEdge(caller, callee, Direct, 1)];
      }
    }

    /** The direct targets of one body, and how many calls it leaves unresolved. */
    method ExtractCalls(f: Func) returns (direct: seq<int>, indirect: nat, unresolved: nat)
      ensures direct == CallTargets(InstructionsOf(f))
      ensures indirect == CountOf(InstructionsOf(f), IsIndirectCall)
      ensures unresolved == CountOf(InstructionsOf(f), IsUnresolvedCall)
    {
      direct, indirect, unresolved := [], 0, 0;
      if f.body.None? { return; }
      var instrs := f.body.value;
      for i := 0 to |instrs|
        invariant direct == CallTargets(instrs[..i])
        invariant indirect == CountOf(instrs[..i], IsIndirectCall)
        invariant unresolved == CountOf(instrs[..i], IsUnresolvedCall)
      {
        assert instrs[..i + 1][..i] == instrs[..i];
        var instr := instrs[i];
        if instr.name == "call" && instr.index.Some? {
          direct := direct + [instr.index.value];
        } else if instr.name == "call_indirect" {
          indirect := indirect + 1;
        } else if instr.name == "call" && instr.index.None? {
          unresolved := unresolved + 1;
        }
      }
      assert instrs[..|instrs|] == instrs;
    }

    method AddCalls(caller: int, targets: seq<int>)
      requires forall i :: i in nodes ==> nodes[i].index == i
      modifies this`nodes, this`edges
      ensures Recorded(nodes, edges) == RecordAll(old(Recorded(nodes, edges)), caller, targets)
      ensures forall i :: i in nodes ==> nodes[i].index == i
    {
      for k := 0 to |targets|
        invariant Recorded(nodes, edges) == RecordAll(old(Recorded(nodes, edges)), caller, targets[..k])
        invariant forall i :: i in nodes ==> nodes[i].index == i
      {
        assert targets[..k + 1][..k] == targets[..k];
        AddEdge(caller, targets[k]);
      }
      assert targets[..|targets|] == targets;
    }

    method AnalyzeCallRelationships()
      requires Keyed() && forall i :: i in nodes ==> nodes[i].index == i
      modifies this`nodes, this`edges
      ensures Recorded(nodes, edges) ==
        RecordFunctions(wasmModule, old(Recorded(nodes, edges)), |wasmModule.functions|)
    {
      for idx := 0 to |wasmModule.functions|
        invariant Recorded(nodes, edges) == RecordFunctions(wasmModule, old(Recorded(nodes, edges)), idx)
        invariant forall i :: i in nodes ==> nodes[i].index == i
      {
        AnalyzeFunction(idx);
        RecordOneMore(wasmModule, old(Recorded(nodes, edges)), idx, Recorded(nodes, edges));
      }
    }

    /** The calls of one body. */
    method AnalyzeFunction(idx: nat)
      requires idx < |wasmModule.functions| && forall i :: i in nodes ==> nodes[i].index == i
      modifies this`nodes, this`edges
      ensures forall i :: i in nodes ==> nodes[i].index == i
      ensures Recorded(nodes, edges) ==
        RecordBody(old(Recorded(nodes, edges)), importCount + idx, InstructionsOf(wasmModule.functions[idx]))
    {
      var funcIndex := importCount + idx;
      var direct, indirect, unresolved := ExtractCalls(wasmModule.functions[idx]);
      AddCalls(funcIndex, direct);
      if funcIndex in nodes {
        var node := nodes[funcIndex];
        nodes := nodes[funcIndex := node.(indirectCalls := node.indirectCalls + indirect,
                                          unresolvedCalls := node.unresolvedCalls + unresolved)];
      }
    }

    /**
     * The call graph of the module. `before` is what earlier calls recorded, so that a second
     * build counts every call again.
     */
    method Build(ghost before: seq<(int, int)>) returns (graph: CallGraph)
      requires Keyed() && DescribesCalls(nodes, edges, before)
      modifies this`nodes, this`edges
      ensures Keyed() && nodes.Keys == old(nodes).Keys
      ensures DescribesCalls(nodes, edges, before + ModuleCalls(wasmModule, nodes.Keys))
      ensures graph.edges == edges
      ensures forall a, b :: 0 <= a < b < |edges| ==>
        edges[a].caller < edges[b].caller || (edges[a].caller == edges[b].caller && edges[a].callee < edges[b].callee)
      ensures IsNodeList(graph.nodes, nodes)
      ensures IsListing(graph.recursiveFunctions, set v | v in nodes && ReachesCycle(Outgoing(nodes), v))
      ensures IsMaxDepth(Outgoing(nodes), graph.maxDepth)
      ensures AreTallied(wasmModule, old(nodes), nodes)
    {
      RecordFunctionsDescribes(wasmModule, Recorded(nodes, edges), before, |wasmModule.functions|);
      AllFunctionsTallied(wasmModule, Recorded(nodes, edges));
      AnalyzeCallRelationships();
      assert TargetLists(wasmModule)[..|wasmModule.functions|] == TargetLists(wasmModule);
      ghost var calls := before + ModuleCalls(wasmModule, nodes.Keys);
      DescribedGraphIsClosed(nodes, edges, calls);
      var g := Outgoing(nodes);
      var recursive, _ := RecursionSearch.DetectRecursion(g, order);
      var maxDepth := CallDepth.CalculateMaxDepth(g, order);
      EdgeOrderIsTotal();
      SortedEdgesCount(edges, Sort(edges, EdgeOrder), calls);
      edges := Sort(edges, EdgeOrder);
      SortedEdgesAscend(edges);
      graph := CallGraph(NodeList(nodes), edges, recursive, maxDepth);
    }
  }

  /** Every recorded call leads to a known function. */
  lemma DescribedGraphIsClosed(nodes: Nodes, edges: seq<CallGraphEdge>, calls: seq<(int, int)>)
    requires DescribesCalls(nodes, edges, calls)
    ensures Closed(Outgoing(nodes))
  {
    forall u, v | Edge(Outgoing(nodes), u, v) ensures v in nodes {
      assert NodeDescribes(nodes[u], calls);
      assert (u, v) in calls;
    }
  }

  /** Built once, the graph has an edge for each pair of known functions joined by a call instruction. */
  lemma BuiltOnce(m: WasmModule, nodes: Nodes, edges: seq<CallGraphEdge>)
    requires forall i :: i in nodes <==> IsFunctionIndex(m, i)
    requires DescribesCalls(nodes, edges, ModuleCalls(m, nodes.Keys))
    ensures IsBuiltGraph(m, Outgoing(nodes))
    ensures forall i, t :: i in nodes && t in nodes ==>
      ((i, t) in EdgePairs(edges) <==> CallCount(m, i, t) > 0)
    ensures forall k :: 0 <= k < |edges| ==> edges[k].count == CallCount(m, edges[k].caller, edges[k].callee)
  {
    var calls := ModuleCalls(m, nodes.Keys);
    forall i, t
      ensures Occurrences(calls, (i, t)) == if i in nodes && t in nodes then CallCount(m, i, t) else 0
      ensures (i, t) in calls <==> i in nodes && t in nodes && CallCount(m, i, t) > 0
      ensures CallCount(m, i, t) > 0 <==> Calls(m, i, t)
    {
      ModuleCallsCount(m, nodes.Keys, i, t);
      OccursIff(calls, (i, t));
      OccursIff(CallTargets(Body(m, i)), t);
    }
    forall u, v ensures Edge(Outgoing(nodes), u, v) <==>
      IsFunctionIndex(m, u) && IsFunctionIndex(m, v) && Calls(m, u, v)
    {
      if u in nodes {
        assert NodeDescribes(nodes[u], calls);
        assert v in nodes[u].outgoingCalls <==> (u, v) in calls;
      }
    }
    forall k | 0 <= k < |edges| ensures edges[k].count == CallCount(m, edges[k].caller, edges[k].callee) {
      assert EdgePairs(edges)[k] in EdgePairs(edges);
    }
  }

  /** The nodes by ascending index. */
  function NodeList(nodes: Nodes): (list: seq<CallGraphNode>)
    requires forall i :: i in nodes ==> nodes[i].index == i
    ensures IsNodeList(list, nodes)
  {
    var indices := Ascending(nodes.Keys);
    var list := ListBy(nodes, indices);
    ListByIsNodeList(nodes, indices);
    list
  }

  function ListBy(nodes: Nodes, indices: seq<int>): seq<CallGraphNode>
    requires Elements(indices) == nodes.Keys
  {
    assert forall k :: 0 <= k < |indices| ==> indices[k] in Elements(indices);
    seq(|indices|, k requires 0 <= k < |indices| => nodes[indices[k]])
  }

  lemma ListByIsNodeList(nodes: Nodes, indices: seq<int>)
    requires IsListing(indices, nodes.Keys) && forall i :: i in nodes ==> nodes[i].index == i
    ensures IsNodeList(ListBy(nodes, indices), nodes)
  {
    var list := ListBy(nodes, indices);
    forall k | 0 <= k < |list|
      ensures indices[k] in nodes && list[k] == nodes[indices[k]] && list[k].index == indices[k]
    {
      assert indices[k] in Elements(indices);
    }
    forall i | i in nodes ensures exists k :: 0 <= k < |list| && list[k].index == i {
      assert i in Elements(indices);
      var k :| 0 <= k < |indices| && indices[k] == i;
      assert list[k].index == i;
    }
  }

  predicate IsIndirectCall(instr: Instr) { instr.name == "call_indirect" }

  predicate IsUnresolvedCall(instr: Instr) { instr.name == "call" && instr.index.None? }

  function ImportNode(m: WasmModule, i: int): CallGraphNode
    requires IsImportKey(m, i)
  {
    var imp := m.imports[i];
    CallGraphNode(i, imp.moduleName + "." + imp.name, ImportedNode, [], Some(imp.moduleName), Some(imp.name),
                  [], [], 0, 0)
  }

  function ExportNames(exports: seq<Export>, i: int): seq<string> {
    if exports == [] then []
    else
      var n := |exports| - 1;
      var rest := ExportNames(exports[..n], i);
      if exports[n].kind == FunctionKind && exports[n].index == i then rest + [exports[n].name] else rest
  }

  function LocalFunctionNode(m: WasmModule, i: int): CallGraphNode
    requires IsLocal(m, i)
  {
    var names := ExportNames(m.exports, i);
    CallGraphNode(i, DisplayName(m.functions[i - FunctionImportCount(m.imports)], i),
                  if names == [] then LocalNode else ExportedNode, names, None, None, [], [], 0, 0)
  }

  function InitialNode(m: WasmModule, i: int): CallGraphNode
    requires IsFunctionIndex(m, i)
  { if IsLocal(m, i) then LocalFunctionNode(m, i) else ImportNode(m, i) }

  /** A node is exported exactly when it is a local function named by a function export. */
  lemma ExportedIff(m: WasmModule, i: int)
    requires IsFunctionIndex(m, i)
    ensures InitialNode(m, i).kind == ExportedNode <==>
      IsLocal(m, i) && exists k :: 0 <= k < |m.exports| && m.exports[k].kind == FunctionKind && m.exports[k].index == i
  {
    if IsLocal(m, i) {
      var at := ExportNamesInOrder(m.exports, i);
      assert at != [] ==> at[0] in at;
      forall k | 0 <= k < |m.exports| && m.exports[k].kind == FunctionKind && m.exports[k].index == i
        ensures at != []
      {
        assert k in at;
      }
    }
  }

  // ----- Nodes, field by field -----

  /** The positions of the exports of function `i`, in order. */
  ghost predicate ListsExportsOf(exports: seq<Export>, i: int, at: seq<int>) {
    && StrictlyAscending(at)
    && forall k :: k in at <==> 0 <= k < |exports| && exports[k].kind == FunctionKind && exports[k].index == i
  }

  lemma {:induction false} ExportNamesInOrder(exports: seq<Export>, i: int) returns (at: seq<int>)
    ensures ListsExportsOf(exports, i, at) && |at| == |ExportNames(exports, i)|
    ensures forall j :: 0 <= j < |at| ==> at[j] in at && ExportNames(exports, i)[j] == exports[at[j]].name
  {
    at := [];
    if exports != [] {
      var n := |exports| - 1;
      at := ExportNamesInOrder(exports[..n], i);
      if exports[n].kind == FunctionKind && exports[n].index == i { at := at + [n]; }
    }
  }

  /** The counters by instruction: table calls, and calls without an index. */
  lemma CountersOf(instrs: seq<Instr>)
    ensures CountOf(instrs, IsIndirectCall) == |set k | 0 <= k < |instrs| && instrs[k].name == "call_indirect"|
    ensures CountOf(instrs, IsUnresolvedCall) == |set k | 0 <= k < |instrs| && instrs[k] == Instr("call", None)|
  {
    CountOfAt(instrs, IsIndirectCall, set k | 0 <= k < |instrs| && instrs[k].name == "call_indirect");
    CountOfAt(instrs, IsUnresolvedCall, set k | 0 <= k < |instrs| && instrs[k] == Instr("call", None));
  }

  /** The node of an import, before and after its calls are recorded: it has no body to count. */
  lemma ImportedNodeIs(m: WasmModule, i: int, node: CallGraphNode)
    requires IsFunctionIndex(m, i) && !IsLocal(m, i) && IsTallied(InitialNode(m, i), node, Body(m, i))
    ensures node.kind == ImportedNode && node.index == i && node.exportNames == []
    ensures node.name == m.imports[i].moduleName + "." + m.imports[i].name
    ensures node.importModule == Some(m.imports[i].moduleName) && node.importName == Some(m.imports[i].name)
    ensures node.indirectCalls == 0 && node.unresolvedCalls == 0
    ensures InitialNode(m, i).outgoingCalls == InitialNode(m, i).incomingCalls == []
  {}

  /** The node of a local function: its own or its generated name, and the names of its exports in order. */
  lemma LocalNodeIs(m: WasmModule, i: int, node: CallGraphNode) returns (at: seq<int>)
    requires IsLocal(m, i) && IsTallied(InitialNode(m, i), node, Body(m, i))
    ensures node.index == i && node.importModule == node.importName == None
    ensures node.name == DisplayName(m.functions[i - FunctionImportCount(m.imports)], i)
    ensures ListsExportsOf(m.exports, i, at) && |at| == |node.exportNames|
    ensures forall j :: 0 <= j < |at| ==> at[j] in at && node.exportNames[j] == m.exports[at[j]].name
    ensures node.kind == if at == [] then LocalNode else ExportedNode
    ensures node.indirectCalls == |set k | 0 <= k < |Body(m, i)| && Body(m, i)[k].name == "call_indirect"|
    ensures node.unresolvedCalls == |set k | 0 <= k < |Body(m, i)| && Body(m, i)[k] == Instr("call", None)|
    ensures InitialNode(m, i).outgoingCalls == InitialNode(m, i).incomingCalls == []
  {
    at := ExportNamesInOrder(m.exports, i);
    CountersOf(Body(m, i));
  }

  predicate EdgeOrder(a: CallGraphEdge, b: CallGraphEdge) {
    if a.caller != b.caller then a.caller < b.caller else a.callee <= b.callee
  }

  lemma EdgeOrderIsTotal()
    ensures TotalPreorder(EdgeOrder)
  {}

  /** The graph's node list: each node once, by ascending index. */
  ghost predicate IsNodeList(list: seq<CallGraphNode>, nodes: Nodes) {
    && (forall a, b :: 0 <= a < b < |list| ==> list[a].index < list[b].index)
    && (forall k :: 0 <= k < |list| ==> list[k].index in nodes && list[k] == nodes[list[k].index])
    && (forall i :: i in nodes ==> exists k :: 0 <= k < |list| && list[k].index == i)
  }

  /** The graph a builder makes of a module: one edge per pair of known functions joined by a call instruction. */
  ghost predicate IsBuiltGraph(m: WasmModule, g: Graph) {
    && (forall i :: i in g <==> IsFunctionIndex(m, i))
    && (forall u, v :: Edge(g, u, v) <==> IsFunctionIndex(m, u) && IsFunctionIndex(m, v) && Calls(m, u, v))
  }

  lemma PairsOfMembers(xs: seq<CallGraphEdge>, ys: seq<CallGraphEdge>, k: nat) returns (j: nat)
    requires multiset(xs) == multiset(ys) && k < |ys|
    ensures j < |xs| && xs[j] == ys[k] && EdgePairs(xs)[j] == EdgePairs(ys)[k]
  {
    assert ys[k] in multiset(ys);
    j :| 0 <= j < |xs| && xs[j] == ys[k];
  }

  lemma SortedEdgesDistinct(xs: seq<CallGraphEdge>, ys: seq<CallGraphEdge>)
    requires NoDuplicates(EdgePairs(xs)) && multiset(xs) == multiset(ys)
    ensures NoDuplicates(EdgePairs(ys))
  {
    forall i, j | 0 <= i < j < |xs| ensures xs[i] != xs[j] { assert EdgePairs(xs)[i] != EdgePairs(xs)[j]; }
    RearrangedNoDuplicates(xs, ys);
    forall a, b | 0 <= a < b < |ys| ensures EdgePairs(ys)[a] != EdgePairs(ys)[b] {
      var i := PairsOfMembers(xs, ys, a);
      var j := PairsOfMembers(xs, ys, b);
      assert i < j || j < i;
    }
  }

  /** Sorted edges come by caller, then by callee, no pair twice. */
  lemma SortedEdgesAscend(edges: seq<CallGraphEdge>)
    requires SortedBy(edges, EdgeOrder) && NoDuplicates(EdgePairs(edges))
    ensures forall a, b :: 0 <= a < b < |edges| ==>
      edges[a].caller < edges[b].caller || (edges[a].caller == edges[b].caller && edges[a].callee < edges[b].callee)
  {
    forall a, b | 0 <= a < b < |edges|
      ensures edges[a].caller < edges[b].caller ||
        (edges[a].caller == edges[b].caller && edges[a].callee < edges[b].callee)
    {
      assert EdgePairs(edges)[a] != EdgePairs(edges)[b];
    }
  }

  lemma SortedEdgesCount(xs: seq<CallGraphEdge>, ys: seq<CallGraphEdge>, calls: seq<(int, int)>)
    requires EdgesCount(xs, calls) && multiset(xs) == multiset(ys)
    ensures EdgesCount(ys, calls)
  {
    SortedEdgesDistinct(xs, ys);
    forall k | 0 <= k < |ys|
      ensures EdgePairs(ys)[k] in calls && ys[k].count == Occurrences(calls, EdgePairs(ys)[k])
      ensures ys[k].callType == Direct
    {
      var j := PairsOfMembers(xs, ys, k);
      assert EdgePairs(xs)[j] in EdgePairs(xs);
    }
    forall c | c in calls ensures c in EdgePairs(ys) {
      var i :| 0 <= i < |xs| && EdgePairs(xs)[i] == c;
      var j := PairsOfMembers(ys, xs, i);
    }
  }

  // ----- Conservation: every edge is counted once on each side -----

  function TotalLength(lists: Graph, order: seq<int>): nat
    requires forall k :: 0 <= k < |order| ==> order[k] in lists
  {
    if order == [] then 0
    else
      var n := |order| - 1;
      TotalLength(lists, order[..n]) + |lists[order[n]]|
  }

  function ListMembers(lists: Graph): map<int, set<int>> { map i | i in lists :: Elements(lists[i]) }

  lemma {:induction false} LengthsAreSizes(lists: Graph, order: seq<int>)
    requires forall k :: 0 <= k < |order| ==> order[k] in lists
    requires forall i :: i in lists ==> NoDuplicates(lists[i])
    ensures TotalLength(lists, order) == TotalSize(ListMembers(lists), order)
    decreases |order|
  {
    if order != [] {
      var n := |order| - 1;
      LengthsAreSizes(lists, order[..n]);
      DistinctSize(lists[order[n]]);
    }
  }

  /** After any calls recorded, total outgoing = total incoming = number of edges. */
  lemma TotalsAgree(nodes: Nodes, order: seq<int>, edges: seq<CallGraphEdge>, calls: seq<(int, int)>)
    requires DescribesCalls(nodes, edges, calls) && NoDuplicates(order) && Elements(order) == nodes.Keys
    requires forall k :: 0 <= k < |order| ==> order[k] in nodes
    ensures TotalLength(Outgoing(nodes), order) == |edges| == TotalLength(Incoming(nodes), order)
  {
    RowsCountEdges(nodes, order, edges, calls);
    RowsCountColumns(nodes, order, edges, calls);
    ListLengths(nodes, order, edges, calls);
  }

  lemma RowsCountEdges(nodes: Nodes, order: seq<int>, edges: seq<CallGraphEdge>, calls: seq<(int, int)>)
    requires DescribesCalls(nodes, edges, calls) && NoDuplicates(order) && Elements(order) == nodes.Keys
    requires forall k :: 0 <= k < |order| ==> order[k] in nodes
    ensures TotalSize(ListMembers(Outgoing(nodes)), order) == |edges|
  {
    var out := ListMembers(Outgoing(nodes));
    var pairs := Elements(EdgePairs(edges));
    DistinctSize(EdgePairs(edges));
    forall p ensures p in pairs <==> p.0 in order && p.1 in out[p.0] {
      CallInLists(nodes, order, edges, calls, p.0, p.1);
      assert p == (p.0, p.1);
    }
    TotalSizeCountsPairs(out, order, pairs);
  }

  lemma RowsCountColumns(nodes: Nodes, order: seq<int>, edges: seq<CallGraphEdge>, calls: seq<(int, int)>)
    requires DescribesCalls(nodes, edges, calls) && NoDuplicates(order) && Elements(order) == nodes.Keys
    requires forall k :: 0 <= k < |order| ==> order[k] in nodes
    ensures TotalSize(ListMembers(Outgoing(nodes)), order) == TotalSize(ListMembers(Incoming(nodes)), order)
  {
    var out, inc := ListMembers(Outgoing(nodes)), ListMembers(Incoming(nodes));
    forall i, t ensures i in order && t in out[i] <==> t in order && i in inc[t] {
      CallInLists(nodes, order, edges, calls, i, t);
    }
    DoubleCount(out, inc, order);
  }

  lemma ListLengths(nodes: Nodes, order: seq<int>, edges: seq<CallGraphEdge>, calls: seq<(int, int)>)
    requires DescribesCalls(nodes, edges, calls) && forall k :: 0 <= k < |order| ==> order[k] in nodes
    ensures TotalLength(Outgoing(nodes), order) == TotalSize(ListMembers(Outgoing(nodes)), order)
    ensures TotalLength(Incoming(nodes), order) == TotalSize(ListMembers(Incoming(nodes)), order)
  {
    forall i | i in nodes ensures NoDuplicates(nodes[i].outgoingCalls) && NoDuplicates(nodes[i].incomingCalls) {
      assert NodeDescribes(nodes[i], calls);
    }
    LengthsAreSizes(Outgoing(nodes), order);
    LengthsAreSizes(Incoming(nodes), order);
  }

  lemma CallInLists(nodes: Nodes, order: seq<int>, edges: seq<CallGraphEdge>, calls: seq<(int, int)>, i: int, t: int)
    requires DescribesCalls(nodes, edges, calls) && Elements(order) == nodes.Keys
    ensures (i, t) in EdgePairs(edges) <==> i in order && t in ListMembers(Outgoing(nodes))[i]
    ensures (i, t) in EdgePairs(edges) <==> t in order && i in ListMembers(Incoming(nodes))[t]
  {
    assert i in nodes <==> i in Elements(order);
    assert t in nodes <==> t in Elements(order);
    if i in nodes { assert NodeDescribes(nodes[i], calls); }
    if t in nodes { assert NodeDescribes(nodes[t], calls); }
    assert (i, t) in EdgePairs(edges) <==> (i, t) in calls;
  }
}
