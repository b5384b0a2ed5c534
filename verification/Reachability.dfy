/** `ReachabilityAnalyzer`: one depth-first traversal per root over a shared map of entries. */
module Reachability {
  import opened Collections
  import opened Digraphs
  import opened CallGraphs

  datatype Entry = Entry(isReachable: bool, reachedFrom: seq<int>, depth: int)

  type Entries = map<int, Entry>

  /** The map of entries and the visited set of the traversal in progress. */
  datatype State = State(entries: Entries, visited: set<int>)

  function FindRoot(roots: seq<int>, v: int, entries: Entries): Option<int> {
    if v in roots then Some(v)
    else if v in entries && entries[v].reachedFrom != [] then Some(entries[v].reachedFrom[0])
    else None
  }

  /** What following one call does to the entry of its target. */
  function Relax(e: Entry, root: Option<int>, newDepth: int): Entry {
    Entry(true,
          if root.Some? && root.value !in e.reachedFrom then e.reachedFrom + [root.value] else e.reachedFrom,
          if e.depth == -1 || newDepth < e.depth then newDepth else e.depth)
  }

  function Visit(g: Graph, roots: seq<int>, v: int, s: State): (r: State)
    ensures s.visited <= r.visited && r.entries.Keys == s.entries.Keys
    decreases g.Keys - s.visited, 0
  {
    if v in s.visited then s
    else
      var s1 := s.(visited := s.visited + {v});
      if v !in g || v !in s.entries then s1
      else
        assert v in g.Keys - s.visited && v !in g.Keys - s1.visited;
        VisitCallees(g, roots, s.entries[v].depth, FindRoot(roots, v, s.entries), g[v], s1)
  }

  function VisitCallees(g: Graph, roots: seq<int>, depth: int, root: Option<int>, targets: seq<int>, s: State)
    : (r: State)
    ensures s.visited <= r.visited && r.entries.Keys == s.entries.Keys
    decreases g.Keys - s.visited, |targets|
  {
    if targets == [] then s
    else
      var t := targets[0];
      var s1 := if t in s.entries
                then Visit(g, roots, t, s.(entries := s.entries[t := Relax(s.entries[t], root, depth + 1)]))
                else s;
      assert g.Keys - s1.visited <= g.Keys - s.visited;
      VisitCallees(g, roots, depth, root, targets[1..], s1)
  }

  /** All functions unreachable, then the roots reachable at depth 0. */
  function InitialEntries(g: Graph, roots: seq<int>): Entries {
    map v | v in g :: if v in roots then Entry(true, [], 0) else Entry(false, [], -1)
  }

  lemma RootsMarked(g: Graph, roots: seq<int>, entries: Entries)
    requires entries.Keys == g.Keys
    requires forall v :: v in entries ==> entries[v] == if v in roots then Entry(true, [], 0) else Entry(false, [], -1)
    ensures entries == InitialEntries(g, roots)
  {
    var initial := InitialEntries(g, roots);
    assert initial.Keys == entries.Keys;
    forall v | v in entries ensures entries[v] == initial[v] { assert v in g; }
  }

  function AfterRoots(g: Graph, roots: seq<int>, k: nat): (entries: Entries)
    requires k <= |roots|
    ensures entries.Keys == g.Keys
  {
    if k == 0 then InitialEntries(g, roots)
    else Visit(g, roots, roots[k - 1], State(AfterRoots(g, roots, k - 1), {})).entries
  }

  // ----- What the traversal keeps true -----

  /**
   * A simple call chain from a root to `v` that explains depth `d`: no function on it is recorded
   * deeper than its place.
   */
  ghost predicate ExplainsDepth(g: Graph, roots: seq<int>, entries: Entries, v: int, d: int, p: seq<int>) {
    && IsWalk(g, p) && p[0] in roots && Last(p) == v && |p| == d + 1 && NoDuplicates(p)
    && forall i :: 0 <= i < |p| ==> p[i] in entries && 0 <= entries[p[i]].depth <= i
  }

  ghost predicate HasDepthChain(g: Graph, roots: seq<int>, entries: Entries, v: int, d: int) {
    exists p :: ExplainsDepth(g, roots, entries, v, d, p)
  }

  ghost predicate RootsSound(g: Graph, roots: seq<int>, v: int, e: Entry) {
    && NoDuplicates(e.reachedFrom)
    && (forall r :: r in e.reachedFrom ==> r in roots && ReachesBySteps(g, r, v))
    && (e.isReachable && v !in roots ==> e.reachedFrom != [])
  }

  ghost predicate EntrySound(g: Graph, roots: seq<int>, entries: Entries, v: int)
    requires v in entries
  {
    && RootsSound(g, roots, v, entries[v])
    && entries[v].depth >= -1
    && (entries[v].isReachable <==> entries[v].depth >= 0)
    && (entries[v].isReachable ==> HasDepthChain(g, roots, entries, v, entries[v].depth))
    && (v in roots ==> entries[v].depth == 0)
  }

  ghost predicate Sound(g: Graph, roots: seq<int>, entries: Entries) {
    && entries.Keys == g.Keys
    && forall v {:trigger EntrySound(g, roots, entries, v)} :: v in g ==> EntrySound(g, roots, entries, v)
  }

  /** Reachable functions stay reachable and their depths never grow. */
  ghost predicate Improves(after: Entries, before: Entries) {
    && after.Keys == before.Keys
    && forall v :: v in before ==>
         && (before[v].isReachable ==> after[v].isReachable)
         && (0 <= before[v].depth ==> 0 <= after[v].depth <= before[v].depth)
  }

  ghost predicate VisitedReachable(s: State) {
    forall v :: v in s.visited && v in s.entries ==> s.entries[v].isReachable
  }

  ghost predicate Expanded(g: Graph, entries: Entries, u: int) {
    u in g && forall v :: v in g[u] && v in entries ==> entries[v].isReachable
  }

  /** The functions a traversal visits are expanded, and the functions it marks are visited. */
  ghost predicate Explores(g: Graph, before: State, after: State) {
    && (forall u {:trigger Expanded(g, after.entries, u)} ::
          u in after.visited && u !in before.visited && u in g ==> Expanded(g, after.entries, u))
    && (forall v :: v in before.entries && v in after.entries ==>
          after.entries[v].isReachable && !before.entries[v].isReachable ==> v in after.visited)
  }

  lemma ChainSurvives(g: Graph, roots: seq<int>, before: Entries, after: Entries, v: int, d: int)
    requires Sound(g, roots, before) && Improves(after, before) && HasDepthChain(g, roots, before, v, d)
    ensures HasDepthChain(g, roots, after, v, d)
  {
    var p :| ExplainsDepth(g, roots, before, v, d, p);
    forall i | 0 <= i < |p| ensures p[i] in after && 0 <= after[p[i]].depth <= i {
      assert p[i] in before && EntrySound(g, roots, before, p[i]);
    }
    assert ExplainsDepth(g, roots, after, v, d, p);
  }

  /** A shorter chain may be extended: had it met the target before, the target would not be deeper. */
  lemma ChainGrows(g: Graph, roots: seq<int>, before: Entries, after: Entries, cur: int, d: int, t: int)
    requires Sound(g, roots, before) && HasDepthChain(g, roots, before, cur, d) && Edge(g, cur, t) && t in g
    requires before[t].depth == -1 || d + 1 < before[t].depth
    requires after.Keys == before.Keys && after[t].depth == d + 1
    requires forall v :: v in before && v != t ==> after[v].depth == before[v].depth
    ensures HasDepthChain(g, roots, after, t, d + 1)
  {
    var p :| ExplainsDepth(g, roots, before, cur, d, p);
    assert forall i :: 0 <= i < |p| ==> p[i] != t;
    WalkStep(g, p, t);
    assert ExplainsDepth(g, roots, after, t, d + 1, p + [t]);
  }

  ghost predicate RootOf(g: Graph, roots: seq<int>, root: Option<int>, v: int) {
    root.Some? && root.value in roots && Reaches(g, root.value, v)
  }

  lemma FoundRoot(g: Graph, roots: seq<int>, entries: Entries, v: int)
    requires Sound(g, roots, entries) && v in g && entries[v].isReachable
    ensures RootOf(g, roots, FindRoot(roots, v, entries), v)
  {
    ReachesSelf(g, v);
    assert EntrySound(g, roots, entries, v);
    if v !in roots {
      var r := entries[v].reachedFrom[0];
      assert r in entries[v].reachedFrom;
      assert ReachesBySteps(g, r, v);
    }
  }

  lemma RelaxRoots(g: Graph, roots: seq<int>, e: Entry, cur: int, root: Option<int>, newDepth: int, t: int)
    requires RootsSound(g, roots, t, e) && RootOf(g, roots, root, cur) && Edge(g, cur, t)
    ensures RootsSound(g, roots, t, Relax(e, root, newDepth))
  {
    ReachesThenSteps(g, root.value, cur, t);
  }

  /** Following one call keeps every entry sound. */
  lemma RelaxIsSound(g: Graph, roots: seq<int>, entries: Entries, cur: int, d: int, root: Option<int>, t: int)
    requires Sound(g, roots, entries) && d >= 0 && HasDepthChain(g, roots, entries, cur, d)
    requires RootOf(g, roots, root, cur) && Edge(g, cur, t) && t in entries
    ensures var after := entries[t := Relax(entries[t], root, d + 1)];
      Sound(g, roots, after) && Improves(after, entries) && after[t].isReachable && after[t].depth <= d + 1
  {
    var after := entries[t := Relax(entries[t], root, d + 1)];
    assert EntrySound(g, roots, entries, t);
    assert Improves(after, entries);
    RelaxRoots(g, roots, entries[t], cur, root, d + 1, t);
    forall v | v in g ensures EntrySound(g, roots, after, v) {
      assert EntrySound(g, roots, entries, v);
      if v == t && (entries[t].depth == -1 || d + 1 < entries[t].depth) {
        ChainGrows(g, roots, entries, after, cur, d, t);
      } else if after[v].isReachable {
        ChainSurvives(g, roots, entries, after, v, entries[v].depth);
      }
    }
  }

  /** A traversal keeps every entry sound, only improves depths, and explores what it marks. */
  lemma {:induction false} VisitIsSound(g: Graph, roots: seq<int>, v: int, s: State)
    requires Sound(g, roots, s.entries) && VisitedReachable(s) && (v in g ==> s.entries[v].isReachable)
    ensures var r := Visit(g, roots, v, s);
      && Sound(g, roots, r.entries) && VisitedReachable(r) && Improves(r.entries, s.entries) && Explores(g, s, r)
      && v in r.visited
    ensures v in g && v !in s.visited ==>
      forall t :: t in g[v] && t in g ==> 0 <= Visit(g, roots, v, s).entries[t].depth <= s.entries[v].depth + 1
    decreases g.Keys - s.visited, 0
  {
    if v !in s.visited && v in g {
      var s1 := s.(visited := s.visited + {v});
      assert v in g.Keys - s.visited && v !in g.Keys - s1.visited;
      FoundRoot(g, roots, s.entries, v);
      assert EntrySound(g, roots, s.entries, v);
      VisitCalleesIsSound(g, roots, v, s.entries[v].depth, FindRoot(roots, v, s.entries), g[v], s1);
      var r := Visit(g, roots, v, s);
      assert Expanded(g, r.entries, v);
    }
  }

  lemma {:induction false} VisitCalleesIsSound(
      g: Graph, roots: seq<int>, cur: int, depth: int, root: Option<int>, targets: seq<int>, s: State)
    requires Sound(g, roots, s.entries) && VisitedReachable(s)
    requires depth >= 0 && HasDepthChain(g, roots, s.entries, cur, depth) && RootOf(g, roots, root, cur)
    requires cur in g && forall t :: t in targets ==> t in g[cur]
    ensures var r := VisitCallees(g, roots, depth, root, targets, s);
      && Sound(g, roots, r.entries) && VisitedReachable(r) && Improves(r.entries, s.entries) && Explores(g, s, r)
      && forall t :: t in targets && t in g ==> r.entries[t].isReachable && 0 <= r.entries[t].depth <= depth + 1
    decreases g.Keys - s.visited, |targets|
  {
    if targets != [] {
      var t := targets[0];
      var s1 := s;
      if t in s.entries {
        RelaxIsSound(g, roots, s.entries, cur, depth, root, t);
        var s0 := s.(entries := s.entries[t := Relax(s.entries[t], root, depth + 1)]);
        VisitIsSound(g, roots, t, s0);
        s1 := Visit(g, roots, t, s0);
        assert EntrySound(g, roots, s0.entries, t);
        FollowedCall(g, s, s0, s1, t);
      }
      assert g.Keys - s1.visited <= g.Keys - s.visited;
      ChainSurvives(g, roots, s.entries, s1.entries, cur, depth);
      VisitCalleesIsSound(g, roots, cur, depth, root, targets[1..], s1);
      var r := VisitCallees(g, roots, depth, root, targets[1..], s1);
      ExploresTransitive(g, s, s1, r);
      forall u | u in targets && u in g ensures r.entries[u].isReachable && 0 <= r.entries[u].depth <= depth + 1 {
        assert u == t || u in targets[1..];
      }
    }
  }

  lemma FollowedCall(g: Graph, s: State, s0: State, s1: State, t: int)
    requires t in s.entries && s0.visited == s.visited && Improves(s0.entries, s.entries)
    requires forall v :: v in s.entries && v != t ==> s0.entries[v] == s.entries[v]
    requires Improves(s1.entries, s0.entries) && Explores(g, s0, s1) && t in s1.visited
    ensures Improves(s1.entries, s.entries) && Explores(g, s, s1)
  {}

  lemma ExploresTransitive(g: Graph, a: State, b: State, c: State)
    requires Explores(g, a, b) && Explores(g, b, c) && Improves(c.entries, b.entries) && Improves(b.entries, a.entries)
    requires a.visited <= b.visited <= c.visited
    ensures Explores(g, a, c) && Improves(c.entries, a.entries)
  {
    forall u | u in c.visited && u !in a.visited && u in g ensures Expanded(g, c.entries, u) {
      if u in b.visited { assert Expanded(g, b.entries, u); }
    }
  }

  lemma InitialIsSound(g: Graph, roots: seq<int>)
    ensures Sound(g, roots, InitialEntries(g, roots))
  {
    var entries := InitialEntries(g, roots);
    forall v | v in g ensures EntrySound(g, roots, entries, v) {
      assert v in roots ==> ExplainsDepth(g, roots, entries, v, 0, [v]);
    }
  }

  ghost predicate Pending(roots: seq<int>, k: nat, v: int) { exists j :: k <= j < |roots| && roots[j] == v }

  /**
   * Every reachable function has been expanded, apart from roots still to be traversed; callees of the
   * others have depth at most 1.
   */
  ghost predicate Settled(g: Graph, roots: seq<int>, k: nat, entries: Entries)
    requires k <= |roots|
  {
    && (forall v :: v in g && v in entries && entries[v].isReachable ==>
          Pending(roots, k, v) || Expanded(g, entries, v))
    && (forall j, t :: 0 <= j < k && roots[j] in g && t in g[roots[j]] && t in entries ==> 0 <= entries[t].depth <= 1)
  }

  lemma OneMoreRoot(g: Graph, roots: seq<int>, k: nat, before: Entries, r: State)
    requires k < |roots| && Settled(g, roots, k, before)
    requires Improves(r.entries, before) && Explores(g, State(before, {}), r) && roots[k] in r.visited
    requires roots[k] in g ==> forall t :: t in g[roots[k]] && t in r.entries ==> 0 <= r.entries[t].depth <= 1
    ensures Settled(g, roots, k + 1, r.entries)
  {
    forall v | v in g && v in r.entries && r.entries[v].isReachable
      ensures Pending(roots, k + 1, v) || Expanded(g, r.entries, v)
    {
      if v in r.visited {
        assert Expanded(g, r.entries, v);
      } else if Pending(roots, k, v) {
        var j :| k <= j < |roots| && roots[j] == v;
        assert j != k;
      } else {
        assert Expanded(g, before, v);
      }
    }
  }

  lemma {:induction false} AfterRootsIsSound(g: Graph, roots: seq<int>, k: nat)
    requires k <= |roots|
    ensures Sound(g, roots, AfterRoots(g, roots, k)) && Settled(g, roots, k, AfterRoots(g, roots, k))
  {
    if k == 0 {
      InitialIsSound(g, roots);
      forall v | v in g && v in roots ensures Pending(roots, 0, v) {}
    } else {
      AfterRootsIsSound(g, roots, k - 1);
      var before := AfterRoots(g, roots, k - 1);
      var s := State(before, {});
      assert roots[k - 1] in g ==> EntrySound(g, roots, before, roots[k - 1]);
      VisitIsSound(g, roots, roots[k - 1], s);
      OneMoreRoot(g, roots, k - 1, before, Visit(g, roots, roots[k - 1], s));
    }
  }

  /** The map handed out: sound, and reachable exactly where a root of the graph reaches. */
  ghost predicate IsReachabilityMap(g: Graph, roots: seq<int>, entries: Entries) {
    && Sound(g, roots, entries)
    && (forall v :: v in g ==> (entries[v].isReachable <==> v in ReachableFrom(g, Elements(roots))))
    && (forall r, t :: r in roots && Edge(g, r, t) && t in g ==> entries[t].depth <= 1)
  }

  lemma FinalEntries(g: Graph, roots: seq<int>)
    requires Closed(g)
    ensures IsReachabilityMap(g, roots, AfterRoots(g, roots, |roots|))
  {
    AfterRootsIsSound(g, roots, |roots|);
    var entries := AfterRoots(g, roots, |roots|);
    forall v | v in g ensures entries[v].isReachable <==> v in ReachableFrom(g, Elements(roots)) {
      if entries[v].isReachable { MarkedIsReached(g, roots, entries, v); }
      if v in ReachableFrom(g, Elements(roots)) {
        var r :| r in Elements(roots) && r in g && Reaches(g, r, v);
        ReachedIsMarked(g, roots, entries, r, v);
      }
    }
    forall r, t | r in roots && Edge(g, r, t) && t in g ensures entries[t].depth <= 1 {
      var j :| 0 <= j < |roots| && roots[j] == r;
    }
  }

  lemma MarkedIsReached(g: Graph, roots: seq<int>, entries: Entries, v: int)
    requires Sound(g, roots, entries) && v in g && entries[v].isReachable
    ensures v in ReachableFrom(g, Elements(roots))
  {
    assert EntrySound(g, roots, entries, v);
    var p :| ExplainsDepth(g, roots, entries, v, entries[v].depth, p);
    assert p[0] in Elements(roots) && p[0] in g && Joins(g, p, p[0], v);
  }

  lemma ReachedIsMarked(g: Graph, roots: seq<int>, entries: Entries, r: int, v: int)
    requires Closed(g) && Sound(g, roots, entries) && r in roots && r in g && Reaches(g, r, v)
    requires forall u :: u in g && entries[u].isReachable ==> Expanded(g, entries, u)
    ensures v in g && entries[v].isReachable
  {
    var marked := set u | u in g && entries[u].isReachable;
    var p :| Joins(g, p, r, v);
    assert EntrySound(g, roots, entries, r);
    forall u, w | u in marked && Edge(g, u, w) ensures w in marked {
      assert Expanded(g, entries, u);
    }
    ClosedSetHoldsWalk(g, marked, p);
  }

  // ----- What the recorded depths mean -----

  /**
   * Depth + 1 never exceeds the call graph's maximum depth, and depth is the length of a real call
   * walk from a root.
   */
  lemma DepthIsSandwiched(g: Graph, roots: seq<int>, entries: Entries, maxDepth: int, v: int)
    requires Sound(g, roots, entries) && IsMaxDepth(g, maxDepth) && v in g && entries[v].isReachable
    ensures entries[v].depth + 1 <= maxDepth
    ensures exists p :: IsWalk(g, p) && p[0] in roots && Last(p) == v && |p| == entries[v].depth + 1
  {
    assert EntrySound(g, roots, entries, v);
    var p :| ExplainsDepth(g, roots, entries, v, entries[v].depth, p);
    assert IsChain(g, p, p[0], {});
    assert p[0] in entries;
  }

  /** The first two levels are exact: depth 0 is being a root, depth 1 is being called by one. */
  lemma ShallowDepthsAreExact(g: Graph, roots: seq<int>, entries: Entries, v: int)
    requires IsReachabilityMap(g, roots, entries) && v in g
    ensures entries[v].depth == 0 <==> v in roots
    ensures entries[v].depth == 1 <==> v !in roots && exists r :: r in roots && Edge(g, r, v)
  {
    assert EntrySound(g, roots, entries, v);
    if entries[v].depth == 0 || entries[v].depth == 1 {
      var p :| ExplainsDepth(g, roots, entries, v, entries[v].depth, p);
      if |p| == 2 { assert Edge(g, p[0], p[1]); }
    }
    if v !in roots && exists r :: r in roots && Edge(g, r, v) {
      var r :| r in roots && Edge(g, r, v);
      ReachesSelf(g, r);
      ReachesThenSteps(g, r, r, v);
      assert r in Elements(roots);
      assert v in ReachableFrom(g, Elements(roots));
    }
  }

  ghost predicate IsShortest(g: Graph, roots: seq<int>, v: int, d: int) {
    forall p :: IsWalk(g, p) && p[0] in roots && p[0] in g && Last(p) == v ==> d + 1 <= |p|
  }

  // ----- The analyzer -----

  ghost predicate Indexed(nodes: seq<CallGraphNode>) {
    forall a, b :: 0 <= a < b < |nodes| ==> nodes[a].index != nodes[b].index
  }

  ghost function Indices(nodes: seq<CallGraphNode>): set<int> {
    if nodes == [] then {} else Indices(nodes[..|nodes| - 1]) + {nodes[|nodes| - 1].index}
  }

  lemma {:induction false} IndexHasNode(nodes: seq<CallGraphNode>, v: int)
    ensures v in Indices(nodes) <==> exists k :: 0 <= k < |nodes| && nodes[k].index == v
  {
    if nodes != [] {
      var n := |nodes| - 1;
      IndexHasNode(nodes[..n], v);
      if v in Indices(nodes[..n]) {
        var k :| 0 <= k < n && nodes[..n][k].index == v;
        assert nodes[k].index == v;
      }
      if exists k :: 0 <= k < n && nodes[k].index == v {
        var k :| 0 <= k < n && nodes[k].index == v;
        assert nodes[..n][k].index == v;
      }
    }
  }

  /** `nodes.find(n => n.index === i)` */
  function FindNode(nodes: seq<CallGraphNode>, i: int): (r: Option<CallGraphNode>)
    ensures r.Some? ==> r.value in nodes && r.value.index == i
    ensures r.None? ==> forall k :: 0 <= k < |nodes| ==> nodes[k].index != i
  {
    if nodes == [] then None
    else if nodes[0].index == i then Some(nodes[0])
    else FindNode(nodes[1..], i)
  }

  ghost function GraphOf(nodes: seq<CallGraphNode>): Graph {
    map i | i in Indices(nodes) :: Callees(nodes, i)
  }

  ghost function Callees(nodes: seq<CallGraphNode>, i: int): seq<int>
    requires i in Indices(nodes)
  {
    IndexHasNode(nodes, i);
    FindNode(nodes, i).value.outgoingCalls
  }

  function ExportedIndices(nodes: seq<CallGraphNode>): seq<int> {
    if nodes == [] then []
    else (if nodes[0].kind == ExportedNode then [nodes[0].index] else []) + ExportedIndices(nodes[1..])
  }

  lemma ExportedIndicesWitness(nodes: seq<CallGraphNode>, i: int)
    ensures i in ExportedIndices(nodes) <==> exists n :: n in nodes && n.kind == ExportedNode && n.index == i
  {
    if nodes != [] {
      ExportedIndicesWitness(nodes[1..], i);
      assert forall n :: n in nodes <==> n == nodes[0] || n in nodes[1..];
    }
  }

  /** From a node list ascending by index the default roots come in ascending order, each once. */
  lemma {:induction false} ExportedIndicesAscend(nodes: seq<CallGraphNode>)
    requires forall a, b :: 0 <= a < b < |nodes| ==> nodes[a].index < nodes[b].index
    ensures StrictlyAscending(ExportedIndices(nodes))
  {
    if nodes != [] {
      ExportedIndicesAscend(nodes[1..]);
      var rest := ExportedIndices(nodes[1..]);
      forall j | 0 <= j < |rest| ensures nodes[0].index < rest[j] {
        assert rest[j] in rest;
        ExportedIndicesWitness(nodes[1..], rest[j]);
      }
    }
  }

  datatype SharedFunction = SharedFunction(functionIndex: int, roots: seq<int>)

  datatype Result = Result(
    reachableFunctions: seq<int>, unreachableFunctions: seq<int>,
    reachableFromMultipleRoots: seq<SharedFunction>, reachableCount: nat, maxDepth: int)

  /** The report's in-place sort of the roots recorded for a function with several of them. */
  function SortedEntry(e: Entry): Entry {
    if e.isReachable && |e.reachedFrom| > 1 then e.(reachedFrom := SortIndices(e.reachedFrom)) else e
  }

  predicate RowOrder(a: SharedFunction, b: SharedFunction) { a.functionIndex <= b.functionIndex }

  ghost predicate IsShared(entries: Entries, row: SharedFunction) {
    && row.functionIndex in entries && entries[row.functionIndex].isReachable
    && |entries[row.functionIndex].reachedFrom| > 1 && row.roots == entries[row.functionIndex].reachedFrom
  }

  ghost function Marked(entries: Entries): set<int> { set v | v in entries && entries[v].isReachable }

  /** One row a function, ascending. */
  ghost predicate RowsAscend(rows: seq<SharedFunction>) {
    forall a, b :: 0 <= a < b < |rows| ==> rows[a].functionIndex < rows[b].functionIndex
  }

  /** The report says of each entry what the map says. */
  ghost predicate Reports(result: Result, entries: Entries) {
    && IsListing(result.reachableFunctions, Marked(entries))
    && IsListing(result.unreachableFunctions, entries.Keys - Marked(entries))
    && (forall row :: row in result.reachableFromMultipleRoots <==> IsShared(entries, row))
    && RowsAscend(result.reachableFromMultipleRoots)
    && (forall row :: row in result.reachableFromMultipleRoots ==> StrictlyAscending(row.roots))
    && result.reachableCount == |Marked(entries)|
    && (forall v :: v in Marked(entries) ==> entries[v].depth <= result.maxDepth)
    && (result.maxDepth == 0 || exists v :: v in Marked(entries) && entries[v].depth == result.maxDepth)
  }

  lemma SortedEntriesStaySound(g: Graph, roots: seq<int>, before: Entries, after: Entries)
    requires IsReachabilityMap(g, roots, before)
    requires after == SortedEntries(before)
    ensures IsReachabilityMap(g, roots, after)
  {
    forall v | v in g ensures EntrySound(g, roots, after, v) {
      SortedEntryStaysSound(g, roots, before, after, v);
    }
  }

  lemma SortedEntryStaysSound(g: Graph, roots: seq<int>, before: Entries, after: Entries, v: int)
    requires Sound(g, roots, before) && after == SortedEntries(before) && v in g
    ensures EntrySound(g, roots, after, v)
  {
    assert EntrySound(g, roots, before, v);
    SortedRootsSound(g, roots, v, before[v]);
    if before[v].isReachable {
      var p :| ExplainsDepth(g, roots, before, v, before[v].depth, p);
      assert ExplainsDepth(g, roots, after, v, before[v].depth, p);
    }
  }

  lemma SortedRootsSound(g: Graph, roots: seq<int>, v: int, e: Entry)
    requires RootsSound(g, roots, v, e)
    ensures RootsSound(g, roots, v, SortedEntry(e))
  {
    var sorted := SortIndices(e.reachedFrom);
    RearrangedNoDuplicates(e.reachedFrom, sorted);
    forall r ensures r in sorted <==> r in e.reachedFrom {
      assert r in multiset(sorted) <==> r in multiset(e.reachedFrom);
    }
  }

  /** The reported maximum stays below the call graph's maximum depth. */
  lemma ReportedDepthBelowMaxDepth(g: Graph, roots: seq<int>, entries: Entries, result: Result, d: int)
    requires IsReachabilityMap(g, roots, entries) && Reports(result, entries) && IsMaxDepth(g, d)
    requires result.reachableFunctions != []
    ensures result.maxDepth + 1 <= d
  {
    var some := result.reachableFunctions[0];
    assert some in Elements(result.reachableFunctions);
    DepthIsSandwiched(g, roots, entries, d, some);
    assert EntrySound(g, roots, entries, some);
    if result.maxDepth != 0 {
      var v :| v in Marked(entries) && entries[v].depth == result.maxDepth;
      DepthIsSandwiched(g, roots, entries, d, v);
    }
  }

  class ReachabilityAnalyzer {
    const nodes: seq<CallGraphNode>
    const rootFunctions: seq<int>
    /** The call lists of `nodes`, by function index. */
    ghost const graph: Graph
    var entries: Entries
    var visited: set<int>

    constructor (callGraph: CallGraph, customRoots: seq<int>)
      ensures nodes == callGraph.nodes && graph == GraphOf(nodes)
      ensures rootFunctions == if customRoots != [] then customRoots else ExportedIndices(callGraph.nodes)
    {
      nodes := callGraph.nodes;
      graph := GraphOf(callGraph.nodes);
      rootFunctions := if customRoots != [] then customRoots else ExportedIndices(callGraph.nodes);
      entries, visited := map[], {};
    }

    method TraverseFrom(current: int)
      requires graph == GraphOf(nodes)
      modifies this
      ensures State(entries, visited) == Visit(graph, rootFunctions, current, old(State(entries, visited)))
      decreases graph.Keys - visited, 0
    {
      ghost var start := visited;
      if current in visited { return; }
      visited := visited + {current};
      var currentNode := FindNode(nodes, current);
      IndexHasNode(nodes, current);
      if currentNode.None? { return; }
      if current !in entries { return; }
      NodeInGraph(nodes, current);
      assert current in graph.Keys - start && current !in graph.Keys - visited;
      FollowCalls(entries[current].depth, FindRoot(rootFunctions, current, entries), currentNode.value.outgoingCalls);
    }

    /** The loop over the calls of one function. */
    method FollowCalls(currentDepth: int, root: Option<int>, targets: seq<int>)
      requires graph == GraphOf(nodes)
      modifies this
      ensures State(entries, visited) ==
        VisitCallees(graph, rootFunctions, currentDepth, root, targets, old(State(entries, visited)))
      decreases graph.Keys - visited, 2
    {
      ghost var begun := State(entries, visited);
      for i := 0 to |targets|
        invariant begun.visited <= visited
        invariant VisitCallees(graph, rootFunctions, currentDepth, root, targets[i..], State(entries, visited))
          == VisitCallees(graph, rootFunctions, currentDepth, root, targets, begun)
      {
        assert targets[i..][0] == targets[i] && targets[i..][1..] == targets[i + 1..];
        assert graph.Keys - visited <= graph.Keys - begun.visited;
        if targets[i] in entries { FollowCall(currentDepth, root, targets[i]); }
      }
      assert targets[|targets|..] == [];
    }

    method FollowCall(currentDepth: int, root: Option<int>, t: int)
      requires graph == GraphOf(nodes) && t in entries
      modifies this
      ensures State(entries, visited) == Visit(graph, rootFunctions, t,
        State(old(entries)[t := Relax(old(entries)[t], root, currentDepth + 1)], old(visited)))
      ensures old(visited) <= visited
      decreases graph.Keys - visited, 1
    {
      entries := entries[t := Relax(entries[t], root, currentDepth + 1)];
      TraverseFrom(t);
    }

    /** Every function unreachable, then each known root reachable at depth 0. */
    method Initialize()
      requires Indexed(nodes) && graph == GraphOf(nodes)
      modifies this`entries
      ensures entries == InitialEntries(graph, rootFunctions)
    {
      entries := map[];
      for k := 0 to |nodes|
        invariant entries.Keys == Indices(nodes[..k])
        invariant forall v :: v in entries ==> entries[v] == Entry(false, [], -1)
      {
        PrefixIndices(nodes, k);
        entries := entries[nodes[k].index := Entry(false, [], -1)];
      }
      assert nodes[..|nodes|] == nodes;
      MarkRoots();
    }

    method MarkRoots()
      requires entries.Keys == graph.Keys && forall v :: v in entries ==> entries[v] == Entry(false, [], -1)
      modifies this`entries
      ensures entries == InitialEntries(graph, rootFunctions)
    {
      for k := 0 to |rootFunctions|
        invariant entries.Keys == graph.Keys
        invariant forall v :: v in entries ==>
          entries[v] == if v in rootFunctions[..k] then Entry(true, [], 0) else Entry(false, [], -1)
      {
        var r := rootFunctions[k];
        assert rootFunctions[..k + 1] == rootFunctions[..k] + [r];
        if r in entries {
          entries := entries[r := entries[r].(isReachable := true, depth := 0)];
        }
      }
      assert rootFunctions[..|rootFunctions|] == rootFunctions;
      RootsMarked(graph, rootFunctions, entries);
    }

    /** One root's traversal, with a fresh visited set. */
    method TraverseRoot(k: nat)
      requires graph == GraphOf(nodes) && k < |rootFunctions| && entries == AfterRoots(graph, rootFunctions, k)
      modifies this
      ensures entries == AfterRoots(graph, rootFunctions, k + 1)
    {
      visited := {};
      TraverseFrom(rootFunctions[k]);
      AfterOneMore(graph, rootFunctions, k, State(entries, visited));
    }

    method TraverseRoots()
      requires graph == GraphOf(nodes) && entries == AfterRoots(graph, rootFunctions, 0)
      modifies this
      ensures entries == AfterRoots(graph, rootFunctions, |rootFunctions|)
    {
      for k := 0 to |rootFunctions|
        invariant entries == AfterRoots(graph, rootFunctions, k)
      {
        TraverseRoot(k);
      }
    }

    /** Runs one traversal per root and compiles the report. */
    method Analyze() returns (result: Result)
      requires Indexed(nodes) && graph == GraphOf(nodes) && Closed(graph)
      modifies this
      ensures entries == SortedEntries(AfterRoots(graph, rootFunctions, |rootFunctions|))
      ensures IsReachabilityMap(graph, rootFunctions, entries) && Reports(result, entries)
      ensures IsListing(result.reachableFunctions, ReachableFrom(graph, Elements(rootFunctions)))
    {
      Initialize();
      TraverseRoots();
      ghost var traversed := entries;
      FinalEntries(graph, rootFunctions);
      MapRootsDistinct(graph, rootFunctions, traversed);
      var reachable, unreachable, shared := Compile();
      SortedEntriesStaySound(graph, rootFunctions, traversed, entries);
      MapRootsDistinct(graph, rootFunctions, entries);
      SharedRootsAscend(traversed, entries, shared);
      var count, maxDepth := CalculateStatistics();
      MarkedIsReachable(graph, rootFunctions, entries);
      result := Result(reachable, unreachable, shared, count, maxDepth);
    }

    method Compile() returns (reachable: seq<int>, unreachable: seq<int>, shared: seq<SharedFunction>)
      requires Indexed(nodes) && entries.Keys == Indices(nodes)
      modifies this`entries
      ensures entries == SortedEntries(old(entries))
      ensures IsListing(reachable, Marked(entries)) && IsListing(unreachable, entries.Keys - Marked(entries))
      ensures (forall row :: row in shared <==> IsShared(entries, row)) && RowsAscend(shared)
    {
      ghost var before := entries;
      reachable, unreachable, shared := CompileNodes();
      CompiledLists(before, nodes);
      reachable, unreachable, shared := SortIndices(reachable), SortIndices(unreachable), Sort(shared, RowOrder);
    }

    /** The report's lines in node order. */
    method CompileNodes() returns (reachable: seq<int>, unreachable: seq<int>, shared: seq<SharedFunction>)
      requires Indexed(nodes) && entries.Keys == Indices(nodes)
      modifies this`entries
      ensures entries == SortedUpTo(old(entries), nodes)
      ensures reachable == IndicesWhere(old(entries), nodes, true)
      ensures unreachable == IndicesWhere(old(entries), nodes, false)
      ensures shared == SharedRows(old(entries), nodes)
    {
      reachable, unreachable, shared := [], [], [];
      ghost var before := entries;
      for k := 0 to |nodes|
        invariant entries.Keys == before.Keys
        invariant CompiledSoFar(before, nodes[..k], entries, Lines(reachable, unreachable, shared))
      {
        PrefixIndices(nodes, k);
        ghost var sorted, lines := entries, Lines(reachable, unreachable, shared);
        reachable, unreachable, shared := CompileNode(nodes[k].index, reachable, unreachable, shared);
        CompiledNext(before, nodes, k, sorted, lines, entries, Lines(reachable, unreachable, shared));
      }
      assert nodes[..|nodes|] == nodes;
    }

    /** One function's line of the report. */
    method CompileNode(v: int, reachable: seq<int>, unreachable: seq<int>, shared: seq<SharedFunction>)
      returns (reachable': seq<int>, unreachable': seq<int>, shared': seq<SharedFunction>)
      requires v in entries
      modifies this`entries
      ensures entries == old(entries)[v := SortedEntry(old(entries)[v])]
      ensures CompilesOne(old(entries)[v], v, Lines(reachable, unreachable, shared),
        Lines(reachable', unreachable', shared'))
    {
      reachable', unreachable', shared' := reachable, unreachable, shared;
      var entry := entries[v];
      if entry.isReachable {
        reachable' := reachable + [v];
        if |entry.reachedFrom| > 1 {
          entries := entries[v := entry.(reachedFrom := SortIndices(entry.reachedFrom))];
          shared' := shared + [SharedFunction(v, entries[v].reachedFrom)];
        }
      } else {
        unreachable' := unreachable + [v];
      }
      assert entries == old(entries)[v := SortedEntry(old(entries)[v])];
    }

    method CalculateStatistics() returns (count: nat, maxDepth: int)
      requires Indexed(nodes) && entries.Keys == Indices(nodes)
      requires forall v :: v in entries ==> entries[v].depth >= -1
      ensures count == |Marked(entries)|
      ensures forall v :: v in Marked(entries) ==> entries[v].depth <= maxDepth
      ensures maxDepth == 0 || exists v :: v in Marked(entries) && entries[v].depth == maxDepth
    {
      count, maxDepth := 0, 0;
      for k := 0 to |nodes|
        invariant Summarizes(entries, Indices(nodes[..k]), count, maxDepth)
      {
        PrefixIndices(nodes, k);
        var v := nodes[k].index;
        SummarizesMore(entries, Indices(nodes[..k]), v, count, maxDepth);
        if entries[v].isReachable {
          count := count + 1;
          if entries[v].depth >= 0 { maxDepth := Max(maxDepth, entries[v].depth); }
        }
      }
      assert nodes[..|nodes|] == nodes;
      assert Marked(entries) * Indices(nodes) == Marked(entries);
    }
  }

  /** Number and greatest depth of the reachable functions among those seen. */
  ghost predicate Summarizes(entries: Entries, seen: set<int>, count: nat, maxDepth: int) {
    && count == |Marked(entries) * seen|
    && (forall v :: v in Marked(entries) * seen ==> entries[v].depth <= maxDepth)
    && (maxDepth == 0 || exists v :: v in Marked(entries) && entries[v].depth == maxDepth)
    && 0 <= maxDepth
  }

  lemma SummarizesMore(entries: Entries, seen: set<int>, v: int, count: nat, maxDepth: int)
    requires Summarizes(entries, seen, count, maxDepth) && v in entries && v !in seen
    ensures Summarizes(entries, seen + {v},
      if entries[v].isReachable then count + 1 else count,
      if entries[v].isReachable then Max(maxDepth, entries[v].depth) else maxDepth)
  {
    if entries[v].isReachable {
      assert Marked(entries) * (seen + {v}) == Marked(entries) * seen + {v};
      assert v in Marked(entries);
    } else {
      assert Marked(entries) * (seen + {v}) == Marked(entries) * seen;
    }
  }

  lemma AfterOneMore(g: Graph, roots: seq<int>, k: nat, r: State)
    requires k < |roots| && r == Visit(g, roots, roots[k], State(AfterRoots(g, roots, k), {}))
    ensures r.entries == AfterRoots(g, roots, k + 1)
  {}

  lemma SortKeepsLength(xs: seq<int>)
    ensures |SortIndices(xs)| == |xs|
  {
    assert |multiset(SortIndices(xs))| == |SortIndices(xs)|;
  }

  /** The rows of the functions with several recorded roots, in node order. */
  ghost function SharedRows(entries: Entries, nodes: seq<CallGraphNode>): seq<SharedFunction> {
    if nodes == [] then []
    else
      var n := |nodes| - 1;
      var v := nodes[n].index;
      SharedRows(entries, nodes[..n]) +
        if v in entries && entries[v].isReachable && |entries[v].reachedFrom| > 1
        then [SharedFunction(v, SortIndices(entries[v].reachedFrom))] else []
  }

  ghost function IndicesWhere(entries: Entries, nodes: seq<CallGraphNode>, reachable: bool): seq<int> {
    if nodes == [] then []
    else
      var n := |nodes| - 1;
      var v := nodes[n].index;
      IndicesWhere(entries, nodes[..n], reachable) +
        if v in entries && entries[v].isReachable == reachable then [v] else []
  }

  /** The three lists of the report. */
  datatype Lines = Lines(reachable: seq<int>, unreachable: seq<int>, shared: seq<SharedFunction>)

  ghost predicate CompiledSoFar(before: Entries, done: seq<CallGraphNode>, after: Entries, lines: Lines) {
    && after == SortedUpTo(before, done) && lines.shared == SharedRows(before, done)
    && lines.reachable == IndicesWhere(before, done, true) && lines.unreachable == IndicesWhere(before, done, false)
  }

  /** What one function adds to the report. */
  ghost predicate CompilesOne(e: Entry, v: int, lines: Lines, next: Lines) {
    && next.reachable == (if e.isReachable then lines.reachable + [v] else lines.reachable)
    && next.unreachable == (if e.isReachable then lines.unreachable else lines.unreachable + [v])
    && next.shared == (if e.isReachable && |e.reachedFrom| > 1
         then lines.shared + [SharedFunction(v, SortIndices(e.reachedFrom))] else lines.shared)
  }

  lemma CompiledNext(
      before: Entries, nodes: seq<CallGraphNode>, k: nat, sorted: Entries, lines: Lines, after: Entries, next: Lines)
    requires Indexed(nodes) && k < |nodes| && nodes[k].index in before && sorted.Keys == before.Keys
    requires CompiledSoFar(before, nodes[..k], sorted, lines)
    requires after == sorted[nodes[k].index := SortedEntry(sorted[nodes[k].index])]
    requires CompilesOne(sorted[nodes[k].index], nodes[k].index, lines, next)
    ensures CompiledSoFar(before, nodes[..k + 1], after, next)
  {
    assert nodes[..k + 1][..k] == nodes[..k];
    PrefixIndices(nodes, k);
    assert Indexed(nodes[..k]);
    SortedUpToElsewhere(before, nodes[..k], nodes[k].index);
  }

  ghost function SortedUpTo(entries: Entries, nodes: seq<CallGraphNode>): Entries {
    if nodes == [] then entries
    else
      var n := |nodes| - 1;
      var v := nodes[n].index;
      var rest := SortedUpTo(entries, nodes[..n]);
      if v in rest then rest[v := SortedEntry(rest[v])] else rest
  }

  lemma {:induction false} SortedUpToElsewhere(entries: Entries, nodes: seq<CallGraphNode>, v: int)
    requires v in entries && Indexed(nodes)
    ensures var r := SortedUpTo(entries, nodes);
      r.Keys == entries.Keys && r[v] == if v in Indices(nodes) then SortedEntry(entries[v]) else entries[v]
  {
    if nodes != [] {
      var n := |nodes| - 1;
      SortedUpToElsewhere(entries, nodes[..n], v);
      PrefixIndices(nodes, n);
      assert nodes[..n + 1] == nodes;
    }
  }

  lemma {:induction false} SharedRowsMembers(entries: Entries, nodes: seq<CallGraphNode>, row: SharedFunction)
    ensures row in SharedRows(entries, nodes) <==>
      row.functionIndex in Indices(nodes) && IsShared(SortedEntries(entries), row)
  {
    if nodes != [] {
      SharedRowsMembers(entries, nodes[..|nodes| - 1], row);
      var v := nodes[|nodes| - 1].index;
      if v in entries { SortKeepsLength(entries[v].reachedFrom); }
    }
  }

  lemma {:induction false} IndicesWhereMembers(entries: Entries, nodes: seq<CallGraphNode>, reachable: bool)
    requires Indexed(nodes)
    ensures NoDuplicates(IndicesWhere(entries, nodes, reachable))
    ensures forall v :: v in IndicesWhere(entries, nodes, reachable) <==>
      v in Indices(nodes) && v in entries && entries[v].isReachable == reachable
  {
    if nodes != [] {
      var n := |nodes| - 1;
      IndicesWhereMembers(entries, nodes[..n], reachable);
      PrefixIndices(nodes, n);
    }
  }

  /** The compiled lists hold what the map says, whatever the node order. */
  lemma CompiledLists(entries: Entries, nodes: seq<CallGraphNode>)
    requires Indexed(nodes) && entries.Keys == Indices(nodes)
    ensures SortedUpTo(entries, nodes) == SortedEntries(entries)
    ensures IsListing(SortIndices(IndicesWhere(entries, nodes, true)), Marked(SortedEntries(entries)))
    ensures IsListing(SortIndices(IndicesWhere(entries, nodes, false)), entries.Keys - Marked(SortedEntries(entries)))
    ensures forall row :: row in Sort(SharedRows(entries, nodes), RowOrder) <==> IsShared(SortedEntries(entries), row)
    ensures RowsAscend(Sort(SharedRows(entries, nodes), RowOrder))
  {
    SharedRowsDiffer(entries, nodes);
    SortedRowsAscend(SharedRows(entries, nodes));
    AllSorted(entries, nodes);
    ListedWhere(entries, nodes, true, Marked(SortedEntries(entries)));
    ListedWhere(entries, nodes, false, entries.Keys - Marked(SortedEntries(entries)));
    forall row ensures row in Sort(SharedRows(entries, nodes), RowOrder) <==> IsShared(SortedEntries(entries), row) {
      SharedRowsMembers(entries, nodes, row);
      SortKeepsMember(SharedRows(entries, nodes), row);
    }
  }

  ghost predicate OneRowEach(rows: seq<SharedFunction>) {
    forall a, b :: 0 <= a < b < |rows| ==> rows[a].functionIndex != rows[b].functionIndex
  }

  lemma {:induction false} SharedRowsDiffer(entries: Entries, nodes: seq<CallGraphNode>)
    requires Indexed(nodes)
    ensures OneRowEach(SharedRows(entries, nodes))
    ensures forall row :: row in SharedRows(entries, nodes) ==> row.functionIndex in Indices(nodes)
  {
    if nodes != [] {
      var n := |nodes| - 1;
      SharedRowsDiffer(entries, nodes[..n]);
      PrefixIndices(nodes, n);
      var before := SharedRows(entries, nodes[..n]);
      forall a | 0 <= a < |before| ensures before[a].functionIndex != nodes[n].index { assert before[a] in before; }
    }
  }

  lemma SortedRowsAscend(rows: seq<SharedFunction>)
    requires OneRowEach(rows)
    ensures RowsAscend(Sort(rows, RowOrder))
  {
    var sorted := Sort(rows, RowOrder);
    RearrangedNoDuplicates(rows, sorted);
    forall a, b | 0 <= a < b < |sorted| ensures sorted[a].functionIndex < sorted[b].functionIndex {
      SortKeepsMember(rows, sorted[a]);
      SortKeepsMember(rows, sorted[b]);
      assert sorted[a] in sorted && sorted[b] in sorted;
      var i :| 0 <= i < |rows| && rows[i] == sorted[a];
      var j :| 0 <= j < |rows| && rows[j] == sorted[b];
      assert i != j;
    }
  }

  /** Sorting an entry's roots keeps all else and loses and repeats no root; several roots are then ascending. */
  lemma SortedEntryKeeps(e: Entry)
    ensures SortedEntry(e).isReachable == e.isReachable && SortedEntry(e).depth == e.depth
    ensures multiset(SortedEntry(e).reachedFrom) == multiset(e.reachedFrom)
    ensures e.isReachable && |e.reachedFrom| > 1 && NoDuplicates(e.reachedFrom) ==>
      StrictlyAscending(SortedEntry(e).reachedFrom)
  {}

  lemma SharedRootsAscend(before: Entries, entries: Entries, shared: seq<SharedFunction>)
    requires entries == SortedEntries(before) && forall v :: v in before ==> NoDuplicates(before[v].reachedFrom)
    requires forall row :: row in shared ==> IsShared(entries, row)
    ensures forall row :: row in shared ==> StrictlyAscending(row.roots)
  {
    forall row | row in shared ensures StrictlyAscending(row.roots) {
      assert IsShared(entries, row);
      SortedEntryKeeps(before[row.functionIndex]);
      SortKeepsLength(before[row.functionIndex].reachedFrom);
    }
  }

  lemma SortKeepsMember(rows: seq<SharedFunction>, row: SharedFunction)
    ensures row in Sort(rows, RowOrder) <==> row in rows
  {
    assert row in multiset(Sort(rows, RowOrder)) <==> row in multiset(rows);
  }

  lemma ListedWhere(entries: Entries, nodes: seq<CallGraphNode>, reachable: bool, s: set<int>)
    requires Indexed(nodes) && entries.Keys == Indices(nodes)
    requires forall v :: v in s <==> v in entries && entries[v].isReachable == reachable
    ensures IsListing(SortIndices(IndicesWhere(entries, nodes, reachable)), s)
  {
    IndicesWhereMembers(entries, nodes, reachable);
    var listed := IndicesWhere(entries, nodes, reachable);
    forall v ensures v in Elements(listed) <==> v in s {
      assert v in Elements(listed) <==> v in listed;
    }
    assert Elements(listed) == s;
  }

  lemma AllSorted(entries: Entries, nodes: seq<CallGraphNode>)
    requires Indexed(nodes) && entries.Keys == Indices(nodes)
    ensures SortedUpTo(entries, nodes) == SortedEntries(entries)
  {
    SortedUpToKeys(entries, nodes);
    forall v | v in entries ensures SortedUpTo(entries, nodes)[v] == SortedEntry(entries[v]) {
      SortedUpToElsewhere(entries, nodes, v);
    }
  }

  lemma {:induction false} SortedUpToKeys(entries: Entries, nodes: seq<CallGraphNode>)
    ensures SortedUpTo(entries, nodes).Keys == entries.Keys
  {
    if nodes != [] { SortedUpToKeys(entries, nodes[..|nodes| - 1]); }
  }

  ghost function SortedEntries(entries: Entries): Entries { map v | v in entries :: SortedEntry(entries[v]) }

  lemma PrefixIndices(nodes: seq<CallGraphNode>, k: nat)
    requires Indexed(nodes) && k < |nodes|
    ensures Indices(nodes[..k + 1]) == Indices(nodes[..k]) + {nodes[k].index}
    ensures nodes[k].index !in Indices(nodes[..k]) && nodes[k].index in Indices(nodes)
  {
    assert nodes[..k + 1][..k] == nodes[..k];
    IndexHasNode(nodes[..k], nodes[k].index);
    IndexHasNode(nodes, nodes[k].index);
    forall j | 0 <= j < k ensures nodes[..k][j].index != nodes[k].index {}
  }

  lemma MapRootsDistinct(g: Graph, roots: seq<int>, entries: Entries)
    requires Sound(g, roots, entries)
    ensures forall v :: v in entries ==> entries[v].depth >= -1 && NoDuplicates(entries[v].reachedFrom)
  {
    forall v | v in entries ensures entries[v].depth >= -1 && NoDuplicates(entries[v].reachedFrom) {
      assert EntrySound(g, roots, entries, v);
    }
  }

  lemma MarkedIsReachable(g: Graph, roots: seq<int>, entries: Entries)
    requires IsReachabilityMap(g, roots, entries)
    ensures Marked(entries) == ReachableFrom(g, Elements(roots))
  {
    forall v ensures v in Marked(entries) <==> v in ReachableFrom(g, Elements(roots)) {
      assert v in entries <==> v in g;
    }
  }

  lemma NodeInGraph(nodes: seq<CallGraphNode>, i: int)
    requires FindNode(nodes, i).Some?
    ensures i in GraphOf(nodes) && GraphOf(nodes)[i] == FindNode(nodes, i).value.outgoingCalls
  {
    var k :| 0 <= k < |nodes| && nodes[k] == FindNode(nodes, i).value;
    IndexHasNode(nodes, i);
  }
}
