/** The cycles reported of a component: which, how often, and what a limit does. */
module CycleReports {
  import opened Collections
  import opened Digraphs
  import opened ComponentSearch
  import opened CycleLists
  import opened CycleLimits
  import opened CycleSearch
  import ShortestCycles

  ghost predicate IsConnected(g: Graph, members: set<int>) {
    forall u, v :: u in members && v in members ==> exists p :: JoinsInside(g, members, p, u, v)
  }

  /** Walks between the functions of a component stay in it. */
  lemma ComponentIsConnected(g: Graph, c: seq<int>)
    requires IsComponent(g, c)
    ensures IsConnected(g, Elements(c))
  {
    forall u, v | u in Elements(c) && v in Elements(c) ensures exists p :: JoinsInside(g, Elements(c), p, u, v) {
      assert Mutual(g, u, v);
      var p :| Joins(g, p, u, v);
      forall i | 0 <= i < |p| ensures p[i] in c {
        WalkSlice(g, p, 0, i + 1);
        WalkSlice(g, p, i, |p|);
        assert Reaches(g, u, p[i]) && Reaches(g, p[i], v);
        ReachesTransitive(g, p[i], v, u);
        assert Mutual(g, u, p[i]);
      }
      assert JoinsInside(g, Elements(c), p, u, v);
    }
  }

  /** From a blocked function only blocked functions are reached, and never the start. */
  lemma {:induction false} BlockedWalk(
      g: Graph, members: set<int>, start: int, blocked: set<int>, blockMap: BlockMap, p: seq<int>)
    requires IsBlocking(g, members, start, {}, blocked, blockMap)
    requires IsWalk(g, p) && Elements(p) <= members && p[0] in blocked
    ensures Last(p) in blocked && (|p| > 1 ==> Last(p) != start)
  {
    var n := |p| - 1;
    if n > 0 {
      WalkSlice(g, p, 0, n);
      assert p[0..n] == p[..n];
      forall x | x in Elements(p[..n]) ensures x in members { assert x in Elements(p); }
      BlockedWalk(g, members, start, blocked, blockMap, p[..n]);
      assert Edge(g, p[n - 1], p[n]) && p[n] in Elements(p);
      CalleeIsBlocked(g, members, start, {}, blocked, blockMap, p[n - 1], p[n]);
    }
  }

  /** After the search from one of several connected functions none is blocked. */
  lemma NothingStaysBlocked(
      g: Graph, members: set<int>, start: int, other: int, blocked: set<int>, blockMap: BlockMap)
    requires IsSearching(g, members, start, [], blocked, blockMap) && IsConnected(g, members)
    requires start in members && other in members && other != start
    ensures blocked == {}
  {
    assert Elements<int>([]) == {};
    forall x ensures x !in blocked {
      if x in blocked {
        var between := if x == start then other else x;
        var p :| JoinsInside(g, members, p, x, between);
        BlockedWalk(g, members, start, blocked, blockMap, p);
        var q :| JoinsInside(g, members, q, between, start);
        BlockedWalk(g, members, start, blocked, blockMap, q);
      }
    }
  }

  /** Between the searches nothing is blocked and nobody waits. */
  ghost predicate IsFree(members: set<int>, blocked: set<int>, blockMap: BlockMap) {
    blocked == {} && blockMap.Keys == members && forall u :: u in members ==> blockMap[u] == []
  }

  lemma FreeIsSearching(g: Graph, members: set<int>, start: int, blocked: set<int>, blockMap: BlockMap)
    requires IsFree(members, blocked, blockMap)
    ensures IsSearching(g, members, start, [], blocked, blockMap)
  {
    assert Elements<int>([]) == {};
  }

  lemma SearchedIsFree(
      g: Graph, members: seq<int>, i: nat, blocked: set<int>, blockMap: BlockMap)
    requires i < |members| && |members| > 1 && NoDuplicates(members) && IsConnected(g, Elements(members))
    requires IsSearching(g, Elements(members), members[i], [], blocked, blockMap)
    ensures IsFree(Elements(members), blocked, blockMap)
  {
    var other := if i == 0 then members[1] else members[0];
    NothingStaysBlocked(g, Elements(members), members[i], other, blocked, blockMap);
  }

  /** The marks of the members from the `i`-th on are taken away. */
  method Reset(e: Enumeration, members: seq<int>, i: nat)
    requires i <= |members| && Elements(members) == e.members
    requires e.blocked <= e.members && e.blockMap.Keys == e.members
    modifies e`blocked, e`blockMap
    ensures e.blocked <= e.members && e.blockMap.Keys == e.members
    ensures old(IsFree(e.members, e.blocked, e.blockMap)) ==> IsFree(e.members, e.blocked, e.blockMap)
  {
    for j := i to |members|
      invariant e.blocked <= e.members && e.blockMap.Keys == e.members
      invariant old(IsFree(e.members, e.blocked, e.blockMap)) ==> IsFree(e.members, e.blocked, e.blockMap)
    {
      assert members[j] in Elements(members);
      e.blocked := e.blocked - {members[j]};
      e.blockMap := e.blockMap[members[j] := []];
    }
  }

  lemma LimitIsReached(g: Graph, members: seq<int>, i: nat, j: nat, max: int)
    requires i <= j <= |members| && |ReportedUpTo(g, members, i, max)| >= max
    ensures ReportedUpTo(g, members, j, max) == ReportedUpTo(g, members, i, max)
  {
    if i < j { LimitIsReached(g, members, i, j - 1, max); }
  }

  /** The searches from the first `i` members are over. */
  ghost predicate IsBetween(
      g: Graph, members: seq<int>, max: int, i: int, cycles: seq<seq<int>>, blocked: set<int>, blockMap: BlockMap)
  {
    && 0 <= i <= |members| && blocked <= Elements(members) && blockMap.Keys == Elements(members)
    && cycles == ReportedUpTo(g, members, i, max)
    && (i < |members| && |cycles| < max ==> IsFree(Elements(members), blocked, blockMap))
  }

  /** The cycles of a component as the exhaustive search reports them. */
  method EnumerateCyclesInScc(g: Graph, members: seq<int>, maxCycles: int) returns (cycles: seq<seq<int>>)
    requires NoDuplicates(members) && IsConnected(g, Elements(members))
    ensures cycles == ReportedUpTo(g, members, |members|, maxCycles)
  {
    if members == [] { return []; }
    var e := new Enumeration(g, members, maxCycles);
    SearchFromAll(e, members);
    return e.cycles;
  }

  method SearchFromAll(e: Enumeration, members: seq<int>)
    requires NoDuplicates(members) && IsConnected(e.graph, Elements(members))
    requires e.members == Elements(members) && e.stack == []
    requires IsBetween(e.graph, members, e.maxCycles, 0, e.cycles, e.blocked, e.blockMap)
    modifies e
    ensures e.cycles == ReportedUpTo(e.graph, members, |members|, e.maxCycles)
  {
    var i := 0;
    while i < |members| && |e.cycles| < e.maxCycles
      invariant i <= |members| && e.stack == []
      invariant IsBetween(e.graph, members, e.maxCycles, i, e.cycles, e.blocked, e.blockMap)
    {
      i := SearchNext(e, members, i);
    }
    AllSearched(e.graph, members, e.maxCycles, i, e.cycles, e.blocked, e.blockMap);
  }

  method SearchNext(e: Enumeration, members: seq<int>, i: nat) returns (next: nat)
    requires i < |members| && NoDuplicates(members) && IsConnected(e.graph, Elements(members))
    requires e.members == Elements(members) && e.stack == [] && |e.cycles| < e.maxCycles
    requires IsBetween(e.graph, members, e.maxCycles, i, e.cycles, e.blocked, e.blockMap)
    modifies e
    ensures next == i + 1 && e.stack == []
    ensures IsBetween(e.graph, members, e.maxCycles, next, e.cycles, e.blocked, e.blockMap)
  {
    Reset(e, members, i);
    SearchFrom(e, members, i);
    next := i + 1;
  }

  lemma AllSearched(
      g: Graph, members: seq<int>, max: int, i: int, cycles: seq<seq<int>>, blocked: set<int>, blockMap: BlockMap)
    requires IsBetween(g, members, max, i, cycles, blocked, blockMap) && (i == |members| || |cycles| >= max)
    ensures cycles == ReportedUpTo(g, members, |members|, max)
  {
    if i < |members| { LimitIsReached(g, members, i, |members|, max); }
  }

  lemma NextMember(g: Graph, members: seq<int>, i: nat, max: int, path: seq<int>)
    requires i < |members| && |ReportedUpTo(g, members, i, max)| < max && path == []
    ensures members[i] in Elements(members) && (path + [members[i]])[0] == members[i]
    ensures var before := ReportedUpTo(g, members, i, max);
      ReportedUpTo(g, members, i + 1, max) ==
        before + Reported(g, Elements(members), path + [members[i]], 0, max - |before|)
  {
    assert path + [members[i]] == [members[i]];
  }

  /** The search from the `i`-th member. */
  method SearchFrom(e: Enumeration, members: seq<int>, i: nat)
    requires i < |members| && NoDuplicates(members) && IsConnected(e.graph, Elements(members))
    requires e.members == Elements(members) && e.stack == [] && |e.cycles| < e.maxCycles
    requires IsBetween(e.graph, members, e.maxCycles, i, e.cycles, e.blocked, e.blockMap)
    modifies e
    ensures e.stack == [] && IsBetween(e.graph, members, e.maxCycles, i + 1, e.cycles, e.blocked, e.blockMap)
  {
    var start := members[i];
    ghost var path: seq<int> := [];
    NextMember(e.graph, members, i, e.maxCycles, path);
    FreeIsSearching(e.graph, e.members, start, e.blocked, e.blockMap);
    var found := e.Circuit(start, start, path);
    SearchedNext(e.graph, members, e.maxCycles, i, e.cycles, e.blocked, e.blockMap);
  }

  lemma SearchedNext(
      g: Graph, members: seq<int>, max: int, i: nat, cycles: seq<seq<int>>, blocked: set<int>, blockMap: BlockMap)
    requires i < |members| && NoDuplicates(members) && IsConnected(g, Elements(members))
    requires blocked <= Elements(members) && blockMap.Keys == Elements(members)
    requires cycles == ReportedUpTo(g, members, i + 1, max)
    requires |cycles| < max ==> IsSearching(g, Elements(members), members[i], [], blocked, blockMap)
    ensures IsBetween(g, members, max, i + 1, cycles, blocked, blockMap)
  {
    if i + 1 < |members| && |cycles| < max { SearchedIsFree(g, members, i, blocked, blockMap); }
  }

  // ----- What is reported of a component -----

  /**
   * With a limit that leaves room for all, the report holds exactly the simple cycles of the component,
   * each once from every function on it.
   */
  lemma ReportIsComplete(g: Graph, members: seq<int>, max: int)
    requires DistinctCalls(g) && NoDuplicates(members) && |AllCycles(g, members, |members|)| <= max
    ensures var cycles := ReportedUpTo(g, members, |members|, max);
      && NoDuplicates(cycles)
      && (forall c :: c in cycles <==> IsSimpleCycle(g, Elements(members), c))
      && forall c, i :: c in cycles && 0 <= i < |c| ==> Rotation(c, i) in cycles
  {
    var cycles := ReportedUpTo(g, members, |members|, max);
    ReportedIsAll(g, members, |members|, max);
    AllCyclesDistinct(g, members, |members|);
    assert members[..|members|] == members;
    forall c ensures c in cycles <==> IsSimpleCycle(g, Elements(members), c) {
      AllCyclesHold(g, members, |members|, c);
      if IsSimpleCycle(g, Elements(members), c) { assert c[0] in Elements(c); }
    }
    forall c, i | c in cycles && 0 <= i < |c| ensures Rotation(c, i) in cycles {
      EachRotationIsListed(g, members, c, i);
    }
  }

  // ----- The report on one component -----

  datatype SccReport = SccReport(
    kind: SccKind, members: seq<int>, shortestCycleLength: Option<int>, enumeratedCycles: seq<seq<int>>)

  lemma SortedComponent(g: Graph, c: seq<int>)
    requires IsComponent(g, c)
    ensures IsComponent(g, SortIndices(c)) && NoDuplicates(SortIndices(c))
  {
    var sorted := SortIndices(c);
    forall x ensures x in sorted <==> x in c { assert x in Elements(sorted) <==> x in Elements(c); }
    assert c[0] in sorted;
  }

  /** A call cycle through a function of a component stays in the component. */
  lemma CycleStaysInside(g: Graph, c: seq<int>, v: int) returns (n: int)
    requires IsComponent(g, c) && v in c && OnCycle(g, v)
    ensures ShortestCycles.HasClosedWalk(g, Elements(c), v, n)
  {
    var p :| Joins(g, p, v, v) && |p| > 1;
    forall i | 0 <= i < |p| ensures p[i] in c {
      WalkSlice(g, p, 0, i + 1);
      WalkSlice(g, p, i, |p|);
      assert Reaches(g, v, p[i]) && Reaches(g, p[i], v);
      assert Mutual(g, v, p[i]);
    }
    n := |p| - 1;
    assert ShortestCycles.IsClosedWalk(g, Elements(c), p, v, n);
  }

  /** A component has a shortest cycle exactly when it is classified as recursive. */
  lemma ShortestIffRecursive(g: Graph, c: seq<int>, shortest: Option<int>)
    requires IsComponent(g, c) && ShortestCycles.IsShortest(g, Elements(c), shortest)
    ensures shortest.Some? <==> Classify(g, c) != NonRecursive
  {
    if shortest.Some? {
      var s :| ShortestCycles.HasClosedWalk(g, Elements(c), s, shortest.value);
      var p :| ShortestCycles.IsClosedWalk(g, Elements(c), p, s, shortest.value);
      assert p[0] in Elements(p) && OnCycle(g, s);
      RecursiveIffOnCycle(g, c, s);
    }
    if Classify(g, c) != NonRecursive {
      RecursiveIffOnCycle(g, c, c[0]);
      var n := CycleStaysInside(g, c, c[0]);
      assert c[0] in Elements(c);
    }
  }

  lemma NonRecursiveHasNone(g: Graph, c: seq<int>)
    requires IsComponent(g, c) && Classify(g, c) == NonRecursive
    ensures ShortestCycles.IsShortest(g, Elements(c), None)
  {
    forall s, n | s in Elements(c) ensures !ShortestCycles.HasClosedWalk(g, Elements(c), s, n) {
      if ShortestCycles.HasClosedWalk(g, Elements(c), s, n) {
        var p :| ShortestCycles.IsClosedWalk(g, Elements(c), p, s, n);
        RecursiveIffOnCycle(g, c, s);
      }
    }
  }

  /** What `analyzeRecursion` reports of each component that Tarjan's search finds. */
  method ReportComponent(g: Graph, rawScc: seq<int>, maxCycles: int) returns (r: SccReport)
    requires IsComponent(g, rawScc)
    ensures IsListing(r.members, Elements(rawScc))
    ensures r.kind == NonRecursive <==> |r.members| == 1 && !Edge(g, r.members[0], r.members[0])
    ensures r.kind == DirectSelfRecursion <==> |r.members| == 1 && Edge(g, r.members[0], r.members[0])
    ensures r.kind == MutualRecursionTwo <==> |r.members| == 2
    ensures r.kind == MultiFunctionCycle <==> |r.members| >= 3
    ensures ShortestCycles.IsShortest(g, Elements(r.members), r.shortestCycleLength)
    ensures r.shortestCycleLength.Some? <==> r.kind != NonRecursive
    ensures r.enumeratedCycles == if r.kind == NonRecursive then [] else
      ReportedUpTo(g, r.members, |r.members|, maxCycles)
  {
    var members := SortIndices(rawScc);
    SortedComponent(g, rawScc);
    ComponentIsConnected(g, members);
    var kind := Classify(g, members);
    var shortest: Option<int>, cycles: seq<seq<int>> := None, [];
    if kind != NonRecursive {
      shortest := ShortestCycles.ShortestCycleInScc(g, members);
      ShortestIffRecursive(g, members, shortest);
      if maxCycles > 0 {
        cycles := EnumerateCyclesInScc(g, members, maxCycles);
      } else {
        NothingAskedFor(g, members, |members|, maxCycles);
      }
    } else {
      NonRecursiveHasNone(g, members);
    }
    r := SccReport(kind, members, shortest, cycles);
  }

  lemma NothingAskedFor(g: Graph, members: seq<int>, i: nat, max: int)
    requires i <= |members| && max <= 0
    ensures ReportedUpTo(g, members, i, max) == []
  {
    if i > 0 { NothingAskedFor(g, members, i - 1, max); }
  }

  // ----- A limit exceeded -----

  /** 0 calls 1 and itself, 1 calls 0. */
  const LOOPED: Graph := map[0 := [1, 0], 1 := [0]]

  lemma LoopedSteps()
    ensures Successors(LOOPED, 0) == [1, 0] && Successors(LOOPED, 1) == [0] && Elements([0, 1]) == {0, 1}
  {}

  lemma LoopedIsConnected()
    ensures IsConnected(LOOPED, {0, 1}) && DistinctCalls(LOOPED)
  {
    LoopedSteps();
    var all := {0, 1};
    forall u, v | u in all && v in all ensures exists p :: JoinsInside(LOOPED, all, p, u, v) {
      var p := if u == v then [u] else [u, v];
      assert u != v ==> Edge(LOOPED, u, v);
      assert Joins(LOOPED, p, u, v) && Elements(p) <= all;
      assert JoinsInside(LOOPED, all, p, u, v);
    }
  }

  lemma LoopedFrom(n: int)
    requires n >= 1
    ensures var all := {0, 1};
      && Cycles(LOOPED, all, [0, 1], 0) == Reported(LOOPED, all, [0, 1], 0, n) == [[0, 1]]
      && Cycles(LOOPED, all, [1, 0], 0) == [[1, 0]]
      && Cycles(LOOPED, all, [0], 0) == [[0, 1], [0]] && Cycles(LOOPED, all, [1], 0) == [[1, 0]]
      && Reported(LOOPED, all, [0], 0, 1) == [[0, 1], [0]]
  {
    var all := {0, 1};
    LoopedSteps();
    assert [0] + [1] == [0, 1] && [1] + [0] == [1, 0];
    assert Last([0, 1]) == 1 && Last([1, 0]) == 0 && Last([0]) == 0 && Last([1]) == 1;
    assert Cycles(LOOPED, all, [1, 0], 1) == [];
    assert Cycles(LOOPED, all, [0], 1) == [[0]];
    assert Cycles(LOOPED, all, [1], 1) == [];
    assert Reported(LOOPED, all, [0], 1, 0) == [[0]];
  }

  /** One cycle is asked for and two are reported; without a limit the cycle through both is reported twice. */
  lemma LimitMayBeExceeded()
    ensures IsConnected(LOOPED, {0, 1}) && DistinctCalls(LOOPED)
    ensures ReportedUpTo(LOOPED, [0, 1], 2, 1) == [[0, 1], [0]]
    ensures AllCycles(LOOPED, [0, 1], 2) == [[0, 1], [0], [1, 0]]
  {
    LoopedIsConnected();
    LoopedSteps();
    LoopedFrom(1);
    assert AllCycles(LOOPED, [0, 1], 0) == [] && ReportedUpTo(LOOPED, [0, 1], 0, 1) == [];
    assert AllCycles(LOOPED, [0, 1], 1) == [[0, 1], [0]] && ReportedUpTo(LOOPED, [0, 1], 1, 1) == [[0, 1], [0]];
  }
}
