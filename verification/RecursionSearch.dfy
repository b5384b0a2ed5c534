/** The depth-first search of `detectRecursion`, with its early returns and the marks they leave behind. */
module RecursionSearch {
  import opened Collections
  import opened Digraphs

  /** The variables captured by the search closure, updated in place. */
  class Search {
    const graph: Graph
    var visited: set<int>
    var recStack: set<int>
    var recursive: set<int>
    /** The functions whose search returned false, in the order they returned. */
    ghost var finished: seq<int>

    ghost predicate Valid(path: seq<int>)
      reads this
    {
      IsSearch(graph, path, visited, recStack, recursive, finished)
    }

    constructor (g: Graph)
      requires Closed(g)
      ensures Valid([]) && graph == g && visited == {}
    {
      graph := g;
      visited, recStack, recursive, finished := {}, {}, {}, [];
    }

    method Dfs(v: int, ghost path: seq<int>) returns (found: bool)
      requires Valid(path) && v in graph && v !in visited
      requires path != [] ==> Edge(graph, Last(path), v)
      modifies this
      ensures Valid(path) && old(visited) + {v} <= visited
      ensures old(visited - recStack) <= visited - recStack
      ensures found ==> v in recursive
      ensures !found ==> v !in recStack
      decreases graph.Keys - visited
    {
      ghost var before, done := visited, visited - recStack;
      ghost var here := path + [v];
      assert v !in path by {
        assert v in path ==> v in Elements(path);
      }
      EnterFunction(graph, path, v, visited, recStack, recursive, finished);
      visited := visited + {v};
      recStack := recStack + {v};
      var callees := graph[v];
      for i := 0 to |callees|
        invariant Valid(here) && before + {v} <= visited && done <= visited - recStack
        invariant forall k :: 0 <= k < i ==> callees[k] in visited - recStack
      {
        var t := callees[i];
        assert Edge(graph, v, t);
        if t !in visited {
          var cyclic := Dfs(t, here);
          if cyclic {
            ReachesCycleStep(graph, v, t);
            ReportFunction(graph, path, v, v, visited, recStack, recursive, finished);
            recursive := recursive + {v};
            return true;
          }
        } else if t in recStack {
          assert t in Elements(here) + recursive;
          BackEdge(graph, here, t, recursive);
          ReportFunction(graph, path, v, t, visited, recStack, recursive, finished);
          recursive := recursive + {v, t};
          return true;
        }
      }
      FinishFunction(graph, path, v, visited, recStack, recursive, finished);
      recStack := recStack - {v};
      finished := finished + [v];
      return false;
    }
  }

  /**
   * `path` is the chain of searches still running. A function left on `recStack` by an early
   * return is already reported; a function that came off it is finished, after all its callees.
   */
  ghost predicate IsSearch(g: Graph, path: seq<int>, visited: set<int>, recStack: set<int>, recursive: set<int>,
      finished: seq<int>) {
    && Closed(g)
    && recStack <= visited <= g.Keys
    && (path != [] ==> IsWalk(g, path))
    && Elements(path) <= recStack <= Elements(path) + recursive
    && recursive <= visited
    && (forall v :: v in recursive ==> ReachesCycle(g, v))
    && CalleesFirst(g, finished)
    && Elements(finished) == visited - recStack
  }

  lemma EnterFunction(g: Graph, path: seq<int>, v: int, visited: set<int>, recStack: set<int>, recursive: set<int>,
      finished: seq<int>)
    requires IsSearch(g, path, visited, recStack, recursive, finished) && v in g && v !in visited
    requires path != [] ==> Edge(g, Last(path), v)
    ensures IsSearch(g, path + [v], visited + {v}, recStack + {v}, recursive, finished)
  {
    assert Elements(path + [v]) == Elements(path) + {v};
  }

  /** Leaving early: the function stays marked, but reported. */
  lemma ReportFunction(g: Graph, path: seq<int>, v: int, t: int, visited: set<int>, recStack: set<int>,
      recursive: set<int>, finished: seq<int>)
    requires IsSearch(g, path + [v], visited, recStack, recursive, finished)
    requires ReachesCycle(g, v) && ReachesCycle(g, t) && t in visited
    ensures IsSearch(g, path, visited, recStack, recursive + {v, t}, finished)
  {
    PathOfSearch(g, path, v);
  }

  /** Leaving at the end: every callee is finished, so the function is. */
  lemma FinishFunction(g: Graph, path: seq<int>, v: int, visited: set<int>, recStack: set<int>, recursive: set<int>,
      finished: seq<int>)
    requires IsSearch(g, path + [v], visited, recStack, recursive, finished) && v in g && v !in path
    requires forall k :: 0 <= k < |g[v]| ==> g[v][k] in visited - recStack
    ensures IsSearch(g, path, visited, recStack - {v}, recursive, finished + [v])
  {
    PathOfSearch(g, path, v);
    assert v in recStack && v !in finished by {
      assert v in Elements(path + [v]);
      assert v in finished ==> v in Elements(finished);
    }
    forall t | t in g[v] ensures t in finished {
      assert t in Elements(finished);
    }
    FinishLast(g, finished, v);
    assert Elements(path) <= recStack - {v};
  }

  lemma PathOfSearch(g: Graph, path: seq<int>, v: int)
    requires IsWalk(g, path + [v])
    ensures path != [] ==> IsWalk(g, path)
    ensures Elements(path + [v]) == Elements(path) + {v}
  {
    var here := path + [v];
    assert Elements(here) == Elements(path) + {v};
    if path != [] {
      WalkSlice(g, here, 0, |path|);
      assert here[0..|path|] == path;
    }
  }

  /** Meeting a function that is still marked closes a cycle or leads to a reported one. */
  lemma BackEdge(g: Graph, here: seq<int>, t: int, recursive: set<int>)
    requires IsWalk(g, here) && Edge(g, Last(here), t) && (t in here || t in recursive)
    requires forall v :: v in recursive ==> ReachesCycle(g, v)
    ensures ReachesCycle(g, Last(here)) && ReachesCycle(g, t)
  {
    if t !in recursive {
      var i :| 0 <= i < |here| && here[i] == t;
      WalkSlice(g, here, i, |here|);
      WalkStep(g, here[i..|here|], t);
      ReachesSelf(g, t);
    }
    ReachesCycleStep(g, Last(here), t);
  }

  lemma FinishLast(g: Graph, order: seq<int>, v: int)
    requires CalleesFirst(g, order) && v in g && v !in order
    requires forall t :: t in g[v] ==> t in order
    ensures CalleesFirst(g, order + [v])
    ensures Elements(order + [v]) == Elements(order) + {v}
  {
    var next := order + [v];
    forall i, t | 0 <= i < |next| && t in g[next[i]] ensures t in next[..i] {
      assert next[..i] == order[..i];
      if i == |order| { assert order[..i] == order; }
    }
  }

  lemma FinishedReachNoCycle(g: Graph, order: seq<int>, recursive: set<int>)
    requires CalleesFirst(g, order) && forall v :: v in recursive ==> ReachesCycle(g, v)
    ensures Elements(order) !! recursive
  {
    forall v | v in order ensures v !in recursive {
      CalleesFirstIsAcyclic(g, order, v);
    }
  }

  /**
   * The reported functions are exactly those from which some call cycle is reachable, and the
   * unreported ones admit an order in which every callee precedes its callers.
   */
  method DetectRecursion(g: Graph, order: seq<int>) returns (reported: seq<int>, ghost calleesFirst: seq<int>)
    requires Closed(g) && Elements(order) == g.Keys
    ensures IsListing(reported, set v | v in g && ReachesCycle(g, v))
    ensures CalleesFirst(g, calleesFirst)
    ensures Elements(calleesFirst) == g.Keys - Elements(reported)
  {
    var search := new Search(g);
    for i := 0 to |order|
      invariant search.Valid([]) && search.graph == g && fresh(search)
      invariant forall k :: 0 <= k < i ==> order[k] in search.visited
    {
      assert order[i] in Elements(order);
      if order[i] !in search.visited {
        var _ := search.Dfs(order[i], []);
      }
    }
    assert g.Keys <= search.visited by {
      forall v | v in g ensures v in search.visited {
        assert v in Elements(order);
      }
    }
    calleesFirst := search.finished;
    var recursive, recStack := search.recursive, search.recStack;
    assert recStack <= recursive;
    FinishedReachNoCycle(g, calleesFirst, recursive);
    assert recursive == recStack;
    forall v | v in g ensures v in recursive <==> ReachesCycle(g, v) {
      if v in Elements(calleesFirst) { CalleesFirstIsAcyclic(g, calleesFirst, v); }
    }
    assert recursive == set v | v in g && ReachesCycle(g, v);
    reported := Ascending(search.recursive);
  }

  /** Every function on a call cycle is reported. */
  lemma CycleMembersReachCycle(g: Graph, p: seq<int>, i: nat)
    requires IsWalk(g, p) && |p| > 1 && p[0] == Last(p) && i < |p|
    ensures ReachesCycle(g, p[i])
  {
    WalkSlice(g, p, i, |p|);
    assert Joins(g, p[i..|p|], p[i], p[0]) && Joins(g, p, p[0], p[0]);
    assert Reaches(g, p[i], p[0]) && OnCycle(g, p[0]);
  }
}
