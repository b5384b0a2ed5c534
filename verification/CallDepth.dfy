/** The exhaustive chain search of `calculateMaxDepth`: the visited set is copied for every branch. */
module CallDepth {
  import opened Collections
  import opened Digraphs

  lemma ChainTail(g: Graph, p: seq<int>, v: int, avoid: set<int>)
    requires IsChain(g, p, v, avoid) && |p| > 1
    ensures IsChain(g, p[1..], p[1], avoid + {v}) && p[1] in g[v] && p[1] !in avoid + {v}
  {
    assert Edge(g, p[0], p[1]);
    WalkSlice(g, p, 1, |p|);
    assert p[1..|p|] == p[1..];
    forall i | 0 <= i < |p[1..]| ensures p[1..][i] !in avoid + {v} {
      assert p[1..][i] == p[i + 1];
    }
  }

  lemma ChainExtend(g: Graph, p: seq<int>, v: int, avoid: set<int>)
    requires p != [] && IsChain(g, p, p[0], avoid + {v}) && Edge(g, v, p[0]) && v !in avoid
    ensures IsChain(g, [v] + p, v, avoid)
  {
    WalkPrepend(g, v, p);
    var q := [v] + p;
    forall i | 0 <= i < |q| ensures q[i] !in avoid {
      if i > 0 { assert q[i] == p[i - 1]; }
    }
    forall i, j | 0 <= i < j < |q| ensures q[i] != q[j] {
      assert q[j] == p[j - 1];
    }
  }

  /** The longest chain through one of the callees `callees[..n]`, or 0 when all of them are avoided. */
  ghost predicate IsLongestBelow(g: Graph, callees: seq<int>, n: nat, avoid: set<int>, d: int)
    requires n <= |callees|
  {
    && d >= 0
    && (d > 0 ==> exists k, p :: 0 <= k < n && IsChain(g, p, callees[k], avoid) && |p| == d)
    && (forall k, p :: 0 <= k < n && IsChain(g, p, callees[k], avoid) ==> |p| <= d)
  }

  lemma LongestFromCallees(g: Graph, v: int, visited: set<int>, below: int)
    requires v in g && v !in visited
    requires IsLongestBelow(g, g[v], |g[v]|, visited + {v}, below)
    ensures IsLongestChain(g, v, visited, below + 1)
  {
    if below == 0 {
      assert IsChain(g, [v], v, visited);
    } else {
      var k, p :| 0 <= k < |g[v]| && IsChain(g, p, g[v][k], visited + {v}) && |p| == below;
      ChainExtend(g, p, v, visited);
      assert IsChain(g, [v] + p, v, visited) && |[v] + p| == below + 1;
    }
    forall p | IsChain(g, p, v, visited) ensures |p| <= below + 1 {
      if |p| > 1 {
        ChainTail(g, p, v, visited);
        var k :| 0 <= k < |g[v]| && g[v][k] == p[1];
        assert |p[1..]| <= below;
      }
    }
  }

  /** 0 for a function already on the chain, else the length of the longest simple chain from it. */
  method CalculateDepth(g: Graph, v: int, visited: set<int>) returns (depth: int)
    requires Closed(g) && v in g
    ensures v in visited ==> depth == 0
    ensures v !in visited ==> IsLongestChain(g, v, visited, depth)
    decreases g.Keys - visited
  {
    if v in visited { return 0; }
    if g[v] == [] {
      LongestFromCallees(g, v, visited, 0);
      return 1;
    }
    var onChain := visited + {v};
    var maxChildDepth := 0;
    var callees := g[v];
    for i := 0 to |callees|
      invariant IsLongestBelow(g, callees, i, onChain, maxChildDepth)
    {
      assert Edge(g, v, callees[i]);
      var child := CalculateDepth(g, callees[i], onChain);
      ghost var before := maxChildDepth;
      maxChildDepth := Max(maxChildDepth, child);
      ExtendBelow(g, callees, i, onChain, before, child);
    }
    LongestFromCallees(g, v, visited, maxChildDepth);
    return maxChildDepth + 1;
  }

  lemma ExtendBelow(g: Graph, callees: seq<int>, i: nat, avoid: set<int>, before: int, child: int)
    requires i < |callees| && IsLongestBelow(g, callees, i, avoid, before)
    requires callees[i] in avoid ==> child == 0
    requires callees[i] !in avoid ==> IsLongestChain(g, callees[i], avoid, child)
    ensures IsLongestBelow(g, callees, i + 1, avoid, Max(before, child))
  {
    var d := Max(before, child);
    if d > 0 {
      if child > before {
        var p :| IsChain(g, p, callees[i], avoid) && |p| == child;
      } else {
        var k, p :| 0 <= k < i && IsChain(g, p, callees[k], avoid) && |p| == before;
      }
    }
    forall p | IsChain(g, p, callees[i], avoid) ensures |p| <= d {
      assert p[0] !in avoid;
    }
  }

  /** The number of functions on the longest simple call chain, whichever order the functions are tried in. */
  method CalculateMaxDepth(g: Graph, order: seq<int>) returns (maxDepth: int)
    requires Closed(g) && Elements(order) == g.Keys
    ensures IsMaxDepth(g, maxDepth)
  {
    maxDepth := 0;
    for i := 0 to |order|
      invariant 0 <= maxDepth && (i == 0 ==> maxDepth == 0)
      invariant i > 0 ==> exists p, v :: v in g && IsChain(g, p, v, {}) && |p| == maxDepth
      invariant forall k, p :: 0 <= k < i && IsChain(g, p, order[k], {}) ==> |p| <= maxDepth
    {
      assert order[i] in Elements(order);
      var depth := CalculateDepth(g, order[i], {});
      if depth > maxDepth || i == 0 {
        ghost var p :| IsChain(g, p, order[i], {}) && |p| == depth;
      }
      maxDepth := Max(maxDepth, depth);
    }
    forall p, v | v in g && IsChain(g, p, v, {}) ensures |p| <= maxDepth {
      assert v in Elements(order);
      var k :| 0 <= k < |order| && order[k] == v;
    }
    if order == [] {
      assert g.Keys == {};
    } else {
      assert order[0] in Elements(order);
    }
  }
}
