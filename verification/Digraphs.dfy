/** Walks, cycles and simple chains over a directed graph of indices: call graphs and control-flow graphs. */
module Digraphs {
  import opened Collections

  /** Each index with its successors, in order: outgoing calls or outgoing branches. */
  type Graph = map<int, seq<int>>

  predicate Edge(g: Graph, u: int, v: int) { u in g && v in g[u] }

  /** Every step leads to an index of the graph. */
  ghost predicate Closed(g: Graph) { forall u, v :: Edge(g, u, v) ==> v in g }

  /** A non-empty list of indices, each a successor of the one before. */
  predicate IsWalk(g: Graph, p: seq<int>) {
    p != [] && forall i :: 0 < i < |p| ==> Edge(g, p[i - 1], p[i])
  }

  predicate Joins(g: Graph, p: seq<int>, u: int, v: int) {
    IsWalk(g, p) && p[0] == u && Last(p) == v
  }

  ghost predicate Reaches(g: Graph, u: int, v: int) { exists p :: Joins(g, p, u, v) }

  /** Reached by at least one step. */
  ghost predicate ReachesBySteps(g: Graph, u: int, v: int) { exists p :: Joins(g, p, u, v) && |p| > 1 }

  ghost predicate OnCycle(g: Graph, v: int) { ReachesBySteps(g, v, v) }

  ghost predicate ReachesCycle(g: Graph, v: int) { exists w :: Reaches(g, v, w) && OnCycle(g, w) }

  /** The functions some root of the graph reaches. */
  ghost function ReachableFrom(g: Graph, roots: set<int>): set<int> {
    set v | v in g && exists r :: r in roots && r in g && Reaches(g, r, v)
  }

  lemma WalkStep(g: Graph, p: seq<int>, v: int)
    requires IsWalk(g, p) && Edge(g, Last(p), v)
    ensures Joins(g, p + [v], p[0], v)
  {}

  lemma WalkPrepend(g: Graph, u: int, p: seq<int>)
    requires IsWalk(g, p) && Edge(g, u, p[0])
    ensures Joins(g, [u] + p, u, Last(p))
  {}

  lemma WalkSlice(g: Graph, p: seq<int>, i: nat, j: nat)
    requires IsWalk(g, p) && i < j <= |p|
    ensures Joins(g, p[i..j], p[i], p[j - 1])
  {}

  lemma WalkConcat(g: Graph, p: seq<int>, q: seq<int>)
    requires IsWalk(g, p) && IsWalk(g, q) && Last(p) == q[0]
    ensures Joins(g, p + q[1..], p[0], Last(q))
  {
    var r := p + q[1..];
    forall i | 0 < i < |r| ensures Edge(g, r[i - 1], r[i]) {
      if i >= |p| {
        assert r[i] == q[i - |p| + 1] && r[i - 1] == q[i - |p|];
      }
    }
  }

  lemma ReachesSelf(g: Graph, u: int)
    ensures Reaches(g, u, u)
  {
    assert Joins(g, [u], u, u);
  }

  lemma ReachesTransitive(g: Graph, u: int, v: int, w: int)
    requires Reaches(g, u, v) && Reaches(g, v, w)
    ensures Reaches(g, u, w)
  {
    var p :| Joins(g, p, u, v);
    var q :| Joins(g, q, v, w);
    WalkConcat(g, p, q);
  }

  lemma ReachesThenSteps(g: Graph, u: int, v: int, w: int)
    requires Reaches(g, u, v) && Edge(g, v, w)
    ensures ReachesBySteps(g, u, w) && Reaches(g, u, w)
  {
    var p :| Joins(g, p, u, v);
    WalkStep(g, p, w);
  }

  lemma ReachesCycleStep(g: Graph, u: int, v: int)
    requires Edge(g, u, v) && ReachesCycle(g, v)
    ensures ReachesCycle(g, u)
  {
    ReachesSelf(g, u);
    ReachesThenSteps(g, u, u, v);
    var w :| Reaches(g, v, w) && OnCycle(g, w);
    ReachesTransitive(g, u, v, w);
  }

  /** Every walk from `e` to `v` goes through `d`. */
  ghost predicate OnEveryWalk(g: Graph, e: int, d: int, v: int) { forall p :: Joins(g, p, e, v) ==> d in p }

  /** The strict dominator that every strict dominator dominates. */
  ghost predicate IsImmediate(g: Graph, e: int, d: int, b: int) {
    && d != b && OnEveryWalk(g, e, d, b)
    && forall c :: c != b && OnEveryWalk(g, e, c, b) ==> OnEveryWalk(g, e, c, d)
  }

  lemma OnEveryWalkSelf(g: Graph, e: int, v: int)
    ensures OnEveryWalk(g, e, v, v)
  {
    forall p | Joins(g, p, e, v) ensures v in p { assert p[|p| - 1] in p; }
  }

  lemma OnEveryWalkTransitive(g: Graph, e: int, c: int, d: int, v: int)
    requires OnEveryWalk(g, e, c, d) && OnEveryWalk(g, e, d, v)
    ensures OnEveryWalk(g, e, c, v)
  {
    forall p | Joins(g, p, e, v) ensures c in p {
      var k :| 0 <= k < |p| && p[k] == d;
      WalkSlice(g, p, 0, k + 1);
      assert c in p[0..k + 1];
    }
  }

  /** A set that contains the start and every callee of its members contains everything reached. */
  lemma {:induction false} ClosedSetHoldsWalk(g: Graph, s: set<int>, p: seq<int>)
    requires IsWalk(g, p) && p[0] in s
    requires forall u, v :: u in s && Edge(g, u, v) ==> v in s
    ensures forall i :: 0 <= i < |p| ==> p[i] in s
  {
    if |p| > 1 {
      var n := |p| - 1;
      WalkSlice(g, p, 0, n);
      assert p[0..n] == p[..n];
      ClosedSetHoldsWalk(g, s, p[..n]);
      assert p[..n][n - 1] == p[n - 1];
      assert Edge(g, p[n - 1], p[n]);
    }
  }

  /** The functions listed so far, callees before callers. */
  ghost predicate CalleesFirst(g: Graph, order: seq<int>) {
    && NoDuplicates(order)
    && (forall i :: 0 <= i < |order| ==> order[i] in g)
    && (forall i, t :: 0 <= i < |order| && t in g[order[i]] ==> t in order[..i])
  }

  /** A walk from a listed function goes strictly down the list. */
  lemma {:induction false} WalkGoesDown(g: Graph, order: seq<int>, p: seq<int>, i: nat)
    requires CalleesFirst(g, order) && IsWalk(g, p) && i < |order| && p[0] == order[i]
    ensures Last(p) in order[..i + 1]
    ensures |p| > 1 ==> Last(p) in order[..i]
    decreases |p|
  {
    if |p| > 1 {
      assert Edge(g, p[0], p[1]);
      var j :| 0 <= j < i && order[..i][j] == p[1];
      WalkSlice(g, p, 1, |p|);
      WalkGoesDown(g, order, p[1..], j);
      assert Last(p[1..]) == Last(p);
      var k :| 0 <= k < j + 1 && order[..j + 1][k] == Last(p);
      assert order[..i][k] == Last(p);
    } else {
      assert order[..i + 1][i] == p[0];
    }
  }

  /** No listed function can reach a cycle. */
  lemma CalleesFirstIsAcyclic(g: Graph, order: seq<int>, v: int)
    requires CalleesFirst(g, order) && v in order
    ensures !ReachesCycle(g, v)
  {
    var i :| 0 <= i < |order| && order[i] == v;
    forall w | Reaches(g, v, w) ensures !OnCycle(g, w) {
      var p :| Joins(g, p, v, w);
      WalkGoesDown(g, order, p, i);
      var j :| 0 <= j < i + 1 && order[..i + 1][j] == w;
      forall q | Joins(g, q, w, w) ensures |q| <= 1 {
        WalkGoesDown(g, order, q, j);
      }
    }
  }

  /** A chain of calls that visits no function twice and none of `avoid`. */
  ghost predicate IsChain(g: Graph, p: seq<int>, v: int, avoid: set<int>) {
    IsWalk(g, p) && p[0] == v && NoDuplicates(p) && forall i :: 0 <= i < |p| ==> p[i] !in avoid
  }

  /** `d` is the length of the longest such chain. */
  ghost predicate IsLongestChain(g: Graph, v: int, avoid: set<int>, d: int) {
    && (exists p :: IsChain(g, p, v, avoid) && |p| == d)
    && (forall p :: IsChain(g, p, v, avoid) ==> |p| <= d)
  }

  /** `d` is the number of functions on the longest simple call chain of the whole graph. */
  ghost predicate IsMaxDepth(g: Graph, d: int) {
    && (forall p, v :: v in g && IsChain(g, p, v, {}) ==> |p| <= d)
    && (if g.Keys == {} then d == 0 else exists p, v :: v in g && IsChain(g, p, v, {}) && |p| == d)
  }

  /** Without cycles every walk is simple. */
  lemma AcyclicWalkIsChain(g: Graph, p: seq<int>)
    requires IsWalk(g, p) && !ReachesCycle(g, p[0])
    ensures IsChain(g, p, p[0], {})
  {
    forall i, j | 0 <= i < j < |p| ensures p[i] != p[j] {
      if p[i] == p[j] {
        WalkSlice(g, p, i, j + 1);
        WalkSlice(g, p, 0, i + 1);
        assert Reaches(g, p[0], p[i]) && OnCycle(g, p[i]);
      }
    }
  }

  /** When no function can reach a cycle, the maximum depth bounds every call chain, simple or not. */
  lemma AcyclicDepthBoundsAllWalks(g: Graph, d: int)
    requires IsMaxDepth(g, d) && forall v :: v in g ==> !ReachesCycle(g, v)
    ensures forall p :: IsWalk(g, p) && p[0] in g ==> |p| <= d
  {
    forall p | IsWalk(g, p) && p[0] in g ensures |p| <= d {
      AcyclicWalkIsChain(g, p);
    }
  }

  /**
   * When some function reaches a cycle, call chains have no longest one: the depth bound is about
   * simple chains only.
   */
  lemma {:induction false} CyclesAllowEveryLength(g: Graph, v: int, n: nat)
    requires ReachesCycle(g, v)
    ensures exists p :: IsWalk(g, p) && p[0] == v && |p| > n
  {
    var w :| Reaches(g, v, w) && OnCycle(g, w);
    var p :| Joins(g, p, v, w);
    var q := LongWalkRoundCycle(g, w, n);
    WalkConcat(g, p, q);
    assert |p + q[1..]| > n;
  }

  lemma {:induction false} LongWalkRoundCycle(g: Graph, w: int, n: nat) returns (q: seq<int>)
    requires OnCycle(g, w)
    ensures Joins(g, q, w, w) && |q| > n
  {
    if n == 0 {
      q := [w];
    } else {
      var q0 := LongWalkRoundCycle(g, w, n - 1);
      var c :| Joins(g, c, w, w) && |c| > 1;
      WalkConcat(g, q0, c);
      q := q0 + c[1..];
    }
  }
}
