/** Dominance, and the trees of candidate dominators that iteration refines until they are exact. */
module DominatorFixpoint {
  import opened Collections
  import opened Digraphs

  /** The entry and the places of the reachable blocks, the entry first. */
  datatype Order = Order(entry: int, rank: map<int, int>)

  ghost predicate IsRanking(o: Order) {
    && o.entry in o.rank
    && (forall b :: b in o.rank ==> o.rank[b] >= 0 && (o.rank[b] == 0 <==> b == o.entry))
    && (forall a, b :: a in o.rank && b in o.rank && o.rank[a] == o.rank[b] ==> a == b)
  }

  /** The reachable blocks, each but the entry after one of its predecessors. */
  ghost predicate IsOrder(g: Graph, o: Order) {
    && IsRanking(o)
    && (forall b :: b in o.rank <==> Reaches(g, o.entry, b))
    && (forall b :: b in o.rank && b != o.entry ==> exists u :: IsForward(g, o, u, b))
  }

  /** A predecessor that comes earlier. */
  ghost predicate IsForward(g: Graph, o: Order, u: int, b: int) {
    b in o.rank && u in o.rank && Edge(g, u, b) && o.rank[u] < o.rank[b]
  }

  /** Candidates for the blocks processed so far; the entry stands above itself. */
  type Tree = map<int, int>

  ghost predicate IsTree(o: Order, t: Tree) {
    && IsRanking(o) && o.entry in t && t[o.entry] == o.entry && t.Keys <= o.rank.Keys
    && forall c :: c in t && c != o.entry ==> t[c] in t && o.rank[t[c]] < o.rank[c]
  }

  /** `x` is `c` itself or above it. */
  ghost predicate Above(o: Order, t: Tree, x: int, c: int)
    requires IsTree(o, t) && c in t
    decreases o.rank[c]
  {
    x == c || (c != o.entry && Above(o, t, x, t[c]))
  }

  lemma {:induction false} AboveRank(o: Order, t: Tree, x: int, c: int)
    requires IsTree(o, t) && c in t && Above(o, t, x, c)
    ensures x in t && o.rank[x] <= o.rank[c] && (o.rank[x] == o.rank[c] ==> x == c)
    decreases o.rank[c]
  {
    if x != c { AboveRank(o, t, x, t[c]); }
  }

  lemma {:induction false} AboveTransitive(o: Order, t: Tree, x: int, y: int, c: int)
    requires IsTree(o, t) && c in t && y in t && Above(o, t, y, c) && Above(o, t, x, y)
    ensures Above(o, t, x, c)
    decreases o.rank[c]
  {
    if y != c { AboveTransitive(o, t, x, y, t[c]); }
  }

  lemma {:induction false} AboveInOrder(o: Order, t: Tree, x: int, y: int, c: int)
    requires IsTree(o, t) && c in t && Above(o, t, x, c) && Above(o, t, y, c)
    requires x in t && y in t && o.rank[x] <= o.rank[y]
    ensures Above(o, t, x, y)
    decreases o.rank[c]
  {
    AboveRank(o, t, y, c);
    if y != c { AboveInOrder(o, t, x, y, t[c]); }
  }

  /** Exactly what stands above both `a` and `b` stands above `r`. */
  ghost predicate Meets(o: Order, t: Tree, a: int, b: int, r: int) {
    && IsTree(o, t) && a in t && b in t && r in t
    && forall x :: Above(o, t, x, r) <==> Above(o, t, x, a) && Above(o, t, x, b)
  }

  /** The block further down may be replaced by its candidate. */
  lemma ClimbOne(o: Order, t: Tree, a: int, b: int)
    requires IsTree(o, t) && a in t && b in t && o.rank[a] > o.rank[b]
    ensures a != o.entry
    ensures forall x :: Above(o, t, x, t[a]) && Above(o, t, x, b) <==> Above(o, t, x, a) && Above(o, t, x, b)
  {
    forall x | Above(o, t, x, b) ensures x != a { AboveRank(o, t, x, b); }
  }

  // ----- What every candidate keeps -----

  /** A walk from `i` to `c` whose later blocks all come after `i`. */
  ghost predicate Descends(g: Graph, o: Order, i: int, c: int) { exists p :: DescendsBy(g, o, p, i, c) }

  ghost predicate DescendsBy(g: Graph, o: Order, p: seq<int>, i: int, c: int) {
    Joins(g, p, i, c) && i in o.rank && forall k :: 0 < k < |p| ==> p[k] in o.rank && o.rank[p[k]] > o.rank[i]
  }

  /** Earlier than `c`, on the way to it, and dominated by every strict dominator of `c`. */
  ghost predicate IsCandidate(g: Graph, o: Order, i: int, c: int) {
    && i in o.rank && c in o.rank && o.rank[i] < o.rank[c] && Descends(g, o, i, c)
    && forall d :: OnEveryWalk(g, o.entry, d, c) && d != c ==> OnEveryWalk(g, o.entry, d, i)
  }

  ghost predicate AllCandidates(g: Graph, o: Order, t: Tree) {
    && IsTree(o, t) && IsOrder(g, o)
    && forall c :: c in t && c != o.entry ==> IsCandidate(g, o, t[c], c)
  }

  lemma OnlyEntryDominatesEntry(g: Graph, e: int, d: int)
    requires OnEveryWalk(g, e, d, e)
    ensures d == e
  {
    assert Joins(g, [e], e, e) && d in [e];
  }

  /** The true dominators of a processed block are still above it. */
  lemma {:induction false} DominatorIsAbove(g: Graph, o: Order, t: Tree, d: int, c: int)
    requires AllCandidates(g, o, t) && c in t && OnEveryWalk(g, o.entry, d, c)
    ensures Above(o, t, d, c)
    decreases o.rank[c]
  {
    if c == o.entry {
      OnlyEntryDominatesEntry(g, o.entry, d);
    } else if d != c {
      assert IsCandidate(g, o, t[c], c);
      DominatorIsAbove(g, o, t, d, t[c]);
    }
  }

  lemma DescendsOn(g: Graph, o: Order, a: int, i: int, c: int)
    requires Descends(g, o, a, i) && Descends(g, o, i, c) && o.rank[a] <= o.rank[i]
    ensures Descends(g, o, a, c)
  {
    var p :| DescendsBy(g, o, p, a, i);
    var q :| DescendsBy(g, o, q, i, c);
    WalkConcat(g, p, q);
    var r := p + q[1..];
    forall k | 0 < k < |r| ensures r[k] in o.rank && o.rank[r[k]] > o.rank[a] {
      if k >= |p| { assert r[k] == q[k - |p| + 1]; }
    }
    assert DescendsBy(g, o, r, a, c);
  }

  /** What stands above a block leads down to it through later blocks only. */
  lemma {:induction false} AboveDescends(g: Graph, o: Order, t: Tree, a: int, c: int)
    requires AllCandidates(g, o, t) && c in t && Above(o, t, a, c)
    ensures Descends(g, o, a, c)
    decreases o.rank[c]
  {
    if a == c {
      assert DescendsBy(g, o, [c], c, c);
    } else {
      assert IsCandidate(g, o, t[c], c);
      AboveDescends(g, o, t, a, t[c]);
      AboveRank(o, t, a, t[c]);
      DescendsOn(g, o, a, t[c], c);
    }
  }

  /** The processed predecessors of `b`. */
  ghost predicate IsProcessed(g: Graph, t: Tree, p: int, b: int) { p in t && Edge(g, p, b) }

  /** Exactly what stands above all processed predecessors of `b` stands above `r`. */
  ghost predicate IsMeet(g: Graph, o: Order, t: Tree, b: int, r: int) {
    && IsTree(o, t) && r in t
    && forall x :: Above(o, t, x, r) <==> AboveAll(g, o, t, x, b)
  }

  ghost predicate AboveAll(g: Graph, o: Order, t: Tree, x: int, b: int)
    requires IsTree(o, t)
  {
    forall p :: IsProcessed(g, t, p, b) ==> Above(o, t, x, p)
  }

  lemma DominatesPredecessor(g: Graph, e: int, d: int, p: int, b: int)
    requires OnEveryWalk(g, e, d, b) && d != b && Edge(g, p, b)
    ensures OnEveryWalk(g, e, d, p)
  {
    forall w | Joins(g, w, e, p) ensures d in w {
      WalkStep(g, w, b);
      assert d in w + [b];
    }
  }

  /** An earlier block that dominates `b` dominates what leads down to `b`. */
  lemma DominatesOnTheWay(g: Graph, o: Order, d: int, i: int, b: int)
    requires Descends(g, o, i, b) && d in o.rank && o.rank[d] <= o.rank[i] && OnEveryWalk(g, o.entry, d, b)
    ensures OnEveryWalk(g, o.entry, d, i)
  {
    var r :| DescendsBy(g, o, r, i, b);
    forall w | Joins(g, w, o.entry, i) ensures d in w {
      WalkConcat(g, w, r);
      var both := w + r[1..];
      forall k | |w| <= k < |both| ensures both[k] != d { assert both[k] == r[k - |w| + 1]; }
      assert d in both;
    }
  }

  /** The meet of the processed predecessors is a candidate again. */
  lemma MeetIsCandidate(g: Graph, o: Order, t: Tree, u: int, b: int, r: int)
    requires AllCandidates(g, o, t) && b != o.entry && IsMeet(g, o, t, b, r)
    requires u in t && IsForward(g, o, u, b)
    ensures IsCandidate(g, o, r, b)
  {
    MeetLeadsDown(g, o, t, u, b, r);
    forall d | OnEveryWalk(g, o.entry, d, b) && d != b ensures OnEveryWalk(g, o.entry, d, r) {
      DominatorIsAboveMeet(g, o, t, d, b, r);
      AboveRank(o, t, d, r);
      DominatesOnTheWay(g, o, d, r, b);
    }
  }

  lemma MeetLeadsDown(g: Graph, o: Order, t: Tree, u: int, b: int, r: int)
    requires AllCandidates(g, o, t) && b != o.entry && IsMeet(g, o, t, b, r)
    requires u in t && IsForward(g, o, u, b)
    ensures o.rank[r] < o.rank[b] && Descends(g, o, r, b)
  {
    assert IsProcessed(g, t, u, b) && Above(o, t, r, r) && AboveAll(g, o, t, r, b);
    AboveRank(o, t, r, u);
    AboveDescends(g, o, t, r, u);
    StepDown(g, o, r, u, b);
  }

  lemma StepDown(g: Graph, o: Order, r: int, u: int, b: int)
    requires Descends(g, o, r, u) && Edge(g, u, b) && b in o.rank && o.rank[r] < o.rank[b]
    ensures Descends(g, o, r, b)
  {
    var p :| DescendsBy(g, o, p, r, u);
    WalkStep(g, p, b);
    assert DescendsBy(g, o, p + [b], r, b);
  }

  lemma DominatorIsAboveMeet(g: Graph, o: Order, t: Tree, d: int, b: int, r: int)
    requires AllCandidates(g, o, t) && IsMeet(g, o, t, b, r) && OnEveryWalk(g, o.entry, d, b) && d != b
    ensures Above(o, t, d, r)
  {
    forall p | IsProcessed(g, t, p, b) ensures Above(o, t, d, p) {
      DominatesPredecessor(g, o.entry, d, p, b);
      DominatorIsAbove(g, o, t, d, p);
    }
    assert AboveAll(g, o, t, d, b);
  }

  // ----- The fixpoint is exact -----

  /** All blocks are processed, and each stands under the meet of its predecessors. */
  ghost predicate IsFixpoint(g: Graph, o: Order, t: Tree) {
    && AllCandidates(g, o, t) && t.Keys == o.rank.Keys
    && forall b :: b in t && b != o.entry ==> IsMeet(g, o, t, b, t[b])
  }

  /** What stands above a block lies on every walk to it. */
  lemma {:induction false} AboveDominates(g: Graph, o: Order, t: Tree, a: int, p: seq<int>)
    requires IsFixpoint(g, o, t) && IsWalk(g, p) && p[0] == o.entry && Last(p) in t && Above(o, t, a, Last(p))
    ensures a in p
  {
    var n := |p| - 1;
    assert p[n] in p && p[0] in p;
    if n > 0 && a != p[n] && p[n] != o.entry {
      var u := p[n - 1];
      WalkSlice(g, p, 0, n);
      assert p[0..n] == p[..n] && Last(p[..n]) == u && Edge(g, u, p[n]);
      assert Reaches(g, o.entry, u);
      assert IsProcessed(g, t, u, p[n]) && IsMeet(g, o, t, p[n], t[p[n]]);
      assert AboveAll(g, o, t, a, p[n]);
      AboveDominates(g, o, t, a, p[..n]);
    }
  }

  /** At the fixpoint the blocks above `b` are its dominators, and its candidate is its immediate dominator. */
  lemma FixpointIsExact(g: Graph, o: Order, t: Tree, b: int)
    requires IsFixpoint(g, o, t) && b in t
    ensures forall d :: Above(o, t, d, b) <==> OnEveryWalk(g, o.entry, d, b)
    ensures b != o.entry ==> IsImmediate(g, o.entry, t[b], b)
  {
    forall d ensures Above(o, t, d, b) <==> OnEveryWalk(g, o.entry, d, b) {
      if OnEveryWalk(g, o.entry, d, b) { DominatorIsAbove(g, o, t, d, b); }
      if Above(o, t, d, b) {
        forall p | Joins(g, p, o.entry, b) ensures d in p { AboveDominates(g, o, t, d, p); }
      }
    }
    if b != o.entry {
      assert Above(o, t, t[b], t[b]) && Above(o, t, t[b], b);
      assert IsCandidate(g, o, t[b], b);
    }
  }
}
