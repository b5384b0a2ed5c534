/** When recorded depths are call distances whatever the order of calls, and when some order makes them wrong. */
module DepthExactness {
  import opened Collections
  import opened Digraphs
  import opened FirstChains
  import opened Reachability
  import opened SearchDepths

  /** A simple chain from a root that meets no root again. */
  ghost predicate IsRootChain(g: Graph, roots: seq<int>, u: int, p: seq<int>) {
    && IsWalk(g, p) && p[0] in roots && p[0] in g && Last(p) == u && NoDuplicates(p)
    && forall i :: 0 < i < |p| ==> p[i] !in roots
  }

  /** All root chains to `u` have `n` functions. */
  ghost predicate OneLength(g: Graph, roots: seq<int>, u: int, n: int) {
    forall p :: IsRootChain(g, roots, u, p) ==> |p| == n
  }

  // ----- The least walk followed into a function is a root chain -----

  lemma {:induction false} StampsAscend(g: Graph, roots: seq<int>, p: seq<int>, ks: seq<int>, a: nat, b: nat)
    requires IsFollowed(g, roots, p, ks) && a <= b < |ks|
    ensures ks[a] <= ks[b]
    decreases b
  {
    if a < b {
      assert StepFollowed(g, roots, p, ks, b);
      StampsAscend(g, roots, p, ks, a, b - 1);
    }
  }

  /** From a later root on, the walk is followed all the same. */
  lemma SuffixIsFollowed(g: Graph, roots: seq<int>, k: nat, u: int, p: seq<int>, ks: seq<int>, i: nat)
    requires FollowedInto(g, roots, k, u, p, ks) && i < |p| && p[i] in roots && p[i] in g
    ensures FollowedInto(g, roots, k, u, p[i..], ks[i..])
  {
    var q, js := p[i..], ks[i..];
    WalkSlice(g, p, i, |p|);
    assert p[i..|p|] == q;
    forall j | 0 <= j < |js| ensures StepFollowed(g, roots, q, js, j) {
      assert StepFollowed(g, roots, p, ks, i + j);
    }
  }

  /** Cutting out a round trip leaves a followed walk. */
  lemma CutIsFollowed(g: Graph, roots: seq<int>, k: nat, u: int, p: seq<int>, ks: seq<int>, a: nat, b: nat)
    requires FollowedInto(g, roots, k, u, p, ks) && 0 < a < b < |p| && p[a] == p[b]
    ensures FollowedInto(g, roots, k, u, p[..a] + p[b..], ks[..a] + ks[b..])
  {
    var q, js := p[..a] + p[b..], ks[..a] + ks[b..];
    assert forall j :: 0 <= j <= a ==> q[j] == p[j];
    assert forall j :: a <= j < |q| ==> q[j] == p[j - a + b];
    forall j | 0 < j < |q| ensures Edge(g, q[j - 1], q[j]) {
      if j <= a { assert Edge(g, p[j - 1], p[j]); } else { assert Edge(g, p[j - a + b - 1], p[j - a + b]); }
    }
    forall j | 0 <= j < |js| ensures StepFollowed(g, roots, q, js, j) {
      if j < a {
        assert StepFollowed(g, roots, p, ks, j);
      } else {
        assert StepFollowed(g, roots, p, ks, j - a + b);
        if j == a { CutStamps(g, roots, p, ks, a, b); }
      }
    }
    LastOfCut(g, roots, k, u, p, ks, a, b);
  }

  lemma CutStamps(g: Graph, roots: seq<int>, p: seq<int>, ks: seq<int>, a: nat, b: nat)
    requires IsFollowed(g, roots, p, ks) && 0 < a < b < |ks|
    ensures ks[a - 1] <= ks[b] && 0 <= ks[b] < |roots|
    ensures ks[a - 1] == ks[b] ==> FirstCaller(g, roots[ks[b]], p[a], p[a - 1])
  {
    StampsAscend(g, roots, p, ks, a - 1, a);
    StampsAscend(g, roots, p, ks, a, b);
    assert StepFollowed(g, roots, p, ks, a) && StepFollowed(g, roots, p, ks, b);
  }

  lemma LastOfCut(g: Graph, roots: seq<int>, k: nat, u: int, p: seq<int>, ks: seq<int>, a: nat, b: nat)
    requires FollowedInto(g, roots, k, u, p, ks) && 0 < a < b < |p| && p[a] == p[b]
    ensures var q, js := p[..a] + p[b..], ks[..a] + ks[b..];
      |q| >= 2 && Last(js) <= k && (Last(js) == k ==> FirstCaller(g, roots[k], u, q[|q| - 2]))
  {
    if b == |p| - 1 {
      StampsAscend(g, roots, p, ks, a - 1, a);
      StampsAscend(g, roots, p, ks, a, |ks| - 1);
      assert StepFollowed(g, roots, p, ks, a);
    }
  }

  lemma LeastIsRootChain(g: Graph, roots: seq<int>, k: nat, u: int, p: seq<int>, ks: seq<int>)
    requires Closed(g) && FollowedInto(g, roots, k, u, p, ks) && VisitBelow(g, roots, k, u, |ks|)
    ensures IsRootChain(g, roots, u, p)
  {
    forall i | 0 < i < |p| ensures p[i] !in roots {
      assert Edge(g, p[i - 1], p[i]);
      if p[i] in roots { SuffixIsFollowed(g, roots, k, u, p, ks, i); }
    }
    forall a, b | 0 <= a < b < |p| ensures p[a] != p[b] {
      if a > 0 && p[a] == p[b] { CutIsFollowed(g, roots, k, u, p, ks, a, b); }
    }
  }

  // ----- Depths that are exact in every order of calls -----

  /** A function called by one whose root chains all have `n` functions is recorded no deeper than `n`. */
  lemma OneLengthBoundsDepth(g: Graph, roots: seq<int>, u: int, v: int, n: int)
    requires Closed(g) && u in ReachableFrom(g, Elements(roots)) && Edge(g, u, v) && OneLength(g, roots, u, n)
    ensures 0 <= AfterRoots(g, roots, |roots|)[v].depth <= n
  {
    var r :| r in Elements(roots) && r in g && Reaches(g, r, u);
    var k :| 0 <= k < |roots| && roots[k] == r;
    var depth := HasVisitDepth(g, roots, k, u);
    var p, ks :| FollowedInto(g, roots, k, u, p, ks) && |ks| == depth;
    LeastIsRootChain(g, roots, k, u, p, ks);
    FollowOn(g, roots, k, u, p, ks, v);
    assert FollowedWalk(g, roots, v, p + [v]);
    DepthIsShortestFollowed(g, roots, v);
  }

  /**
   * If a shortest walk to `v` comes through a function all of whose root chains have the same
   * length, the depth of `v` is its distance, in whatever order calls and roots are taken.
   */
  lemma OneLengthIsExact(g: Graph, roots: seq<int>, v: int, p: seq<int>)
    requires Closed(g) && IsWalk(g, p) && p[0] in roots && p[0] in g && Last(p) == v && |p| > 1
    requires IsShortest(g, roots, v, |p| - 1) && OneLength(g, roots, p[|p| - 2], |p| - 1)
    ensures AfterRoots(g, roots, |roots|)[v].depth == |p| - 1
  {
    var n := |p| - 1;
    WalkSlice(g, p, 0, n);
    assert Edge(g, p[n - 1], p[n]);
    assert Joins(g, p[0..n], p[0], p[n - 1]) && p[0] in Elements(roots) && Reaches(g, p[0], p[n - 1]);
    InGraph(g, p, n - 1);
    assert p[n - 1] in ReachableFrom(g, Elements(roots));
    OneLengthBoundsDepth(g, roots, p[n - 1], v, n);
    DepthIsShortestFollowed(g, roots, v);
  }

  lemma InGraph(g: Graph, p: seq<int>, i: nat)
    requires Closed(g) && IsWalk(g, p) && p[0] in g && i < |p|
    ensures p[i] in g
  {
    if i > 0 { assert Edge(g, p[i - 1], p[i]); }
  }

  // ----- Another order of calls -----

  /** The same calls, in any order. */
  ghost predicate Reorders(g: Graph, h: Graph) {
    h.Keys == g.Keys && forall u :: u in g ==> multiset(h[u]) == multiset(g[u])
  }

  function ToFront(xs: seq<int>, x: int): (r: seq<int>)
    requires x in xs
    ensures r != [] && r[0] == x && multiset(r) == multiset(xs)
  {
    var i := FirstIndex(xs, x);
    assert xs == xs[..i] + [x] + xs[i + 1..];
    [x] + xs[..i] + xs[i + 1..]
  }

  /** The graph in which every function of the chain calls the next one first. */
  function Along(g: Graph, p: seq<int>): (h: Graph)
    requires IsWalk(g, p)
    ensures h.Keys == g.Keys
  {
    if |p| == 1 then g
    else
      assert Edge(g, p[0], p[1]);
      Along(g, p[1..])[p[0] := ToFront(g[p[0]], p[1])]
  }

  /** The function at index `i - 1` of the chain calls the next one first. */
  predicate CallsNext(h: Graph, p: seq<int>, i: int) {
    0 < i < |p| && p[i - 1] in h && h[p[i - 1]] != [] && h[p[i - 1]][0] == p[i]
  }

  lemma {:induction false} AlongReorders(g: Graph, p: seq<int>)
    requires IsWalk(g, p) && NoDuplicates(p)
    ensures Reorders(g, Along(g, p))
    ensures forall u :: u in g && u !in p ==> Along(g, p)[u] == g[u]
    ensures forall i {:trigger CallsNext(Along(g, p), p, i)} :: 0 < i < |p| ==> CallsNext(Along(g, p), p, i)
  {
    if |p| > 1 {
      assert Edge(g, p[0], p[1]);
      AlongReorders(g, p[1..]);
      forall i | 0 < i < |p| ensures CallsNext(Along(g, p), p, i) {
        if i > 1 { assert CallsNext(Along(g, p[1..]), p[1..], i - 1) && p[i - 1] != p[0]; }
      }
    }
  }

  lemma SameEdges(g: Graph, h: Graph)
    requires Reorders(g, h)
    ensures forall u, v :: Edge(g, u, v) <==> Edge(h, u, v)
  {
    forall u, v ensures Edge(g, u, v) <==> Edge(h, u, v) {
      if u in g { assert v in h[u] <==> v in multiset(h[u]); }
    }
  }

  lemma SameWalk(g: Graph, h: Graph, p: seq<int>)
    requires forall u, v :: Edge(g, u, v) <==> Edge(h, u, v)
    ensures IsWalk(g, p) <==> IsWalk(h, p)
  {}

  /** A chain that takes the first call every time is a first chain. */
  lemma FirstCallsAreFirst(h: Graph, r: int, u: int, p: seq<int>)
    requires Connects(h, p, r, u)
    requires forall i {:trigger CallsNext(h, p, i)} :: 0 < i < |p| ==> CallsNext(h, p, i)
    ensures IsFirstChain(h, r, u, p)
  {
    forall q | Connects(h, q, r, u) && q != p ensures Precedes(h, p, q) {
      var i := ChainsPart(h, r, u, p, q);
      assert q[i - 1] == q[..i][i - 1] == p[i - 1];
      assert Edge(h, p[i - 1], p[i]) && Edge(h, p[i - 1], q[i]);
      assert CallsNext(h, p, i);
      assert Rank(h, p[i - 1], p[i]) == 0 && h[p[i - 1]][0] != q[i];
      assert PrecedesAt(h, p, q, i);
    }
  }

  lemma AlongIsFirst(g: Graph, r: int, u: int, p: seq<int>)
    requires Connects(g, p, r, u)
    ensures IsFirstChain(Along(g, p), r, u, p)
  {
    AlongReorders(g, p);
    SameEdges(g, Along(g, p));
    SameWalk(g, Along(g, p), p);
    FirstCallsAreFirst(Along(g, p), r, u, p);
  }

  // ----- One root: functions with one caller -----

  /** With one root, the only walk followed into a function is its first chain. */
  lemma {:induction false} IntoIsFirst(g: Graph, r: int, u: int, p: seq<int>, ks: seq<int>)
    requires FollowedInto(g, [r], 0, u, p, ks)
    ensures IsFirstChain(g, r, u, p)
    decreases |p|
  {
    if ks == [] {
      RootIsFront(g, r);
      assert p == [r] && [r][..1] == [r];
      assert IsFirstChain(g, r, [r][0], [r][..1]);
    } else {
      assert StepFollowed(g, [r], p, ks, |ks| - 1);
      var n := |p| - 1;
      FollowedBack(g, [r], 0, p, ks);
      IntoIsFirst(g, r, p[n - 1], p[..n], ks[..|ks| - 1]);
      FirstThenLast(g, r, u, p);
    }
  }

  /** The first chain to the first caller, and then the call from it, make a first chain. */
  lemma FirstThenLast(g: Graph, r: int, u: int, p: seq<int>)
    requires |p| > 1 && Last(p) == u && FirstCaller(g, r, u, p[|p| - 2])
    requires IsFirstChain(g, r, p[|p| - 2], p[..|p| - 1])
    ensures IsFirstChain(g, r, u, p)
  {
    var n := |p| - 1;
    var c :| IsFirstChain(g, r, u, c) && |c| > 1 && c[|c| - 2] == p[n - 1];
    FirstPrefix(g, r, u, c);
    FirstChainIsUnique(g, r, p[n - 1], p[..n], c[..|c| - 1]);
    assert p == p[..n] + [u] && c == c[..|c| - 1] + [u];
  }

  /** `u` is the only function the root reaches that calls `v`. */
  ghost predicate SoleCaller(g: Graph, r: int, u: int, v: int) {
    v != r && Edge(g, u, v) && Reaches(g, r, u) && forall w :: Edge(g, w, v) && Reaches(g, r, w) ==> w == u
  }

  /** A function with one caller is recorded one below the first chain to that caller. */
  lemma SoleCallerDepth(g: Graph, r: int, u: int, v: int, c: seq<int>)
    requires Closed(g) && r in g && SoleCaller(g, r, u, v) && IsFirstChain(g, r, u, c)
    ensures AfterRoots(g, [r], 1)[v].depth == |c|
  {
    var roots := [r];
    DepthIsShortestFollowed(g, roots, v);
    ReachesThenSteps(g, r, u, v);
    FinalEntries(g, roots);
    assert r in Elements(roots) && v in ReachableFrom(g, Elements(roots));
    assert EntrySound(g, roots, AfterRoots(g, roots, 1), v);
    var p :| FollowedWalk(g, roots, v, p) && |p| == AfterRoots(g, roots, 1)[v].depth + 1;
    var ks :| IsFollowed(g, roots, p, ks) && Last(p) == v;
    assert ks != [];
    assert StepFollowed(g, roots, p, ks, |ks| - 1);
    FollowedBack(g, roots, 0, p, ks);
    IntoIsFirst(g, r, u, p[..|p| - 1], ks[..|ks| - 1]);
    FirstChainIsUnique(g, r, u, p[..|p| - 1], c);
  }

  lemma SoleCallerKept(g: Graph, h: Graph, r: int, u: int, v: int)
    requires Reorders(g, h) && SoleCaller(g, r, u, v)
    ensures SoleCaller(h, r, u, v)
  {
    SameEdges(g, h);
    forall w | Reaches(h, r, w) ensures Reaches(g, r, w) {
      var p :| Joins(h, p, r, w);
      SameWalk(g, h, p);
      assert Joins(g, p, r, w);
    }
    var p :| Joins(g, p, r, u);
    SameWalk(g, h, p);
    assert Joins(h, p, r, u);
  }

  ghost predicate ExactIn(h: Graph, r: int, v: int) {
    v in h && IsShortest(h, [r], v, AfterRoots(h, [r], 1)[v].depth)
  }

  lemma ReorderedIsClosed(g: Graph, h: Graph)
    requires Closed(g) && Reorders(g, h)
    ensures Closed(h)
  {
    SameEdges(g, h);
  }

  lemma RootChainsAreChains(g: Graph, r: int, u: int, p: seq<int>)
    requires r in g
    ensures IsRootChain(g, [r], u, p) <==> Connects(g, p, r, u)
  {}

  /** Root chains of one length make the depth exact in every order. */
  lemma OneLengthThenExact(g: Graph, h: Graph, r: int, u: int, v: int, n: int)
    requires Closed(g) && r in g && SoleCaller(g, r, u, v) && OneLength(g, [r], u, n) && Reorders(g, h)
    ensures v in h && ExactIn(h, r, v)
  {
    SameEdges(g, h);
    ReorderedIsClosed(g, h);
    SoleCallerKept(g, h, r, u, v);
    forall p ensures IsRootChain(h, [r], u, p) ==> |p| == n {
      SameWalk(g, h, p);
      assert IsRootChain(h, [r], u, p) ==> IsRootChain(g, [r], u, p);
    }
    var walk :| Joins(h, walk, r, u);
    InGraph(h, walk, |walk| - 1);
    assert r in Elements([r]) && u in ReachableFrom(h, Elements([r]));
    OneLengthBoundsDepth(h, [r], u, v, n);
    forall p | IsWalk(h, p) && p[0] in [r] && p[0] in h && Last(p) == v ensures n + 1 <= |p| {
      WalkToSoleCaller(h, r, u, v, n, p);
    }
  }

  /** Every walk to `v` passes its sole caller, so it is longer than the chains to that caller. */
  lemma WalkToSoleCaller(h: Graph, r: int, u: int, v: int, n: int, p: seq<int>)
    requires SoleCaller(h, r, u, v) && OneLength(h, [r], u, n) && r in h
    requires IsWalk(h, p) && p[0] == r && Last(p) == v
    ensures n + 1 <= |p|
  {
    assert |p| > 1;
    var m := |p| - 1;
    assert Edge(h, p[m - 1], p[m]);
    WalkSlice(h, p, 0, m);
    assert Joins(h, p[0..m], r, p[m - 1]) && Reaches(h, r, p[m - 1]);
    var c := WalkHasChain(h, p[0..m]);
    RootChainsAreChains(h, r, u, c);
  }

  /** A chain to the caller longer than another one, taken first, puts `v` too deep. */
  lemma LongerChainThenWrong(g: Graph, r: int, u: int, v: int, a: seq<int>, b: seq<int>)
    requires Closed(g) && r in g && SoleCaller(g, r, u, v) && v in g
    requires Connects(g, a, r, u) && Connects(g, b, r, u) && |a| < |b|
    ensures v in Along(g, b) && Reorders(g, Along(g, b)) && !ExactIn(Along(g, b), r, v)
  {
    var h := Along(g, b);
    AlongReorders(g, b);
    AlongIsFirst(g, r, u, b);
    ReorderedIsClosed(g, h);
    SoleCallerKept(g, h, r, u, v);
    SoleCallerDepth(h, r, u, v, b);
    SameEdges(g, h);
    SameWalk(g, h, a);
    WalkStep(h, a, v);
    assert IsWalk(h, a + [v]) && (a + [v])[0] == r && Last(a + [v]) == v;
  }

  /**
   * The depth of a function with one caller is its distance in every order of calls exactly when
   * all simple chains from the root to that caller have the same length.
   */
  lemma ExactInEveryOrderIff(g: Graph, r: int, u: int, v: int)
    requires Closed(g) && r in g && SoleCaller(g, r, u, v)
    ensures v in g
    ensures (forall h :: Reorders(g, h) ==> ExactIn(h, r, v)) <==> exists n :: OneLength(g, [r], u, n)
  {
    assert v in g;
    if exists n :: OneLength(g, [r], u, n) {
      var n :| OneLength(g, [r], u, n);
      forall h | Reorders(g, h) ensures ExactIn(h, r, v) { OneLengthThenExact(g, h, r, u, v, n); }
    }
    if forall h :: Reorders(g, h) ==> ExactIn(h, r, v) {
      var walk :| Joins(g, walk, r, u);
      var a := WalkHasChain(g, walk);
      forall b | IsRootChain(g, [r], u, b) ensures |b| == |a| {
        RootChainsAreChains(g, r, u, b);
        if |a| < |b| { LongerChainThenWrong(g, r, u, v, a, b); }
        if |b| < |a| { LongerChainThenWrong(g, r, u, v, b, a); }
      }
      assert OneLength(g, [r], u, |a|);
    }
  }

  // ----- A recorded depth above the distance -----

  /** 0 calls 1 then 2, 1 calls 2, 2 calls 3. */
  const SHORTCUT: Graph := map[0 := [1, 2], 1 := [2], 2 := [3], 3 := []]

  lemma ShortcutEdge(u: int, v: int)
    ensures Edge(SHORTCUT, u, v) <==>
      (u == 0 && v == 1) || (u == 0 && v == 2) || (u == 1 && v == 2) || (u == 2 && v == 3)
  {}

  /** Depth need not be the distance: 3 is recorded at depth 3 though 0 -> 2 -> 3 reaches it by two calls. */
  lemma DepthMayExceedDistance()
    ensures Closed(SHORTCUT) && AfterRoots(SHORTCUT, [0], 1)[3].depth == 3 && Joins(SHORTCUT, [0, 2, 3], 0, 3)
  {
    var g, c := SHORTCUT, [0, 1, 2];
    forall u, v | Edge(g, u, v) ensures v in g { ShortcutEdge(u, v); }
    ShortcutEdge(0, 2);
    ShortcutEdge(2, 3);
    assert Connects(g, c, 0, 2);
    assert CallsNext(g, c, 1) && CallsNext(g, c, 2);
    FirstCallsAreFirst(g, 0, 2, c);
    assert Joins(g, [0, 2], 0, 2);
    forall w | Edge(g, w, 3) ensures w == 2 { ShortcutEdge(w, 3); }
    SoleCallerDepth(g, 0, 2, 3, c);
  }
}
