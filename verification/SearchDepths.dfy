/** Which depths the reachability traversal records, in terms of the graph and the roots alone. */
module SearchDepths {
  import opened Collections
  import opened Digraphs
  import opened FirstChains
  import opened Reachability

  // ----- Walks the traversals follow -----

  /** The first chain from `r` to `v` ends with the call from `u`. */
  ghost predicate FirstCaller(g: Graph, r: int, v: int, u: int) {
    exists p :: IsFirstChain(g, r, v, p) && |p| > 1 && p[|p| - 2] == u
  }

  /**
   * Step `i` of the walk is followed in the traversal from root number `ks[i]`, not before the step
   * ahead of it; two steps in one traversal only if the first of them is the traversal's way in.
   */
  ghost predicate StepFollowed(g: Graph, roots: seq<int>, p: seq<int>, ks: seq<int>, i: nat)
    requires i < |ks| < |p|
  {
    && 0 <= ks[i] < |roots| && roots[ks[i]] in g && Reaches(g, roots[ks[i]], p[i])
    && (i > 0 ==> ks[i - 1] <= ks[i])
    && (i > 0 && ks[i - 1] == ks[i] ==> FirstCaller(g, roots[ks[i]], p[i], p[i - 1]))
  }

  ghost predicate IsFollowed(g: Graph, roots: seq<int>, p: seq<int>, ks: seq<int>) {
    && |p| == |ks| + 1 && IsWalk(g, p) && p[0] in roots && p[0] in g
    && forall i {:trigger StepFollowed(g, roots, p, ks, i)} :: 0 <= i < |ks| ==> StepFollowed(g, roots, p, ks, i)
  }

  /** Followed to `v` by the traversals before number `k`. */
  ghost predicate FollowedBefore(g: Graph, roots: seq<int>, k: nat, v: int, p: seq<int>, ks: seq<int>) {
    IsFollowed(g, roots, p, ks) && Last(p) == v && (ks != [] ==> Last(ks) < k)
  }

  /** Followed to `v` by the time traversal `k` visits it. */
  ghost predicate FollowedInto(g: Graph, roots: seq<int>, k: nat, v: int, p: seq<int>, ks: seq<int>) {
    && k < |roots| && IsFollowed(g, roots, p, ks) && Last(p) == v
    && (ks != [] ==> Last(ks) <= k && (Last(ks) == k ==> FirstCaller(g, roots[k], v, p[|p| - 2])))
  }

  lemma BeforeIsInto(g: Graph, roots: seq<int>, k: nat, v: int, p: seq<int>, ks: seq<int>)
    requires FollowedBefore(g, roots, k, v, p, ks) && k < |roots|
    ensures FollowedInto(g, roots, k, v, p, ks)
  {}

  /** A walk followed into `u` goes on along any call of `u`. */
  lemma FollowOn(g: Graph, roots: seq<int>, k: nat, u: int, p: seq<int>, ks: seq<int>, t: int)
    requires FollowedInto(g, roots, k, u, p, ks) && Edge(g, u, t) && roots[k] in g && Reaches(g, roots[k], u)
    ensures FollowedBefore(g, roots, k + 1, t, p + [t], ks + [k])
    ensures FirstCaller(g, roots[k], t, u) ==> FollowedInto(g, roots, k, t, p + [t], ks + [k])
  {
    var q, js := p + [t], ks + [k];
    WalkStep(g, p, t);
    forall i | 0 <= i < |js| ensures StepFollowed(g, roots, q, js, i) {
      if i < |ks| { assert StepFollowed(g, roots, p, ks, i); }
    }
  }

  /** A walk whose last step belongs to traversal `k` was followed into the function before. */
  lemma FollowedBack(g: Graph, roots: seq<int>, k: nat, p: seq<int>, ks: seq<int>)
    requires IsFollowed(g, roots, p, ks) && ks != [] && Last(ks) == k
    ensures k < |roots| && roots[k] in g && Reaches(g, roots[k], p[|p| - 2]) && Edge(g, p[|p| - 2], Last(p))
    ensures FollowedInto(g, roots, k, p[|p| - 2], p[..|p| - 1], ks[..|ks| - 1])
  {
    var n := |ks| - 1;
    var q, js := p[..n + 1], ks[..n];
    assert StepFollowed(g, roots, p, ks, n);
    WalkSlice(g, p, 0, n + 1);
    assert p[0..n + 1] == q;
    forall i | 0 <= i < |js| ensures StepFollowed(g, roots, q, js, i) {
      assert StepFollowed(g, roots, p, ks, i);
    }
    assert Edge(g, p[n], p[n + 1]);
  }

  // ----- The least followed walk -----

  ghost predicate ReachedBefore(g: Graph, roots: seq<int>, k: nat, v: int, d: int) {
    exists p, ks :: FollowedBefore(g, roots, k, v, p, ks) && |ks| == d
  }

  ghost predicate ReachedInto(g: Graph, roots: seq<int>, k: nat, v: int, d: int) {
    exists p, ks :: FollowedInto(g, roots, k, v, p, ks) && |ks| == d
  }

  /** No walk followed before traversal `k` to `v` is shorter than the depth; without any, `v` may have none. */
  ghost predicate DepthBelow(g: Graph, roots: seq<int>, k: nat, v: int, depth: int) {
    forall p, ks :: FollowedBefore(g, roots, k, v, p, ks) ==> 0 <= depth <= |ks|
  }

  ghost predicate VisitBelow(g: Graph, roots: seq<int>, k: nat, v: int, depth: int) {
    forall p, ks :: FollowedInto(g, roots, k, v, p, ks) ==> 0 <= depth <= |ks|
  }

  /** The depth at which traversal `k` visits `v`. */
  ghost predicate IsVisitDepth(g: Graph, roots: seq<int>, k: nat, v: int, depth: int) {
    depth >= 0 && ReachedInto(g, roots, k, v, depth) && VisitBelow(g, roots, k, v, depth)
  }

  /** The entries hold the lengths of the shortest walks followed before traversal `k`, and nothing elsewhere. */
  ghost predicate IsLeastAt(g: Graph, roots: seq<int>, k: nat, entries: Entries, v: int)
    requires v in entries
  {
    && entries[v].depth >= -1
    && (entries[v].depth >= 0 ==> ReachedBefore(g, roots, k, v, entries[v].depth))
    && DepthBelow(g, roots, k, v, entries[v].depth)
  }

  ghost predicate IsLeastMap(g: Graph, roots: seq<int>, k: nat, entries: Entries) {
    && entries.Keys == g.Keys
    && forall v {:trigger IsLeastAt(g, roots, k, entries, v)} :: v in g ==> IsLeastAt(g, roots, k, entries, v)
  }

  // ----- One traversal -----

  /** Visited at its visit depth, the function passes that depth plus one on to all it calls. */
  ghost predicate PassesOn(g: Graph, roots: seq<int>, k: nat, entries: Entries, u: int) {
    exists depth :: IsVisitDepth(g, roots, k, u, depth) && PassesDepth(g, entries, u, depth)
  }

  ghost predicate PassesDepth(g: Graph, entries: Entries, u: int, depth: int) {
    forall t :: Edge(g, u, t) && t in entries ==> 0 <= entries[t].depth <= depth + 1
  }

  /** Functions not visited yet are as the traversals before left them; the others are justified by this one too. */
  ghost predicate IsJustified(g: Graph, roots: seq<int>, k: nat, s: State, v: int)
    requires v in s.entries
  {
    && s.entries[v].depth >= -1
    && DepthBelow(g, roots, k, v, s.entries[v].depth)
    && (s.entries[v].depth >= 0 ==> ReachedBefore(g, roots, if v in s.visited then k + 1 else k, v, s.entries[v].depth))
  }

  /** The state in the middle of traversal `k`. */
  ghost predicate InTraversal(g: Graph, roots: seq<int>, k: nat, s: State) {
    && s.entries.Keys == g.Keys
    && forall v {:trigger IsJustified(g, roots, k, s, v)} :: v in g ==> IsJustified(g, roots, k, s, v)
  }

  lemma SameFirstCaller(g: Graph, r: int, v: int, u: int, w: int)
    requires FirstCaller(g, r, v, u) && FirstCaller(g, r, v, w)
    ensures u == w
  {
    var p :| IsFirstChain(g, r, v, p) && |p| > 1 && p[|p| - 2] == u;
    var q :| IsFirstChain(g, r, v, q) && |q| > 1 && q[|q| - 2] == w;
    FirstChainIsUnique(g, r, v, p, q);
  }

  /** Following a call from `cur` gives its target a depth that is justified. */
  lemma RelaxedIsReached(g: Graph, roots: seq<int>, k: nat, cur: int, depth: int, t: int)
    requires k < |roots| && roots[k] in g && Reaches(g, roots[k], cur) && Edge(g, cur, t)
    requires IsVisitDepth(g, roots, k, cur, depth)
    ensures ReachedBefore(g, roots, k + 1, t, depth + 1)
    ensures FirstCaller(g, roots[k], t, cur) ==> ReachedInto(g, roots, k, t, depth + 1)
  {
    var p, ks :| FollowedInto(g, roots, k, cur, p, ks) && |ks| == depth;
    FollowOn(g, roots, k, cur, p, ks, t);
  }

  /** No walk followed into `t` is shorter than what the first caller's visit, or an earlier traversal, gives it. */
  lemma VisitIsBelow(g: Graph, roots: seq<int>, k: nat, cur: int, depth: int, t: int, d: int)
    requires k < |roots| && FirstCaller(g, roots[k], t, cur) && VisitBelow(g, roots, k, cur, depth)
    requires DepthBelow(g, roots, k, t, d) && 0 <= d <= depth + 1
    ensures VisitBelow(g, roots, k, t, d)
  {
    forall p, ks | FollowedInto(g, roots, k, t, p, ks) ensures d <= |ks| {
      if ks != [] && Last(ks) == k {
        SameFirstCaller(g, roots[k], t, cur, p[|p| - 2]);
        FollowedBack(g, roots, k, p, ks);
      } else {
        assert FollowedBefore(g, roots, k, t, p, ks);
      }
    }
  }

  lemma ReachedEarlier(g: Graph, roots: seq<int>, k: nat, v: int, d: int)
    requires ReachedBefore(g, roots, k, v, d)
    ensures ReachedBefore(g, roots, k + 1, v, d)
    ensures k < |roots| ==> ReachedInto(g, roots, k, v, d)
  {
    var p, ks :| FollowedBefore(g, roots, k, v, p, ks) && |ks| == d;
    assert FollowedBefore(g, roots, k + 1, v, p, ks);
    if k < |roots| { BeforeIsInto(g, roots, k, v, p, ks); }
  }

  /** Following one call, to a function visited before or entered now. */
  lemma FollowedCallIsJustified(g: Graph, roots: seq<int>, k: nat, cur: int, depth: int, root: Option<int>, t: int,
      s: State)
    requires k < |roots| && roots[k] in g && Reaches(g, roots[k], cur) && Edge(g, cur, t) && t in g
    requires InTraversal(g, roots, k, s) && IsVisitDepth(g, roots, k, cur, depth)
    requires t !in s.visited ==> FirstCaller(g, roots[k], t, cur)
    ensures var after := s.entries[t := Relax(s.entries[t], root, depth + 1)];
      && InTraversal(g, roots, k, State(after, s.visited + {t})) && 0 <= after[t].depth <= depth + 1
      && (t !in s.visited ==> IsVisitDepth(g, roots, k, t, after[t].depth))
  {
    var after := s.entries[t := Relax(s.entries[t], root, depth + 1)];
    var next := State(after, s.visited + {t});
    assert IsJustified(g, roots, k, s, t);
    RelaxedIsReached(g, roots, k, cur, depth, t);
    var was := s.entries[t].depth;
    if was >= 0 && t !in s.visited { ReachedEarlier(g, roots, k, t, was); }
    assert DepthBelow(g, roots, k, t, after[t].depth);
    if t !in s.visited { VisitIsBelow(g, roots, k, cur, depth, t, after[t].depth); }
    forall v | v in g ensures IsJustified(g, roots, k, next, v) {
      assert IsJustified(g, roots, k, s, v);
    }
  }

  ghost predicate DepthsDrop(after: Entries, before: Entries) {
    && after.Keys == before.Keys
    && forall v :: v in before && 0 <= before[v].depth ==> 0 <= after[v].depth <= before[v].depth
  }

  /** The functions newly visited pass their depths on. */
  ghost predicate NewlyPassOn(g: Graph, roots: seq<int>, k: nat, before: set<int>, after: State) {
    forall u {:trigger PassesOn(g, roots, k, after.entries, u)} ::
      u in after.visited && u !in before ==> PassesOn(g, roots, k, after.entries, u)
  }

  lemma PassesOnStill(g: Graph, roots: seq<int>, k: nat, before: set<int>, s: State, after: State)
    requires NewlyPassOn(g, roots, k, before, s) && NewlyPassOn(g, roots, k, s.visited, after)
    requires DepthsDrop(after.entries, s.entries)
    ensures NewlyPassOn(g, roots, k, before, after)
  {
    forall u | u in after.visited && u !in before ensures PassesOn(g, roots, k, after.entries, u) {
      if u in s.visited {
        assert PassesOn(g, roots, k, s.entries, u);
        var depth :| IsVisitDepth(g, roots, k, u, depth) && PassesDepth(g, s.entries, u, depth);
        assert PassesDepth(g, after.entries, u, depth);
      }
    }
  }

  /** The next call of the function being searched is the first one not scanned. */
  lemma NextCall(g: Graph, r: int, here: seq<int>, visited: set<int>, n: nat)
    requires IsFront(g, r, here, visited) && Last(here) in g && n < |g[Last(here)]|
    requires forall i :: 0 <= i < n ==> g[Last(here)][i] in visited
    ensures var t := g[Last(here)][n]; t !in visited ==>
      IsFront(g, r, here + [t], visited + {t}) && FirstCaller(g, r, t, Last(here))
  {
    var t := g[Last(here)][n];
    if t !in visited {
      NextFront(g, r, here, visited, n);
      FrontEnds(g, r, here + [t], visited + {t});
    }
  }

  /** What a traversal of `here`'s last function, or of some of its calls, leaves behind. */
  ghost predicate Searched(g: Graph, roots: seq<int>, k: nat, path: seq<int>, before: State, after: State) {
    && before.visited <= after.visited
    && InTraversal(g, roots, k, after) && DepthsDrop(after.entries, before.entries)
    && NewlyPassOn(g, roots, k, before.visited, after) && FinishedOff(g, path, after.visited)
  }

  /** A visit: everything it visits passes its least depth on. */
  lemma {:induction false} VisitFollows(g: Graph, roots: seq<int>, k: nat, path: seq<int>, t: int, s: State)
    requires Closed(g) && k < |roots| && roots[k] in g && t in g && t in s.entries && t !in s.visited
    requires IsFront(g, roots[k], path + [t], s.visited + {t})
    requires InTraversal(g, roots, k, State(s.entries, s.visited + {t}))
    requires IsVisitDepth(g, roots, k, t, s.entries[t].depth)
    ensures var r := Visit(g, roots, t, s); Searched(g, roots, k, path, s, r) && t in r.visited
    decreases g.Keys - s.visited, 0, 0
  {
    var s1, here := s.(visited := s.visited + {t}), path + [t];
    assert t in g.Keys - s.visited && t !in g.Keys - s1.visited;
    CalleesFollow(g, roots, k, here, s.entries[t].depth, FindRoot(roots, t, s.entries), g[t], s1);
    var r := Visit(g, roots, t, s);
    assert PassesDepth(g, r.entries, t, s.entries[t].depth);
    forall u | u in r.visited && u !in s.visited ensures PassesOn(g, roots, k, r.entries, u) {
      if u != t { assert u !in s1.visited; }
    }
  }

  lemma {:induction false} CalleesFollow(
      g: Graph, roots: seq<int>, k: nat, here: seq<int>, depth: int, root: Option<int>, targets: seq<int>, s: State)
    requires Closed(g) && k < |roots| && roots[k] in g && InTraversal(g, roots, k, s)
    requires IsFront(g, roots[k], here, s.visited) && Last(here) in g && IsVisitDepth(g, roots, k, Last(here), depth)
    requires |targets| <= |g[Last(here)]| && targets == g[Last(here)][|g[Last(here)]| - |targets|..]
    requires forall i :: 0 <= i < |g[Last(here)]| - |targets| ==> g[Last(here)][i] in s.visited
    ensures var r := VisitCallees(g, roots, depth, root, targets, s);
      && Searched(g, roots, k, here, s, r)
      && (forall t :: Edge(g, Last(here), t) ==> t in r.visited)
      && (forall t :: t in targets && t in r.entries ==> 0 <= r.entries[t].depth <= depth + 1)
    decreases g.Keys - s.visited, |targets|, 1
  {
    if targets != [] {
      var n := |g[Last(here)]| - |targets|;
      assert g[Last(here)][n] == targets[0] && Edge(g, Last(here), targets[0]);
      var s1 := CallFollows(g, roots, k, here, depth, root, n, s);
      assert g.Keys - s1.visited <= g.Keys - s.visited;
      assert targets[1..] == g[Last(here)][n + 1..];
      CalleesFollow(g, roots, k, here, depth, root, targets[1..], s1);
      var r := VisitCallees(g, roots, depth, root, targets[1..], s1);
      PassesOnStill(g, roots, k, s.visited, s1, r);
    }
  }

  lemma {:induction false} CallFollows(
      g: Graph, roots: seq<int>, k: nat, here: seq<int>, depth: int, root: Option<int>, n: nat, s: State)
    returns (s1: State)
    requires Closed(g) && k < |roots| && roots[k] in g && InTraversal(g, roots, k, s)
    requires IsFront(g, roots[k], here, s.visited) && Last(here) in g && IsVisitDepth(g, roots, k, Last(here), depth)
    requires n < |g[Last(here)]| && g[Last(here)][n] in g && g[Last(here)][n] in s.entries
    requires forall i :: 0 <= i < n ==> g[Last(here)][i] in s.visited
    ensures var t := g[Last(here)][n];
      && s1 == Visit(g, roots, t, s.(entries := s.entries[t := Relax(s.entries[t], root, depth + 1)]))
      && Searched(g, roots, k, here, s, s1) && IsFront(g, roots[k], here, s1.visited)
      && t in s1.visited && 0 <= s1.entries[t].depth <= depth + 1
    decreases g.Keys - s.visited, |g[Last(here)]| - n, 0
  {
    var t := g[Last(here)][n];
    NextCall(g, roots[k], here, s.visited, n);
    assert Reaches(g, roots[k], Last(here)) by { assert Joins(g, here, roots[k], Last(here)); }
    FollowedCallIsJustified(g, roots, k, Last(here), depth, root, t, s);
    var s0 := s.(entries := s.entries[t := Relax(s.entries[t], root, depth + 1)]);
    s1 := Visit(g, roots, t, s0);
    if t in s.visited {
      assert s.visited + {t} == s.visited;
    } else {
      VisitFollows(g, roots, k, here, t, s0);
    }
    StepSearched(g, roots, k, here, t, s, s0, s1);
    FrontStays(g, roots[k], here, s.visited, s1.visited);
  }

  /** One call followed, whether or not its target was visited before. */
  lemma StepSearched(g: Graph, roots: seq<int>, k: nat, here: seq<int>, t: int, s: State, s0: State, s1: State)
    requires InTraversal(g, roots, k, s) && FinishedOff(g, here, s.visited)
    requires t in s.entries && t in s0.entries && s0.visited == s.visited
    requires s0.entries == s.entries[t := s0.entries[t]]
    requires 0 <= s0.entries[t].depth && (0 <= s.entries[t].depth ==> s0.entries[t].depth <= s.entries[t].depth)
    requires if t in s.visited then s1 == s0 && InTraversal(g, roots, k, s0) else Searched(g, roots, k, here, s0, s1)
    ensures Searched(g, roots, k, here, s, s1)
  {}

  // ----- All traversals -----

  lemma EmptyWalkOnly(g: Graph, roots: seq<int>, k: nat, r: int)
    requires r in roots && r in g
    ensures FollowedBefore(g, roots, k, r, [r], [])
  {}

  /** A root is visited at depth 0. */
  lemma RootVisitDepth(g: Graph, roots: seq<int>, k: nat, entries: Entries)
    requires k < |roots| && roots[k] in g && IsLeastMap(g, roots, k, entries)
    ensures entries[roots[k]].depth == 0 && IsVisitDepth(g, roots, k, roots[k], 0)
  {
    var r := roots[k];
    EmptyWalkOnly(g, roots, k, r);
    assert IsLeastAt(g, roots, k, entries, r);
    BeforeIsInto(g, roots, k, r, [r], []);
  }

  lemma TraversalBegins(g: Graph, roots: seq<int>, k: nat, entries: Entries)
    requires k < |roots| && roots[k] in g && IsLeastMap(g, roots, k, entries)
    ensures InTraversal(g, roots, k, State(entries, {roots[k]}))
  {
    forall v | v in g ensures IsJustified(g, roots, k, State(entries, {roots[k]}), v) {
      assert IsLeastAt(g, roots, k, entries, v);
      if entries[v].depth >= 0 { ReachedEarlier(g, roots, k, v, entries[v].depth); }
    }
  }

  /** A finished traversal has visited everything its root reaches. */
  lemma ReachedIsVisited(g: Graph, r: int, visited: set<int>, u: int)
    requires FinishedOff(g, [], visited) && r in visited && Reaches(g, r, u)
    ensures u in visited
  {
    var p :| Joins(g, p, r, u);
    TailIsVisited(g, [], visited, p, 0, |p| - 1);
  }

  /** Traversal `k` passes on the depths of all its root reaches. */
  lemma Traversed(g: Graph, roots: seq<int>, k: nat, before: Entries)
    requires Closed(g) && k < |roots| && roots[k] in g && IsLeastMap(g, roots, k, before)
    ensures var r := Visit(g, roots, roots[k], State(before, {}));
      InTraversal(g, roots, k, r) && forall u :: Reaches(g, roots[k], u) ==> PassesOn(g, roots, k, r.entries, u)
  {
    var root := roots[k];
    RootIsFront(g, root);
    RootVisitDepth(g, roots, k, before);
    TraversalBegins(g, roots, k, before);
    assert [] + [root] == [root] && {} + {root} == {root};
    VisitFollows(g, roots, k, [], root, State(before, {}));
    var r := Visit(g, roots, root, State(before, {}));
    forall u | Reaches(g, root, u) ensures PassesOn(g, roots, k, r.entries, u) {
      ReachedIsVisited(g, root, r.visited, u);
    }
  }

  /** A walk followed by the end of traversal `k` gives its end no greater depth. */
  lemma WalkIsCounted(g: Graph, roots: seq<int>, k: nat, r: State, v: int, p: seq<int>, ks: seq<int>)
    requires k < |roots| && InTraversal(g, roots, k, r) && v in g && FollowedBefore(g, roots, k + 1, v, p, ks)
    requires forall u :: Reaches(g, roots[k], u) ==> PassesOn(g, roots, k, r.entries, u)
    ensures 0 <= r.entries[v].depth <= |ks|
  {
    if ks != [] && Last(ks) == k {
      FollowedBack(g, roots, k, p, ks);
      var u := p[|p| - 2];
      assert PassesOn(g, roots, k, r.entries, u);
      var depth :| IsVisitDepth(g, roots, k, u, depth) && PassesDepth(g, r.entries, u, depth);
    } else {
      assert IsJustified(g, roots, k, r, v) && FollowedBefore(g, roots, k, v, p, ks);
    }
  }

  lemma TraversalEnds(g: Graph, roots: seq<int>, k: nat, r: State)
    requires k < |roots| && InTraversal(g, roots, k, r)
    requires forall u :: Reaches(g, roots[k], u) ==> PassesOn(g, roots, k, r.entries, u)
    ensures IsLeastMap(g, roots, k + 1, r.entries)
  {
    var next := k + 1;
    forall v | v in g ensures IsLeastAt(g, roots, next, r.entries, v) {
      assert IsJustified(g, roots, k, r, v);
      if r.entries[v].depth >= 0 && v !in r.visited { ReachedEarlier(g, roots, k, v, r.entries[v].depth); }
      forall p, ks | FollowedBefore(g, roots, next, v, p, ks) ensures 0 <= r.entries[v].depth <= |ks| {
        WalkIsCounted(g, roots, k, r, v, p, ks);
      }
    }
  }

  lemma SkippedTraversal(g: Graph, roots: seq<int>, k: nat, entries: Entries)
    requires k < |roots| && roots[k] !in g && IsLeastMap(g, roots, k, entries)
    ensures IsLeastMap(g, roots, k + 1, entries)
  {
    var next := k + 1;
    forall v | v in g ensures IsLeastAt(g, roots, next, entries, v) {
      assert IsLeastAt(g, roots, k, entries, v);
      if entries[v].depth >= 0 { ReachedEarlier(g, roots, k, v, entries[v].depth); }
      forall p, ks | FollowedBefore(g, roots, next, v, p, ks) ensures 0 <= entries[v].depth <= |ks| {
        if ks != [] { assert StepFollowed(g, roots, p, ks, |ks| - 1); }
        assert FollowedBefore(g, roots, k, v, p, ks);
      }
    }
  }

  lemma InitialIsLeast(g: Graph, roots: seq<int>)
    ensures IsLeastMap(g, roots, 0, InitialEntries(g, roots))
  {
    var entries := InitialEntries(g, roots);
    forall v | v in g ensures IsLeastAt(g, roots, 0, entries, v) {
      if v in roots { EmptyWalkOnly(g, roots, 0, v); }
      forall p, ks | FollowedBefore(g, roots, 0, v, p, ks) ensures 0 <= entries[v].depth <= |ks| {
        if ks != [] { assert StepFollowed(g, roots, p, ks, |ks| - 1); }
      }
    }
  }

  /** After any number of roots every depth is the length of the shortest walk followed so far. */
  lemma {:induction false} DepthsAreLeast(g: Graph, roots: seq<int>, k: nat)
    requires Closed(g) && k <= |roots|
    ensures IsLeastMap(g, roots, k, AfterRoots(g, roots, k))
  {
    if k == 0 {
      InitialIsLeast(g, roots);
    } else {
      DepthsAreLeast(g, roots, k - 1);
      var before, r := AfterRoots(g, roots, k - 1), roots[k - 1];
      if r in g {
        Traversed(g, roots, k - 1, before);
        TraversalEnds(g, roots, k - 1, Visit(g, roots, r, State(before, {})));
      } else {
        VisitOutside(g, roots, r, before);
        SkippedTraversal(g, roots, k - 1, before);
      }
    }
  }

  lemma VisitOutside(g: Graph, roots: seq<int>, r: int, before: Entries)
    requires r !in g
    ensures Visit(g, roots, r, State(before, {})).entries == before
  {}

  /** Whatever the root of traversal `k` reaches has a depth at which the traversal visits it. */
  lemma HasVisitDepth(g: Graph, roots: seq<int>, k: nat, u: int) returns (depth: int)
    requires Closed(g) && k < |roots| && roots[k] in g && Reaches(g, roots[k], u)
    ensures IsVisitDepth(g, roots, k, u, depth)
  {
    DepthsAreLeast(g, roots, k);
    var before := AfterRoots(g, roots, k);
    Traversed(g, roots, k, before);
    var r := Visit(g, roots, roots[k], State(before, {}));
    assert PassesOn(g, roots, k, r.entries, u);
    depth :| IsVisitDepth(g, roots, k, u, depth) && PassesDepth(g, r.entries, u, depth);
  }

  // ----- The depths handed out -----

  ghost predicate FollowedWalk(g: Graph, roots: seq<int>, v: int, p: seq<int>) {
    exists ks :: IsFollowed(g, roots, p, ks) && Last(p) == v
  }

  /** A followed walk is followed before the end of all traversals. */
  lemma FollowedByTheEnd(g: Graph, roots: seq<int>, v: int, p: seq<int>) returns (ks: seq<int>)
    requires FollowedWalk(g, roots, v, p)
    ensures FollowedBefore(g, roots, |roots|, v, p, ks)
  {
    ks :| IsFollowed(g, roots, p, ks) && Last(p) == v;
    if ks != [] { assert StepFollowed(g, roots, p, ks, |ks| - 1); }
  }

  /** The recorded depth is the length of the shortest walk the traversals follow, and -1 when they follow none. */
  lemma DepthIsShortestFollowed(g: Graph, roots: seq<int>, v: int)
    requires Closed(g) && v in g
    ensures var depth := AfterRoots(g, roots, |roots|)[v].depth;
      && depth >= -1 && (forall p :: FollowedWalk(g, roots, v, p) ==> 0 <= depth && depth + 1 <= |p|)
      && (depth >= 0 ==> exists p :: FollowedWalk(g, roots, v, p) && |p| == depth + 1)
  {
    DepthsAreLeast(g, roots, |roots|);
    var entries := AfterRoots(g, roots, |roots|);
    assert IsLeastAt(g, roots, |roots|, entries, v);
    forall p | FollowedWalk(g, roots, v, p) ensures 0 <= entries[v].depth && entries[v].depth + 1 <= |p| {
      var ks := FollowedByTheEnd(g, roots, v, p);
    }
    if entries[v].depth >= 0 {
      var p, ks :| FollowedBefore(g, roots, |roots|, v, p, ks) && |ks| == entries[v].depth;
      assert FollowedWalk(g, roots, v, p);
    }
  }

  /** The depth recorded for a reachable function is its distance exactly when some shortest walk to it is followed. */
  lemma DepthIsDistanceIff(g: Graph, roots: seq<int>, v: int)
    requires Closed(g) && v in ReachableFrom(g, Elements(roots))
    ensures IsShortest(g, roots, v, AfterRoots(g, roots, |roots|)[v].depth) <==>
      exists p :: FollowedWalk(g, roots, v, p) && IsShortest(g, roots, v, |p| - 1)
  {
    FinalEntries(g, roots);
    DepthIsShortestFollowed(g, roots, v);
    var entries := AfterRoots(g, roots, |roots|);
    assert EntrySound(g, roots, entries, v);
    var q :| FollowedWalk(g, roots, v, q) && |q| == entries[v].depth + 1;
    if exists p :: FollowedWalk(g, roots, v, p) && IsShortest(g, roots, v, |p| - 1) {
      var p :| FollowedWalk(g, roots, v, p) && IsShortest(g, roots, v, |p| - 1);
    }
  }
}
