/** Which roots the reachability traversal records for a function, in terms of the graph and the roots alone. */
module RecordedRoots {
  import opened Collections
  import opened Digraphs
  import opened FirstChains
  import opened Reachability
  import opened SearchDepths

  // ----- The root a function passes on -----

  /** Root number `k` reaches `u`, and no root before it does. */
  ghost predicate FirstReaching(g: Graph, roots: seq<int>, k: int, u: int) {
    && 0 <= k < |roots| && roots[k] in g && Reaches(g, roots[k], u)
    && !ReachedEarlierThan(g, roots, k, u)
  }

  ghost predicate ReachedEarlierThan(g: Graph, roots: seq<int>, k: int, u: int) {
    exists j :: 0 <= j < k && j < |roots| && roots[j] in g && Reaches(g, roots[j], u)
  }

  /** `r` is the root nearest to the end of the chain. */
  ghost predicate IsLastRoot(roots: seq<int>, p: seq<int>, r: int) {
    exists i :: LastRootAt(roots, p, r, i)
  }

  ghost predicate LastRootAt(roots: seq<int>, p: seq<int>, r: int, i: int) {
    0 <= i < |p| && p[i] == r && r in roots && forall j :: i < j < |p| ==> p[j] !in roots
  }

  /**
   * The root a function hands to those it calls: itself if it is one, else the last root on the first
   * chain from the first root reaching it.
   */
  ghost predicate IsOwner(g: Graph, roots: seq<int>, u: int, r: int) {
    if u in roots then r == u
    else exists k, p :: OwnerChain(g, roots, u, k, p) && IsLastRoot(roots, p, r)
  }

  ghost predicate OwnerChain(g: Graph, roots: seq<int>, u: int, k: int, p: seq<int>) {
    FirstReaching(g, roots, k, u) && IsFirstChain(g, roots[k], u, p)
  }

  lemma OneLastRoot(roots: seq<int>, p: seq<int>, r: int, s: int)
    requires IsLastRoot(roots, p, r) && IsLastRoot(roots, p, s)
    ensures r == s
  {
    var i :| LastRootAt(roots, p, r, i);
    var j :| LastRootAt(roots, p, s, j);
    assert i == j;
  }

  lemma OneOwnerChain(g: Graph, roots: seq<int>, u: int, j: int, p: seq<int>, k: int, q: seq<int>)
    requires OwnerChain(g, roots, u, j, p) && OwnerChain(g, roots, u, k, q)
    ensures j == k && p == q
  {
    FirstChainIsUnique(g, roots[k], u, p, q);
  }

  lemma OwnerIsUnique(g: Graph, roots: seq<int>, u: int, r: int, s: int)
    requires IsOwner(g, roots, u, r) && IsOwner(g, roots, u, s)
    ensures r == s
  {
    if u !in roots {
      var j, p :| OwnerChain(g, roots, u, j, p) && IsLastRoot(roots, p, r);
      var k, q :| OwnerChain(g, roots, u, k, q) && IsLastRoot(roots, q, s);
      OneOwnerChain(g, roots, u, j, p, k, q);
      OneLastRoot(roots, p, r, s);
    }
  }

  /** A chain first followed from the first root that reaches `cur` is its owner's, if it is the first root for `t`. */
  lemma OwnerChainIs(g: Graph, roots: seq<int>, k: int, here: seq<int>, cur: int, t: int, j: int, p: seq<int>)
    requires 0 <= k < |roots| && roots[k] in g && IsFirstChain(g, roots[k], cur, here) && Edge(g, cur, t)
    requires !ReachedEarlierThan(g, roots, k, t) && OwnerChain(g, roots, cur, j, p)
    ensures p == here
  {
    assert Joins(g, here, roots[k], cur);
    ReachesThenSteps(g, roots[j], cur, t);
    FirstChainIsUnique(g, roots[k], cur, p, here);
  }

  /** A function first met from `cur` has the same owner. */
  lemma OwnerIsPassedOn(g: Graph, roots: seq<int>, k: nat, here: seq<int>, t: int, r: int)
    requires k < |roots| && roots[k] in g && here != [] && IsFirstChain(g, roots[k], Last(here), here)
    requires IsFirstChain(g, roots[k], t, here + [t]) && t !in roots && !ReachedEarlierThan(g, roots, k, t)
    requires IsOwner(g, roots, Last(here), r) && Edge(g, Last(here), t)
    ensures IsOwner(g, roots, t, r)
  {
    var cur, next := Last(here), here + [t];
    assert Joins(g, next, roots[k], t);
    assert OwnerChain(g, roots, t, k, next);
    if cur in roots {
      assert LastRootAt(roots, next, cur, |here| - 1);
    } else {
      var j, p :| OwnerChain(g, roots, cur, j, p) && IsLastRoot(roots, p, r);
      OwnerChainIs(g, roots, k, here, cur, t, j, p);
      LastRootKept(roots, here, t, r);
    }
  }

  lemma LastRootKept(roots: seq<int>, p: seq<int>, t: int, r: int)
    requires IsLastRoot(roots, p, r) && t !in roots
    ensures IsLastRoot(roots, p + [t], r)
  {
    var i :| LastRootAt(roots, p, r, i);
    assert LastRootAt(roots, p + [t], r, i);
  }

  // ----- What a traversal records -----

  /** Some reachable caller of `v` hands on `r`. */
  ghost predicate IsHandedTo(g: Graph, roots: seq<int>, v: int, r: int) {
    exists u :: Edge(g, u, v) && u in ReachableFrom(g, Elements(roots)) && IsOwner(g, roots, u, r)
  }

  predicate HasRoot(roots: seq<int>, entries: Entries, v: int)
    requires v in entries
  {
    v in roots || entries[v].reachedFrom != []
  }

  /**
   * The roots recorded for `v` are handed to it, the first of them makes its owner, and earlier
   * traversals left one.
   */
  ghost predicate RecordsOwners(g: Graph, roots: seq<int>, k: nat, entries: Entries, v: int)
    requires v in entries
  {
    && (HasRoot(roots, entries, v) ==> IsOwner(g, roots, v, FindRoot(roots, v, entries).value))
    && (forall r :: r in entries[v].reachedFrom ==> IsHandedTo(g, roots, v, r))
    && (ReachedEarlierThan(g, roots, k, v) ==> HasRoot(roots, entries, v))
  }

  ghost predicate IsOwnerMap(g: Graph, roots: seq<int>, k: nat, entries: Entries) {
    entries.Keys == g.Keys
    && forall v {:trigger RecordsOwners(g, roots, k, entries, v)} :: v in g ==> RecordsOwners(g, roots, k, entries, v)
  }

  ghost predicate RootsGrow(after: Entries, before: Entries) {
    after.Keys == before.Keys && forall v :: v in before ==> before[v].reachedFrom <= after[v].reachedFrom
  }

  /** The function has handed its owner to everything it calls. */
  ghost predicate HandsOn(g: Graph, roots: seq<int>, entries: Entries, u: int) {
    forall r, t :: IsOwner(g, roots, u, r) && Edge(g, u, t) && t in entries ==> r in entries[t].reachedFrom
  }

  ghost predicate Handed(g: Graph, roots: seq<int>, k: nat, path: seq<int>, before: State, after: State) {
    && before.visited <= after.visited && FinishedOff(g, path, after.visited)
    && IsOwnerMap(g, roots, k, after.entries) && RootsGrow(after.entries, before.entries)
    && (forall u :: u in after.visited && u in after.entries ==> HasRoot(roots, after.entries, u))
    && (forall u {:trigger HandsOn(g, roots, after.entries, u)} ::
          u in after.visited && u !in before.visited ==> HandsOn(g, roots, after.entries, u))
  }

  lemma HandsOnStill(g: Graph, roots: seq<int>, before: Entries, after: Entries, u: int)
    requires HandsOn(g, roots, before, u) && RootsGrow(after, before)
    ensures HandsOn(g, roots, after, u)
  {
    forall r, t | IsOwner(g, roots, u, r) && Edge(g, u, t) && t in after ensures r in after[t].reachedFrom {
      assert r in before[t].reachedFrom && before[t].reachedFrom <= after[t].reachedFrom;
    }
  }

  /** Following one call keeps the map, and hands the caller's owner on. */
  lemma HandedOne(g: Graph, roots: seq<int>, k: nat, here: seq<int>, depth: int, r: int, t: int, entries: Entries)
    requires k < |roots| && roots[k] in g && IsOwnerMap(g, roots, k, entries) && t in entries
    requires here != [] && IsFirstChain(g, roots[k], Last(here), here) && Edge(g, Last(here), t)
    requires IsOwner(g, roots, Last(here), r) && Last(here) in g
    requires !HasRoot(roots, entries, t) ==> IsFirstChain(g, roots[k], t, here + [t])
    ensures var after := entries[t := Relax(entries[t], Some(r), depth)];
      && IsOwnerMap(g, roots, k, after) && RootsGrow(after, entries)
      && r in after[t].reachedFrom && HasRoot(roots, after, t)
  {
    var after := entries[t := Relax(entries[t], Some(r), depth)];
    assert RecordsOwners(g, roots, k, entries, t);
    assert Joins(g, here, roots[k], Last(here)) && roots[k] in Elements(roots);
    assert Last(here) in ReachableFrom(g, Elements(roots));
    assert IsHandedTo(g, roots, t, r);
    if !HasRoot(roots, entries, t) { OwnerIsPassedOn(g, roots, k, here, t, r); }
    forall v | v in g ensures RecordsOwners(g, roots, k, after, v) {
      assert RecordsOwners(g, roots, k, entries, v);
    }
  }

  ghost predicate VisitedHaveRoots(roots: seq<int>, s: State) {
    forall u :: u in s.visited && u in s.entries ==> HasRoot(roots, s.entries, u)
  }

  lemma HandedTwice(g: Graph, roots: seq<int>, k: nat, path: seq<int>, a: State, b: State, c: State)
    requires Handed(g, roots, k, path, a, b) && Handed(g, roots, k, path, b, c)
    ensures Handed(g, roots, k, path, a, c)
  {
    forall u | u in c.visited && u !in a.visited ensures HandsOn(g, roots, c.entries, u) {
      if u in b.visited { HandsOnStill(g, roots, b.entries, c.entries, u); }
    }
  }

  /** A visit: everything it visits hands its owner on. */
  lemma {:induction false} VisitHands(g: Graph, roots: seq<int>, k: nat, path: seq<int>, t: int, s: State)
    requires Closed(g) && k < |roots| && roots[k] in g && t in g && t in s.entries && t !in s.visited
    requires IsFront(g, roots[k], path + [t], s.visited + {t}) && IsOwnerMap(g, roots, k, s.entries)
    requires VisitedHaveRoots(roots, s) && HasRoot(roots, s.entries, t)
    ensures var r := Visit(g, roots, t, s); Handed(g, roots, k, path, s, r) && t in r.visited
    decreases g.Keys - s.visited, 0, 0
  {
    var s1, here := s.(visited := s.visited + {t}), path + [t];
    assert t in g.Keys - s.visited && t !in g.Keys - s1.visited;
    assert RecordsOwners(g, roots, k, s.entries, t);
    var owner := FindRoot(roots, t, s.entries).value;
    CalleesHand(g, roots, k, here, s.entries[t].depth, owner, g[t], s1);
    var r := Visit(g, roots, t, s);
    forall o, v | IsOwner(g, roots, t, o) && Edge(g, t, v) && v in r.entries ensures o in r.entries[v].reachedFrom {
      OwnerIsUnique(g, roots, t, o, owner);
    }
    forall u | u in r.visited && u !in s.visited ensures HandsOn(g, roots, r.entries, u) {
      if u != t { assert u !in s1.visited; }
    }
  }

  lemma {:induction false} CalleesHand(
      g: Graph, roots: seq<int>, k: nat, here: seq<int>, depth: int, owner: int, targets: seq<int>, s: State)
    requires Closed(g) && k < |roots| && roots[k] in g && IsOwnerMap(g, roots, k, s.entries)
    requires IsFront(g, roots[k], here, s.visited) && Last(here) in g && IsOwner(g, roots, Last(here), owner)
    requires VisitedHaveRoots(roots, s)
    requires |targets| <= |g[Last(here)]| && targets == g[Last(here)][|g[Last(here)]| - |targets|..]
    requires forall i :: 0 <= i < |g[Last(here)]| - |targets| ==> g[Last(here)][i] in s.visited
    ensures var r := VisitCallees(g, roots, depth, Some(owner), targets, s);
      && Handed(g, roots, k, here, s, r)
      && (forall t :: Edge(g, Last(here), t) ==> t in r.visited)
      && (forall t :: t in targets && t in r.entries ==> owner in r.entries[t].reachedFrom)
    decreases g.Keys - s.visited, |targets|, 1
  {
    if targets != [] {
      var n := |g[Last(here)]| - |targets|;
      assert g[Last(here)][n] == targets[0] && Edge(g, Last(here), targets[0]);
      var s1 := CallHands(g, roots, k, here, depth, owner, n, s);
      assert g.Keys - s1.visited <= g.Keys - s.visited;
      assert targets[1..] == g[Last(here)][n + 1..] && |targets[1..]| == |g[Last(here)]| - (n + 1);
      forall i | 0 <= i < n + 1 ensures g[Last(here)][i] in s1.visited {
        if i < n { assert g[Last(here)][i] in s.visited; }
      }
      CalleesHand(g, roots, k, here, depth, owner, targets[1..], s1);
      var r := VisitCallees(g, roots, depth, Some(owner), targets[1..], s1);
      HandedTwice(g, roots, k, here, s, s1, r);
      HandedToAll(owner, targets, s1.entries, r.entries);
    }
  }

  lemma HandedToAll(owner: int, targets: seq<int>, first: Entries, last: Entries)
    requires targets != [] && RootsGrow(last, first)
    requires targets[0] in first ==> owner in first[targets[0]].reachedFrom
    requires forall t :: t in targets[1..] && t in last ==> owner in last[t].reachedFrom
    ensures forall t :: t in targets && t in last ==> owner in last[t].reachedFrom
  {
    forall t | t in targets && t in last ensures owner in last[t].reachedFrom {
      if t == targets[0] { assert first[t].reachedFrom <= last[t].reachedFrom; } else { assert t in targets[1..]; }
    }
  }

  lemma {:induction false} CallHands(
      g: Graph, roots: seq<int>, k: nat, here: seq<int>, depth: int, owner: int, n: nat, s: State)
    returns (s1: State)
    requires Closed(g) && k < |roots| && roots[k] in g && IsOwnerMap(g, roots, k, s.entries)
    requires IsFront(g, roots[k], here, s.visited) && Last(here) in g && IsOwner(g, roots, Last(here), owner)
    requires VisitedHaveRoots(roots, s)
    requires n < |g[Last(here)]| && g[Last(here)][n] in g && g[Last(here)][n] in s.entries
    requires forall i :: 0 <= i < n ==> g[Last(here)][i] in s.visited
    ensures var t := g[Last(here)][n];
      && s1 == Visit(g, roots, t, s.(entries := s.entries[t := Relax(s.entries[t], Some(owner), depth + 1)]))
      && Handed(g, roots, k, here, s, s1) && IsFront(g, roots[k], here, s1.visited)
      && t in s1.visited && owner in s1.entries[t].reachedFrom
    decreases g.Keys - s.visited, |g[Last(here)]| - n, 0
  {
    var t := g[Last(here)][n];
    assert Edge(g, Last(here), t);
    FrontEnds(g, roots[k], here, s.visited);
    NextCall(g, roots[k], here, s.visited, n);
    if t !in s.visited { FrontEnds(g, roots[k], here + [t], s.visited + {t}); }
    HandedOne(g, roots, k, here, depth + 1, owner, t, s.entries);
    var s0 := s.(entries := s.entries[t := Relax(s.entries[t], Some(owner), depth + 1)]);
    assert Handed(g, roots, k, here, s, s0);
    s1 := Visit(g, roots, t, s0);
    if t !in s.visited {
      VisitHands(g, roots, k, here, t, s0);
      HandedTwice(g, roots, k, here, s, s0, s1);
    }
    FrontStays(g, roots[k], here, s.visited, s1.visited);
  }

  // ----- The roots handed out -----

  /** Everything the root of traversal `k` reaches hands its owner on. */
  lemma TraversalHands(g: Graph, roots: seq<int>, k: nat, before: Entries)
    requires Closed(g) && k < |roots| && roots[k] in g && IsOwnerMap(g, roots, k, before)
    ensures var after := Visit(g, roots, roots[k], State(before, {})).entries;
      && IsOwnerMap(g, roots, k + 1, after) && RootsGrow(after, before)
      && forall u :: Reaches(g, roots[k], u) ==> HandsOn(g, roots, after, u)
  {
    var root := roots[k];
    RootIsFront(g, root);
    assert [] + [root] == [root] && {} + {root} == {root};
    VisitHands(g, roots, k, [], root, State(before, {}));
    var r := Visit(g, roots, root, State(before, {}));
    forall u | Reaches(g, root, u) ensures u in r.visited {
      ReachedIsVisited(g, root, r.visited, u);
    }
    forall v | v in g ensures RecordsOwners(g, roots, k + 1, r.entries, v) {
      assert RecordsOwners(g, roots, k, r.entries, v);
      if ReachedEarlierThan(g, roots, k + 1, v) && !ReachedEarlierThan(g, roots, k, v) {
        assert Reaches(g, root, v);
      }
    }
  }

  lemma InitialOwners(g: Graph, roots: seq<int>)
    ensures IsOwnerMap(g, roots, 0, InitialEntries(g, roots))
  {
    var entries := InitialEntries(g, roots);
    forall v | v in g ensures RecordsOwners(g, roots, 0, entries, v) {}
  }

  /**
   * After any number of roots, the recorded ones have been handed down, and everything reached so far
   * hands its owner on.
   */
  lemma {:induction false} OwnersAfterRoots(g: Graph, roots: seq<int>, k: nat)
    requires Closed(g) && k <= |roots|
    ensures IsOwnerMap(g, roots, k, AfterRoots(g, roots, k))
    ensures forall u :: ReachedEarlierThan(g, roots, k, u) ==> HandsOn(g, roots, AfterRoots(g, roots, k), u)
  {
    if k == 0 {
      InitialOwners(g, roots);
    } else {
      OwnersAfterRoots(g, roots, k - 1);
      var before, after, r := AfterRoots(g, roots, k - 1), AfterRoots(g, roots, k), roots[k - 1];
      if r in g {
        TraversalHands(g, roots, k - 1, before);
      } else {
        VisitOutside(g, roots, r, before);
        forall v | v in g ensures RecordsOwners(g, roots, k, after, v) {
          assert RecordsOwners(g, roots, k - 1, before, v);
        }
      }
      forall u | ReachedEarlierThan(g, roots, k, u) ensures HandsOn(g, roots, after, u) {
        if ReachedEarlierThan(g, roots, k - 1, u) { HandsOnStill(g, roots, before, after, u); }
      }
    }
  }

  /** The recorded roots are exactly those handed on by the reachable callers. */
  lemma RecordedIffHanded(g: Graph, roots: seq<int>, v: int, r: int)
    requires Closed(g) && v in g
    ensures r in AfterRoots(g, roots, |roots|)[v].reachedFrom <==> IsHandedTo(g, roots, v, r)
  {
    OwnersAfterRoots(g, roots, |roots|);
    var entries := AfterRoots(g, roots, |roots|);
    assert RecordsOwners(g, roots, |roots|, entries, v);
    if IsHandedTo(g, roots, v, r) {
      var u :| Edge(g, u, v) && u in ReachableFrom(g, Elements(roots)) && IsOwner(g, roots, u, r);
      ReachableIsReached(g, roots, u);
      assert HandsOn(g, roots, entries, u);
    }
  }

  lemma ReachableIsReached(g: Graph, roots: seq<int>, u: int)
    requires u in ReachableFrom(g, Elements(roots))
    ensures ReachedEarlierThan(g, roots, |roots|, u)
  {
    var r :| r in Elements(roots) && r in g && Reaches(g, r, u);
    var j :| 0 <= j < |roots| && roots[j] == r;
  }

  /** The first of the recorded roots, or the function itself if it is a root, is its owner. */
  lemma FoundRootIsOwner(g: Graph, roots: seq<int>, u: int)
    requires Closed(g) && u in ReachableFrom(g, Elements(roots))
    ensures var entries := AfterRoots(g, roots, |roots|);
      FindRoot(roots, u, entries).Some? && IsOwner(g, roots, u, FindRoot(roots, u, entries).value)
  {
    OwnersAfterRoots(g, roots, |roots|);
    ReachableIsReached(g, roots, u);
    assert RecordsOwners(g, roots, |roots|, AfterRoots(g, roots, |roots|), u);
  }

  /** Every root that reaches `v` by a call is recorded exactly when each of them owns some reachable caller of `v`. */
  lemma RecordsAllRootsIff(g: Graph, roots: seq<int>, v: int)
    requires Closed(g) && v in g
    ensures (forall r :: r in roots && r in g && ReachesBySteps(g, r, v) ==>
               r in AfterRoots(g, roots, |roots|)[v].reachedFrom) <==>
      (forall r :: r in roots && r in g && ReachesBySteps(g, r, v) ==> IsHandedTo(g, roots, v, r))
  {
    forall r ensures r in AfterRoots(g, roots, |roots|)[v].reachedFrom <==> IsHandedTo(g, roots, v, r) {
      RecordedIffHanded(g, roots, v, r);
    }
  }

  lemma HandedIsReachable(g: Graph, roots: seq<int>, v: int, r: int)
    requires Closed(g) && IsHandedTo(g, roots, v, r)
    ensures v in ReachableFrom(g, Elements(roots))
  {
    var u :| Edge(g, u, v) && u in ReachableFrom(g, Elements(roots)) && IsOwner(g, roots, u, r);
    var q :| q in Elements(roots) && q in g && Reaches(g, q, u);
    var p :| Joins(g, p, q, u);
    WalkStep(g, p, v);
    assert Reaches(g, q, v);
  }

  /** Two members make a list of several, and a list of several without repetition has two. */
  lemma SeveralIff(xs: seq<int>)
    requires NoDuplicates(xs)
    ensures |xs| > 1 <==> exists r, s :: r != s && r in xs && s in xs
  {
    if |xs| > 1 { assert xs[0] in xs && xs[1] in xs; }
  }

  lemma SortedEntryHolds(e: Entry, r: int)
    ensures r in SortedEntry(e).reachedFrom <==> r in e.reachedFrom
  {
    SortedEntryKeeps(e);
    assert r in SortedEntry(e).reachedFrom <==> r in multiset(SortedEntry(e).reachedFrom);
    assert r in e.reachedFrom <==> r in multiset(e.reachedFrom);
  }

  /**
   * What the report of a run says of functions reached from several roots: there is a row exactly when
   * two different roots are handed to the function, and it lists those that are.
   */
  lemma SharedRowsAreHanded(g: Graph, roots: seq<int>, entries: Entries, result: Result, v: int)
    requires Closed(g) && entries == SortedEntries(AfterRoots(g, roots, |roots|))
    requires IsReachabilityMap(g, roots, entries) && Reports(result, entries)
    ensures (exists row :: row in result.reachableFromMultipleRoots && row.functionIndex == v) <==>
      v in g && exists r, s :: r != s && IsHandedTo(g, roots, v, r) && IsHandedTo(g, roots, v, s)
    ensures forall row, r :: row in result.reachableFromMultipleRoots && row.functionIndex == v ==>
      (r in row.roots <==> IsHandedTo(g, roots, v, r))
  {
    if v in g {
      var e := entries[v];
      assert EntrySound(g, roots, entries, v);
      forall r ensures r in e.reachedFrom <==> IsHandedTo(g, roots, v, r) {
        SortedEntryHolds(AfterRoots(g, roots, |roots|)[v], r);
        RecordedIffHanded(g, roots, v, r);
      }
      SeveralIff(e.reachedFrom);
      forall r | r in e.reachedFrom ensures e.isReachable { HandedIsReachable(g, roots, v, r); }
      if |e.reachedFrom| > 1 {
        assert e.reachedFrom[0] in e.reachedFrom;
        assert IsShared(entries, SharedFunction(v, e.reachedFrom));
      }
    }
    forall row | row in result.reachableFromMultipleRoots && row.functionIndex == v
      ensures v in g && row.roots == entries[v].reachedFrom && |entries[v].reachedFrom| > 1
    {
      assert IsShared(entries, row);
    }
  }

  /** With only one root, the record is complete: the root is listed exactly where it reaches by a call. */
  lemma OneRootIsComplete(g: Graph, roots: seq<int>, r: int, v: int)
    requires Closed(g) && v in g && r in g && Elements(roots) == {r}
    ensures r in AfterRoots(g, roots, |roots|)[v].reachedFrom <==> ReachesBySteps(g, r, v)
  {
    assert r in Elements(roots) && forall s :: s in roots ==> s in Elements(roots);
    FinalEntries(g, roots);
    assert EntrySound(g, roots, AfterRoots(g, roots, |roots|), v);
    if ReachesBySteps(g, r, v) {
      var p :| Joins(g, p, r, v) && |p| > 1;
      var n := |p| - 1;
      WalkSlice(g, p, 0, n);
      var u := p[n - 1];
      assert Joins(g, p[0..n], r, u) && Edge(g, u, p[n]);
      assert u in ReachableFrom(g, Elements(roots));
      FoundRootIsOwner(g, roots, u);
      OwnerIsRoot(g, roots, u, FindRoot(roots, u, AfterRoots(g, roots, |roots|)).value);
      assert IsHandedTo(g, roots, v, r);
      RecordedIffHanded(g, roots, v, r);
    }
  }

  lemma OwnerIsRoot(g: Graph, roots: seq<int>, u: int, r: int)
    requires IsOwner(g, roots, u, r)
    ensures r in roots
  {
    if u !in roots {
      var k, p :| OwnerChain(g, roots, u, k, p) && IsLastRoot(roots, p, r);
      var i :| LastRootAt(roots, p, r, i);
    }
  }

  // ----- A root that is missing -----

  /** 0 and 1 both call 2, which calls 3. */
  const SHARED_CALLEE: Graph := map[0 := [2], 1 := [2], 2 := [3], 3 := []]

  lemma SharedCalleeEdge(u: int, v: int)
    ensures Edge(SHARED_CALLEE, u, v) <==> (u == 0 && v == 2) || (u == 1 && v == 2) || (u == 2 && v == 3)
  {}

  lemma ZeroNeverMeetsOne(p: seq<int>)
    requires IsWalk(SHARED_CALLEE, p) && p[0] == 0
    ensures 1 !in p
  {
    forall i | 0 < i < |p| ensures p[i] != 1 { SharedCalleeEdge(p[i - 1], p[i]); }
  }

  /** Both roots reach 3, but 2 hands on root 0 only, so root 1 is not recorded for 3. */
  lemma RootMayBeMissing()
    ensures Closed(SHARED_CALLEE) && ReachesBySteps(SHARED_CALLEE, 1, 3)
    ensures 1 !in AfterRoots(SHARED_CALLEE, [0, 1], 2)[3].reachedFrom
  {
    var g, roots := SHARED_CALLEE, [0, 1];
    forall u, v | Edge(g, u, v) ensures v in g { SharedCalleeEdge(u, v); }
    assert Joins(g, [1, 2, 3], 1, 3);
    assert Joins(g, [0, 2], 0, 2);
    assert Reaches(g, roots[0], 2) && !ReachedEarlierThan(g, roots, 0, 2);
    forall u | Edge(g, u, 3) ensures !IsOwner(g, roots, u, 1) {
      SharedCalleeEdge(u, 3);
      TwoIsNotOwnedByOne();
    }
    assert !IsHandedTo(g, roots, 3, 1);
    RecordedIffHanded(g, roots, 3, 1);
  }

  lemma TwoIsNotOwnedByOne()
    ensures !IsOwner(SHARED_CALLEE, [0, 1], 2, 1)
  {
    var g, roots := SHARED_CALLEE, [0, 1];
    assert Joins(g, [0, 2], 0, 2) && roots[0] == 0;
    forall k, p | OwnerChain(g, roots, 2, k, p) ensures !IsLastRoot(roots, p, 1) {
      assert k == 0 by { assert k != 0 ==> ReachedEarlierThan(g, roots, k, 2); }
      ZeroNeverMeetsOne(p);
    }
  }
}
