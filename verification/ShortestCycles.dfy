/** `shortestCycleInScc`: breadth-first searches that stop looking where no shorter cycle can be found. */
module ShortestCycles {
  import opened Collections
  import opened Digraphs
  import opened CycleLists

  /** A closed walk among the members with `n` calls. */
  ghost predicate IsClosedWalk(g: Graph, members: set<int>, p: seq<int>, s: int, n: int) {
    JoinsInside(g, members, p, s, s) && |p| - 1 == n >= 1
  }

  ghost predicate HasClosedWalk(g: Graph, members: set<int>, s: int, n: int) {
    exists p :: IsClosedWalk(g, members, p, s, n)
  }

  /** No closed walk from `s` is shorter. */
  ghost predicate BoundsFrom(g: Graph, members: set<int>, s: int, shortest: Option<int>) {
    forall n :: HasClosedWalk(g, members, s, n) ==> !IsBelow(n, shortest)
  }

  /** `n` is better than the best found so far. */
  predicate IsBelow(n: int, shortest: Option<int>) { shortest.None? || n < shortest.value }

  ghost predicate IsAttained(g: Graph, members: set<int>, shortest: Option<int>) {
    shortest.Some? ==> shortest.value >= 1 && exists s :: HasClosedWalk(g, members, s, shortest.value)
  }

  type Distances = map<int, int>

  ghost predicate HasWalk(g: Graph, members: set<int>, s: int, v: int, n: int) {
    exists p :: JoinsInside(g, members, p, s, v) && |p| - 1 == n
  }

  /** All that `u` calls is accounted for. */
  ghost predicate IsExpanded(
      g: Graph, members: set<int>, s: int, dist: Distances, shortest: Option<int>, u: int, k: nat)
    requires u in dist
  {
    forall j :: 0 <= j < k && j < |Successors(g, u)| && Successors(g, u)[j] in members ==>
      var v := Successors(g, u)[j];
      if v == s then !IsBelow(dist[u] + 1, shortest) else v in dist && dist[v] <= dist[u] + 1
  }

  /** No distance in the queue is less than `low` or than one before it. */
  ghost predicate IsQueue(queue: seq<int>, dist: Distances, low: int) {
    && (forall i :: 0 <= i < |queue| ==> queue[i] in dist && low <= dist[queue[i]])
    && forall i, j :: 0 <= i < j < |queue| ==> dist[queue[i]] <= dist[queue[j]]
  }

  /** Each distance is the length of a walk, and at most `high`. */
  ghost predicate AreDistances(g: Graph, members: set<int>, s: int, dist: Distances, high: int) {
    forall v :: v in dist ==> 0 <= dist[v] <= high && HasWalk(g, members, s, v, dist[v])
  }

  /** Whatever has a distance has been taken up, is in the queue, or is too far away to matter. */
  ghost predicate AreKept(taken: set<int>, queue: seq<int>, dist: Distances, shortest: Option<int>) {
    forall v :: v in dist ==> v in taken || v in queue || !IsBelow(dist[v], shortest)
  }

  ghost predicate AllExpanded(
      g: Graph, members: set<int>, s: int, done: set<int>, dist: Distances, shortest: Option<int>)
    requires done <= dist.Keys
  {
    forall u :: u in done ==> IsExpanded(g, members, s, dist, shortest, u, |Successors(g, u)|)
  }

  /** The search from `s` after `done`; distances in the queue are at least `low`, and all at most one more. */
  ghost predicate IsSpread(
      g: Graph, members: set<int>, s: int, done: set<int>, busy: set<int>, queue: seq<int>, dist: Distances,
      shortest: Option<int>, low: int)
  {
    && s in dist && dist[s] == 0 && dist.Keys <= members && done <= dist.Keys && busy <= dist.Keys
    && IsQueue(queue, dist, low) && AreDistances(g, members, s, dist, low + 1)
    && AreKept(done + busy, queue, dist, shortest) && AllExpanded(g, members, s, done, dist, shortest)
    && IsAttained(g, members, shortest)
  }

  lemma SpreadBegins(g: Graph, members: set<int>, s: int, shortest: Option<int>)
    requires s in members && IsAttained(g, members, shortest)
    ensures IsSpread(g, members, s, {}, {}, [s], map[s := 0], shortest, 0)
  {
    assert JoinsInside(g, members, [s], s, s);
    assert HasWalk(g, members, s, s, 0);
  }

  /** The head of the queue is taken up. */
  lemma SpreadTakes(
      g: Graph, members: set<int>, s: int, done: set<int>, queue: seq<int>, dist: Distances, shortest: Option<int>,
      low: int)
    requires IsSpread(g, members, s, done, {}, queue, dist, shortest, low) && queue != []
    ensures queue[0] in dist
    ensures IsSpread(g, members, s, done, {queue[0]}, queue[1..], dist, shortest, dist[queue[0]])
  {
    var u := queue[0];
    assert forall v :: v in queue <==> v == u || v in queue[1..];
  }

  /** All calls of the function taken up have been looked at. */
  lemma SpreadFinishes(
      g: Graph, members: set<int>, s: int, done: set<int>, u: int, queue: seq<int>, dist: Distances,
      shortest: Option<int>, low: int)
    requires IsSpread(g, members, s, done, {u}, queue, dist, shortest, low) && u in dist
    requires IsExpanded(g, members, s, dist, shortest, u, |Successors(g, u)|)
    ensures IsSpread(g, members, s, done + {u}, {}, queue, dist, shortest, low)
  {}

  lemma WalkOn(g: Graph, members: set<int>, s: int, u: int, v: int, n: int)
    requires HasWalk(g, members, s, u, n) && v in Successors(g, u) && v in members
    ensures HasWalk(g, members, s, v, n + 1)
  {
    var p :| JoinsInside(g, members, p, s, u) && |p| - 1 == n;
    WalkStep(g, p, v);
    assert Elements(p + [v]) == Elements(p) + {v};
    assert JoinsInside(g, members, p + [v], s, v);
  }

  /** A call back to the start closes a walk. */
  lemma SpreadCloses(
      g: Graph, members: set<int>, s: int, done: set<int>, u: int, k: nat, queue: seq<int>, dist: Distances,
      shortest: Option<int>, low: int)
    requires IsSpread(g, members, s, done, {u}, queue, dist, shortest, low) && u in dist
    requires k < |Successors(g, u)| && Successors(g, u)[k] == s && s in members
    requires IsExpanded(g, members, s, dist, shortest, u, k)
    ensures var n := dist[u] + 1;
      var better := if IsBelow(n, shortest) then Some(n) else shortest;
      && IsSpread(g, members, s, done, {u}, queue, dist, better, low)
      && IsExpanded(g, members, s, dist, better, u, k + 1)
  {
    var n := dist[u] + 1;
    WalkOn(g, members, s, u, s, dist[u]);
    var p :| JoinsInside(g, members, p, s, s) && |p| - 1 == n;
    assert IsClosedWalk(g, members, p, s, n);
    assert HasClosedWalk(g, members, s, n);
  }

  /** A function not met before gets its distance, and its place in the queue unless it is too far away. */
  lemma SpreadMeets(
      g: Graph, members: set<int>, s: int, done: set<int>, u: int, k: nat, queue: seq<int>, dist: Distances,
      shortest: Option<int>)
    requires u in dist && IsSpread(g, members, s, done, {u}, queue, dist, shortest, dist[u])
    requires k < |Successors(g, u)| && IsExpanded(g, members, s, dist, shortest, u, k)
    requires var v := Successors(g, u)[k]; v in members && v != s && v !in dist
    ensures var v, n := Successors(g, u)[k], dist[u] + 1;
      var longer := if IsBelow(n, shortest) then queue + [v] else queue;
      && IsSpread(g, members, s, done, {u}, longer, dist[v := n], shortest, dist[u])
      && IsExpanded(g, members, s, dist[v := n], shortest, u, k + 1)
  {
    var v, n := Successors(g, u)[k], dist[u] + 1;
    var longer := if IsBelow(n, shortest) then queue + [v] else queue;
    var more := dist[v := n];
    WalkOn(g, members, s, u, v, dist[u]);
    QueueGrows(queue, dist, dist[u], v, n);
    KeptGrows(done + {u}, queue, dist, shortest, v, n);
    AllExpandedStay(g, members, s, done, dist, shortest, v, n);
    ExpandedStays(g, members, s, dist, shortest, u, k, v, n);
    assert AreDistances(g, members, s, more, dist[u] + 1);
  }

  lemma KeptGrows(taken: set<int>, queue: seq<int>, dist: Distances, shortest: Option<int>, v: int, n: int)
    requires AreKept(taken, queue, dist, shortest) && v !in dist
    ensures AreKept(taken, if IsBelow(n, shortest) then queue + [v] else queue, dist[v := n], shortest)
  {
    assert v in queue + [v] && forall x :: x in queue ==> x in queue + [v];
  }

  lemma AllExpandedStay(
      g: Graph, members: set<int>, s: int, done: set<int>, dist: Distances, shortest: Option<int>, v: int, n: int)
    requires done <= dist.Keys && v !in dist && AllExpanded(g, members, s, done, dist, shortest)
    ensures AllExpanded(g, members, s, done, dist[v := n], shortest)
  {
    forall x | x in done ensures IsExpanded(g, members, s, dist[v := n], shortest, x, |Successors(g, x)|) {
      ExpandedStays(g, members, s, dist, shortest, x, |Successors(g, x)|, v, n);
    }
  }

  lemma QueueGrows(queue: seq<int>, dist: Distances, low: int, v: int, n: int)
    requires IsQueue(queue, dist, low) && v !in dist && low <= n && forall x :: x in dist ==> dist[x] <= n
    ensures IsQueue(queue, dist[v := n], low) && IsQueue(queue + [v], dist[v := n], low)
  {
    forall i | 0 <= i < |queue| ensures queue[i] != v { assert queue[i] in dist; }
  }

  lemma ExpandedStays(
      g: Graph, members: set<int>, s: int, dist: Distances, shortest: Option<int>, u: int, k: nat, v: int, n: int)
    requires u in dist && v !in dist && IsExpanded(g, members, s, dist, shortest, u, k)
    ensures IsExpanded(g, members, s, dist[v := n], shortest, u, k)
  {}

  lemma SpreadSkips(
      g: Graph, members: set<int>, s: int, dist: Distances, shortest: Option<int>, u: int, k: nat, low: int)
    requires u in dist && k < |Successors(g, u)| && IsExpanded(g, members, s, dist, shortest, u, k)
    requires var v := Successors(g, u)[k]; v in members ==> v != s && v in dist && dist[v] <= dist[u] + 1
    ensures IsExpanded(g, members, s, dist, shortest, u, k + 1)
  {}

  /** With the queue empty, each function on a closed walk that were shorter has been dealt with in time. */
  lemma {:induction false} WalkIsFollowed(
      g: Graph, members: set<int>, s: int, done: set<int>, dist: Distances, shortest: Option<int>, low: int,
      p: seq<int>)
    requires IsSpread(g, members, s, done, {}, [], dist, shortest, low)
    requires IsWalk(g, p) && p[0] == s && Elements(p) <= members && IsBelow(|p| - 1, shortest)
    ensures Last(p) in done && Last(p) in dist && dist[Last(p)] <= |p| - 1
  {
    var n := |p| - 1;
    if n > 0 {
      WalkSlice(g, p, 0, n);
      assert p[0..n] == p[..n];
      forall x | x in Elements(p[..n]) ensures x in members { assert x in Elements(p); }
      WalkIsFollowed(g, members, s, done, dist, shortest, low, p[..n]);
      var u, v := p[n - 1], p[n];
      assert Edge(g, u, v) && v in Elements(p);
      var j :| 0 <= j < |Successors(g, u)| && Successors(g, u)[j] == v;
      assert IsExpanded(g, members, s, dist, shortest, u, |Successors(g, u)|);
    }
  }

  /** After the search no closed walk from `s` is shorter than the best found. */
  lemma SpreadBounds(
      g: Graph, members: set<int>, s: int, done: set<int>, dist: Distances, shortest: Option<int>, low: int)
    requires IsSpread(g, members, s, done, {}, [], dist, shortest, low)
    ensures BoundsFrom(g, members, s, shortest)
  {
    forall n | HasClosedWalk(g, members, s, n) ensures !IsBelow(n, shortest) {
      var p :| IsClosedWalk(g, members, p, s, n);
      if IsBelow(n - 1, shortest) {
        WalkSlice(g, p, 0, n);
        assert p[0..n] == p[..n];
        forall x | x in Elements(p[..n]) ensures x in members { assert x in Elements(p); }
        WalkIsFollowed(g, members, s, done, dist, shortest, low, p[..n]);
        var u := p[n - 1];
        assert Edge(g, u, p[n]) && p[n] in Elements(p);
        var j :| 0 <= j < |Successors(g, u)| && Successors(g, u)[j] == s;
        assert IsExpanded(g, members, s, dist, shortest, u, |Successors(g, u)|);
      }
    }
  }

  /** The calls of one function. */
  method Expand(
      g: Graph, memberList: seq<int>, s: int, u: int, queue: seq<int>, dist: Distances, shortest: Option<int>,
      ghost done: set<int>)
    returns (longer: seq<int>, more: Distances, better: Option<int>)
    requires s in memberList && u in dist
    requires IsSpread(g, Elements(memberList), s, done, {u}, queue, dist, shortest, dist[u])
    ensures dist.Keys <= more.Keys && (more.Keys == dist.Keys ==> longer == queue)
    ensures u in more && IsSpread(g, Elements(memberList), s, done + {u}, {}, longer, more, better, more[u])
    ensures IsBetter(shortest, better)
  {
    ghost var members := Elements(memberList);
    longer, more, better := queue, dist, shortest;
    for k := 0 to |Successors(g, u)|
      invariant u in more && more[u] == dist[u] && dist.Keys <= more.Keys
      invariant more.Keys == dist.Keys ==> longer == queue
      invariant IsSpread(g, members, s, done, {u}, longer, more, better, more[u])
      invariant IsExpanded(g, members, s, more, better, u, k) && IsBetter(shortest, better)
    {
      var v := Successors(g, u)[k];
      assert v in memberList <==> v in members;
      if v !in memberList {
        SpreadSkips(g, members, s, more, better, u, k, more[u]);
      } else if v == s {
        SpreadCloses(g, members, s, done, u, k, longer, more, better, more[u]);
        var n := more[u] + 1;
        if IsBelow(n, better) { better := Some(n); }
      } else if v !in more {
        SpreadMeets(g, members, s, done, u, k, longer, more, better);
        var n := more[u] + 1;
        more := more[v := n];
        if IsBelow(n, better) { longer := longer + [v]; }
      } else {
        SpreadSkips(g, members, s, more, better, u, k, more[u]);
      }
    }
    SpreadFinishes(g, members, s, done, u, longer, more, better, more[u]);
  }

  /** As good as `before`, or better. */
  predicate IsBetter(before: Option<int>, after: Option<int>) {
    before.Some? ==> after.Some? && after.value <= before.value
  }

  /** The search from one member. */
  method SearchFrom(g: Graph, memberList: seq<int>, s: int, shortest: Option<int>) returns (better: Option<int>)
    requires s in memberList && IsAttained(g, Elements(memberList), shortest)
    ensures IsAttained(g, Elements(memberList), better) && IsBetter(shortest, better)
    ensures BoundsFrom(g, Elements(memberList), s, better)
  {
    ghost var members := Elements(memberList);
    assert s in members;
    better := shortest;
    var dist: Distances := map[s := 0];
    var queue := [s];
    ghost var done, low := {}, 0;
    SpreadBegins(g, members, s, shortest);
    while queue != []
      invariant IsSpread(g, members, s, done, {}, queue, dist, better, low) && IsBetter(shortest, better)
      decreases members - dist.Keys, |queue|
    {
      var u := queue[0];
      SpreadTakes(g, members, s, done, queue, dist, better, low);
      ghost var before := dist;
      queue, dist, better := Expand(g, memberList, s, u, queue[1..], dist, better, done);
      done, low := done + {u}, dist[u];
      KeysGrow(members, before, dist);
    }
    SpreadBounds(g, members, s, done, dist, better, low);
  }

  lemma KeysGrow(members: set<int>, before: Distances, after: Distances)
    requires before.Keys <= after.Keys <= members
    ensures members - after.Keys <= members - before.Keys
    ensures members - after.Keys == members - before.Keys ==> before.Keys == after.Keys
  {
    if members - after.Keys == members - before.Keys {
      forall x | x in after.Keys ensures x in before.Keys { assert x !in members - after.Keys; }
    }
  }

  /** The length of a shortest closed walk of the members, if there is any. */
  ghost predicate IsShortest(g: Graph, members: set<int>, shortest: Option<int>) {
    && (shortest.None? ==> forall s, n :: s in members ==> !HasClosedWalk(g, members, s, n))
    && (shortest.Some? ==>
         && (exists s :: HasClosedWalk(g, members, s, shortest.value))
         && forall s, n :: s in members && HasClosedWalk(g, members, s, n) ==> shortest.value <= n)
  }

  method ShortestCycleInScc(g: Graph, members: seq<int>) returns (shortest: Option<int>)
    ensures IsShortest(g, Elements(members), shortest)
  {
    shortest := None;
    for i := 0 to |members|
      invariant IsAttained(g, Elements(members), shortest)
      invariant forall j :: 0 <= j < i ==> BoundsFrom(g, Elements(members), members[j], shortest)
    {
      ghost var before := shortest;
      shortest := SearchFrom(g, members, members[i], shortest);
      forall j | 0 <= j < i ensures BoundsFrom(g, Elements(members), members[j], shortest) {
        assert BoundsFrom(g, Elements(members), members[j], before);
      }
    }
    forall s, n | s in Elements(members) && HasClosedWalk(g, Elements(members), s, n) ensures !IsBelow(n, shortest) {
      var j :| 0 <= j < |members| && members[j] == s;
      assert BoundsFrom(g, Elements(members), members[j], shortest);
    }
  }

  // ----- Shortest closed walks are simple cycles -----

  /** A simple cycle is a closed walk with as many calls as it has functions. */
  lemma CycleIsClosedWalk(g: Graph, members: set<int>, c: seq<int>)
    requires IsSimpleCycle(g, members, c)
    ensures HasClosedWalk(g, members, c[0], |c|) && c[0] in members
  {
    var p := c + [c[0]];
    assert c[0] in Elements(c);
    assert Elements(p) == Elements(c) + {c[0]};
    forall i | 0 < i < |p| ensures Edge(g, p[i - 1], p[i]) { assert NextOf(c, i) in Successors(g, c[i - 1]); }
    assert IsClosedWalk(g, members, p, c[0], |c|);
  }

  /** A closed walk than which none is shorter passes no function twice. */
  lemma ShortestIsSimple(g: Graph, members: set<int>, p: seq<int>, s: int, n: int)
    requires IsClosedWalk(g, members, p, s, n)
    requires forall t, m :: t in members && HasClosedWalk(g, members, t, m) ==> n <= m
    ensures IsSimpleCycle(g, members, p[..n])
  {
    var c := p[..n];
    forall x | x in Elements(c) ensures x in members { assert x in Elements(p); }
    forall j | 1 <= j <= |c| ensures NextOf(c, j) in Successors(g, c[j - 1]) { assert Edge(g, p[j - 1], p[j]); }
    forall i, j | 0 <= i < j < |c| ensures c[i] != c[j] {
      if c[i] == c[j] { InnerWalk(g, members, p, i, j); }
    }
  }

  lemma InnerWalk(g: Graph, members: set<int>, p: seq<int>, i: nat, j: nat)
    requires IsWalk(g, p) && Elements(p) <= members && i < j < |p| && p[i] == p[j]
    ensures p[i] in members && HasClosedWalk(g, members, p[i], j - i)
  {
    WalkSlice(g, p, i, j + 1);
    forall x | x in Elements(p[i..j + 1]) ensures x in members { assert x in Elements(p); }
    assert IsClosedWalk(g, members, p[i..j + 1], p[i], j - i);
    assert p[i] in Elements(p);
  }

  /** The result is the least number of functions on a simple cycle of the members, and none without a cycle. */
  lemma ShortestIsLeastCycle(g: Graph, members: set<int>, shortest: Option<int>)
    requires IsShortest(g, members, shortest)
    ensures shortest.None? ==> forall c :: !IsSimpleCycle(g, members, c)
    ensures shortest.Some? ==> exists c :: IsSimpleCycle(g, members, c) && |c| == shortest.value
    ensures shortest.Some? ==> forall c :: IsSimpleCycle(g, members, c) ==> shortest.value <= |c|
  {
    forall c | IsSimpleCycle(g, members, c) ensures shortest.Some? && shortest.value <= |c| {
      CycleIsClosedWalk(g, members, c);
    }
    if shortest.Some? {
      var s :| HasClosedWalk(g, members, s, shortest.value);
      var p :| IsClosedWalk(g, members, p, s, shortest.value);
      ShortestIsSimple(g, members, p, s, shortest.value);
    }
  }
}
