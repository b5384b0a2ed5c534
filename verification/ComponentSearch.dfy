/** Tarjan's search for the strongly connected components of the call graph, and what it says of recursion. */
module ComponentSearch {
  import opened Collections
  import opened Digraphs

  // ----- Components -----

  ghost predicate Mutual(g: Graph, u: int, v: int) { Reaches(g, u, v) && Reaches(g, v, u) }

  /** All functions that reach a member and are reached by it, and no others. */
  ghost predicate IsComponent(g: Graph, c: seq<int>) {
    c != [] && NoDuplicates(c) && forall u, v :: u in c ==> (v in c <==> Mutual(g, u, v))
  }

  ghost function Done(sccs: seq<seq<int>>): set<int> {
    if sccs == [] then {} else Done(sccs[..|sccs| - 1]) + Elements(Last(sccs))
  }

  /** The components found so far: each one complete, none sharing a function, callees in the same or an earlier one. */
  ghost predicate AreComponents(g: Graph, sccs: seq<seq<int>>) {
    sccs != [] ==>
      var front, c := sccs[..|sccs| - 1], Last(sccs);
      && AreComponents(g, front)
      && IsComponent(g, c) && Elements(c) !! Done(front)
      && forall u, v :: u in c && Edge(g, u, v) ==> v in c || v in Done(front)
  }

  lemma {:induction false} DoneIsClosed(g: Graph, sccs: seq<seq<int>>, u: int, v: int)
    requires AreComponents(g, sccs) && u in Done(sccs) && Edge(g, u, v)
    ensures v in Done(sccs)
  {
    if u !in Last(sccs) { DoneIsClosed(g, sccs[..|sccs| - 1], u, v); }
  }

  /** What a found function reaches has been found. */
  lemma DoneHoldsReached(g: Graph, sccs: seq<seq<int>>, u: int, v: int)
    requires AreComponents(g, sccs) && u in Done(sccs) && Reaches(g, u, v)
    ensures v in Done(sccs)
  {
    var p :| Joins(g, p, u, v);
    forall a, b | a in Done(sccs) && Edge(g, a, b) ensures b in Done(sccs) { DoneIsClosed(g, sccs, a, b); }
    ClosedSetHoldsWalk(g, Done(sccs), p);
  }

  // ----- The state of the search -----

  /** The functions on the stack, in the order of their numbers. */
  ghost predicate Ascends(index: map<int, int>, stack: seq<int>) {
    && (forall i :: 0 <= i < |stack| ==> stack[i] in index)
    && forall i, j :: 0 <= i < j < |stack| ==> index[stack[i]] < index[stack[j]]
  }

  /** From `x` a function being searched is reached that is numbered no later. */
  ghost predicate ReachesPath(g: Graph, path: seq<int>, index: map<int, int>, x: int)
    requires x in index
  {
    exists y :: y in path && y in index && index[y] <= index[x] && Reaches(g, x, y)
  }

  /** A function being searched reaches whatever is numbered after it on the stack. */
  ghost predicate ReachesLater(g: Graph, stack: seq<int>, index: map<int, int>, y: int)
    requires y in index
  {
    forall x :: x in stack && x in index && index[y] <= index[x] ==> Reaches(g, y, x)
  }

  ghost predicate CalleesNumbered(g: Graph, index: map<int, int>, x: int) {
    forall w :: Edge(g, x, w) ==> w in index
  }

  /** Every numbered function is on the stack or found; those being searched are on the stack. */
  ghost predicate IsStack(path: seq<int>, index: map<int, int>, stack: seq<int>, sccs: seq<seq<int>>, counter: int) {
    && Ascends(index, path) && Ascends(index, stack) && Elements(path) <= Elements(stack)
    && index.Keys == Elements(stack) + Done(sccs) && Elements(stack) !! Done(sccs)
    && forall x :: x in index ==> index[x] < counter
  }

  ghost predicate IsLinked(g: Graph, path: seq<int>, index: map<int, int>, stack: seq<int>) {
    && (forall x {:trigger ReachesPath(g, path, index, x)} ::
          x in stack && x in index ==> ReachesPath(g, path, index, x))
    && (forall y {:trigger ReachesLater(g, stack, index, y)} ::
          y in path && y in index ==> ReachesLater(g, stack, index, y))
    && (forall x {:trigger CalleesNumbered(g, index, x)} :: x in stack && x !in path ==> CalleesNumbered(g, index, x))
  }

  /** `path` is the chain of functions being searched. */
  ghost predicate IsSearch(
      g: Graph, path: seq<int>, index: map<int, int>, stack: seq<int>, sccs: seq<seq<int>>, counter: int) {
    && (path != [] ==> IsWalk(g, path)) && AreComponents(g, sccs)
    && IsStack(path, index, stack, sccs, counter) && IsLinked(g, path, index, stack)
  }

  // ----- Entering a function -----

  lemma AscendsMore(index: map<int, int>, stack: seq<int>, v: int, n: int)
    requires Ascends(index, stack) && v !in index && forall x :: x in index ==> index[x] < n
    ensures Ascends(index[v := n], stack + [v]) && Ascends(index[v := n], stack)
  {
    forall i | 0 <= i < |stack| ensures stack[i] != v { assert stack[i] in index; }
  }

  /** Every function being searched reaches the last one. */
  lemma PathReachesLast(g: Graph, path: seq<int>, y: int)
    requires IsWalk(g, path) && y in path
    ensures Reaches(g, y, Last(path))
  {
    var i :| 0 <= i < |path| && path[i] == y;
    WalkSlice(g, path, i, |path|);
  }

  lemma EnterStack(path: seq<int>, v: int, index: map<int, int>, stack: seq<int>, sccs: seq<seq<int>>, counter: int)
    requires IsStack(path, index, stack, sccs, counter) && v !in index
    ensures IsStack(path + [v], index[v := counter], stack + [v], sccs, counter + 1)
  {
    AscendsMore(index, path, v, counter);
    AscendsMore(index, stack, v, counter);
    assert Elements(path + [v]) == Elements(path) + {v} && Elements(stack + [v]) == Elements(stack) + {v};
    assert v !in Done(sccs) by { assert v in Done(sccs) ==> v in index.Keys; }
  }

  lemma EnteredReaches(g: Graph, path: seq<int>, v: int, index: map<int, int>, stack: seq<int>, counter: int, y: int)
    requires path != [] ==> IsWalk(g, path) && Edge(g, Last(path), v)
    requires v !in index && (y == v || (y in path && y in index && ReachesLater(g, stack, index, y)))
    requires forall x :: x in index ==> index[x] < counter
    ensures ReachesLater(g, stack + [v], index[v := counter], y)
  {
    ReachesSelf(g, v);
    if y != v {
      PathReachesLast(g, path, y);
      ReachesThenSteps(g, y, Last(path), v);
    }
  }

  lemma EnteredLeads(g: Graph, path: seq<int>, v: int, index: map<int, int>, counter: int, x: int)
    requires v !in index && (x == v || (x in index && ReachesPath(g, path, index, x)))
    ensures ReachesPath(g, path + [v], index[v := counter], x)
  {
    if x == v {
      ReachesSelf(g, v);
      assert v in path + [v];
    } else {
      var y :| y in path && y in index && index[y] <= index[x] && Reaches(g, x, y);
      assert y in path + [v];
    }
  }

  lemma EnterLinks(g: Graph, path: seq<int>, v: int, index: map<int, int>, stack: seq<int>, counter: int)
    requires IsLinked(g, path, index, stack) && v !in index
    requires path != [] ==> IsWalk(g, path) && Edge(g, Last(path), v)
    requires (forall x :: x in index ==> index[x] < counter) && forall x :: x in stack ==> x in index
    requires forall y :: y in path ==> y in index
    ensures IsLinked(g, path + [v], index[v := counter], stack + [v])
  {
    var here, index', stack' := path + [v], index[v := counter], stack + [v];
    forall x | x in stack' && x in index' ensures ReachesPath(g, here, index', x) {
      if x != v { assert ReachesPath(g, path, index, x); }
      EnteredLeads(g, path, v, index, counter, x);
    }
    forall y | y in here && y in index' ensures ReachesLater(g, stack', index', y) {
      if y != v { assert ReachesLater(g, stack, index, y); }
      EnteredReaches(g, path, v, index, stack, counter, y);
    }
    forall x | x in stack' && x !in here ensures CalleesNumbered(g, index', x) {
      assert x in stack && CalleesNumbered(g, index, x);
    }
  }

  lemma EnterFunction(
      g: Graph, path: seq<int>, v: int, index: map<int, int>, stack: seq<int>, sccs: seq<seq<int>>, counter: int)
    requires IsSearch(g, path, index, stack, sccs, counter) && v !in index && (path != [] ==> Edge(g, Last(path), v))
    ensures IsSearch(g, path + [v], index[v := counter], stack + [v], sccs, counter + 1)
  {
    EnterStack(path, v, index, stack, sccs, counter);
    StackIsNumbered(path, index, stack);
    EnterLinks(g, path, v, index, stack, counter);
  }

  lemma StackIsNumbered(path: seq<int>, index: map<int, int>, stack: seq<int>)
    requires Ascends(index, path) && Ascends(index, stack)
    ensures (forall x :: x in stack ==> x in index) && forall x :: x in path ==> x in index
  {}

  // ----- The functions numbered since a function was entered -----

  /** Calls from the later part of the stack to the earlier part lead to numbers from `low` on. */
  ghost predicate ExitsAbove(g: Graph, index: map<int, int>, base: seq<int>, seg: seq<int>, low: int) {
    forall x, w :: x in seg && w in base && w in index && Edge(g, x, w) ==> low <= index[w]
  }

  lemma SplitStack(index: map<int, int>, base: seq<int>, seg: seq<int>)
    requires Ascends(index, base + seg) && seg != []
    ensures Ascends(index, base) && Ascends(index, seg) && Elements(base) !! Elements(seg)
    ensures Elements(base + seg) == Elements(base) + Elements(seg)
    ensures forall w :: w in base ==> w in index && index[w] < index[seg[0]]
    ensures forall x :: x in seg ==> x in index && index[seg[0]] <= index[x]
  {
    var stack, n := base + seg, |base|;
    assert forall i :: 0 <= i < n ==> stack[i] == base[i];
    assert forall i :: 0 <= i < |seg| ==> stack[n + i] == seg[i];
    forall w | w in base ensures w in index && index[w] < index[seg[0]] {
      var i :| 0 <= i < n && base[i] == w;
      assert index[stack[i]] < index[stack[n]];
    }
    forall x | x in seg ensures x in index && index[seg[0]] <= index[x] {
      var i :| 0 <= i < |seg| && seg[i] == x;
      assert i > 0 ==> index[stack[n]] < index[stack[n + i]];
    }
    assert Elements(base) !! Elements(seg);
  }

  /** What the search knows when the calls of `v`, at the bottom of the segment, have all been followed. */
  ghost predicate IsFollowed(
      g: Graph, path: seq<int>, v: int, index: map<int, int>, base: seq<int>, seg: seq<int>, sccs: seq<seq<int>>,
      counter: int) {
    && IsSearch(g, path + [v], index, base + seg, sccs, counter) && seg != [] && seg[0] == v && v in index
    && CalleesNumbered(g, index, v)
  }

  /** The functions still being searched below `v` are in the earlier part of the stack. */
  lemma PathIsBelow(
      g: Graph, path: seq<int>, v: int, index: map<int, int>, base: seq<int>, seg: seq<int>, sccs: seq<seq<int>>,
      counter: int)
    requires IsFollowed(g, path, v, index, base, seg, sccs, counter)
    ensures forall y :: y in path ==> y in base && y in index && index[y] < index[v]
    ensures v !in path && Ascends(index, path) && Elements(path) <= Elements(base)
    ensures path != [] ==> IsWalk(g, path)
  {
    var here := path + [v];
    SplitStack(index, base, seg);
    forall i | 0 <= i < |path| ensures path[i] in base && path[i] in index && index[path[i]] < index[v] {
      assert here[i] == path[i] && here[|path|] == v;
      assert path[i] in Elements(here);
    }
    forall i, j | 0 <= i < j < |path| ensures index[path[i]] < index[path[j]] {
      assert here[i] == path[i] && here[j] == path[j];
    }
    if path != [] {
      WalkSlice(g, here, 0, |path|);
      assert here[0..|path|] == path;
    }
  }

  /** A call from the segment stays in it or leads to a found component, if none exits below `v`. */
  lemma SegmentIsClosed(
      g: Graph, path: seq<int>, v: int, index: map<int, int>, base: seq<int>, seg: seq<int>, sccs: seq<seq<int>>,
      counter: int, x: int, w: int)
    requires IsFollowed(g, path, v, index, base, seg, sccs, counter) && ExitsAbove(g, index, base, seg, index[v])
    requires x in seg && Edge(g, x, w)
    ensures w in Elements(seg) + Done(sccs)
  {
    SplitStack(index, base, seg);
    PathIsBelow(g, path, v, index, base, seg, sccs, counter);
    assert x in Elements(seg) && x !in Elements(base);
    assert CalleesNumbered(g, index, x);
    assert w in index.Keys;
  }

  lemma SegmentStays(
      g: Graph, path: seq<int>, v: int, index: map<int, int>, base: seq<int>, seg: seq<int>, sccs: seq<seq<int>>,
      counter: int, x: int, y: int)
    requires IsFollowed(g, path, v, index, base, seg, sccs, counter) && ExitsAbove(g, index, base, seg, index[v])
    requires x in seg && Reaches(g, x, y)
    ensures y in Elements(seg) + Done(sccs)
  {
    var closed := Elements(seg) + Done(sccs);
    var p :| Joins(g, p, x, y);
    forall a, b | a in closed && Edge(g, a, b) ensures b in closed {
      if a in seg {
        SegmentIsClosed(g, path, v, index, base, seg, sccs, counter, a, b);
      } else {
        DoneIsClosed(g, sccs, a, b);
      }
    }
    assert x in Elements(seg);
    ClosedSetHoldsWalk(g, closed, p);
  }

  /** Each function of the segment reaches `v` and is reached by it. */
  lemma SegmentIsMutual(
      g: Graph, path: seq<int>, v: int, index: map<int, int>, base: seq<int>, seg: seq<int>, sccs: seq<seq<int>>,
      counter: int, x: int)
    requires IsFollowed(g, path, v, index, base, seg, sccs, counter) && ExitsAbove(g, index, base, seg, index[v])
    requires x in seg
    ensures Mutual(g, x, v)
  {
    var stack, here := base + seg, path + [v];
    SplitStack(index, base, seg);
    PathIsBelow(g, path, v, index, base, seg, sccs, counter);
    assert here[|path|] == v && x in stack;
    assert ReachesLater(g, stack, index, v);
    assert ReachesPath(g, here, index, x);
    var y :| y in here && y in index && index[y] <= index[x] && Reaches(g, x, y);
    SegmentStays(g, path, v, index, base, seg, sccs, counter, x, y);
    assert y in path ==> y in Elements(base) && y in Elements(stack);
  }

  /** The segment is a component when no call from it exits below `v`. */
  lemma SegmentIsComponent(
      g: Graph, path: seq<int>, v: int, index: map<int, int>, base: seq<int>, seg: seq<int>, sccs: seq<seq<int>>,
      counter: int, c: seq<int>)
    requires IsFollowed(g, path, v, index, base, seg, sccs, counter) && ExitsAbove(g, index, base, seg, index[v])
    requires Elements(c) == Elements(seg) && NoDuplicates(c)
    ensures IsComponent(g, c)
  {
    assert seg[0] in Elements(c);
    SplitStack(index, base, seg);
    forall u, w | u in c ensures w in c <==> Mutual(g, u, w) {
      assert u in Elements(seg) && (w in c <==> w in Elements(c));
      SegmentIsMutual(g, path, v, index, base, seg, sccs, counter, u);
      if w in c {
        SegmentIsMutual(g, path, v, index, base, seg, sccs, counter, w);
        ReachesTransitive(g, u, v, w);
        ReachesTransitive(g, w, v, u);
      }
      if Mutual(g, u, w) {
        SegmentStays(g, path, v, index, base, seg, sccs, counter, u, w);
        if w in Done(sccs) { DoneHoldsReached(g, sccs, w, u); }
        assert u in Elements(base + seg);
      }
    }
  }

  // ----- Leaving a function -----

  /** `v` is the lowest its calls lead to: the segment comes off the stack as a component. */
  lemma TakeComponent(
      g: Graph, path: seq<int>, v: int, index: map<int, int>, base: seq<int>, seg: seq<int>, sccs: seq<seq<int>>,
      counter: int, c: seq<int>)
    requires IsFollowed(g, path, v, index, base, seg, sccs, counter) && ExitsAbove(g, index, base, seg, index[v])
    requires Elements(c) == Elements(seg) && NoDuplicates(c)
    ensures IsSearch(g, path, index, base, sccs + [c], counter)
  {
    var more := sccs + [c];
    assert more[..|sccs|] == sccs && Last(more) == c;
    SplitStack(index, base, seg);
    PathIsBelow(g, path, v, index, base, seg, sccs, counter);
    SegmentIsComponent(g, path, v, index, base, seg, sccs, counter, c);
    forall x, w | x in c && Edge(g, x, w) ensures w in c || w in Done(sccs) {
      assert x in Elements(seg);
      SegmentIsClosed(g, path, v, index, base, seg, sccs, counter, x, w);
      assert w in Elements(seg) ==> w in Elements(c);
    }
    assert AreComponents(g, more);
    assert Done(more) == Done(sccs) + Elements(seg);
    BaseIsLinked(g, path, v, index, base, seg, sccs, counter);
  }

  lemma BaseIsLinked(
      g: Graph, path: seq<int>, v: int, index: map<int, int>, base: seq<int>, seg: seq<int>, sccs: seq<seq<int>>,
      counter: int)
    requires IsFollowed(g, path, v, index, base, seg, sccs, counter)
    ensures IsLinked(g, path, index, base)
  {
    SplitStack(index, base, seg);
    PathIsBelow(g, path, v, index, base, seg, sccs, counter);
    LinkedBelow(g, path, v, index, base, seg);
  }

  lemma LinkedBelow(g: Graph, path: seq<int>, v: int, index: map<int, int>, base: seq<int>, seg: seq<int>)
    requires IsLinked(g, path + [v], index, base + seg) && v in index
    requires forall w :: w in base ==> w in index && index[w] < index[v]
    ensures IsLinked(g, path, index, base)
  {
    var here, stack := path + [v], base + seg;
    forall x | x in base && x in index ensures ReachesPath(g, path, index, x) {
      assert x in stack && ReachesPath(g, here, index, x);
      WithoutLast(g, path, v, index, x);
    }
    forall y | y in path && y in index ensures ReachesLater(g, base, index, y) {
      assert y in here && ReachesLater(g, stack, index, y);
      forall x | x in base && x in index && index[y] <= index[x] ensures Reaches(g, y, x) { assert x in stack; }
    }
    forall x | x in base && x !in path ensures CalleesNumbered(g, index, x) {
      assert x in stack && x !in here;
    }
  }

  lemma WithoutLast(g: Graph, path: seq<int>, v: int, index: map<int, int>, x: int)
    requires x in index && v in index && index[x] < index[v] && ReachesPath(g, path + [v], index, x)
    ensures ReachesPath(g, path, index, x)
  {
    var y :| y in path + [v] && y in index && index[y] <= index[x] && Reaches(g, x, y);
    assert y in path;
  }

  /** A function numbered below `v` is reached: the segment stays on the stack, and leads there. */
  lemma KeepSegment(
      g: Graph, path: seq<int>, v: int, index: map<int, int>, base: seq<int>, seg: seq<int>, sccs: seq<seq<int>>,
      counter: int, w: int)
    requires IsFollowed(g, path, v, index, base, seg, sccs, counter)
    requires w in base && w in index && Reaches(g, v, w)
    ensures IsSearch(g, path, index, base + seg, sccs, counter)
  {
    SplitStack(index, base, seg);
    PathIsBelow(g, path, v, index, base, seg, sccs, counter);
    BaseIsLinked(g, path, v, index, base, seg, sccs, counter);
    assert ReachesPath(g, path, index, w);
    KeptLinks(g, path, v, index, base + seg, w);
  }

  lemma KeptLinks(g: Graph, path: seq<int>, v: int, index: map<int, int>, stack: seq<int>, w: int)
    requires IsLinked(g, path + [v], index, stack) && CalleesNumbered(g, index, v)
    requires w in index && v in index && index[w] < index[v] && Reaches(g, v, w) && ReachesPath(g, path, index, w)
    ensures IsLinked(g, path, index, stack)
  {
    var here := path + [v];
    forall x | x in stack && x in index ensures ReachesPath(g, path, index, x) {
      assert ReachesPath(g, here, index, x);
      var y :| y in here && y in index && index[y] <= index[x] && Reaches(g, x, y);
      if y == v { LeadsOn(g, path, index, x, v, w); }
    }
    forall y | y in path && y in index ensures ReachesLater(g, stack, index, y) {
      assert y in here && ReachesLater(g, stack, index, y);
    }
    forall x | x in stack && x !in path ensures CalleesNumbered(g, index, x) {
      if x != v { assert x !in here; }
    }
  }

  lemma LeadsOn(g: Graph, path: seq<int>, index: map<int, int>, x: int, v: int, w: int)
    requires x in index && w in index && index[w] <= index[x] && ReachesPath(g, path, index, w)
    requires Reaches(g, x, v) && Reaches(g, v, w)
    ensures ReachesPath(g, path, index, x)
  {
    var y :| y in path && y in index && index[y] <= index[w] && Reaches(g, w, y);
    ReachesTransitive(g, x, v, w);
    ReachesTransitive(g, x, w, y);
  }

  // ----- Following the calls of one function -----

  /** `low` is the number of a function reached from `v`, itself or one below it on the stack. */
  ghost predicate IsReachedLow(g: Graph, v: int, index: map<int, int>, base: seq<int>, low: int)
    requires v in index
  {
    low == index[v] || exists w :: w in base && w in index && index[w] == low && Reaches(g, v, w)
  }

  /** `adjacency.get(v) ?? new Set()` */
  function CallsOf(g: Graph, v: int): (calls: seq<int>)
    ensures forall w :: w in calls <==> Edge(g, v, w)
  {
    if v in g then g[v] else []
  }

  /** The call to `t` has been followed. */
  ghost predicate IsNoted(index: map<int, int>, base: seq<int>, low: int, t: int) {
    t in index && (t in base ==> low <= index[t])
  }

  /** The calls of `v` before number `k` have been followed, with `low` the least number met below `v`. */
  ghost predicate InCalls(
      g: Graph, v: int, k: nat, index: map<int, int>, base: seq<int>, seg: seq<int>, low: int)
    requires k <= |CallsOf(g, v)|
  {
    && seg != [] && seg[0] == v && v in index
    && IsReachedLow(g, v, index, base, low) && low <= index[v]
    && ExitsAbove(g, index, base, seg[1..], low)
    && (forall i {:trigger IsNoted(index, base, low, CallsOf(g, v)[i])} ::
          0 <= i < k ==> IsNoted(index, base, low, CallsOf(g, v)[i]))
  }

  lemma CallsFollowed(
      g: Graph, path: seq<int>, v: int, index: map<int, int>, base: seq<int>, seg: seq<int>,
      sccs: seq<seq<int>>, counter: int, low: int)
    requires InCalls(g, v, |CallsOf(g, v)|, index, base, seg, low)
    requires IsSearch(g, path + [v], index, base + seg, sccs, counter)
    ensures IsFollowed(g, path, v, index, base, seg, sccs, counter) && ExitsAbove(g, index, base, seg, low)
  {
    assert seg == [v] + seg[1..];
    forall w | Edge(g, v, w) ensures IsNoted(index, base, low, w) {
      var i :| 0 <= i < |CallsOf(g, v)| && CallsOf(g, v)[i] == w;
      assert IsNoted(index, base, low, CallsOf(g, v)[i]);
    }
    forall x, w | x in seg && w in base && w in index && Edge(g, x, w) ensures low <= index[w] {
      if x == v { assert IsNoted(index, base, low, w); } else { assert x in seg[1..]; }
    }
    forall w | Edge(g, v, w) ensures w in index { assert IsNoted(index, base, low, w); }
  }

  /** A call to a function already numbered. */
  lemma KnownCall(g: Graph, v: int, k: nat, index: map<int, int>, base: seq<int>, seg: seq<int>, low: int)
    requires k < |CallsOf(g, v)| && InCalls(g, v, k, index, base, seg, low) && CallsOf(g, v)[k] in index
    requires Ascends(index, base + seg)
    ensures var t := CallsOf(g, v)[k];
      InCalls(g, v, k + 1, index, base, seg, if t in base + seg then Min(low, index[t]) else low)
  {
    var t := CallsOf(g, v)[k];
    var low' := if t in base + seg then Min(low, index[t]) else low;
    assert Edge(g, v, t);
    SplitStack(index, base, seg);
    ReachesSelf(g, v);
    ReachesThenSteps(g, v, v, t);
    assert t in base ==> t in base + seg;
    assert t in base + seg ==> t in base || t in seg;
    forall i | 0 <= i < k + 1 ensures IsNoted(index, base, low', CallsOf(g, v)[i]) {
      assert i < k ==> IsNoted(index, base, low, CallsOf(g, v)[i]);
    }
  }

  /** What a search of `t` leaves of the numbers given before. */
  ghost predicate Extends(before: map<int, int>, index: map<int, int>, stack: seq<int>, t: int) {
    && t in index && t !in before && (forall x :: x in before ==> x in index && index[x] == before[x])
    && forall x :: x in stack ==> x in before
  }

  /** A call to a function searched now: `more` is what its search left on the stack, and `lower` its low number. */
  lemma SearchedCall(
      g: Graph, v: int, k: nat, before: map<int, int>, base: seq<int>, seg: seq<int>, low: int,
      index: map<int, int>, more: seq<int>, lower: int)
    requires k < |CallsOf(g, v)| && InCalls(g, v, k, before, base, seg, low) && Ascends(before, base + seg)
    requires Extends(before, index, base + seg, CallsOf(g, v)[k])
    requires IsReachedLow(g, CallsOf(g, v)[k], index, base + seg, lower)
    requires index[v] < index[CallsOf(g, v)[k]] && ExitsAbove(g, index, base + seg, more, lower)
    ensures InCalls(g, v, k + 1, index, base, seg + more, Min(low, lower))
  {
    assert (seg + more)[1..] == seg[1..] + more;
    assert Edge(g, v, CallsOf(g, v)[k]);
    SplitStack(before, base, seg);
    ExitsMore(g, before, index, base, seg, more, low, lower);
    LowerIsReached(g, v, CallsOf(g, v)[k], before, base, seg, low, index, lower);
    forall i | 0 <= i < k + 1 ensures IsNoted(index, base, Min(low, lower), CallsOf(g, v)[i]) {
      if i == k {
        NewIsNoted(before, index, base, seg, low, lower, CallsOf(g, v)[k]);
      } else {
        assert IsNoted(before, base, low, CallsOf(g, v)[i]);
      }
    }
  }

  lemma NewIsNoted(
      before: map<int, int>, index: map<int, int>, base: seq<int>, seg: seq<int>, low: int, lower: int, t: int)
    requires Extends(before, index, base + seg, t)
    ensures IsNoted(index, base, Min(low, lower), t)
  {
    assert t in base ==> t in base + seg;
  }

  lemma ExitsMore(
      g: Graph, before: map<int, int>, index: map<int, int>, base: seq<int>, seg: seq<int>, more: seq<int>,
      low: int, lower: int)
    requires seg != [] && ExitsAbove(g, before, base, seg[1..], low) && ExitsAbove(g, index, base + seg, more, lower)
    requires forall x :: x in before ==> x in index && index[x] == before[x]
    requires forall x :: x in base ==> x in before
    ensures ExitsAbove(g, index, base, seg[1..] + more, Min(low, lower))
  {
    forall x, w | x in seg[1..] + more && w in base && w in index && Edge(g, x, w) ensures Min(low, lower) <= index[w] {
      assert w in base + seg && w in before;
      assert x in seg[1..] || x in more;
    }
  }

  lemma LowerIsReached(
      g: Graph, v: int, t: int, before: map<int, int>, base: seq<int>, seg: seq<int>, low: int,
      index: map<int, int>, lower: int)
    requires v in before && Extends(before, index, base + seg, t) && Edge(g, v, t) && seg != [] && seg[0] == v
    requires IsReachedLow(g, v, before, base, low) && low <= before[v] && Ascends(before, base + seg)
    requires IsReachedLow(g, t, index, base + seg, lower) && index[v] < index[t]
    ensures IsReachedLow(g, v, index, base, Min(low, lower))
  {
    if lower < low {
      var w :| w in base + seg && w in index && index[w] == lower && Reaches(g, t, w);
      SplitStack(before, base, seg);
      assert w in before && index[w] == before[w] && index[v] == before[v];
      assert w in base || w in seg;
      ReachesSelf(g, v);
      ReachesThenSteps(g, v, v, t);
      ReachesTransitive(g, v, t, w);
    } else if low != before[v] {
      var w :| w in base && w in before && before[w] == low && Reaches(g, v, w);
      assert index[w] == low;
    }
  }

  // ----- The search -----

  ghost predicate Marks(onStack: map<int, bool>, stack: seq<int>) {
    forall x :: x in onStack && onStack[x] <==> x in stack
  }

  /** What one call of the search leaves: its low number, and on the stack whatever leads below `v`. */
  ghost predicate IsConnected(
      g: Graph, v: int, before: map<int, int>, base: seq<int>, index: map<int, int>, stack: seq<int>,
      lowlink: map<int, int>) {
    && Extends(before, index, base, v) && base <= stack && v in lowlink
    && (forall x :: x in before ==> index[x] < index[v])
    && lowlink[v] <= index[v] && IsReachedLow(g, v, index, base, lowlink[v])
    && ExitsAbove(g, index, base, stack[|base|..], lowlink[v])
  }

  ghost predicate Keeps(before: map<int, int>, after: map<int, int>) {
    forall x :: x in before ==> x in after && after[x] == before[x]
  }

  ghost predicate IsState(
      g: Graph, universe: set<int>, path: seq<int>, index: map<int, int>, lowlink: map<int, int>,
      onStack: map<int, bool>, stack: seq<int>, sccs: seq<seq<int>>, counter: int) {
    && IsSearch(g, path, index, stack, sccs, counter) && Marks(onStack, stack)
    && lowlink.Keys == index.Keys && index.Keys <= universe
    && forall u, w :: u in universe && Edge(g, u, w) ==> w in universe
  }

  lemma EnterState(
      g: Graph, universe: set<int>, path: seq<int>, v: int, index: map<int, int>, lowlink: map<int, int>,
      onStack: map<int, bool>, stack: seq<int>, sccs: seq<seq<int>>, counter: int)
    requires IsState(g, universe, path, index, lowlink, onStack, stack, sccs, counter)
    requires v in universe && v !in index && (path != [] ==> Edge(g, Last(path), v))
    ensures var index', lowlink', stack' := index[v := counter], lowlink[v := counter], stack + [v];
      && IsState(g, universe, path + [v], index', lowlink', onStack[v := true], stack', sccs, counter + 1)
      && InCalls(g, v, 0, index', stack, [v], counter) && Keeps(index, index') && Keeps(lowlink, lowlink')
      && forall x :: x in index ==> index'[x] < index'[v]
  {
    EnterFunction(g, path, v, index, stack, sccs, counter);
    assert (index[v := counter]).Keys == index.Keys + {v};
    assert (lowlink[v := counter]).Keys == lowlink.Keys + {v};
    forall x ensures x in onStack[v := true] && onStack[v := true][x] <==> x in stack + [v] {}
  }

  /** The components are taken off the top of the stack: `n` functions of the segment are left on it. */
  ghost predicate IsPopping(
      base: seq<int>, seg: seq<int>, n: int, stack: seq<int>, onStack: map<int, bool>, scc: seq<int>) {
    && 0 <= n <= |seg| && stack == base + seg[..n] && Marks(onStack, stack) && NoDuplicates(base + seg)
    && NoDuplicates(scc) && Elements(scc) == Elements(seg[n..])
  }

  lemma PopOne(base: seq<int>, seg: seq<int>, n: int, stack: seq<int>, onStack: map<int, bool>, scc: seq<int>)
    requires IsPopping(base, seg, n, stack, onStack, scc) && n > 0
    ensures stack != [] && Last(stack) == seg[n - 1] && (Last(stack) == seg[0] <==> n == 1)
    ensures IsPopping(base, seg, n - 1, stack[..|stack| - 1], onStack[Last(stack) := false], scc + [Last(stack)])
  {
    var w, whole := seg[n - 1], base + seg;
    assert whole[|base| + n - 1] == w && whole[|base|] == seg[0];
    var rest := stack[..|stack| - 1];
    assert whole == base + seg[..n - 1] + [w] + seg[n..];
    assert rest == base + seg[..n - 1] && stack == rest + [w];
    StandsAlone(base + seg[..n - 1], w, seg[n..], whole);
    PopMarks(stack, rest, w, onStack);
    assert seg[n - 1..] == [w] + seg[n..];
    assert w !in Elements(seg[n..]) && w !in Elements(scc);
    assert Elements(scc + [w]) == Elements(scc) + {w};
  }

  lemma StandsAlone(front: seq<int>, w: int, back: seq<int>, whole: seq<int>)
    requires NoDuplicates(whole) && whole == front + [w] + back
    ensures w !in front && w !in back
  {
    forall i | 0 <= i < |front| ensures front[i] != w { assert whole[i] == front[i] && whole[|front|] == w; }
    forall i | 0 <= i < |back| ensures back[i] != w {
      assert whole[|front| + 1 + i] == back[i] && whole[|front|] == w;
    }
  }

  lemma PopMarks(stack: seq<int>, rest: seq<int>, w: int, onStack: map<int, bool>)
    requires Marks(onStack, stack) && stack == rest + [w] && w !in rest
    ensures Marks(onStack[w := false], rest)
  {
    assert forall x :: x in stack <==> x in rest || x == w;
  }

  /** The functions reached from `nodes`, themselves included. */
  ghost function ReachedFrom(g: Graph, nodes: seq<int>): set<int> {
    set w | w in Elements(nodes) + Targets(g) && exists r :: r in nodes && Reaches(g, r, w)
  }

  ghost function Targets(g: Graph): set<int> { set u, w | u in g && w in g[u] :: w }

  lemma ReachedIsClosed(g: Graph, nodes: seq<int>)
    ensures Elements(nodes) <= ReachedFrom(g, nodes)
    ensures forall u, w :: u in ReachedFrom(g, nodes) && Edge(g, u, w) ==> w in ReachedFrom(g, nodes)
  {
    forall r | r in nodes ensures r in ReachedFrom(g, nodes) { ReachesSelf(g, r); }
    forall u, w | u in ReachedFrom(g, nodes) && Edge(g, u, w) ensures w in ReachedFrom(g, nodes) {
      var r :| r in nodes && Reaches(g, r, u);
      ReachesThenSteps(g, r, u, w);
      assert w in Targets(g);
    }
  }

  class Search {
    const adjacency: Graph
    /** The functions reached from the given ones. */
    ghost const universe: set<int>
    var index: map<int, int>
    var lowlink: map<int, int>
    var onStack: map<int, bool>
    var stack: seq<int>
    var sccs: seq<seq<int>>
    var counter: int

    ghost predicate Valid(path: seq<int>)
      reads this
    {
      IsState(adjacency, universe, path, index, lowlink, onStack, stack, sccs, counter)
    }

    constructor (g: Graph, nodes: seq<int>)
      ensures Valid([]) && adjacency == g && index == map[] && sccs == []
      ensures universe == ReachedFrom(g, nodes) && Elements(nodes) <= universe
    {
      adjacency := g;
      universe := ReachedFrom(g, nodes);
      index, lowlink, onStack, stack, sccs, counter := map[], map[], map[], [], [], 0;
      ReachedIsClosed(g, nodes);
    }

    method StrongConnect(v: int, ghost path: seq<int>)
      requires Valid(path) && v in universe && v !in index && (path != [] ==> Edge(adjacency, Last(path), v))
      modifies this
      ensures Valid(path) && Keeps(old(lowlink), lowlink)
      ensures IsConnected(adjacency, v, old(index), old(stack), index, stack, lowlink)
      decreases universe - index.Keys, 1
    {
      ghost var before, base, low := index, stack, lowlink;
      Number(v, path);
      ghost var entered, enteredLow := index, lowlink;
      assert v in universe - before.Keys && v !in universe - index.Keys;
      ghost var seg := FollowCalls(v, path, base);
      CallsFollowed(adjacency, path, v, index, base, seg, sccs, counter, lowlink[v]);
      Leave(v, path, base, seg);
      StackWasNumbered(adjacency, path, before, base);
    }

    method ConnectAll(nodes: seq<int>)
      requires Valid([]) && Elements(nodes) <= universe
      modifies this
      ensures Valid([]) && Elements(nodes) <= index.Keys
    {
      for k := 0 to |nodes|
        invariant Valid([]) && Elements(nodes[..k]) <= index.Keys
      {
        assert nodes[k] in Elements(nodes);
        assert Elements(nodes[..k + 1]) == Elements(nodes[..k]) + {nodes[k]};
        if nodes[k] !in index {
          ghost var before := index;
          StrongConnect(nodes[k], []);
          MoreNumbered(before, index, nodes[k]);
        }
      }
      assert nodes[..|nodes|] == nodes;
    }

    /** The function gets the next number and goes on the stack. */
    method Number(v: int, ghost path: seq<int>)
      requires Valid(path) && v in universe && v !in index && (path != [] ==> Edge(adjacency, Last(path), v))
      modifies this
      ensures Valid(path + [v]) && stack == old(stack) + [v] && v in index && v in lowlink
      ensures InCalls(adjacency, v, 0, index, old(stack), [v], lowlink[v])
      ensures Keeps(old(index), index) && Keeps(old(lowlink), lowlink)
      ensures index.Keys == old(index).Keys + {v} && forall x :: x in old(index) ==> index[x] < index[v]
    {
      EnterState(adjacency, universe, path, v, index, lowlink, onStack, stack, sccs, counter);
      index := index[v := counter];
      lowlink := lowlink[v := counter];
      counter := counter + 1;
      stack := stack + [v];
      onStack := onStack[v := true];
    }

    /** The loop over the calls of `v`; `seg` is the stack from `v` on. */
    method FollowCalls(v: int, ghost path: seq<int>, ghost base: seq<int>) returns (ghost seg: seq<int>)
      requires Valid(path + [v]) && stack == base + [v] && v in index && v in lowlink
      requires InCalls(adjacency, v, 0, index, base, [v], lowlink[v])
      modifies this
      ensures Valid(path + [v]) && stack == base + seg && v in index && v in lowlink
      ensures InCalls(adjacency, v, |CallsOf(adjacency, v)|, index, base, seg, lowlink[v])
      ensures Keeps(old(index), index) && KeepsOthers(v, old(lowlink), lowlink)
      decreases universe - index.Keys, 4
    {
      seg := [v];
      var calls := CallsOf(adjacency, v);
      ghost var before, low := index, lowlink;
      for k := 0 to |calls|
        invariant Valid(path + [v]) && stack == base + seg && v in index && v in lowlink
        invariant InCalls(adjacency, v, k, index, base, seg, lowlink[v])
        invariant Keeps(before, index) && KeepsOthers(v, low, lowlink)
      {
        FewerLeft(universe, before, index);
        seg := FollowCall(v, k, path, base, seg);
      }
    }

    method FollowCall(v: int, k: nat, ghost path: seq<int>, ghost base: seq<int>, ghost seg: seq<int>)
      returns (ghost seg': seq<int>)
      requires Valid(path + [v]) && stack == base + seg && v in index && v in lowlink
      requires k < |CallsOf(adjacency, v)| && InCalls(adjacency, v, k, index, base, seg, lowlink[v])
      modifies this
      ensures Valid(path + [v]) && stack == base + seg' && v in index && v in lowlink
      ensures InCalls(adjacency, v, k + 1, index, base, seg', lowlink[v])
      ensures Keeps(old(index), index) && KeepsOthers(v, old(lowlink), lowlink)
      decreases universe - index.Keys, 3
    {
      var w := CallsOf(adjacency, v)[k];
      seg' := seg;
      if w !in index {
        seg' := FollowNewCall(v, k, path, base, seg);
      } else {
        KnownCall(adjacency, v, k, index, base, seg, lowlink[v]);
        if w in onStack && onStack[w] { Lower(v, index[w], path + [v]); }
      }
    }

    method FollowNewCall(v: int, k: nat, ghost path: seq<int>, ghost base: seq<int>, ghost seg: seq<int>)
      returns (ghost seg': seq<int>)
      requires Valid(path + [v]) && stack == base + seg && v in index && v in lowlink
      requires k < |CallsOf(adjacency, v)| && InCalls(adjacency, v, k, index, base, seg, lowlink[v])
      requires CallsOf(adjacency, v)[k] !in index
      modifies this
      ensures Valid(path + [v]) && stack == base + seg' && v in index && v in lowlink
      ensures InCalls(adjacency, v, k + 1, index, base, seg', lowlink[v])
      ensures Keeps(old(index), index) && KeepsOthers(v, old(lowlink), lowlink)
      decreases universe - index.Keys, 2
    {
      var w := CallsOf(adjacency, v)[k];
      ghost var before, low := index, lowlink[v];
      assert Last(path + [v]) == v && Edge(adjacency, v, w);
      StackIsAscending(adjacency, path + [v], index, stack, sccs, counter);
      StrongConnect(w, path + [v]);
      ghost var more := stack[|base + seg|..];
      Remainder(base + seg, stack);
      assert lowlink[v] == low;
      SearchedCall(adjacency, v, k, before, base, seg, low, index, more, lowlink[w]);
      seg' := seg + more;
      Regroup(base, seg, more);
      Lower(v, lowlink[w], path + [v]);
    }

    /** `lowlink.set(v, Math.min(lowlink.get(v), n))` */
    method Lower(v: int, n: int, ghost path: seq<int>)
      requires Valid(path) && v in lowlink
      modifies this`lowlink
      ensures Valid(path) && lowlink == old(lowlink)[v := Min(old(lowlink)[v], n)]
    {
      lowlink := lowlink[v := Min(lowlink[v], n)];
    }

    /** All calls of `v` followed: its component comes off the stack, or stays for a function below. */
    method Leave(v: int, ghost path: seq<int>, ghost base: seq<int>, ghost seg: seq<int>)
      requires Valid(path + [v]) && stack == base + seg && v in index && v in lowlink
      requires IsFollowed(adjacency, path, v, index, base, seg, sccs, counter)
      requires ExitsAbove(adjacency, index, base, seg, lowlink[v])
      requires IsReachedLow(adjacency, v, index, base, lowlink[v]) && lowlink[v] <= index[v]
      modifies this`stack, this`onStack, this`sccs
      ensures Valid(path) && base <= stack && ExitsAbove(adjacency, index, base, stack[|base|..], lowlink[v])
    {
      if lowlink[v] == index[v] {
        StackIsDistinct(index, stack);
        var scc := PopComponent(v, base, seg);
        TakeComponent(adjacency, path, v, index, base, seg, sccs, counter, scc);
        sccs := sccs + [scc];
        assert stack[|base|..] == [];
      } else {
        ghost var w :| w in base && w in index && index[w] == lowlink[v] && Reaches(adjacency, v, w);
        KeepSegment(adjacency, path, v, index, base, seg, sccs, counter, w);
        assert stack[|base|..] == seg;
      }
    }

    method PopComponent(v: int, ghost base: seq<int>, ghost seg: seq<int>) returns (scc: seq<int>)
      requires stack == base + seg && seg != [] && seg[0] == v && NoDuplicates(stack) && Marks(onStack, stack)
      modifies this`stack, this`onStack
      ensures stack == base && Marks(onStack, stack) && Elements(scc) == Elements(seg) && NoDuplicates(scc)
    {
      scc := [];
      ghost var n := |seg|;
      assert seg[..n] == seg && seg[n..] == [];
      while true
        invariant IsPopping(base, seg, n, stack, onStack, scc) && n > 0
        decreases n
      {
        PopOne(base, seg, n, stack, onStack, scc);
        var w := stack[|stack| - 1];
        stack := stack[..|stack| - 1];
        onStack := onStack[w := false];
        scc := scc + [w];
        n := n - 1;
        if w == v { break; }
      }
      assert seg[..0] == [] && seg[0..] == seg && base + [] == base;
    }
  }

  ghost predicate KeepsOthers(v: int, before: map<int, int>, after: map<int, int>) {
    forall x :: x in before && x != v ==> x in after && after[x] == before[x]
  }

  lemma Remainder(front: seq<int>, whole: seq<int>)
    requires front <= whole
    ensures whole == front + whole[|front|..]
  {}

  lemma Regroup(a: seq<int>, b: seq<int>, c: seq<int>)
    ensures a + b + c == a + (b + c)
  {}

  lemma MoreNumbered(before: map<int, int>, after: map<int, int>, v: int)
    requires Extends(before, after, [], v)
    ensures before.Keys + {v} <= after.Keys
  {
    forall x | x in before.Keys + {v} ensures x in after.Keys { assert x == v || x in before; }
  }

  lemma FewerLeft(universe: set<int>, before: map<int, int>, after: map<int, int>)
    requires Keeps(before, after)
    ensures universe - after.Keys <= universe - before.Keys
  {
    assert before.Keys <= after.Keys by {
      forall x | x in before.Keys ensures x in after.Keys { assert x in before; }
    }
  }

  lemma StackIsAscending(
      g: Graph, path: seq<int>, index: map<int, int>, stack: seq<int>, sccs: seq<seq<int>>, counter: int)
    requires IsSearch(g, path, index, stack, sccs, counter)
    ensures Ascends(index, stack)
  {}

  lemma StackIsDistinct(index: map<int, int>, stack: seq<int>)
    requires Ascends(index, stack)
    ensures NoDuplicates(stack)
  {}

  lemma StackWasNumbered(g: Graph, path: seq<int>, index: map<int, int>, stack: seq<int>)
    requires Ascends(index, stack)
    ensures forall x :: x in stack ==> x in index
  {}

  /** The components of everything the given functions reach, callees first. */
  method TarjanScc(g: Graph, nodes: seq<int>) returns (sccs: seq<seq<int>>)
    ensures AreComponents(g, sccs) && Done(sccs) == ReachedFrom(g, nodes)
  {
    var search := new Search(g, nodes);
    search.ConnectAll(nodes);
    sccs := search.sccs;
    AllFound(g, nodes, search.universe, search.index, search.stack, sccs, search.counter);
  }

  lemma AllFound(
      g: Graph, nodes: seq<int>, universe: set<int>, index: map<int, int>, stack: seq<int>, sccs: seq<seq<int>>,
      counter: int)
    requires IsSearch(g, [], index, stack, sccs, counter) && index.Keys <= universe == ReachedFrom(g, nodes)
    requires Elements(nodes) <= index.Keys
    ensures Done(sccs) == ReachedFrom(g, nodes)
  {
    forall x ensures x !in stack {
      assert x in index ==> !ReachesPath(g, [], index, x);
      assert x in stack ==> x in index;
    }
    assert Elements(stack) == {};
    forall w | w in ReachedFrom(g, nodes) ensures w in Done(sccs) {
      var r :| r in nodes && Reaches(g, r, w);
      assert r in Elements(nodes) && r in index.Keys;
      DoneHoldsReached(g, sccs, r, w);
    }
  }

  // ----- What the components say -----

  /** Read one by one: complete classes of mutual reachability, disjoint, each after those it calls into. */
  lemma {:induction false} ComponentsInOrder(g: Graph, sccs: seq<seq<int>>, k: nat)
    requires AreComponents(g, sccs) && k < |sccs|
    ensures IsComponent(g, sccs[k])
    ensures forall j :: 0 <= j < k ==> Elements(sccs[j]) !! Elements(sccs[k])
    ensures forall u, w :: u in sccs[k] && Edge(g, u, w) ==> exists j :: 0 <= j <= k && w in sccs[j]
    ensures Elements(sccs[k]) <= Done(sccs)
    decreases |sccs|
  {
    var n := |sccs| - 1;
    if k < n {
      ComponentsInOrder(g, sccs[..n], k);
      forall u, w | u in sccs[k] && Edge(g, u, w) ensures exists j :: 0 <= j <= k && w in sccs[j] {
        var j :| 0 <= j <= k && w in sccs[..n][j];
        assert w in sccs[j];
      }
      assert forall j :: 0 <= j < k ==> sccs[..n][j] == sccs[j];
    } else {
      forall j | 0 <= j < n ensures Elements(sccs[j]) !! Elements(sccs[n]) {
        ComponentsInOrder(g, sccs[..n], j);
        assert sccs[..n][j] == sccs[j];
      }
      forall u, w | u in sccs[n] && Edge(g, u, w) ensures exists j :: 0 <= j <= n && w in sccs[j] {
        if w !in sccs[n] {
          var j := PlaceOf(sccs[..n], w);
          assert w in sccs[j];
        }
      }
    }
  }

  lemma {:induction false} PlaceOf(sccs: seq<seq<int>>, v: int) returns (k: nat)
    requires v in Done(sccs)
    ensures k < |sccs| && v in sccs[k]
  {
    k := |sccs| - 1;
    if v !in sccs[k] { k := PlaceOf(sccs[..k], v); }
  }

  datatype SccKind = NonRecursive | DirectSelfRecursion | MutualRecursionTwo | MultiFunctionCycle

  /** `classifyScc` */
  function Classify(g: Graph, members: seq<int>): SccKind {
    if |members| == 1 then
      if Edge(g, members[0], members[0]) then DirectSelfRecursion else NonRecursive
    else if |members| == 2 then MutualRecursionTwo
    else MultiFunctionCycle
  }

  /** A component is classified as recursive exactly when its functions lie on call cycles. */
  lemma RecursiveIffOnCycle(g: Graph, c: seq<int>, v: int)
    requires IsComponent(g, c) && v in c
    ensures Classify(g, c) != NonRecursive <==> OnCycle(g, v)
  {
    if |c| == 1 {
      assert c == [v];
      if OnCycle(g, v) {
        var p :| Joins(g, p, v, v) && |p| > 1;
        assert Edge(g, v, p[1]);
        WalkSlice(g, p, 1, |p|);
        ReachesSelf(g, v);
        ReachesThenSteps(g, v, v, p[1]);
        assert Joins(g, p[1..|p|], p[1], v) && Mutual(g, v, p[1]);
        assert p[1] in c;
      }
      if Edge(g, v, v) {
        ReachesSelf(g, v);
        ReachesThenSteps(g, v, v, v);
      }
    } else {
      assert c[0] != c[1];
      var w := if c[0] == v then c[1] else c[0];
      assert w in c && Mutual(g, v, w);
      RoundTrip(g, v, w);
    }
  }

  lemma RoundTrip(g: Graph, v: int, w: int)
    requires Mutual(g, v, w) && v != w
    ensures OnCycle(g, v)
  {
    var p :| Joins(g, p, v, w);
    var q :| Joins(g, q, w, v);
    WalkConcat(g, p, q);
    assert |p + q[1..]| > 1;
  }

  ghost predicate LeadsToRecursion(g: Graph, sccs: seq<seq<int>>, v: int) {
    exists k, u :: 0 <= k < |sccs| && u in sccs[k] && Classify(g, sccs[k]) != NonRecursive && Reaches(g, v, u)
  }

  /**
   * The two analyses of recursion compared: the functions the call graph builder reports are those
   * that reach a recursive component, whether or not they belong to one.
   */
  lemma ReachesCycleIff(g: Graph, sccs: seq<seq<int>>, v: int)
    requires AreComponents(g, sccs) && v in Done(sccs)
    ensures ReachesCycle(g, v) <==> LeadsToRecursion(g, sccs, v)
  {
    if ReachesCycle(g, v) {
      var w :| Reaches(g, v, w) && OnCycle(g, w);
      DoneHoldsReached(g, sccs, v, w);
      var k := PlaceOf(sccs, w);
      ComponentsInOrder(g, sccs, k);
      RecursiveIffOnCycle(g, sccs[k], w);
    }
    if LeadsToRecursion(g, sccs, v) {
      var k, u :| 0 <= k < |sccs| && u in sccs[k] && Classify(g, sccs[k]) != NonRecursive && Reaches(g, v, u);
      ComponentsInOrder(g, sccs, k);
      RecursiveIffOnCycle(g, sccs[k], u);
    }
  }
}
