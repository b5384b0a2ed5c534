/** What `computeDominators` reads off the dominator tree: depths, children, subtree sizes, exit dominators. */
module DominatorReports {
  import opened Collections
  import opened Digraphs
  import opened PostOrders
  import opened DominatorFixpoint
  import opened ComputedDominators

  /** `idom` holds the parent of each block of the tree, and -1 for the entry. */
  ghost predicate IsParentMap(o: Order, t: Tree, idom: map<int, int>) {
    IsTree(o, t) && idom == t[o.entry := -1] && forall b :: b in t ==> b >= 0
  }

  lemma ResultIsParentMap(cfg: FunctionCfg, o: Order, t: Tree, idom: map<int, int>)
    requires IsResult(cfg, o, t, idom)
    ensures IsParentMap(o, t, idom)
  {}

  lemma ParentOf(o: Order, t: Tree, idom: map<int, int>, b: int)
    requires IsParentMap(o, t, idom) && b in t
    ensures b in idom && idom[b] == if b == o.entry then -1 else t[b]
    ensures b != o.entry ==> t[b] in t && t[b] >= 0 && o.rank[t[b]] < o.rank[b]
    ensures o.rank[b] >= 0
  {}

  // ----- Depths -----

  ghost function Level(o: Order, t: Tree, c: int): nat
    requires IsTree(o, t) && c in t
    decreases o.rank[c]
  {
    if c == o.entry then 0 else 1 + Level(o, t, t[c])
  }

  ghost function Ups(o: Order, t: Tree, c: int): set<int>
    requires IsTree(o, t) && c in t
  {
    set x | x in t && Above(o, t, x, c)
  }

  lemma {:induction false} LevelCountsUps(o: Order, t: Tree, c: int)
    requires IsTree(o, t) && c in t
    ensures |Ups(o, t, c)| == Level(o, t, c) + 1
    decreases o.rank[c]
  {
    if c == o.entry {
      assert Ups(o, t, c) == {c};
    } else {
      LevelCountsUps(o, t, t[c]);
      if Above(o, t, c, t[c]) { AboveRank(o, t, c, t[c]); }
      assert Ups(o, t, c) == Ups(o, t, t[c]) + {c};
    }
  }

  /** The blocks that dominate `b`, itself included. */
  ghost function Dominators(cfg: FunctionCfg, b: int): set<int> {
    set d | d in FlowOf(cfg) && OnEveryWalk(FlowOf(cfg), cfg.entryBlockId, d, b)
  }

  lemma LevelCountsDominators(cfg: FunctionCfg, o: Order, t: Tree, idom: map<int, int>, b: int)
    requires IsResult(cfg, o, t, idom) && b in t
    ensures |Dominators(cfg, b)| == Level(o, t, b) + 1
  {
    FixpointIsExact(FlowOf(cfg), o, t, b);
    LevelCountsUps(o, t, b);
    forall d ensures d in Dominators(cfg, b) <==> d in Ups(o, t, b) {
      if Above(o, t, d, b) { AboveRank(o, t, d, b); }
    }
    assert Dominators(cfg, b) == Ups(o, t, b);
  }

  /** The blocks whose immediate dominator is `v`. */
  ghost function Children(o: Order, t: Tree, v: int): set<int> {
    set c | c in t && c != o.entry && t[c] == v
  }

  /** The breadth-first sweep of the tree: `done` are the blocks taken from the queue. */
  ghost predicate IsSweep(o: Order, t: Tree, done: set<int>, queue: seq<int>, depth: map<int, int>) {
    && IsTree(o, t) && done <= t.Keys && NoDuplicates(queue) && Elements(queue) !! done
    && depth.Keys == done + Elements(queue) && o.entry in depth
    && AtLevels(o, t, depth) && HangFromDone(o, t, done, depth.Keys)
  }

  ghost predicate AtLevels(o: Order, t: Tree, depth: map<int, int>)
    requires IsTree(o, t)
  {
    forall c :: c in depth ==> c in t && depth[c] == Level(o, t, c)
  }

  /** Met are the blocks whose parent is done, and the entry. */
  ghost predicate HangFromDone(o: Order, t: Tree, done: set<int>, met: set<int>)
    requires IsTree(o, t)
  {
    forall c :: c in t && c != o.entry ==> (c in met <==> t[c] in done)
  }

  lemma SweepStep(o: Order, t: Tree, done: set<int>, queue: seq<int>, depth: map<int, int>, children: seq<int>,
      more: map<int, int>)
    requires IsSweep(o, t, done, queue, depth) && queue != []
    requires NoDuplicates(children) && Elements(children) == Children(o, t, queue[0])
    requires more.Keys == depth.Keys + Elements(children)
    requires forall c :: c in more ==> more[c] == if c in Elements(children) then depth[queue[0]] + 1 else depth[c]
    ensures queue[0] in t && queue[0] !in done
    ensures IsSweep(o, t, done + {queue[0]}, queue[1..] + children, more)
  {
    var node := queue[0];
    assert node in Elements(queue);
    ChildrenAreNew(o, t, done, queue, depth, children);
    QueueAfter(queue, children, done);
    ChildrenAtLevel(o, t, depth, more, node);
    ChildrenHang(o, t, done, depth.Keys, node);
  }

  lemma ChildrenAtLevel(o: Order, t: Tree, depth: map<int, int>, more: map<int, int>, node: int)
    requires IsTree(o, t) && AtLevels(o, t, depth) && node in depth
    requires more.Keys == depth.Keys + Children(o, t, node)
    requires forall c :: c in more ==> more[c] == if c in Children(o, t, node) then depth[node] + 1 else depth[c]
    ensures AtLevels(o, t, more)
  {}

  lemma ChildrenHang(o: Order, t: Tree, done: set<int>, met: set<int>, node: int)
    requires IsTree(o, t) && HangFromDone(o, t, done, met)
    ensures HangFromDone(o, t, done + {node}, met + Children(o, t, node))
  {}

  lemma QueueAfter(queue: seq<int>, children: seq<int>, done: set<int>)
    requires queue != [] && NoDuplicates(queue) && NoDuplicates(children) && Elements(queue) !! done
    requires Elements(children) !! done + Elements(queue)
    ensures var longer := queue[1..] + children;
      && NoDuplicates(longer) && Elements(longer) !! done + {queue[0]}
      && done + {queue[0]} + Elements(longer) == done + Elements(queue) + Elements(children)
  {
    var node := queue[0];
    assert Elements(queue) == Elements(queue[1..]) + {node};
    assert Elements(queue[1..] + children) == Elements(queue[1..]) + Elements(children);
    NodeLeavesQueue(queue);
    forall x | x in queue[1..] ensures x !in children {
      assert x in Elements(queue[1..]) && (x in children ==> x in Elements(children));
    }
    JoinedDistinct(queue[1..], children);
  }

  lemma NodeLeavesQueue(queue: seq<int>)
    requires queue != [] && NoDuplicates(queue)
    ensures NoDuplicates(queue[1..]) && queue[0] !in Elements(queue[1..])
  {}

  lemma ChildrenAreNew(
      o: Order, t: Tree, done: set<int>, queue: seq<int>, depth: map<int, int>, children: seq<int>)
    requires IsSweep(o, t, done, queue, depth) && queue != [] && Elements(children) == Children(o, t, queue[0])
    ensures Elements(children) !! depth.Keys
  {
    assert queue[0] in Elements(queue);
    forall c | c in Elements(children) ensures c !in depth.Keys { assert c in Children(o, t, queue[0]); }
  }

  /** With the queue empty every block has its level. */
  lemma {:induction false} SweepEnds(o: Order, t: Tree, done: set<int>, depth: map<int, int>, c: int)
    requires IsSweep(o, t, done, [], depth) && c in t
    ensures c in depth && c in done
    decreases o.rank[c]
  {
    assert Elements<int>([]) == {};
    if c != o.entry { SweepEnds(o, t, done, depth, t[c]); }
  }

  function ChildrenIn(idom: map<int, int>, entry: int, candidates: seq<int>, node: int): (r: seq<int>)
    requires Elements(candidates) <= idom.Keys
    ensures forall c :: c in r <==> c in candidates && c != entry && idom[c] == node
  {
    if candidates == [] then []
    else
      var n := |candidates| - 1;
      assert candidates[n] in Elements(candidates);
      assert Elements(candidates[..n]) <= Elements(candidates);
      ChildrenIn(idom, entry, candidates[..n], node) +
        if idom[candidates[n]] == node && candidates[n] != entry then [candidates[n]] else []
  }

  lemma {:induction false} ChildrenInDistinct(idom: map<int, int>, entry: int, candidates: seq<int>, node: int)
    requires Elements(candidates) <= idom.Keys && NoDuplicates(candidates)
    ensures NoDuplicates(ChildrenIn(idom, entry, candidates, node))
  {
    if candidates != [] {
      var n := |candidates| - 1;
      assert Elements(candidates[..n]) <= Elements(candidates);
      ChildrenInDistinct(idom, entry, candidates[..n], node);
      assert candidates[n] !in candidates[..n];
    }
  }

  lemma ChildrenInAre(o: Order, t: Tree, idom: map<int, int>, candidates: seq<int>, node: int)
    requires IsParentMap(o, t, idom) && Elements(candidates) == idom.Keys && NoDuplicates(candidates)
    ensures var r := ChildrenIn(idom, o.entry, candidates, node);
      NoDuplicates(r) && Elements(r) == Children(o, t, node)
  {
    var r := ChildrenIn(idom, o.entry, candidates, node);
    ChildrenInDistinct(idom, o.entry, candidates, node);
    forall c ensures c in Elements(r) <==> c in Children(o, t, node) {
      assert c in candidates <==> c in Elements(candidates);
    }
  }

  /** Each listed child at one more than the depth of its parent. */
  ghost predicate DepthsAdded(depth: map<int, int>, more: map<int, int>, children: seq<int>, d: int) {
    && more.Keys == depth.Keys + Elements(children)
    && forall c :: c in more ==> more[c] == if c in Elements(children) then d else depth[c]
  }

  lemma ChildrenInNext(idom: map<int, int>, entry: int, candidates: seq<int>, node: int, k: nat)
    requires Elements(candidates) <= idom.Keys && k < |candidates|
    ensures candidates[k] in idom
    ensures Elements(candidates[..k]) <= idom.Keys && Elements(candidates[..k + 1]) <= idom.Keys
    ensures ChildrenIn(idom, entry, candidates[..k + 1], node) ==
      ChildrenIn(idom, entry, candidates[..k], node) +
        if idom[candidates[k]] == node && candidates[k] != entry then [candidates[k]] else []
  {
    assert candidates[k] in Elements(candidates);
    assert Elements(candidates[..k]) <= Elements(candidates) && Elements(candidates[..k + 1]) <= Elements(candidates);
    assert candidates[..k + 1][..k] == candidates[..k];
  }

  /** Depths, queue and child set after visiting the children `r`. */
  ghost predicate IsVisit(
      depth: map<int, int>, queue: seq<int>, d: int, r: seq<int>, more: map<int, int>, longer: seq<int>,
      children: set<int>) {
    DepthsAdded(depth, more, r, d) && longer == queue + r && children == Elements(r)
  }

  lemma VisitOne(
      depth: map<int, int>, queue: seq<int>, d: int, r: seq<int>, more: map<int, int>, longer: seq<int>,
      children: set<int>, c: int)
    requires IsVisit(depth, queue, d, r, more, longer, children)
    ensures IsVisit(depth, queue, d, r + [c], more[c := d], longer + [c], children + {c})
  {
    assert Elements(r + [c]) == Elements(r) + {c};
    assert queue + r + [c] == queue + (r + [c]);
  }

  /** The loop over the candidates for children of one block. */
  method VisitChildren(
      idom: map<int, int>, entry: int, candidates: seq<int>, node: int, depth: map<int, int>, queue: seq<int>)
    returns (more: map<int, int>, longer: seq<int>, children: set<int>)
    requires Elements(candidates) <= idom.Keys && node in depth
    ensures IsVisit(
      depth, queue, depth[node] + 1, ChildrenIn(idom, entry, candidates, node), more, longer, children)
  {
    more, longer, children := depth, queue, {};
    var d := depth[node];
    for k := 0 to |candidates|
      invariant IsVisited(idom, entry, candidates, node, k, depth, queue, more, longer, children)
    {
      var c := candidates[k];
      VisitNext(idom, entry, candidates, node, k, depth, queue, more, longer, children);
      if idom[c] == node && c != entry {
        more, longer, children := more[c := d + 1], longer + [c], children + {c};
      }
    }
    assert candidates[..|candidates|] == candidates;
  }

  /** The first `k` candidates have been looked at. */
  ghost predicate IsVisited(
      idom: map<int, int>, entry: int, candidates: seq<int>, node: int, k: int, depth: map<int, int>, queue: seq<int>,
      more: map<int, int>, longer: seq<int>, children: set<int>)
    requires node in depth && 0 <= k <= |candidates|
  {
    && Elements(candidates[..k]) <= idom.Keys
    && IsVisit(
         depth, queue, depth[node] + 1, ChildrenIn(idom, entry, candidates[..k], node), more, longer, children)
  }

  lemma VisitNext(
      idom: map<int, int>, entry: int, candidates: seq<int>, node: int, k: nat, depth: map<int, int>, queue: seq<int>,
      more: map<int, int>, longer: seq<int>, children: set<int>)
    requires node in depth && k < |candidates| && Elements(candidates) <= idom.Keys
    requires IsVisited(idom, entry, candidates, node, k, depth, queue, more, longer, children)
    ensures candidates[k] in idom
    ensures var c := candidates[k];
      if idom[c] == node && c != entry then
        IsVisited(
          idom, entry, candidates, node, k + 1, depth, queue, more[c := depth[node] + 1], longer + [c], children + {c})
      else
        IsVisited(idom, entry, candidates, node, k + 1, depth, queue, more, longer, children)
  {
    var c, r := candidates[k], ChildrenIn(idom, entry, candidates[..k], node);
    ChildrenInNext(idom, entry, candidates, node, k);
    VisitOne(depth, queue, depth[node] + 1, r, more, longer, children, c);
  }

  ghost predicate ChildrenRecorded(o: Order, t: Tree, done: set<int>, dominatedBy: map<int, set<int>>) {
    && dominatedBy.Keys == t.Keys
    && forall v :: v in dominatedBy ==> dominatedBy[v] == if v in done then Children(o, t, v) else {}
  }

  lemma SweepBegins(o: Order, t: Tree)
    requires IsTree(o, t)
    ensures IsSweep(o, t, {}, [o.entry], map[o.entry := 0])
  {
    assert Elements([o.entry]) == {o.entry};
  }

  lemma ChildrenAdded(
      o: Order, t: Tree, done: set<int>, dominatedBy: map<int, set<int>>, node: int, children: set<int>)
    requires ChildrenRecorded(o, t, done, dominatedBy) && node in t && node !in done
    requires children == Children(o, t, node)
    ensures node in dominatedBy
    ensures ChildrenRecorded(o, t, done + {node}, dominatedBy[node := dominatedBy[node] + children])
  {
    assert dominatedBy[node] == {};
    assert dominatedBy[node := dominatedBy[node] + children].Keys == t.Keys;
  }

  /** The body of the sweep. */
  method SweepNode(
      entry: int, ghost o: Order, ghost t: Tree, idom: map<int, int>, candidates: seq<int>, ghost done: set<int>,
      queue: seq<int>, depth: map<int, int>, dominatedBy: map<int, set<int>>)
    returns (longer: seq<int>, more: map<int, int>, recorded: map<int, set<int>>)
    requires IsParentMap(o, t, idom) && o.entry == entry
    requires Elements(candidates) == idom.Keys && NoDuplicates(candidates)
    requires queue != [] && IsSweep(o, t, done, queue, depth) && ChildrenRecorded(o, t, done, dominatedBy)
    ensures queue[0] in t && queue[0] !in done
    ensures IsSweep(o, t, done + {queue[0]}, longer, more) && ChildrenRecorded(o, t, done + {queue[0]}, recorded)
  {
    var node := queue[0];
    var children;
    ghost var r := ChildrenIn(idom, entry, candidates, node);
    ChildrenInAre(o, t, idom, candidates, node);
    NodeIsInDepth(o, t, done, queue, depth);
    more, longer, children := VisitChildren(idom, entry, candidates, node, depth, queue[1..]);
    SweepStep(o, t, done, queue, depth, r, more);
    ChildrenAdded(o, t, done, dominatedBy, node, children);
    recorded := dominatedBy[node := dominatedBy[node] + children];
  }

  lemma NodeIsInDepth(o: Order, t: Tree, done: set<int>, queue: seq<int>, depth: map<int, int>)
    requires queue != [] && IsSweep(o, t, done, queue, depth)
    ensures queue[0] in depth && queue[0] in t && queue[0] !in done
  {
    var node := queue[0];
    assert node in Elements(queue);
    assert node in depth.Keys;
    assert depth[node] == Level(o, t, node);
  }

  method SweepDepths(entry: int, ghost o: Order, ghost t: Tree, idom: map<int, int>)
    returns (depth: map<int, int>, dominatedBy: map<int, set<int>>)
    requires IsParentMap(o, t, idom) && o.entry == entry
    ensures HasLevels(o, t, depth) && ChildrenRecorded(o, t, t.Keys, dominatedBy)
  {
    var candidates := Ascending(idom.Keys);
    dominatedBy := map id | id in idom :: {};
    depth := map[entry := 0];
    var queue := [entry];
    SweepBegins(o, t);
    ghost var done := {};
    while queue != []
      invariant IsSweep(o, t, done, queue, depth) && ChildrenRecorded(o, t, done, dominatedBy)
      decreases t.Keys - done
    {
      ghost var node := queue[0];
      queue, depth, dominatedBy := SweepNode(entry, o, t, idom, candidates, done, queue, depth, dominatedBy);
      done := done + {node};
    }
    SweepIsComplete(o, t, done, depth);
  }

  ghost predicate HasLevels(o: Order, t: Tree, depth: map<int, int>)
    requires IsTree(o, t)
  {
    depth.Keys == t.Keys && forall b :: b in t ==> depth[b] == Level(o, t, b)
  }

  lemma SweepIsComplete(o: Order, t: Tree, done: set<int>, depth: map<int, int>)
    requires IsSweep(o, t, done, [], depth)
    ensures HasLevels(o, t, depth) && done == t.Keys
  {
    forall b | b in t ensures b in depth && b in done { SweepEnds(o, t, done, depth, b); }
    forall b | b in depth ensures b in t {}
    assert depth.Keys == t.Keys;
  }

  // ----- Subtree sizes -----

  ghost function Subtree(o: Order, t: Tree, v: int): set<int>
    requires IsTree(o, t)
  {
    set c | c in t && Above(o, t, v, c)
  }

  /** `w` is a child of `v` from place `i` on, and `c` stands under it. */
  ghost predicate IsUnder(o: Order, t: Tree, v: int, i: int, w: int, c: int)
    requires IsTree(o, t)
  {
    c in t && w in t && w != o.entry && t[w] == v && o.rank[w] >= i && Above(o, t, w, c)
  }

  /** What stands under the children of `v` from place `i` on. */
  ghost function Gathered(o: Order, t: Tree, v: int, i: int): set<int>
    requires IsTree(o, t)
  {
    set c | c in t && exists w :: IsUnder(o, t, v, i, w, c)
  }

  lemma {:induction false} UnderSomeChild(o: Order, t: Tree, v: int, c: int) returns (w: int)
    requires IsTree(o, t) && v in t && c in t && Above(o, t, v, c) && v != c
    ensures IsUnder(o, t, v, o.rank[v] + 1, w, c)
    decreases o.rank[c]
  {
    if t[c] == v {
      w := c;
    } else {
      w := UnderSomeChild(o, t, v, t[c]);
    }
  }

  /** With all its children gathered, a block completes its subtree. */
  lemma SubtreeIsGathered(o: Order, t: Tree, v: int)
    requires IsTree(o, t) && v in t
    ensures Subtree(o, t, v) == Gathered(o, t, v, o.rank[v] + 1) + {v} && v !in Gathered(o, t, v, o.rank[v] + 1)
  {
    var n := o.rank[v] + 1;
    forall c ensures c in Subtree(o, t, v) <==> c in Gathered(o, t, v, n) + {v} {
      if c in Subtree(o, t, v) && c != v { var w := UnderSomeChild(o, t, v, c); }
      if c in Gathered(o, t, v, n) {
        var w :| IsUnder(o, t, v, n, w, c);
        AboveTransitive(o, t, v, w, c);
      }
    }
    if v in Gathered(o, t, v, n) {
      var w :| IsUnder(o, t, v, n, w, v);
      AboveRank(o, t, w, v);
    }
  }

  /** Two children of one block have nothing in common. */
  lemma ChildrenApart(o: Order, t: Tree, a: int, b: int, c: int)
    requires IsTree(o, t) && c in t && a in t && b in t && a != o.entry && b != o.entry && a != b && t[a] == t[b]
    requires Above(o, t, a, c)
    ensures !Above(o, t, b, c)
  {
    if Above(o, t, b, c) {
      if o.rank[a] <= o.rank[b] {
        AboveInOrder(o, t, a, b, c);
        AboveRank(o, t, a, t[b]);
      } else {
        AboveInOrder(o, t, b, a, c);
        AboveRank(o, t, b, t[a]);
      }
    }
  }

  /** The block at place `i` adds its subtree to its parent and to nothing else. */
  lemma GathersOne(o: Order, t: Tree, v: int, i: int, b: int)
    requires IsTree(o, t) && v in t && b in t && o.rank[b] == i
    ensures Gathered(o, t, v, i) ==
      if b != o.entry && t[b] == v then Gathered(o, t, v, i + 1) + Subtree(o, t, b) else Gathered(o, t, v, i + 1)
    ensures b != o.entry && t[b] == v ==> Gathered(o, t, v, i + 1) !! Subtree(o, t, b)
  {
    forall c
      ensures c in Gathered(o, t, v, i) <==>
        c in Gathered(o, t, v, i + 1) || (b != o.entry && t[b] == v && c in Subtree(o, t, b))
    {
      if c in Gathered(o, t, v, i) {
        var w :| IsUnder(o, t, v, i, w, c);
        if o.rank[w] == i { assert w == b; } else { assert IsUnder(o, t, v, i + 1, w, c); }
      }
      if c in Gathered(o, t, v, i + 1) {
        var w :| IsUnder(o, t, v, i + 1, w, c);
        assert IsUnder(o, t, v, i, w, c);
      }
      if b != o.entry && t[b] == v && c in Subtree(o, t, b) { assert IsUnder(o, t, v, i, b, c); }
    }
    if b != o.entry && t[b] == v {
      forall c | c in Gathered(o, t, v, i + 1) ensures c !in Subtree(o, t, b) {
        var w :| IsUnder(o, t, v, i + 1, w, c);
        ChildrenApart(o, t, w, b, c);
      }
    }
  }

  /** What is gathered under `v` with the blocks from place `i` on complete. */
  ghost function Part(o: Order, t: Tree, v: int, i: int): set<int>
    requires IsTree(o, t) && v in t
  {
    if o.rank[v] >= i then Subtree(o, t, v) else Gathered(o, t, v, i)
  }

  ghost predicate AreParts(o: Order, t: Tree, parts: map<int, set<int>>, i: int)
    requires IsTree(o, t)
  {
    parts.Keys == t.Keys && forall v :: v in t ==> parts[v] == Part(o, t, v, i)
  }

  ghost predicate AreCounts(parts: map<int, set<int>>, size: map<int, int>) {
    parts.Keys == size.Keys && forall v :: v in parts ==> size[v] == |parts[v]|
  }

  /** `b` is added to its own part, and that part to the part of the parent. */
  ghost function Merged(parts: map<int, set<int>>, b: int, parent: Option<int>): (r: map<int, set<int>>)
    requires b in parts && (parent.Some? ==> parent.value in parts)
    ensures r.Keys == parts.Keys
  {
    var merged := parts[b := parts[b] + {b}];
    if parent.None? then merged else merged[parent.value := merged[parent.value] + merged[b]]
  }

  function CountedUp(size: map<int, int>, b: int, parent: Option<int>): (r: map<int, int>)
    requires b in size && (parent.Some? ==> parent.value in size)
    ensures r.Keys == size.Keys
  {
    var counted := size[b := size[b] + 1];
    if parent.None? then counted else counted[parent.value := counted[parent.value] + counted[b]]
  }

  /** Nothing is counted twice. */
  ghost predicate MergesApart(parts: map<int, set<int>>, b: int, parent: Option<int>) {
    && b in parts && b !in parts[b]
    && (parent.Some? ==>
         parent.value in parts && parent.value != b && b !in parts[parent.value] && parts[parent.value] !! parts[b])
  }

  lemma CountsStep(parts: map<int, set<int>>, size: map<int, int>, b: int, parent: Option<int>)
    requires AreCounts(parts, size) && MergesApart(parts, b, parent)
    ensures AreCounts(Merged(parts, b, parent), CountedUp(size, b, parent))
  {
    if parent.Some? { JoinedSize(parts[parent.value], parts[b] + {b}); }
  }

  lemma JoinedSize<T>(a: set<T>, b: set<T>)
    ensures a !! b ==> |a + b| == |a| + |b|
  {}

  ghost function ParentIn(o: Order, t: Tree, b: int): (parent: Option<int>)
    requires IsTree(o, t) && b in t
    ensures parent.Some? ==> parent.value in t && parent.value != b
  {
    if b == o.entry then None else Some(t[b])
  }

  lemma PartsStep(o: Order, t: Tree, parts: map<int, set<int>>, b: int, i: int)
    requires IsTree(o, t) && b in t && o.rank[b] == i && AreParts(o, t, parts, i + 1)
    ensures AreParts(o, t, Merged(parts, b, ParentIn(o, t, b)), i)
    ensures MergesApart(parts, b, ParentIn(o, t, b))
  {
    PartOfBlock(o, t, b, i);
    if b != o.entry { PartOfParent(o, t, b, t[b], i); }
    forall v | v in t && v != b && ParentIn(o, t, b) != Some(v) ensures Part(o, t, v, i) == Part(o, t, v, i + 1) {
      PartOfOther(o, t, b, v, i);
    }
  }

  lemma PartOfBlock(o: Order, t: Tree, b: int, i: int)
    requires IsTree(o, t) && b in t && o.rank[b] == i
    ensures Part(o, t, b, i) == Part(o, t, b, i + 1) + {b} && b !in Part(o, t, b, i + 1)
  {
    SubtreeIsGathered(o, t, b);
  }

  lemma PartOfParent(o: Order, t: Tree, b: int, v: int, i: int)
    requires IsTree(o, t) && b in t && b != o.entry && v == t[b] && o.rank[b] == i
    ensures v in t && v != b
    ensures Part(o, t, v, i) == Part(o, t, v, i + 1) + Part(o, t, b, i) && Part(o, t, v, i + 1) !! Part(o, t, b, i)
  {
    GathersOne(o, t, v, i, b);
  }

  lemma PartOfOther(o: Order, t: Tree, b: int, v: int, i: int)
    requires IsTree(o, t) && b in t && v in t && o.rank[b] == i && v != b && ParentIn(o, t, b) != Some(v)
    ensures Part(o, t, v, i) == Part(o, t, v, i + 1)
  {
    GathersOne(o, t, v, i, b);
  }

  method SubtreeSizes(rpo: seq<int>, ghost o: Order, ghost t: Tree, idom: map<int, int>)
    returns (size: map<int, int>, ghost parts: map<int, set<int>>)
    requires IsParentMap(o, t, idom) && t.Keys == o.rank.Keys && IsIndex(rpo, o.rank)
    ensures AreParts(o, t, parts, 0) && AreCounts(parts, size)
  {
    size := map id | id in idom :: 0;
    parts := map id | id in t :: {};
    NothingCounted(o, rpo, t, parts, size);
    for i := |rpo| downto 0
      invariant AreParts(o, t, parts, i) && AreCounts(parts, size)
    {
      ListedAt(o, rpo, t, i);
      size, parts := CountBlock(o, t, idom, size, parts, rpo[i], i);
    }
  }

  lemma ListedAt(o: Order, rpo: seq<int>, t: Tree, i: nat)
    requires t.Keys == o.rank.Keys && IsIndex(rpo, o.rank) && i < |rpo|
    ensures rpo[i] in t && rpo[i] in o.rank && o.rank[rpo[i]] == i
  {}

  lemma NothingCounted(o: Order, rpo: seq<int>, t: Tree, parts: map<int, set<int>>, size: map<int, int>)
    requires IsTree(o, t) && IsIndex(rpo, o.rank) && parts.Keys == size.Keys == t.Keys
    requires forall v :: v in t ==> parts[v] == {} && size[v] == 0
    ensures AreParts(o, t, parts, |rpo|) && AreCounts(parts, size)
  {
    NothingGathered(o, rpo, t);
  }

  lemma NothingGathered(o: Order, rpo: seq<int>, t: Tree)
    requires IsTree(o, t) && IsIndex(rpo, o.rank)
    ensures forall v :: v in t ==> Part(o, t, v, |rpo|) == {}
  {
    forall v | v in t ensures o.rank[v] < |rpo| { RankIsPlace(rpo, o.rank, v); }
  }

  /** Counts the block itself and passes its size on to its parent. */
  method CountBlock(
      ghost o: Order, ghost t: Tree, idom: map<int, int>, size: map<int, int>, ghost parts: map<int, set<int>>, id: int,
      ghost i: int)
    returns (counted: map<int, int>, ghost merged: map<int, set<int>>)
    requires IsParentMap(o, t, idom) && id in t && o.rank[id] == i
    requires AreParts(o, t, parts, i + 1) && AreCounts(parts, size)
    ensures AreParts(o, t, merged, i) && AreCounts(merged, counted)
  {
    ghost var above := ParentIn(o, t, id);
    PartsStep(o, t, parts, id, i);
    CountsStep(parts, size, id, above);
    merged := Merged(parts, id, above);
    ParentOf(o, t, idom, id);
    counted := size[id := size[id] + 1];
    var parent := idom[id];
    if parent != -1 { counted := counted[parent := counted[parent] + counted[id]]; }
    assert counted == CountedUp(size, id, above);
  }

  /** The reachable blocks that `v` dominates, itself included. */
  ghost function Dominated(cfg: FunctionCfg, v: int): set<int> {
    set c | c in ReachableSet(cfg) && OnEveryWalk(FlowOf(cfg), cfg.entryBlockId, v, c)
  }

  lemma SubtreeIsDominated(cfg: FunctionCfg, o: Order, t: Tree, idom: map<int, int>, v: int)
    requires IsResult(cfg, o, t, idom) && cfg.entryBlockId in FlowOf(cfg) && v in t
    ensures Subtree(o, t, v) == Dominated(cfg, v)
  {
    forall c ensures c in Subtree(o, t, v) <==> c in Dominated(cfg, v) {
      InReachableSet(cfg, c);
      if c in t { FixpointIsExact(FlowOf(cfg), o, t, c); }
    }
  }

  // ----- Walking up -----

  /** Whether the walk up from `from` meets `candidate`. */
  method MeetsOnTheWayUp(ghost o: Order, ghost t: Tree, idom: map<int, int>, candidate: int, from: int)
    returns (found: bool)
    requires IsParentMap(o, t, idom) && from in t && candidate in t
    ensures found <==> Above(o, t, candidate, from)
  {
    var cursor := from;
    while cursor != -1
      invariant cursor != -1 ==> cursor in t && (Above(o, t, candidate, from) <==> Above(o, t, candidate, cursor))
      invariant cursor == -1 ==> !Above(o, t, candidate, from)
      decreases if cursor == -1 then 0 else o.rank[cursor] + 1
    {
      if cursor == candidate { return true; }
      cursor := idom[cursor];
    }
    return false;
  }

  predicate IsExit(b: CfgBlock) { b.successors == [] || b.isTerminating }

  function ExitsIn(cfg: FunctionCfg, rpo: seq<int>): (r: seq<int>)
    ensures forall x :: x in r <==> x in rpo && x in FlowOf(cfg) && IsExit(cfg.blocks[x])
  {
    if rpo == [] then []
    else
      var n := |rpo| - 1;
      ExitsIn(cfg, rpo[..n]) + if rpo[n] in FlowOf(cfg) && IsExit(cfg.blocks[rpo[n]]) then [rpo[n]] else []
  }

  /** The blocks that dominate every reachable exit block, when there is one. */
  ghost predicate DominatesExits(cfg: FunctionCfg, c: int) {
    && (exists x :: IsReachableExit(cfg, x))
    && forall x :: IsReachableExit(cfg, x) ==> OnEveryWalk(FlowOf(cfg), cfg.entryBlockId, c, x)
  }

  ghost predicate IsReachableExit(cfg: FunctionCfg, x: int) {
    && x in ReachableSet(cfg) && 0 <= x < |cfg.blocks|
    && (cfg.blocks[x].successors == [] || cfg.blocks[x].isTerminating)
  }

  lemma ExitsAreReachableExits(cfg: FunctionCfg, o: Order, rpo: seq<int>)
    requires IsListed(FlowOf(cfg), o, rpo) && o.entry == cfg.entryBlockId && o.entry in FlowOf(cfg)
    ensures forall x :: x in ExitsIn(cfg, rpo) <==> IsReachableExit(cfg, x)
  {
    forall x ensures x in ExitsIn(cfg, rpo) <==> IsReachableExit(cfg, x) { InReachableSet(cfg, x); }
  }

  predicate AllIn(xs: seq<int>, t: Tree) { forall k :: 0 <= k < |xs| ==> xs[k] in t }

  ghost predicate AboveEach(o: Order, t: Tree, c: int, xs: seq<int>)
    requires IsTree(o, t) && AllIn(xs, t)
  {
    forall k :: 0 <= k < |xs| ==> Above(o, t, c, xs[k])
  }

  lemma AboveOneMore(o: Order, t: Tree, c: int, xs: seq<int>, k: nat)
    requires IsTree(o, t) && AllIn(xs, t) && k < |xs|
    ensures xs[k] in t && AllIn(xs[..k], t) && AllIn(xs[..k + 1], t)
    ensures AboveEach(o, t, c, xs[..k + 1]) <==> AboveEach(o, t, c, xs[..k]) && Above(o, t, c, xs[k])
  {
    if AboveEach(o, t, c, xs[..k + 1]) { assert Above(o, t, c, xs[..k + 1][k]); }
  }

  method MeetsAll(ghost o: Order, ghost t: Tree, idom: map<int, int>, candidate: int, exits: seq<int>)
    returns (all: bool)
    requires IsParentMap(o, t, idom) && candidate in t && AllIn(exits, t)
    ensures all <==> AboveEach(o, t, candidate, exits)
  {
    for k := 0 to |exits|
      invariant AllIn(exits[..k], t) && AboveEach(o, t, candidate, exits[..k])
    {
      AboveOneMore(o, t, candidate, exits, k);
      var found := MeetsOnTheWayUp(o, t, idom, candidate, exits[k]);
      if !found { return false; }
    }
    assert exits[..|exits|] == exits;
    return true;
  }

  ghost predicate IsKept(o: Order, t: Tree, exits: seq<int>, candidates: seq<int>, r: set<int>)
    requires IsTree(o, t) && AllIn(exits, t)
  {
    forall c :: c in r <==> c in candidates && c in t && AboveEach(o, t, c, exits)
  }

  lemma KeepOne(o: Order, t: Tree, exits: seq<int>, candidates: seq<int>, k: nat, r: set<int>)
    requires IsTree(o, t) && AllIn(exits, t) && k < |candidates| && candidates[k] in t
    requires IsKept(o, t, exits, candidates[..k], r)
    ensures var c := candidates[k];
      IsKept(o, t, exits, candidates[..k + 1], if AboveEach(o, t, c, exits) then r + {c} else r)
  {
    assert candidates[..k + 1] == candidates[..k] + [candidates[k]];
  }

  method KeepDominators(
      ghost o: Order, ghost t: Tree, idom: map<int, int>, exits: seq<int>, candidates: seq<int>)
    returns (r: set<int>)
    requires IsParentMap(o, t, idom) && AllIn(exits, t) && AllIn(candidates, t)
    ensures IsKept(o, t, exits, candidates, r)
  {
    r := {};
    for k := 0 to |candidates|
      invariant IsKept(o, t, exits, candidates[..k], r)
    {
      var all := MeetsAll(o, t, idom, candidates[k], exits);
      KeepOne(o, t, exits, candidates, k, r);
      if all { r := r + {candidates[k]}; }
    }
    assert candidates[..|candidates|] == candidates;
  }

  /** The candidates kept are those above all exits. */
  method ExitDominators(cfg: FunctionCfg, o: Order, rpo: seq<int>, idom: map<int, int>, ghost t: Tree)
    returns (r: set<int>)
    requires IsResult(cfg, o, t, idom) && IsListed(FlowOf(cfg), o, rpo) && o.entry in FlowOf(cfg)
    ensures AreExitDominators(cfg, t, r)
  {
    var exits, candidates := ExitsIn(cfg, rpo), Ascending(idom.Keys);
    WalksFromExits(cfg, o, t, idom, rpo);
    if exits == [] {
      NoExit(cfg, o, rpo, t);
      return {};
    }
    r := KeepDominators(o, t, idom, exits, candidates);
    KeptDominateExits(cfg, o, t, idom, rpo, r);
  }

  ghost predicate AreExitDominators(cfg: FunctionCfg, t: Tree, r: set<int>) {
    forall c :: c in r <==> c in t && DominatesExits(cfg, c)
  }

  lemma WalksFromExits(cfg: FunctionCfg, o: Order, t: Tree, idom: map<int, int>, rpo: seq<int>)
    requires IsResult(cfg, o, t, idom) && IsListed(FlowOf(cfg), o, rpo) && o.entry in FlowOf(cfg)
    ensures IsParentMap(o, t, idom) && AllIn(ExitsIn(cfg, rpo), t) && AllIn(Ascending(idom.Keys), t)
  {
    ResultIsParentMap(cfg, o, t, idom);
    ExitsInTree(cfg, o, t, idom, rpo);
    CandidatesInTree(t, idom, Ascending(idom.Keys));
  }

  lemma CandidatesInTree(t: Tree, idom: map<int, int>, candidates: seq<int>)
    requires idom.Keys == t.Keys && Elements(candidates) == idom.Keys
    ensures AllIn(candidates, t)
  {
    forall k | 0 <= k < |candidates| ensures candidates[k] in t { assert candidates[k] in Elements(candidates); }
  }

  lemma NoExit(cfg: FunctionCfg, o: Order, rpo: seq<int>, t: Tree)
    requires IsListed(FlowOf(cfg), o, rpo) && o.entry == cfg.entryBlockId && o.entry in FlowOf(cfg)
    requires ExitsIn(cfg, rpo) == []
    ensures AreExitDominators(cfg, t, {})
  {
    ExitsAreReachableExits(cfg, o, rpo);
  }

  lemma ExitsInTree(cfg: FunctionCfg, o: Order, t: Tree, idom: map<int, int>, rpo: seq<int>)
    requires IsResult(cfg, o, t, idom) && IsListed(FlowOf(cfg), o, rpo) && o.entry in FlowOf(cfg)
    ensures AllIn(ExitsIn(cfg, rpo), t)
  {
    var exits := ExitsIn(cfg, rpo);
    forall k | 0 <= k < |exits| ensures exits[k] in t {
      var x := exits[k];
      assert x in exits;
      var i :| 0 <= i < |rpo| && rpo[i] == x;
      assert x in o.rank.Keys;
    }
  }

  lemma KeptDominateExits(cfg: FunctionCfg, o: Order, t: Tree, idom: map<int, int>, rpo: seq<int>, r: set<int>)
    requires IsResult(cfg, o, t, idom) && IsListed(FlowOf(cfg), o, rpo) && o.entry in FlowOf(cfg)
    requires ExitsIn(cfg, rpo) != [] && AllIn(ExitsIn(cfg, rpo), t)
    requires IsKept(o, t, ExitsIn(cfg, rpo), Ascending(idom.Keys), r)
    ensures AreExitDominators(cfg, t, r)
  {
    var exits, candidates := ExitsIn(cfg, rpo), Ascending(idom.Keys);
    ExitsAreReachableExits(cfg, o, rpo);
    forall c ensures c in r <==> c in t && DominatesExits(cfg, c) {
      assert c in candidates <==> c in Elements(candidates);
      if c in t { AboveEachIff(cfg, o, t, idom, exits, c); }
    }
  }

  lemma AboveEachIff(cfg: FunctionCfg, o: Order, t: Tree, idom: map<int, int>, exits: seq<int>, c: int)
    requires IsResult(cfg, o, t, idom) && c in t && AllIn(exits, t)
    requires exits != [] && forall x :: x in exits <==> IsReachableExit(cfg, x)
    ensures AboveEach(o, t, c, exits) <==> DominatesExits(cfg, c)
  {
    assert exits[0] in exits && IsReachableExit(cfg, exits[0]);
    forall k | 0 <= k < |exits|
      ensures Above(o, t, c, exits[k]) <==> OnEveryWalk(FlowOf(cfg), cfg.entryBlockId, c, exits[k])
    {
      FixpointIsExact(FlowOf(cfg), o, t, exits[k]);
    }
    if DominatesExits(cfg, c) {
      forall k | 0 <= k < |exits| ensures Above(o, t, c, exits[k]) { assert IsReachableExit(cfg, exits[k]); }
    }
  }

  // ----- Dominators of loop headers -----

  /** The blocks met on the way up from `from`, itself excluded. */
  method StrictlyAbove(ghost o: Order, ghost t: Tree, idom: map<int, int>, from: int)
    returns (met: set<int>)
    requires IsParentMap(o, t, idom) && from in t
    ensures met == Ups(o, t, from) - {from}
  {
    met := {};
    var cursor := from;
    OwnUps(o, t, from);
    ParentOf(o, t, idom, cursor);
    while idom[cursor] != -1
      invariant cursor in t && cursor in idom && (idom[cursor] == -1 <==> cursor == o.entry)
      invariant met + (Ups(o, t, cursor) - {cursor}) == Ups(o, t, from) - {from}
      decreases o.rank[cursor]
    {
      UpsOfParent(o, t, cursor);
      ParentOf(o, t, idom, cursor);
      cursor := idom[cursor];
      ParentOf(o, t, idom, cursor);
      met := met + {cursor};
    }
    OwnUps(o, t, o.entry);
  }

  lemma OwnUps(o: Order, t: Tree, c: int)
    requires IsTree(o, t) && c in t
    ensures c in Ups(o, t, c) && (c == o.entry ==> Ups(o, t, c) == {c})
  {}

  lemma UpsOfParent(o: Order, t: Tree, c: int)
    requires IsTree(o, t) && c in t && c != o.entry
    ensures Ups(o, t, c) - {c} == Ups(o, t, t[c]) && t[c] in Ups(o, t, t[c])
  {
    if Above(o, t, c, t[c]) { AboveRank(o, t, c, t[c]); }
  }

  /** `d` strictly dominates a reachable loop header. */
  ghost predicate DominatesHeader(cfg: FunctionCfg, headers: seq<int>, d: int) {
    exists h :: h in headers && h in ReachableSet(cfg) && d != h && OnEveryWalk(FlowOf(cfg), cfg.entryBlockId, d, h)
  }

  method LoopHeaderDominators(cfg: FunctionCfg, ghost o: Order, ghost t: Tree, idom: map<int, int>)
    returns (r: set<int>)
    requires IsResult(cfg, o, t, idom) && cfg.entryBlockId in FlowOf(cfg)
    ensures forall d :: d in r <==> DominatesHeader(cfg, cfg.loopHeaders, d)
  {
    r := {};
    ResultIsParentMap(cfg, o, t, idom);
    for k := 0 to |cfg.loopHeaders|
      invariant forall d :: d in r <==> DominatesHeader(cfg, cfg.loopHeaders[..k], d)
    {
      var h := cfg.loopHeaders[k];
      HeaderDominators(cfg, o, t, idom, k);
      if h in idom {
        var met := StrictlyAbove(o, t, idom, h);
        r := r + met;
      }
    }
    assert cfg.loopHeaders[..|cfg.loopHeaders|] == cfg.loopHeaders;
  }

  lemma HeaderDominators(cfg: FunctionCfg, o: Order, t: Tree, idom: map<int, int>, k: nat)
    requires IsResult(cfg, o, t, idom) && cfg.entryBlockId in FlowOf(cfg) && k < |cfg.loopHeaders|
    ensures var h := cfg.loopHeaders[k];
      forall d :: DominatesHeader(cfg, cfg.loopHeaders[..k + 1], d) <==>
        DominatesHeader(cfg, cfg.loopHeaders[..k], d) || (h in idom && d in Ups(o, t, h) - {h})
  {
    var h := cfg.loopHeaders[k];
    var before, after := cfg.loopHeaders[..k], cfg.loopHeaders[..k + 1];
    assert after == before + [h];
    InReachableSet(cfg, h);
    if h in t { FixpointIsExact(FlowOf(cfg), o, t, h); }
    forall d ensures h in t ==> (d in Ups(o, t, h) <==> OnEveryWalk(FlowOf(cfg), cfg.entryBlockId, d, h)) {
      if h in t && Above(o, t, d, h) { AboveRank(o, t, d, h); }
    }
    forall d
      ensures DominatesHeader(cfg, after, d) <==>
        DominatesHeader(cfg, before, d) || (h in idom && d in Ups(o, t, h) - {h})
    {
      if DominatesHeader(cfg, before, d) {
        var x :| x in before && x in ReachableSet(cfg) && d != x &&
          OnEveryWalk(FlowOf(cfg), cfg.entryBlockId, d, x);
        assert x in after;
      }
      assert h in after;
    }
  }

  // ----- The whole computation -----

  datatype DominatorInfo = DominatorInfo(
    idom: map<int, int>, depth: map<int, int>, dominatedBy: map<int, set<int>>, subtreeSize: map<int, int>,
    exitDominators: set<int>, loopHeaderDominators: set<int>, maxDepth: int)

  /**
   * The blocks listed are those reachable; each but the entry has its immediate dominator, the number of its strict
   * dominators as depth, the blocks it immediately dominates, and the number of blocks it dominates.
   */
  ghost predicate IsDominatorInfo(cfg: FunctionCfg, info: DominatorInfo) {
    && AreImmediate(cfg, info.idom)
    && info.depth.Keys == info.idom.Keys == info.dominatedBy.Keys == info.subtreeSize.Keys
    && forall b {:trigger IsDescribed(cfg, info, b)} :: b in info.idom ==> IsDescribed(cfg, info, b)
  }

  ghost predicate ListsExitDominators(cfg: FunctionCfg, info: DominatorInfo) {
    forall c :: c in info.exitDominators <==> c in ReachableSet(cfg) && DominatesExits(cfg, c)
  }

  ghost predicate IsDescribed(cfg: FunctionCfg, info: DominatorInfo, b: int)
    requires b in info.depth && b in info.dominatedBy && b in info.subtreeSize
  {
    && info.depth[b] + 1 == |Dominators(cfg, b)|
    && info.subtreeSize[b] == |Dominated(cfg, b)|
    && forall c :: c in info.dominatedBy[b] <==>
      c in ReachableSet(cfg) && c != cfg.entryBlockId && IsImmediate(FlowOf(cfg), cfg.entryBlockId, b, c)
  }

  lemma ChildrenAreImmediate(cfg: FunctionCfg, o: Order, t: Tree, idom: map<int, int>, b: int, c: int)
    requires IsResult(cfg, o, t, idom) && cfg.entryBlockId in FlowOf(cfg)
    ensures c in Children(o, t, b) <==>
      c in ReachableSet(cfg) && c != o.entry && IsImmediate(FlowOf(cfg), o.entry, b, c)
  {
    InReachableSet(cfg, c);
    if c in t && c != o.entry {
      FixpointIsExact(FlowOf(cfg), o, t, c);
      if IsImmediate(FlowOf(cfg), o.entry, b, c) {
        var d := t[c];
        AboveRank(o, t, b, c);
        FixpointIsExact(FlowOf(cfg), o, t, b);
        FixpointIsExact(FlowOf(cfg), o, t, d);
        assert OnEveryWalk(FlowOf(cfg), o.entry, d, b) && OnEveryWalk(FlowOf(cfg), o.entry, b, d);
        AboveRank(o, t, d, b);
        AboveRank(o, t, b, d);
      }
    }
  }

  lemma InfoIsRight(cfg: FunctionCfg, o: Order, t: Tree, info: DominatorInfo, parts: map<int, set<int>>)
    requires IsResult(cfg, o, t, info.idom) && AreImmediate(cfg, info.idom) && cfg.entryBlockId in FlowOf(cfg)
    requires HasLevels(o, t, info.depth) && ChildrenRecorded(o, t, t.Keys, info.dominatedBy)
    requires AreParts(o, t, parts, 0) && AreCounts(parts, info.subtreeSize)
    ensures IsDominatorInfo(cfg, info)
  {
    forall b | b in info.idom ensures IsDescribed(cfg, info, b) {
      LevelCountsDominators(cfg, o, t, info.idom, b);
      SubtreeIsDominated(cfg, o, t, info.idom, b);
      forall c { ChildrenAreImmediate(cfg, o, t, info.idom, b, c); }
    }
  }

  ghost predicate IsGreatest(depth: map<int, int>, d: int) {
    && (forall b :: b in depth ==> depth[b] <= d)
    && exists b :: b in depth && depth[b] == d
  }

  method MaxDepth(depth: map<int, int>) returns (maxDepth: int)
    requires depth != map[] && forall b :: b in depth ==> depth[b] >= 0
    ensures IsGreatest(depth, maxDepth)
  {
    var blocks := Ascending(depth.Keys);
    assert forall b :: b in blocks <==> b in Elements(blocks);
    maxDepth := 0;
    for k := 0 to |blocks|
      invariant maxDepth >= 0 && forall j :: 0 <= j < k ==> depth[blocks[j]] <= maxDepth
      invariant maxDepth > 0 ==> exists b :: b in depth && depth[b] == maxDepth
    {
      assert blocks[k] in blocks;
      if depth[blocks[k]] > maxDepth { maxDepth := depth[blocks[k]]; }
    }
    forall b | b in depth ensures depth[b] <= maxDepth { assert b in blocks; }
    if maxDepth == 0 {
      var b := MemberOf(depth.Keys);
    }
  }

  method ComputeDominators(cfg: FunctionCfg) returns (info: DominatorInfo)
    requires WellFormed(cfg)
    ensures IsDominatorInfo(cfg, info)
    ensures ListsExitDominators(cfg, info)
    ensures forall d :: d in info.loopHeaderDominators <==> DominatesHeader(cfg, cfg.loopHeaders, d)
    ensures if ReachableSet(cfg) == {} then info.maxDepth == 0 else IsGreatest(info.depth, info.maxDepth)
  {
    var reachable := ReachableBlocks(cfg);
    if reachable == {} {
      return DominatorInfo(map[], map[], map[], map[], {}, {}, 0);
    }
    ghost var g := FlowOf(cfg);
    var rpo, o, idom;
    ghost var t;
    rpo, o, idom, t := ImmediateDominators(cfg, reachable);
    ResultIsParentMap(cfg, o, t, idom);
    var depth, dominatedBy := SweepDepths(cfg.entryBlockId, o, t, idom);
    var subtreeSize;
    ghost var parts;
    subtreeSize, parts := SubtreeSizes(rpo, o, t, idom);
    var maxDepth := MaxDepth(depth);
    var exitDominators := ExitDominators(cfg, o, rpo, idom, t);
    var loopHeaderDominators := LoopHeaderDominators(cfg, o, t, idom);
    info := DominatorInfo(idom, depth, dominatedBy, subtreeSize, exitDominators, loopHeaderDominators, maxDepth);
    InfoIsRight(cfg, o, t, info, parts);
  }
}
