/** The counts `DominatorTree` reports: subtree sizes, depths and unreachable blocks. */
module DominatorMetrics {
  import opened Collections
  import opened Digraphs
  import opened DominatorTree

  /** The blocks whose chain goes through `d`, itself included. */
  ghost function Subtree(idoms: Idoms, d: int): set<int> { set i | i in idoms && LeadsTo(idoms, i, d) }

  /** The blocks on the chain of `i`, itself included. */
  ghost function ChainOf(idoms: Idoms, i: int): set<int> { set d | d in idoms && LeadsTo(idoms, i, d) }

  function Children(ids: seq<int>, idoms: Idoms, current: int): seq<int>
    requires forall i :: i in ids ==> i in idoms
  {
    if ids == [] then []
    else
      var n := |ids| - 1;
      Children(ids[..n], idoms, current) + if ids[n] != current && idoms[ids[n]] == Some(current) then [ids[n]] else []
  }

  lemma {:induction false} ChildrenMembers(ids: seq<int>, idoms: Idoms, current: int)
    requires forall i :: i in ids ==> i in idoms
    ensures forall i :: i in Children(ids, idoms, current) <==> i in ids && i != current && idoms[i] == Some(current)
  {
    if ids != [] { ChildrenMembers(ids[..|ids| - 1], idoms, current); }
  }

  method PushChildren(ids: seq<int>, idoms: Idoms, current: int, stack: seq<int>) returns (r: seq<int>)
    requires forall i :: i in ids ==> i in idoms
    ensures r == stack + Children(ids, idoms, current)
  {
    r := stack;
    for k := 0 to |ids|
      invariant r == stack + Children(ids[..k], idoms, current)
    {
      assert ids[..k + 1][..k] == ids[..k];
      if ids[k] != current && idoms[ids[k]] == Some(current) {
        r := r + [ids[k]];
      }
    }
    assert ids[..|ids|] == ids;
  }

  /** What the search still owes: every child of a counted block is counted or on the stack. */
  ghost predicate Pending(idoms: Idoms, d: int, visited: set<int>, stack: seq<int>) {
    && visited <= Subtree(idoms, d)
    && (forall i :: i in stack ==> i in Subtree(idoms, d))
    && (d in visited || d in stack)
    && (forall i, c :: i in idoms && idoms[i] == Some(c) && c in visited && i != c ==> i in visited || i in stack)
  }

  /** The number of blocks whose chain goes through `d`: a depth-first count over the children lists. */
  method CountDominatedBlocks(ids: seq<int>, idoms: Idoms, d: int) returns (count: nat)
    requires Elements(ids) == idoms.Keys && d in idoms
    ensures count == |Subtree(idoms, d)|
  {
    var visited: set<int>, stack := {}, [d];
    count := 0;
    assert LeadsIn(idoms, d, d, 0);
    assert forall i :: i in ids <==> i in Elements(ids);
    while stack != []
      invariant Pending(idoms, d, visited, stack) && count == |visited|
      decreases Subtree(idoms, d) - visited, |stack|
    {
      var current := stack[|stack| - 1];
      assert current in stack;
      ghost var before := stack;
      stack := stack[..|stack| - 1];
      assert before == stack + [current];
      if current !in visited {
        ghost var seen := visited;
        visited := visited + {current};
        count := count + 1;
        var popped := stack;
        stack := PushChildren(ids, idoms, current, stack);
        VisitedBlock(ids, idoms, d, seen, popped, current);
        assert current in Subtree(idoms, d) - seen && current !in Subtree(idoms, d) - visited;
      }
    }
    AllCounted(idoms, d, visited);
  }

  lemma VisitedBlock(ids: seq<int>, idoms: Idoms, d: int, visited: set<int>, stack: seq<int>, current: int)
    requires (forall i :: i in ids <==> i in idoms) && Pending(idoms, d, visited, stack + [current])
    ensures Pending(idoms, d, visited + {current}, stack + Children(ids, idoms, current))
  {
    var next := stack + Children(ids, idoms, current);
    ChildrenMembers(ids, idoms, current);
    assert current in stack + [current];
    forall i | i in next ensures i in Subtree(idoms, d) {
      if i in stack {
        assert i in stack + [current];
      } else {
        var n: nat :| LeadsIn(idoms, current, d, n);
        assert LeadsIn(idoms, i, d, n + 1);
      }
    }
    forall i, c | i in idoms && idoms[i] == Some(c) && c in visited + {current} && i != c
      ensures i in visited + {current} || i in next
    {
      if c in visited { assert i in visited || i in stack + [current]; }
    }
  }

  lemma AllCounted(idoms: Idoms, d: int, visited: set<int>)
    requires Pending(idoms, d, visited, [])
    ensures visited == Subtree(idoms, d)
  {
    forall i | i in Subtree(idoms, d) ensures i in visited {
      var n: nat :| LeadsIn(idoms, i, d, n);
      CountedWithin(idoms, d, visited, i, n);
    }
  }

  lemma {:induction false} CountedWithin(idoms: Idoms, d: int, visited: set<int>, i: int, n: nat)
    requires Pending(idoms, d, visited, []) && i in idoms && LeadsIn(idoms, i, d, n)
    ensures i in visited
    decreases n
  {
    if n > 1 {
      CountedWithin(idoms, d, visited, idoms[i].value, n - 1);
    }
  }

  /** Every block counted below `d` is dominated by `d`. */
  lemma CountedBlocksAreDominated(cfg: ControlFlowGraph, idoms: Idoms, d: int, i: int)
    requires Valid(cfg) && IsAssigned(cfg, idoms) && i in Subtree(idoms, d)
    ensures Dominates(cfg, d, i)
  {
    var n: nat :| LeadsIn(idoms, i, d, n);
    ChainDominates(cfg, idoms, i, d, n);
  }

  // ----- Depths -----

  /** A chain that stops after `n` steps has `n + 1` different blocks. */
  lemma {:induction false} ChainSize(cfg: ControlFlowGraph, idoms: Idoms, i: int, n: nat)
    requires Valid(cfg) && IsAssigned(cfg, idoms) && StopsIn(idoms, i, n)
    ensures |ChainOf(idoms, i)| == n + 1
    decreases n
  {
    if n == 0 {
      assert LeadsIn(idoms, i, i, 0);
      forall d ensures d in ChainOf(idoms, i) <==> d == i {
        if d in ChainOf(idoms, i) { var m: nat :| LeadsIn(idoms, i, d, m); }
      }
      assert ChainOf(idoms, i) == {i};
    } else {
      var up := idoms[i].value;
      ChainSize(cfg, idoms, up, n - 1);
      NotAbove(idoms, i, up, n);
      ChainStep(idoms, i, up);
    }
  }

  lemma NotAbove(idoms: Idoms, i: int, up: int, n: nat)
    requires n > 0 && StopsIn(idoms, i, n) && idoms[i] == Some(up)
    ensures i !in ChainOf(idoms, up)
  {
    if i in ChainOf(idoms, up) {
      var k: nat :| LeadsIn(idoms, up, i, k);
      StopsAfter(idoms, up, i, k, n);
      StopsAtOneDepth(idoms, up, k + n, n - 1);
    }
  }

  lemma ChainStep(idoms: Idoms, i: int, up: int)
    requires i in idoms && idoms[i] == Some(up)
    ensures ChainOf(idoms, i) == {i} + ChainOf(idoms, up)
  {
    assert LeadsIn(idoms, i, i, 0);
    forall d | d in idoms ensures LeadsTo(idoms, i, d) <==> d == i || LeadsTo(idoms, up, d) {
      if LeadsTo(idoms, i, d) {
        var n: nat :| LeadsIn(idoms, i, d, n);
        if n > 0 { assert LeadsIn(idoms, up, d, n - 1); }
      }
      if LeadsTo(idoms, up, d) {
        var n: nat :| LeadsIn(idoms, up, d, n);
        assert LeadsIn(idoms, i, d, n + 1);
      }
    }
  }

  ghost function StrictDominators(cfg: ControlFlowGraph, i: int): set<int> {
    set d | d in Elements(Ids(cfg.blocks)) && StrictlyDominates(cfg, d, i)
  }

  /** Depth never exceeds the number of strict dominators. */
  lemma DepthBound(cfg: ControlFlowGraph, idoms: Idoms, i: int, n: nat)
    requires Valid(cfg) && IsAssigned(cfg, idoms) && StopsIn(idoms, i, n)
    ensures n <= |StrictDominators(cfg, i)|
  {
    ChainSize(cfg, idoms, i, n);
    assert LeadsIn(idoms, i, i, 0);
    var above := ChainOf(idoms, i) - {i};
    forall d | d in above ensures d in StrictDominators(cfg, i) {
      var k: nat :| LeadsIn(idoms, i, d, k);
      ChainDominates(cfg, idoms, i, d, k);
    }
    SubsetSize(above, StrictDominators(cfg, i));
  }

  /** The chain of a reachable block ends at the entry. */
  lemma {:induction false} ReachableUnderEntry(cfg: ControlFlowGraph, idoms: Idoms, i: int, n: nat)
    requires Valid(cfg) && IsAssigned(cfg, idoms) && i in idoms && Reachable(cfg, i) && StopsIn(idoms, i, n)
    ensures LeadsIn(idoms, i, cfg.entryBlock, n)
    decreases n
  {
    assert HasBlock(cfg, i);
    AssignedAt(cfg, idoms, i);
    if i != cfg.entryBlock {
      AssignedStrictlyDominates(cfg, idoms, i);
      ReachableUnderEntry(cfg, idoms, idoms[i].value, n - 1);
    }
  }

  ghost predicate AllReachable(cfg: ControlFlowGraph) {
    forall i :: i in Elements(Ids(cfg.blocks)) ==> Reachable(cfg, i)
  }

  /** When every block is reachable, the entry's subtree is the whole graph. */
  lemma EntryCountsAll(cfg: ControlFlowGraph, idoms: Idoms)
    requires Valid(cfg) && IsAssigned(cfg, idoms) && AllReachable(cfg)
    ensures |Subtree(idoms, cfg.entryBlock)| == |cfg.blocks|
  {
    forall i | i in idoms ensures i in Subtree(idoms, cfg.entryBlock) {
      assert HasBlock(cfg, i);
      ReachableWalkStops(cfg, idoms, i);
      var n: nat :| StopsIn(idoms, i, n);
      ReachableUnderEntry(cfg, idoms, i, n);
    }
    assert Subtree(idoms, cfg.entryBlock) == Elements(Ids(cfg.blocks));
    DistinctSize(Ids(cfg.blocks));
  }

  /** Depth + 1, added over the listed blocks. */
  ghost function TotalDepth(depths: map<int, nat>, order: seq<int>): nat
    requires forall k :: 0 <= k < |order| ==> order[k] in depths
  {
    if order == [] then 0
    else
      var n := |order| - 1;
      TotalDepth(depths, order[..n]) + depths[order[n]] + 1
  }

  lemma {:induction false} TotalDepthIsChains(cfg: ControlFlowGraph, idoms: Idoms, depths: map<int, nat>,
      chains: map<int, set<int>>, order: seq<int>)
    requires Valid(cfg) && IsAssigned(cfg, idoms)
    requires forall k :: 0 <= k < |order| ==> order[k] in depths && StopsIn(idoms, order[k], depths[order[k]])
    requires forall k :: 0 <= k < |order| ==> order[k] in chains && chains[order[k]] == ChainOf(idoms, order[k])
    ensures TotalDepth(depths, order) == TotalSize(chains, order)
    decreases |order|
  {
    if order != [] {
      var n := |order| - 1;
      TotalDepthIsChains(cfg, idoms, depths, chains, order[..n]);
      ChainSize(cfg, idoms, order[n], depths[order[n]]);
    }
  }

  /** When every depth walk ends, the subtree counts add up to the sum of depth + 1. */
  lemma SubtreesAndDepthsAddUp(cfg: ControlFlowGraph, idoms: Idoms, depths: map<int, nat>)
    requires Valid(cfg) && IsAssigned(cfg, idoms)
    requires forall i :: i in idoms ==> i in depths && StopsIn(idoms, i, depths[i])
    ensures var order := Ids(cfg.blocks);
      && (forall k :: 0 <= k < |order| ==> order[k] in depths && order[k] in idoms)
      && TotalSize(map i | i in idoms :: Subtree(idoms, i), order) == TotalDepth(depths, order)
  {
    var order := Ids(cfg.blocks);
    forall k | 0 <= k < |order| ensures order[k] in idoms { assert order[k] in Elements(order); }
    var chains := map i | i in idoms :: ChainOf(idoms, i);
    SubtreesMirrorChains(idoms, order);
    TotalDepthIsChains(cfg, idoms, depths, chains, order);
  }

  /** A block is in a subtree when the subtree's root is on the block's chain. */
  lemma SubtreesMirrorChains(idoms: Idoms, order: seq<int>)
    requires NoDuplicates(order) && Elements(order) == idoms.Keys && forall k :: 0 <= k < |order| ==> order[k] in idoms
    ensures TotalSize(map i | i in idoms :: Subtree(idoms, i), order) ==
      TotalSize(map i | i in idoms :: ChainOf(idoms, i), order)
  {
    assert forall i :: i in order <==> i in Elements(order);
    DoubleCount(map i | i in idoms :: Subtree(idoms, i), map i | i in idoms :: ChainOf(idoms, i), order);
  }

  // ----- Unreachable blocks -----

  function Receivers(blocks: seq<BasicBlock>, current: int): seq<int> {
    if blocks == [] then []
    else
      var n := |blocks| - 1;
      Receivers(blocks[..n], current) + if current in blocks[n].predecessors then [blocks[n].index] else []
  }

  lemma {:induction false} ReceiversMembers(blocks: seq<BasicBlock>, current: int, i: int)
    ensures i in Receivers(blocks, current) <==> exists b :: b in blocks && b.index == i && current in b.predecessors
  {
    if blocks != [] {
      var n := |blocks| - 1;
      ReceiversMembers(blocks[..n], current, i);
      assert forall b :: b in blocks <==> b in blocks[..n] || b == blocks[n];
    }
  }

  lemma ReceiversAreSuccessors(cfg: ControlFlowGraph, current: int, i: int)
    requires Valid(cfg)
    ensures i in Receivers(cfg.blocks, current) <==> HasBlock(cfg, i) && Edge(Flow(cfg), current, i)
  {
    ReceiversMembers(cfg.blocks, current, i);
    if exists b :: b in cfg.blocks && b.index == i && current in b.predecessors {
      var b :| b in cfg.blocks && b.index == i && current in b.predecessors;
      var k :| 0 <= k < |cfg.blocks| && cfg.blocks[k] == b;
      assert Mirrors(cfg, cfg.blocks[k]) && Ids(cfg.blocks)[k] == i;
    }
    if HasBlock(cfg, i) && Edge(Flow(cfg), current, i) {
      var k := BlockAtIndex(cfg, i);
      assert Mirrors(cfg, cfg.blocks[k]) && cfg.blocks[k] in cfg.blocks;
    }
  }

  ghost predicate Frontier(cfg: ControlFlowGraph, reached: set<int>, stack: seq<int>) {
    && (forall i :: i in reached || i in stack ==> HasBlock(cfg, i) && Reachable(cfg, i))
    && (cfg.entryBlock in reached || cfg.entryBlock in stack)
    && (forall u, i :: u in reached && HasBlock(cfg, i) && Edge(Flow(cfg), u, i) ==> i in reached || i in stack)
  }

  lemma ReachedBlock(cfg: ControlFlowGraph, reached: set<int>, stack: seq<int>, current: int)
    requires Valid(cfg) && Frontier(cfg, reached, stack + [current])
    ensures Frontier(cfg, reached + {current}, stack + Receivers(cfg.blocks, current))
  {
    var next := stack + Receivers(cfg.blocks, current);
    assert current in stack + [current];
    forall i | i in reached + {current} || i in next ensures HasBlock(cfg, i) && Reachable(cfg, i) {
      ReceiversAreSuccessors(cfg, current, i);
      if i in Receivers(cfg.blocks, current) {
        ReachesThenSteps(Flow(cfg), cfg.entryBlock, current, i);
      } else {
        assert i in stack ==> i in stack + [current];
      }
    }
    forall u, i | u in reached + {current} && HasBlock(cfg, i) && Edge(Flow(cfg), u, i)
      ensures i in reached + {current} || i in next
    {
      ReceiversAreSuccessors(cfg, current, i);
      if u in reached { assert i in reached || i in stack + [current]; }
    }
  }

  /** Exactly the blocks no path from the entry leads to, in block order. */
  method FindUnreachableBlocks(cfg: ControlFlowGraph) returns (r: seq<int>)
    requires Valid(cfg)
    ensures ListsUnreachable(cfg, r)
  {
    var reached: set<int>, stack := {}, [cfg.entryBlock];
    ReachesSelf(Flow(cfg), cfg.entryBlock);
    while stack != []
      invariant Frontier(cfg, reached, stack) && reached <= Elements(Ids(cfg.blocks))
      decreases Elements(Ids(cfg.blocks)) - reached, |stack|
    {
      var current := stack[|stack| - 1];
      assert current in stack && HasBlock(cfg, current);
      ghost var before := stack;
      stack := stack[..|stack| - 1];
      assert before == stack + [current];
      if current !in reached {
        ghost var seen := reached;
        ReachedBlock(cfg, reached, stack, current);
        reached := reached + {current};
        stack := stack + Receivers(cfg.blocks, current);
        assert current in Elements(Ids(cfg.blocks)) - seen && current !in Elements(Ids(cfg.blocks)) - reached;
      }
    }
    AllReached(cfg, reached);
    r := Outside(Ids(cfg.blocks), reached);
    OutsideMembers(Ids(cfg.blocks), reached);
  }

  /** The unreachable blocks, each once and in block order. */
  ghost predicate ListsUnreachable(cfg: ControlFlowGraph, r: seq<int>) {
    && NoDuplicates(r) && InOrderOf(r, Ids(cfg.blocks))
    && forall i :: i in r <==> HasBlock(cfg, i) && !Reachable(cfg, i)
  }

  ghost predicate ComesBefore(ids: seq<int>, u: int, v: int) {
    exists a, b :: 0 <= a < b < |ids| && ids[a] == u && ids[b] == v
  }

  ghost predicate InOrderOf(r: seq<int>, ids: seq<int>) {
    forall a, b {:trigger r[a], r[b]} :: 0 <= a < b < |r| ==> ComesBefore(ids, r[a], r[b])
  }

  function Outside(ids: seq<int>, s: set<int>): seq<int> {
    if ids == [] then []
    else
      var n := |ids| - 1;
      Outside(ids[..n], s) + if ids[n] in s then [] else [ids[n]]
  }

  lemma {:induction false} OutsideMembers(ids: seq<int>, s: set<int>)
    ensures forall i :: i in Outside(ids, s) <==> i in ids && i !in s
    ensures NoDuplicates(ids) ==> NoDuplicates(Outside(ids, s))
    ensures InOrderOf(Outside(ids, s), ids)
  {
    if ids != [] {
      var n := |ids| - 1;
      OutsideMembers(ids[..n], s);
      OrderExtends(Outside(ids[..n], s), ids[..n], ids[n]);
      assert ids == ids[..n] + [ids[n]];
    }
  }

  lemma BeforeStill(ids: seq<int>, u: int, v: int, i: int)
    requires ComesBefore(ids, u, v)
    ensures ComesBefore(ids + [i], u, v)
  {
    var a, b :| 0 <= a < b < |ids| && ids[a] == u && ids[b] == v;
    assert (ids + [i])[a] == u && (ids + [i])[b] == v;
  }

  lemma BeforeLast(ids: seq<int>, u: int, i: int)
    requires u in ids
    ensures ComesBefore(ids + [i], u, i)
  {
    var a :| 0 <= a < |ids| && ids[a] == u;
    assert (ids + [i])[a] == u && (ids + [i])[|ids|] == i;
  }

  lemma OrderExtends(r: seq<int>, ids: seq<int>, i: int)
    requires InOrderOf(r, ids) && forall u :: u in r ==> u in ids
    ensures InOrderOf(r, ids + [i]) && InOrderOf(r + [i], ids + [i])
  {
    var more := ids + [i];
    forall a, b | 0 <= a < b < |r + [i]| ensures ComesBefore(more, (r + [i])[a], (r + [i])[b]) {
      if b < |r| {
        BeforeStill(ids, r[a], r[b], i);
      } else {
        assert r[a] in r;
        BeforeLast(ids, r[a], i);
      }
    }
    forall a, b | 0 <= a < b < |r| ensures ComesBefore(more, r[a], r[b]) {
      assert (r + [i])[a] == r[a] && (r + [i])[b] == r[b];
    }
  }

  lemma AllReached(cfg: ControlFlowGraph, reached: set<int>)
    requires Valid(cfg) && Frontier(cfg, reached, [])
    ensures forall i :: HasBlock(cfg, i) ==> (i in reached <==> Reachable(cfg, i))
  {
    forall i | HasBlock(cfg, i) && Reachable(cfg, i) ensures i in reached {
      var p :| Joins(Flow(cfg), p, cfg.entryBlock, i);
      ReachedAlong(cfg, reached, p);
    }
  }

  lemma {:induction false} ReachedAlong(cfg: ControlFlowGraph, reached: set<int>, p: seq<int>)
    requires Valid(cfg) && Frontier(cfg, reached, []) && IsWalk(Flow(cfg), p)
    requires p[0] == cfg.entryBlock && HasBlock(cfg, Last(p))
    ensures Last(p) in reached
  {
    var n := |p| - 1;
    if n > 0 {
      WalkSlice(Flow(cfg), p, 0, n);
      assert p[0..n] == p[..n] && Last(p[..n]) == p[n - 1];
      assert Edge(Flow(cfg), p[n - 1], p[n]);
      ReachedAlong(cfg, reached, p[..n]);
    }
  }

  // ----- The analysis -----

  datatype BlockReport = BlockReport(index: int, immediateDominator: Option<int>, depth: nat, dominatedBlocks: nat)

  ghost predicate NoRings(cfg: ControlFlowGraph) {
    forall k {:trigger cfg.blocks[k]} :: 0 <= k < |cfg.blocks| ==> !InRing(cfg, cfg.blocks[k].index)
  }

  ghost predicate ReportsAll(cfg: ControlFlowGraph, idoms: Idoms, rows: seq<BlockReport>) {
    |rows| <= |cfg.blocks| && forall k {:trigger rows[k]} :: 0 <= k < |rows| ==> Reports(cfg, idoms, k, rows[k])
  }

  ghost predicate IsMaximum(rows: seq<BlockReport>, maxDepth: nat) {
    && (forall k :: 0 <= k < |rows| ==> rows[k].depth <= maxDepth)
    && (exists k :: 0 <= k < |rows| && rows[k].depth == maxDepth)
  }

  /** One row per block, in block order, and the unreachable blocks; every depth walk must end. */
  method Calculate(cfg: ControlFlowGraph) returns (rows: seq<BlockReport>, maxDepth: nat, unreachable: seq<int>)
    requires Valid(cfg) && NoRings(cfg)
    ensures |rows| == |cfg.blocks| && exists idoms :: IsAssigned(cfg, idoms) && ReportsAll(cfg, idoms, rows)
    ensures IsMaximum(rows, maxDepth)
    ensures ListsUnreachable(cfg, unreachable)
  {
    var dominators := CalculateDominators(cfg);
    var idoms := CalculateImmediateDominators(cfg, dominators);
    rows, maxDepth := ReportBlocks(cfg, idoms);
    unreachable := FindUnreachableBlocks(cfg);
  }

  method ReportBlocks(cfg: ControlFlowGraph, idoms: Idoms) returns (rows: seq<BlockReport>, maxDepth: nat)
    requires Valid(cfg) && NoRings(cfg) && IsAssigned(cfg, idoms)
    ensures |rows| == |cfg.blocks| && ReportsAll(cfg, idoms, rows) && IsMaximum(rows, maxDepth)
  {
    rows, maxDepth := [], 0;
    for k := 0 to |cfg.blocks|
      invariant |rows| == k && ReportsAll(cfg, idoms, rows)
      invariant if k == 0 then maxDepth == 0 else IsMaximum(rows, maxDepth)
    {
      assert !InRing(cfg, cfg.blocks[k].index);
      var row := ReportBlock(cfg, idoms, k);
      ghost var before := maxDepth;
      if row.depth > maxDepth { maxDepth := row.depth; }
      RowAppended(cfg, idoms, rows, row, before, maxDepth);
      rows := rows + [row];
    }
    assert cfg.entryBlock in Ids(cfg.blocks);
  }

  lemma RowAppended(cfg: ControlFlowGraph, idoms: Idoms, rows: seq<BlockReport>, row: BlockReport, before: nat,
      maxDepth: nat)
    requires ReportsAll(cfg, idoms, rows) && Reports(cfg, idoms, |rows|, row)
    requires if rows == [] then before == 0 else IsMaximum(rows, before)
    requires maxDepth == Max(before, row.depth)
    ensures ReportsAll(cfg, idoms, rows + [row]) && IsMaximum(rows + [row], maxDepth)
  {
    var next := rows + [row];
    assert next[|rows|] == row;
    if row.depth < before {
      var k :| 0 <= k < |rows| && rows[k].depth == before;
      assert next[k].depth == maxDepth;
    } else {
      assert next[|rows|].depth == maxDepth;
    }
  }

  method ReportBlock(cfg: ControlFlowGraph, idoms: Idoms, k: nat) returns (row: BlockReport)
    requires Valid(cfg) && IsAssigned(cfg, idoms) && k < |cfg.blocks| && !InRing(cfg, cfg.blocks[k].index)
    ensures Reports(cfg, idoms, k, row)
  {
    var i := cfg.blocks[k].index;
    assert Ids(cfg.blocks)[k] == i && i in Elements(Ids(cfg.blocks)) && HasBlock(cfg, i);
    WalkStopsIff(cfg, idoms, i);
    var depth := CalculateDepth(idoms, i);
    var count := CountDominatedBlocks(Ids(cfg.blocks), idoms, i);
    row := BlockReport(i, idoms[i], depth, count);
  }

  ghost predicate Reports(cfg: ControlFlowGraph, idoms: Idoms, k: int, row: BlockReport) {
    && 0 <= k < |cfg.blocks| && row.index == cfg.blocks[k].index && row.index in idoms
    && row.immediateDominator == idoms[row.index]
    && StopsIn(idoms, row.index, row.depth)
    && row.dominatedBlocks == |Subtree(idoms, row.index)|
  }
}
