/** The exact dominators set beside the approximation, and what the recorded child sets leave out. */
module DominatorsAgree {
  import opened Collections
  import opened Digraphs
  import opened PostOrders
  import opened DominatorFixpoint
  import opened DominatorReports
  import DominatorTree

  lemma {:induction false} FirstDominatorOf(g: Graph, e: int, a: int, b: int, p: seq<int>)
    requires OnEveryWalk(g, e, a, b) && OnEveryWalk(g, e, b, a) && IsWalk(g, p) && p[0] == e && (a in p || b in p)
    ensures a == b
    decreases |p|
  {
    var k :| 0 <= k < |p| && (p[k] == a || p[k] == b);
    WalkSlice(g, p, 0, k + 1);
    var q := p[0..k + 1];
    assert a in q && b in q;
    if a != b {
      var other := if p[k] == a then b else a;
      var j :| 0 <= j < |q| && q[j] == other;
      assert j < k && p[0..k][j] == other;
      WalkSlice(g, p, 0, k);
      FirstDominatorOf(g, e, a, b, p[0..k]);
    }
  }

  lemma ImmediateIsUnique(g: Graph, e: int, a: int, b: int, c: int)
    requires IsImmediate(g, e, a, c) && IsImmediate(g, e, b, c) && Reaches(g, e, c)
    ensures a == b
  {
    var p :| Joins(g, p, e, c);
    FirstDominatorOf(g, e, a, b, p);
  }

  /**
   * For one and the same graph, the approximation gives a reachable block the immediate dominator that the
   * iteration computes exactly when the block has a sole predecessor or only the entry strictly dominates it.
   */
  lemma ApproximationAgreesIff(
      approximate: DominatorTree.ControlFlowGraph, idoms: DominatorTree.Idoms, cfg: FunctionCfg, info: DominatorInfo,
      i: int)
    requires DominatorTree.Valid(approximate) && DominatorTree.IsAssigned(approximate, idoms)
    requires IsDominatorInfo(cfg, info)
    requires DominatorTree.Flow(approximate) == FlowOf(cfg) && approximate.entryBlock == cfg.entryBlockId
    requires i in ReachableSet(cfg) && i != cfg.entryBlockId
    ensures DominatorTree.HasBlock(approximate, i) && i in idoms && i in info.idom
    ensures idoms[i] == Some(info.idom[i]) <==>
      || DominatorTree.AllSame(DominatorTree.BlockAt(approximate, i).predecessors)
      || forall c :: DominatorTree.StrictlyDominates(approximate, c, i) ==> c == cfg.entryBlockId
  {
    InReachableSet(cfg, i);
    assert i in DominatorTree.Flow(approximate);
    DominatorTree.AssignedAt(approximate, idoms, i);
    DominatorTree.ExactIff(approximate, idoms, i);
    if DominatorTree.IsTrueIdom(approximate, idoms[i].value, i) {
      ImmediateIsUnique(FlowOf(cfg), cfg.entryBlockId, idoms[i].value, info.idom[i], i);
    }
  }

  lemma Described(cfg: FunctionCfg, info: DominatorInfo, b: int)
    requires IsDominatorInfo(cfg, info) && b in ReachableSet(cfg)
    ensures b in info.idom && b in info.depth && b in info.dominatedBy && b in info.subtreeSize
    ensures IsDescribed(cfg, info, b)
  {
    assert b in info.idom.Keys;
  }

  /** The entry dominates every reachable block, so its subtree size is the number of reachable blocks. */
  lemma EntryCountsReachable(cfg: FunctionCfg, info: DominatorInfo)
    requires IsDominatorInfo(cfg, info) && cfg.entryBlockId in ReachableSet(cfg)
    ensures info.subtreeSize[cfg.entryBlockId] == |ReachableSet(cfg)| && info.depth[cfg.entryBlockId] == 0
  {
    Described(cfg, info, cfg.entryBlockId);
    EntryDominatesAll(cfg);
    EntryHasNoDominator(cfg);
  }

  lemma EntryDominatesAll(cfg: FunctionCfg)
    ensures Dominated(cfg, cfg.entryBlockId) == ReachableSet(cfg)
  {
    forall c ensures OnEveryWalk(FlowOf(cfg), cfg.entryBlockId, cfg.entryBlockId, c) {
      EntryOnEveryWalk(FlowOf(cfg), cfg.entryBlockId, c);
    }
  }

  lemma EntryOnEveryWalk(g: Graph, e: int, v: int)
    ensures OnEveryWalk(g, e, e, v)
  {
    forall p | Joins(g, p, e, v) ensures e in p { assert p[0] == e; }
  }

  lemma EntryHasNoDominator(cfg: FunctionCfg)
    requires cfg.entryBlockId in ReachableSet(cfg)
    ensures Dominators(cfg, cfg.entryBlockId) == {cfg.entryBlockId}
  {
    var g, e := FlowOf(cfg), cfg.entryBlockId;
    InReachableSet(cfg, e);
    OnEveryWalkSelf(g, e, e);
    forall d | d in Dominators(cfg, e) ensures d == e { OnlyEntryDominatesEntry(g, e, d); }
  }

  /** `c` is reachable, and `b` is its immediate dominator. */
  ghost predicate IsChild(cfg: FunctionCfg, b: int, c: int) {
    c in ReachableSet(cfg) && c != cfg.entryBlockId && IsImmediate(FlowOf(cfg), cfg.entryBlockId, b, c)
  }

  ghost predicate HasGrandchild(cfg: FunctionCfg, b: int) {
    exists c, d :: IsChild(cfg, b, c) && IsChild(cfg, c, d)
  }

  /**
   * The set recorded for `b` holds all the blocks that `b` strictly dominates exactly when none of those it
   * immediately dominates immediately dominates another.
   */
  lemma ListsAllDominatedIff(cfg: FunctionCfg, info: DominatorInfo, b: int)
    requires IsDominatorInfo(cfg, info) && b in ReachableSet(cfg)
    ensures b in info.dominatedBy
    ensures info.dominatedBy[b] == Dominated(cfg, b) - {b} <==> !HasGrandchild(cfg, b)
  {
    Described(cfg, info, b);
    ListsChildren(cfg, info, b);
    if HasGrandchild(cfg, b) {
      var c, d :| IsChild(cfg, b, c) && IsChild(cfg, c, d);
      GrandchildIsNoChild(cfg, b, c, d);
      assert d in Dominated(cfg, b) - {b} && d !in info.dominatedBy[b];
    } else {
      AllAreChildren(cfg, info, b);
    }
  }

  lemma ListsChildren(cfg: FunctionCfg, info: DominatorInfo, b: int)
    requires b in info.depth && b in info.dominatedBy && b in info.subtreeSize && IsDescribed(cfg, info, b)
    ensures forall c :: c in info.dominatedBy[b] <==> IsChild(cfg, b, c)
  {}

  lemma AllAreChildren(cfg: FunctionCfg, info: DominatorInfo, b: int)
    requires IsDominatorInfo(cfg, info) && b in info.dominatedBy && !HasGrandchild(cfg, b)
    requires forall c :: c in info.dominatedBy[b] <==> IsChild(cfg, b, c)
    ensures info.dominatedBy[b] == Dominated(cfg, b) - {b}
  {
    forall c ensures c in info.dominatedBy[b] <==> c in Dominated(cfg, b) - {b} {
      if c in Dominated(cfg, b) && c != b { OnlyOneStep(cfg, info, b, c); }
    }
  }

  lemma DominateEachOther(cfg: FunctionCfg, a: int, b: int)
    requires OnEveryWalk(FlowOf(cfg), cfg.entryBlockId, a, b) && OnEveryWalk(FlowOf(cfg), cfg.entryBlockId, b, a)
    requires a in ReachableSet(cfg)
    ensures a == b
  {
    InReachableSet(cfg, a);
    var p :| Joins(FlowOf(cfg), p, cfg.entryBlockId, a);
    assert p[|p| - 1] in p;
    FirstDominatorOf(FlowOf(cfg), cfg.entryBlockId, a, b, p);
  }

  lemma GrandchildIsNoChild(cfg: FunctionCfg, b: int, c: int, d: int)
    requires IsChild(cfg, b, c) && IsChild(cfg, c, d)
    ensures d in Dominated(cfg, b) && d != b && !IsChild(cfg, b, d)
  {
    var g, e := FlowOf(cfg), cfg.entryBlockId;
    OnEveryWalkTransitive(g, e, b, c, d);
    InReachableSet(cfg, d);
    if d == b { DominateEachOther(cfg, c, d); }
    if IsChild(cfg, b, d) { ImmediateIsUnique(g, e, b, c, d); }
  }

  /** Without grandchildren a strict dominator is the immediate one. */
  lemma {:induction false} OnlyOneStep(cfg: FunctionCfg, info: DominatorInfo, b: int, c: int)
    requires IsDominatorInfo(cfg, info) && !HasGrandchild(cfg, b) && c in Dominated(cfg, b) && c != b
    ensures IsChild(cfg, b, c)
    decreases Dominators(cfg, c)
  {
    var g, e := FlowOf(cfg), cfg.entryBlockId;
    if c == e { OnlyEntryDominatesEntry(g, e, b); }
    var d := info.idom[c];
    assert IsImmediate(g, e, d, c) && OnEveryWalk(g, e, b, d);
    ImmediateIsReachable(cfg, d, c);
    if d != b {
      FewerDominators(cfg, d, c);
      OnlyOneStep(cfg, info, b, d);
      assert IsChild(cfg, d, c);
    }
  }

  lemma ImmediateIsReachable(cfg: FunctionCfg, d: int, c: int)
    requires c in ReachableSet(cfg) && OnEveryWalk(FlowOf(cfg), cfg.entryBlockId, d, c)
    ensures d in ReachableSet(cfg)
  {
    var g, e := FlowOf(cfg), cfg.entryBlockId;
    InReachableSet(cfg, c);
    var p :| Joins(g, p, e, c);
    var k :| 0 <= k < |p| && p[k] == d;
    WalkSlice(g, p, 0, k + 1);
    if k + 1 < |p| { assert Edge(g, p[k], p[k + 1]); }
    InReachableSet(cfg, d);
  }

  lemma FewerDominators(cfg: FunctionCfg, d: int, c: int)
    requires d != c && OnEveryWalk(FlowOf(cfg), cfg.entryBlockId, d, c) && c in ReachableSet(cfg)
    ensures Dominators(cfg, d) < Dominators(cfg, c)
  {
    var g, e := FlowOf(cfg), cfg.entryBlockId;
    InReachableSet(cfg, c);
    OnEveryWalkSelf(g, e, c);
    forall x | x in Dominators(cfg, d) ensures x in Dominators(cfg, c) { OnEveryWalkTransitive(g, e, x, d, c); }
    if c in Dominators(cfg, d) { DominateEachOther(cfg, c, d); }
    assert c in Dominators(cfg, c);
  }

  lemma SolePredecessor(g: Graph, e: int, u: int, v: int)
    requires v != e && u != v && Edge(g, u, v) && forall x :: Edge(g, x, v) ==> x == u
    ensures IsImmediate(g, e, u, v)
  {
    forall p | Joins(g, p, e, v) ensures u in p { assert Edge(g, p[|p| - 2], p[|p| - 1]); }
    forall c | c != v && OnEveryWalk(g, e, c, v) ensures OnEveryWalk(g, e, c, u) {
      DominatesPredecessor(g, e, c, u, v);
    }
  }

  /** Three blocks in a row: the first dominates the last, which is not in its set. */
  const ROW := FunctionCfg([CfgBlock([1], [], false), CfgBlock([2], [0], false), CfgBlock([], [1], true)], 0, [])

  lemma RowIsReachable(v: int)
    requires 0 <= v <= 2
    ensures v in ReachableSet(ROW)
  {
    var g := FlowOf(ROW);
    assert g[0] == [1] && g[1] == [2];
    var p := if v == 0 then [0] else if v == 1 then [0, 1] else [0, 1, 2];
    assert Joins(g, p, 0, v);
    InReachableSet(ROW, v);
  }

  lemma RowIsChild(v: int)
    requires 1 <= v <= 2
    ensures IsChild(ROW, v - 1, v)
  {
    var g := FlowOf(ROW);
    assert g[0] == [1] && g[1] == [2] && g[2] == [];
    RowIsReachable(v);
    SolePredecessor(g, 0, v - 1, v);
  }

  lemma RowLeavesOutLast(info: DominatorInfo)
    requires IsDominatorInfo(ROW, info)
    ensures 0 in info.dominatedBy && 2 !in info.dominatedBy[0] && 2 in Dominated(ROW, 0)
  {
    RowIsReachable(0);
    RowIsChild(1);
    RowIsChild(2);
    GrandchildIsNoChild(ROW, 0, 1, 2);
    Described(ROW, info, 0);
  }

  /** A reachable exit is reported among the dominators of the exits exactly when it dominates all the others. */
  lemma ExitIsListedIff(cfg: FunctionCfg, info: DominatorInfo, x: int)
    requires ListsExitDominators(cfg, info) && IsReachableExit(cfg, x)
    ensures x in info.exitDominators <==>
      forall y :: IsReachableExit(cfg, y) && y != x ==> OnEveryWalk(FlowOf(cfg), cfg.entryBlockId, x, y)
  {
    OnEveryWalkSelf(FlowOf(cfg), cfg.entryBlockId, x);
  }

  /** A block without successors is reported exactly when it is the only exit reached. */
  lemma DeadEndIsListedIff(cfg: FunctionCfg, info: DominatorInfo, x: int)
    requires ListsExitDominators(cfg, info) && IsReachableExit(cfg, x) && cfg.blocks[x].successors == []
    ensures x in info.exitDominators <==> forall y :: IsReachableExit(cfg, y) ==> y == x
  {
    var g, e := FlowOf(cfg), cfg.entryBlockId;
    ExitIsListedIff(cfg, info, x);
    forall y | IsReachableExit(cfg, y) && y != x ensures !OnEveryWalk(g, e, x, y) {
      InReachableSet(cfg, y);
      var p :| Joins(g, p, e, y);
      forall k | 0 <= k < |p| ensures p[k] != x {
        if k + 1 < |p| { assert Edge(g, p[k], p[k + 1]); }
      }
    }
  }

  /** The only exit of the row is reported. */
  lemma RowListsItsExit(info: DominatorInfo)
    requires ListsExitDominators(ROW, info)
    ensures 2 in info.exitDominators
  {
    RowIsReachable(2);
    assert IsReachableExit(ROW, 2);
    forall y | IsReachableExit(ROW, y) ensures y == 2 { assert 0 <= y <= 2; }
    DeadEndIsListedIff(ROW, info, 2);
  }

  /**
   * `c` is reported exactly when it is reachable, there is a reachable block without successors or ending in an
   * unconditional transfer, and `c` lies on every walk from the entry to each such block.
   */
  lemma ExitDominatorsIff(cfg: FunctionCfg, info: DominatorInfo, c: int)
    requires ListsExitDominators(cfg, info)
    ensures c in info.exitDominators <==>
      && c in ReachableSet(cfg)
      && (exists x :: x in ReachableSet(cfg) && (cfg.blocks[x].successors == [] || cfg.blocks[x].isTerminating))
      && forall x :: x in ReachableSet(cfg) && (cfg.blocks[x].successors == [] || cfg.blocks[x].isTerminating) ==>
           forall p :: Joins(FlowOf(cfg), p, cfg.entryBlockId, x) ==> c in p
  {
    forall x | x in ReachableSet(cfg)
      ensures IsReachableExit(cfg, x) <==> cfg.blocks[x].successors == [] || cfg.blocks[x].isTerminating
    {
      InReachableSet(cfg, x);
    }
  }

  /** An `if` that returns, and the end of the function: blocks 1 and 2 end the function, though 2 leads on to 1. */
  const RETURNING := FunctionCfg(
    [CfgBlock([2, 3], [], false), CfgBlock([], [2, 3], true), CfgBlock([1], [0], true), CfgBlock([1], [0, 4], false),
     CfgBlock([3], [], false)], 0, [])

  lemma ReturningWalks()
    ensures var g := FlowOf(RETURNING);
      Joins(g, [0], 0, 0) && Joins(g, [0, 2], 0, 2) && Joins(g, [0, 2, 1], 0, 1) && Joins(g, [0, 3, 1], 0, 1)
  {
    var g := FlowOf(RETURNING);
    assert g[0] == [2, 3] && g[2] == [1] && g[3] == [1];
  }

  lemma ReturningExits()
    ensures 0 in ReachableSet(RETURNING)
    ensures IsReachableExit(RETURNING, 1) && IsReachableExit(RETURNING, 2)
  {
    ReturningWalks();
    InReachableSet(RETURNING, 0);
    InReachableSet(RETURNING, 1);
    InReachableSet(RETURNING, 2);
  }

  /** Only the entry dominates both ends. */
  lemma ReturningReport(info: DominatorInfo)
    requires ListsExitDominators(RETURNING, info)
    ensures info.exitDominators == {0}
  {
    ReturningExits();
    EntryDominatesExits();
    forall c | DominatesExits(RETURNING, c) ensures c == 0 { OnBothWalks(c); }
    OnlyOneDominates(RETURNING, info, 0);
  }

  lemma OnlyOneDominates(cfg: FunctionCfg, info: DominatorInfo, d: int)
    requires ListsExitDominators(cfg, info) && d in ReachableSet(cfg)
    requires forall c :: DominatesExits(cfg, c) <==> c == d
    ensures info.exitDominators == {d}
  {
    assert DominatesExits(cfg, d);
    forall c ensures c in info.exitDominators <==> c == d { assert DominatesExits(cfg, c) <==> c == d; }
  }

  lemma OnBothWalks(c: int)
    requires DominatesExits(RETURNING, c)
    ensures c == 0
  {
    ReturningExits();
    ReturningWalks();
    assert c in [0, 2] && c in [0, 3, 1];
  }

  lemma EntryDominatesExits()
    ensures DominatesExits(RETURNING, 0)
  {
    ReturningExits();
    forall x ensures OnEveryWalk(FlowOf(RETURNING), 0, 0, x) { EntryOnEveryWalk(FlowOf(RETURNING), 0, x); }
  }
}
