/** `DominatorTree`: immediate dominators approximated by the sole predecessor or the entry, and the tree they form. */
module DominatorTree {
  import opened Collections
  import opened Digraphs

  datatype BasicBlock = BasicBlock(index: int, successors: seq<int>, predecessors: seq<int>)

  datatype ControlFlowGraph = ControlFlowGraph(blocks: seq<BasicBlock>, entryBlock: int)

  /** Each block with its immediate dominator, if any. */
  type Idoms = map<int, Option<int>>

  function Ids(blocks: seq<BasicBlock>): seq<int> { seq(|blocks|, k requires 0 <= k < |blocks| => blocks[k].index) }

  ghost predicate HasBlock(cfg: ControlFlowGraph, i: int) { i in Ids(cfg.blocks) }

  ghost function BlockAt(cfg: ControlFlowGraph, i: int): BasicBlock
    requires HasBlock(cfg, i)
  {
    var k :| 0 <= k < |cfg.blocks| && Ids(cfg.blocks)[k] == i;
    cfg.blocks[k]
  }

  ghost function Flow(cfg: ControlFlowGraph): Graph {
    map i | i in Elements(Ids(cfg.blocks)) :: assert HasBlock(cfg, i); BlockAt(cfg, i).successors
  }

  /** Distinct blocks, the entry among them, and predecessor lists that mirror the successor lists. */
  ghost predicate Valid(cfg: ControlFlowGraph) {
    && NoDuplicates(Ids(cfg.blocks)) && HasBlock(cfg, cfg.entryBlock)
    && (forall k {:trigger Mirrors(cfg, cfg.blocks[k])} :: 0 <= k < |cfg.blocks| ==> Mirrors(cfg, cfg.blocks[k]))
  }

  ghost predicate Mirrors(cfg: ControlFlowGraph, b: BasicBlock) {
    forall p :: p in b.predecessors <==> Edge(Flow(cfg), p, b.index)
  }

  ghost predicate Reachable(cfg: ControlFlowGraph, i: int) { Reaches(Flow(cfg), cfg.entryBlock, i) }

  predicate AllSame(xs: seq<int>) { forall k :: 0 <= k < |xs| ==> xs[k] == xs[0] }

  /**
   * The rule the pass amounts to: nothing for the entry and for blocks without predecessors, else the
   * sole predecessor, else the entry.
   */
  function AssignedIdom(entry: int, b: BasicBlock): Option<int> {
    if b.index == entry || b.predecessors == [] then None
    else if AllSame(b.predecessors) then Some(b.predecessors[0])
    else Some(entry)
  }

  ghost predicate IsAssigned(cfg: ControlFlowGraph, idoms: Idoms) {
    && idoms.Keys == Elements(Ids(cfg.blocks))
    && forall k {:trigger IdAt(cfg, k)} :: 0 <= k < |cfg.blocks| ==>
      idoms[IdAt(cfg, k)] == AssignedIdom(cfg.entryBlock, cfg.blocks[k])
  }

  function IdAt(cfg: ControlFlowGraph, k: nat): (i: int)
    requires k < |cfg.blocks|
    ensures i == cfg.blocks[k].index && i in Elements(Ids(cfg.blocks))
  {
    assert Ids(cfg.blocks)[k] in Elements(Ids(cfg.blocks));
    cfg.blocks[k].index
  }

  /** A stub: every block is recorded as dominated by itself alone. */
  method CalculateDominators(cfg: ControlFlowGraph) returns (dominators: map<int, set<int>>)
    ensures dominators.Keys == Elements(Ids(cfg.blocks))
    ensures forall i :: i in dominators ==> dominators[i] == {i}
  {
    dominators := map[];
    for k := 0 to |cfg.blocks|
      invariant forall i :: i in dominators <==> i in Ids(cfg.blocks)[..k]
      invariant forall i :: i in dominators ==> dominators[i] == {i}
    {
      assert Ids(cfg.blocks)[..k + 1] == Ids(cfg.blocks)[..k] + [cfg.blocks[k].index];
      dominators := dominators[cfg.blocks[k].index := {cfg.blocks[k].index}];
    }
    assert Ids(cfg.blocks)[..|cfg.blocks|] == Ids(cfg.blocks);
    assert forall i :: i in dominators <==> i in Elements(Ids(cfg.blocks));
  }

  /** Some common member, or the entry when there is none. */
  method FindCommonDominator(entry: int, a: int, b: int, dominators: map<int, set<int>>) returns (r: int)
    requires a in dominators && b in dominators
    ensures r in dominators[a] * dominators[b] || (dominators[a] !! dominators[b] && r == entry)
  {
    var candidates := Ascending(dominators[a]);
    assert forall x :: x in dominators[a] <==> x in Elements(candidates);
    for k := 0 to |candidates|
      invariant forall j :: 0 <= j < k ==> candidates[j] !in dominators[b]
    {
      assert candidates[k] in Elements(candidates);
      if candidates[k] in dominators[b] { return candidates[k]; }
    }
    forall x | x in dominators[a] ensures x !in dominators[b] {
      assert x in Elements(candidates);
    }
    return entry;
  }

  method FoldPredecessors(cfg: ControlFlowGraph, preds: seq<int>, dominators: map<int, set<int>>) returns (common: int)
    requires preds != [] && forall p :: p in preds ==> p in dominators
    requires cfg.entryBlock in dominators && forall i :: i in dominators ==> dominators[i] == {i}
    ensures common == if AllSame(preds) then preds[0] else cfg.entryBlock
  {
    common := preds[0];
    for k := 1 to |preds|
      invariant common == if AllSame(preds[..k]) then preds[0] else cfg.entryBlock
    {
      assert preds[..k + 1] == preds[..k] + [preds[k]];
      assert AllSame(preds[..k + 1]) <==> AllSame(preds[..k]) && preds[k] == preds[0];
      assert preds[0] in preds && preds[k] in preds;
      common := FindCommonDominator(cfg.entryBlock, common, preds[k], dominators);
    }
    assert preds[..|preds|] == preds;
  }

  method CalculateImmediateDominators(cfg: ControlFlowGraph, dominators: map<int, set<int>>) returns (idoms: Idoms)
    requires Valid(cfg) && dominators.Keys == Elements(Ids(cfg.blocks))
    requires forall i :: i in dominators ==> dominators[i] == {i}
    ensures IsAssigned(cfg, idoms)
  {
    idoms := map[];
    var ids := Ids(cfg.blocks);
    for k := 0 to |cfg.blocks|
      invariant forall i :: i in idoms <==> i in ids[..k]
      invariant forall j :: 0 <= j < k ==>
        ids[j] in idoms && idoms[ids[j]] == AssignedIdom(cfg.entryBlock, cfg.blocks[j])
    {
      var block := cfg.blocks[k];
      assert ids[..k + 1] == ids[..k] + [block.index];
      assert forall j :: 0 <= j < k ==> ids[j] != ids[k];
      var idom := ImmediateDominatorOf(cfg, k, dominators);
      idoms := idoms[block.index := idom];
    }
    assert ids[..|cfg.blocks|] == ids;
    assert forall i :: i in idoms <==> i in Elements(ids);
  }

  /** The body of the loop over the blocks. */
  method ImmediateDominatorOf(cfg: ControlFlowGraph, k: nat, dominators: map<int, set<int>>) returns (idom: Option<int>)
    requires Valid(cfg) && k < |cfg.blocks| && dominators.Keys == Elements(Ids(cfg.blocks))
    requires forall i :: i in dominators ==> dominators[i] == {i}
    ensures idom == AssignedIdom(cfg.entryBlock, cfg.blocks[k])
  {
    var block := cfg.blocks[k];
    if block.index == cfg.entryBlock { return None; }
    if |block.predecessors| == 0 { return None; }
    if |block.predecessors| == 1 { return Some(block.predecessors[0]); }
    PredecessorsAreBlocks(cfg, k);
    assert cfg.entryBlock in Elements(Ids(cfg.blocks));
    var common := FoldPredecessors(cfg, block.predecessors, dominators);
    return Some(common);
  }

  lemma PredecessorsAreBlocks(cfg: ControlFlowGraph, k: nat)
    requires Valid(cfg) && k < |cfg.blocks|
    ensures forall p :: p in cfg.blocks[k].predecessors ==> p in Elements(Ids(cfg.blocks))
  {
    assert Mirrors(cfg, cfg.blocks[k]);
  }

  // ----- Walking up the tree -----

  /** The walk from `i` makes exactly `n` steps before it meets a block without an immediate dominator. */
  ghost predicate StopsIn(idoms: Idoms, i: int, n: nat)
    decreases n
  {
    i in idoms && if n == 0 then idoms[i].None? else idoms[i].Some? && StopsIn(idoms, idoms[i].value, n - 1)
  }

  ghost predicate WalkStops(idoms: Idoms, i: int) { exists n: nat :: StopsIn(idoms, i, n) }

  /** `n` steps up from `i` lead to `d`. */
  ghost predicate LeadsIn(idoms: Idoms, i: int, d: int, n: nat)
    decreases n
  {
    if n == 0 then i == d else i in idoms && idoms[i].Some? && LeadsIn(idoms, idoms[i].value, d, n - 1)
  }

  ghost predicate LeadsTo(idoms: Idoms, i: int, d: int) { exists n: nat :: LeadsIn(idoms, i, d, n) }

  lemma {:induction false} StopsAfter(idoms: Idoms, i: int, d: int, j: nat, n: nat)
    requires LeadsIn(idoms, i, d, j) && StopsIn(idoms, d, n)
    ensures StopsIn(idoms, i, j + n)
    decreases j
  {
    if j > 0 { StopsAfter(idoms, idoms[i].value, d, j - 1, n); }
  }

  lemma {:induction false} StopsAtOneDepth(idoms: Idoms, i: int, m: nat, n: nat)
    requires StopsIn(idoms, i, m) && StopsIn(idoms, i, n)
    ensures m == n
    decreases m
  {
    if m > 0 && n > 0 { StopsAtOneDepth(idoms, idoms[i].value, m - 1, n - 1); }
  }

  lemma {:induction false} LeadsFurther(idoms: Idoms, i: int, d: int, e: int, n: nat)
    requires LeadsIn(idoms, i, d, n) && d in idoms && idoms[d] == Some(e)
    ensures LeadsIn(idoms, i, e, n + 1)
    decreases n
  {
    if n > 0 { LeadsFurther(idoms, idoms[i].value, d, e, n - 1); }
  }

  /** The number of steps to the root; the loop ends exactly when the walk stops. */
  method CalculateDepth(idoms: Idoms, i: int) returns (depth: nat)
    requires WalkStops(idoms, i)
    ensures StopsIn(idoms, i, depth)
  {
    ghost var total: nat :| StopsIn(idoms, i, total);
    depth := 0;
    var current := i;
    while idoms[current].Some?
      invariant depth <= total && StopsIn(idoms, current, total - depth)
      decreases total - depth
    {
      current := idoms[current].value;
      depth := depth + 1;
    }
  }

  /** A set of blocks none of which is the entry, each with one predecessor only, again in the set. */
  ghost predicate IsRing(cfg: ControlFlowGraph, ring: set<int>) {
    forall i :: i in ring ==> HasBlock(cfg, i) && InnerBlock(cfg, BlockAt(cfg, i), ring)
  }

  predicate InnerBlock(cfg: ControlFlowGraph, b: BasicBlock, ring: set<int>) {
    b.index != cfg.entryBlock && b.predecessors != [] && AllSame(b.predecessors) && b.predecessors[0] in ring
  }

  ghost predicate InRing(cfg: ControlFlowGraph, i: int) { exists ring :: i in ring && IsRing(cfg, ring) }

  lemma BlockAtIndex(cfg: ControlFlowGraph, i: int) returns (k: nat)
    requires HasBlock(cfg, i)
    ensures k < |cfg.blocks| && cfg.blocks[k] == BlockAt(cfg, i) && cfg.blocks[k].index == i
  {
    k :| 0 <= k < |cfg.blocks| && Ids(cfg.blocks)[k] == i && cfg.blocks[k] == BlockAt(cfg, i);
  }

  lemma AssignedAt(cfg: ControlFlowGraph, idoms: Idoms, i: int)
    requires IsAssigned(cfg, idoms) && HasBlock(cfg, i)
    ensures i in idoms && BlockAt(cfg, i).index == i && idoms[i] == AssignedIdom(cfg.entryBlock, BlockAt(cfg, i))
  {
    var k := BlockAtIndex(cfg, i);
    assert idoms[IdAt(cfg, k)] == AssignedIdom(cfg.entryBlock, cfg.blocks[k]);
  }

  lemma {:induction false} RingNeverStops(cfg: ControlFlowGraph, idoms: Idoms, ring: set<int>, i: int, n: nat)
    requires IsAssigned(cfg, idoms) && IsRing(cfg, ring) && i in ring
    ensures !StopsIn(idoms, i, n)
    decreases n
  {
    AssignedAt(cfg, idoms, i);
    if n > 0 { RingNeverStops(cfg, idoms, ring, idoms[i].value, n - 1); }
  }

  lemma IdomIsBlock(cfg: ControlFlowGraph, idoms: Idoms, i: int)
    requires Valid(cfg) && IsAssigned(cfg, idoms) && i in idoms && idoms[i].Some?
    ensures idoms[i].value in idoms
  {
    AssignedAt(cfg, idoms, i);
    var k := BlockAtIndex(cfg, i);
    PredecessorsAreBlocks(cfg, k);
  }

  /** The depth walk from a block ends exactly when sole predecessors do not lead it into a ring. */
  lemma WalkStopsIff(cfg: ControlFlowGraph, idoms: Idoms, i: int)
    requires Valid(cfg) && IsAssigned(cfg, idoms) && HasBlock(cfg, i)
    ensures WalkStops(idoms, i) <==> !InRing(cfg, i)
  {
    if InRing(cfg, i) {
      var ring :| i in ring && IsRing(cfg, ring);
      forall n: nat ensures !StopsIn(idoms, i, n) { RingNeverStops(cfg, idoms, ring, i, n); }
    } else if !WalkStops(idoms, i) {
      EndlessIsInRing(cfg, idoms, i);
    }
  }

  lemma EndlessIsInRing(cfg: ControlFlowGraph, idoms: Idoms, i: int)
    requires Valid(cfg) && IsAssigned(cfg, idoms) && HasBlock(cfg, i)
    requires forall n: nat :: !StopsIn(idoms, i, n)
    ensures InRing(cfg, i)
  {
    var ring := set d | d in idoms && LeadsTo(idoms, i, d);
    AssignedAt(cfg, idoms, i);
    assert LeadsIn(idoms, i, i, 0) && LeadsTo(idoms, i, i);
    forall d | d in ring ensures HasBlock(cfg, d) && InnerBlock(cfg, BlockAt(cfg, d), ring) {
      EndlessBlockIsInner(cfg, idoms, i, d, ring);
    }
    RingFound(cfg, i, ring);
  }

  lemma RingFound(cfg: ControlFlowGraph, i: int, ring: set<int>)
    requires i in ring && IsRing(cfg, ring)
    ensures InRing(cfg, i)
  {}

  lemma EndlessBlockIsInner(cfg: ControlFlowGraph, idoms: Idoms, i: int, d: int, ring: set<int>)
    requires Valid(cfg) && IsAssigned(cfg, idoms) && i in idoms && d in idoms && LeadsTo(idoms, i, d)
    requires forall n: nat :: !StopsIn(idoms, i, n)
    requires forall e :: e in ring <==> e in idoms && LeadsTo(idoms, i, e)
    ensures HasBlock(cfg, d) && InnerBlock(cfg, BlockAt(cfg, d), ring)
  {
    var j: nat :| LeadsIn(idoms, i, d, j);
    AssignedAt(cfg, idoms, d);
    AssignedAt(cfg, idoms, cfg.entryBlock);
    if idoms[d].None? {
      StopsAfter(idoms, i, d, j, 0);
    } else {
      IdomIsBlock(cfg, idoms, d);
      LeadsFurther(idoms, i, d, idoms[d].value, j);
      if idoms[d].value == cfg.entryBlock {
        StopsAfter(idoms, i, cfg.entryBlock, j + 1, 0);
      }
    }
  }

  lemma RingHasNoEntry(cfg: ControlFlowGraph, ring: set<int>, i: int)
    requires IsRing(cfg, ring) && i in ring
    ensures i != cfg.entryBlock && HasBlock(cfg, i)
  {
    var k := BlockAtIndex(cfg, i);
  }

  lemma RingStep(cfg: ControlFlowGraph, ring: set<int>, u: int, i: int)
    requires Valid(cfg) && IsRing(cfg, ring) && i in ring && Edge(Flow(cfg), u, i)
    ensures u in ring
  {
    var k := BlockAtIndex(cfg, i);
    assert Mirrors(cfg, cfg.blocks[k]);
    assert u in cfg.blocks[k].predecessors;
  }

  lemma {:induction false} WalkAvoidsRing(cfg: ControlFlowGraph, ring: set<int>, p: seq<int>)
    requires Valid(cfg) && IsRing(cfg, ring) && IsWalk(Flow(cfg), p) && p[0] == cfg.entryBlock
    ensures Last(p) !in ring
  {
    var n := |p| - 1;
    if n == 0 {
      if p[0] in ring { RingHasNoEntry(cfg, ring, p[0]); }
    } else {
      WalkSlice(Flow(cfg), p, 0, n);
      assert p[0..n] == p[..n] && Last(p[..n]) == p[n - 1];
      WalkAvoidsRing(cfg, ring, p[..n]);
      assert Edge(Flow(cfg), p[n - 1], p[n]);
      if p[n] in ring { RingStep(cfg, ring, p[n - 1], p[n]); }
    }
  }

  /** From a reachable block the depth walk ends. */
  lemma ReachableWalkStops(cfg: ControlFlowGraph, idoms: Idoms, i: int)
    requires Valid(cfg) && IsAssigned(cfg, idoms) && HasBlock(cfg, i) && Reachable(cfg, i)
    ensures WalkStops(idoms, i)
  {
    WalkStopsIff(cfg, idoms, i);
    if InRing(cfg, i) {
      var ring :| i in ring && IsRing(cfg, ring);
      var p :| Joins(Flow(cfg), p, cfg.entryBlock, i);
      WalkAvoidsRing(cfg, ring, p);
    }
  }

  // ----- Dominance -----

  /** Every path from the entry to `i` goes through `d`. */
  ghost predicate Dominates(cfg: ControlFlowGraph, d: int, i: int) {
    OnEveryWalk(Flow(cfg), cfg.entryBlock, d, i)
  }

  /** The last step into a block other than the entry comes from one of its predecessors. */
  lemma LastStep(cfg: ControlFlowGraph, p: seq<int>)
    requires Valid(cfg) && IsWalk(Flow(cfg), p) && p[0] == cfg.entryBlock
    requires Last(p) != cfg.entryBlock && HasBlock(cfg, Last(p))
    ensures |p| > 1 && p[|p| - 2] in BlockAt(cfg, Last(p)).predecessors
  {
    var k := BlockAtIndex(cfg, Last(p));
    assert Edge(Flow(cfg), p[|p| - 2], p[|p| - 1]);
    assert Mirrors(cfg, cfg.blocks[k]);
  }

  lemma AssignedDominates(cfg: ControlFlowGraph, idoms: Idoms, i: int)
    requires Valid(cfg) && IsAssigned(cfg, idoms) && i in idoms && idoms[i].Some?
    ensures Dominates(cfg, idoms[i].value, i)
  {
    assert HasBlock(cfg, i);
    AssignedAt(cfg, idoms, i);
    forall p | Joins(Flow(cfg), p, cfg.entryBlock, i) ensures idoms[i].value in p {
      LastStep(cfg, p);
      assert p[0] in p && p[|p| - 2] in p;
    }
  }

  /**
   * The immediate dominator assigned to a reachable block other than the entry strictly dominates it,
   * and is reachable.
   */
  lemma AssignedStrictlyDominates(cfg: ControlFlowGraph, idoms: Idoms, i: int)
    requires Valid(cfg) && IsAssigned(cfg, idoms) && HasBlock(cfg, i) && Reachable(cfg, i) && i != cfg.entryBlock
    ensures idoms[i].Some? && idoms[i].value != i && Dominates(cfg, idoms[i].value, i) && Reachable(cfg, idoms[i].value)
  {
    ReachableHasIdom(cfg, idoms, i);
    AssignedDominates(cfg, idoms, i);
    DominatorIsReachable(cfg, idoms[i].value, i);
    ReachableWalkStops(cfg, idoms, i);
    NotItsOwnIdom(idoms, i);
  }

  lemma ReachableHasIdom(cfg: ControlFlowGraph, idoms: Idoms, i: int)
    requires Valid(cfg) && IsAssigned(cfg, idoms) && HasBlock(cfg, i) && Reachable(cfg, i) && i != cfg.entryBlock
    ensures i in idoms && idoms[i].Some?
  {
    var p :| Joins(Flow(cfg), p, cfg.entryBlock, i);
    LastStep(cfg, p);
    AssignedAt(cfg, idoms, i);
  }

  lemma DominatorIsReachable(cfg: ControlFlowGraph, d: int, i: int)
    requires Dominates(cfg, d, i) && Reachable(cfg, i)
    ensures Reachable(cfg, d)
  {
    var p :| Joins(Flow(cfg), p, cfg.entryBlock, i);
    var k :| 0 <= k < |p| && p[k] == d;
    WalkSlice(Flow(cfg), p, 0, k + 1);
  }

  lemma NotItsOwnIdom(idoms: Idoms, i: int)
    requires i in idoms && idoms[i].Some? && WalkStops(idoms, i)
    ensures idoms[i].value != i
  {
    var n: nat :| StopsIn(idoms, i, n);
    if idoms[i].value == i { StopsAtOneDepth(idoms, i, n, n - 1); }
  }

  /** Every block on the chain of `i` lies on every entry path to `i`. */
  lemma {:induction false} ChainDominates(cfg: ControlFlowGraph, idoms: Idoms, i: int, d: int, n: nat)
    requires Valid(cfg) && IsAssigned(cfg, idoms) && i in idoms && LeadsIn(idoms, i, d, n)
    ensures Dominates(cfg, d, i)
    decreases n
  {
    if n == 0 {
      OnEveryWalkSelf(Flow(cfg), cfg.entryBlock, i);
    } else {
      var up := idoms[i].value;
      IdomIsBlock(cfg, idoms, i);
      ChainDominates(cfg, idoms, up, d, n - 1);
      AssignedDominates(cfg, idoms, i);
      OnEveryWalkTransitive(Flow(cfg), cfg.entryBlock, d, up, i);
    }
  }

  ghost predicate StrictlyDominates(cfg: ControlFlowGraph, d: int, i: int) { d != i && Dominates(cfg, d, i) }

  /** The strict dominator that every strict dominator dominates. */
  ghost predicate IsTrueIdom(cfg: ControlFlowGraph, d: int, i: int) {
    IsImmediate(Flow(cfg), cfg.entryBlock, d, i)
  }

  /**
   * The approximation is the true immediate dominator exactly for sole predecessors and for blocks
   * only the entry dominates.
   */
  lemma ExactIff(cfg: ControlFlowGraph, idoms: Idoms, i: int)
    requires Valid(cfg) && IsAssigned(cfg, idoms) && HasBlock(cfg, i) && Reachable(cfg, i) && i != cfg.entryBlock
    ensures idoms[i].Some?
    ensures IsTrueIdom(cfg, idoms[i].value, i) <==>
      AllSame(BlockAt(cfg, i).predecessors) || forall c :: StrictlyDominates(cfg, c, i) ==> c == cfg.entryBlock
  {
    AssignedStrictlyDominates(cfg, idoms, i);
    AssignedAt(cfg, idoms, i);
    var d := idoms[i].value;
    if AllSame(BlockAt(cfg, i).predecessors) {
      forall c | c != i && OnEveryWalk(Flow(cfg), cfg.entryBlock, c, i)
        ensures OnEveryWalk(Flow(cfg), cfg.entryBlock, c, d)
      {
        assert StrictlyDominates(cfg, c, i);
        SolePredecessorIsDominated(cfg, c, d, i);
      }
    } else {
      assert d == cfg.entryBlock;
      assert Joins(Flow(cfg), [d], cfg.entryBlock, d) && [d][0] == d;
      OnEveryWalkSelf(Flow(cfg), cfg.entryBlock, d);
      forall c ensures OnEveryWalk(Flow(cfg), cfg.entryBlock, c, d) <==> c == d {
        if OnEveryWalk(Flow(cfg), cfg.entryBlock, c, d) { assert c in [d]; }
      }
      assert forall c :: StrictlyDominates(cfg, c, i) <==> c != i && OnEveryWalk(Flow(cfg), cfg.entryBlock, c, i);
    }
  }

  lemma SolePredecessorIsDominated(cfg: ControlFlowGraph, c: int, d: int, i: int)
    requires Valid(cfg) && HasBlock(cfg, i) && d in BlockAt(cfg, i).predecessors && StrictlyDominates(cfg, c, i)
    ensures Dominates(cfg, c, d)
  {
    var k := BlockAtIndex(cfg, i);
    assert Mirrors(cfg, cfg.blocks[k]);
    forall p | Joins(Flow(cfg), p, cfg.entryBlock, d) ensures c in p {
      WalkStep(Flow(cfg), p, i);
      assert c in p + [i];
    }
  }

  // ----- Where the approximation and the walk fail -----

  /** A block that is its own only predecessor sends the depth walk round for ever. */
  lemma SelfLoopIsRing(cfg: ControlFlowGraph, k: nat)
    requires Valid(cfg) && k < |cfg.blocks| && cfg.blocks[k].index != cfg.entryBlock
    requires cfg.blocks[k].predecessors == [cfg.blocks[k].index]
    ensures InRing(cfg, cfg.blocks[k].index)
  {
    var i := cfg.blocks[k].index;
    assert Ids(cfg.blocks)[k] == i && HasBlock(cfg, i);
    var j := BlockAtIndex(cfg, i);
    assert j == k by { assert Ids(cfg.blocks)[j] == Ids(cfg.blocks)[k]; }
    RingFound(cfg, i, {i});
  }

  /** Entry 0, then 1, then a loop 2 that is its own second predecessor. */
  const LOOP := ControlFlowGraph([BasicBlock(0, [1], []), BasicBlock(1, [2], [0]), BasicBlock(2, [2], [1, 2])], 0)

  lemma LoopBlock(i: int)
    ensures Ids(LOOP.blocks) == [0, 1, 2]
    ensures HasBlock(LOOP, i) <==> 0 <= i <= 2
    ensures 0 <= i <= 2 ==> BlockAt(LOOP, i) == LOOP.blocks[i]
  {
    var ids := Ids(LOOP.blocks);
    assert ids == [0, 1, 2];
    assert ids[0] == 0 && ids[1] == 1 && ids[2] == 2;
    if HasBlock(LOOP, i) { var k := BlockAtIndex(LOOP, i); }
  }

  lemma LoopEdge(u: int, v: int)
    ensures Edge(Flow(LOOP), u, v) <==> (u == 0 && v == 1) || (u == 1 && v == 2) || (u == 2 && v == 2)
  {
    LoopBlock(u);
    assert HasBlock(LOOP, u) <==> u in Elements(Ids(LOOP.blocks));
  }

  lemma LoopIsValid()
    ensures Valid(LOOP)
  {
    LoopBlock(0);
    forall k | 0 <= k < 3 ensures Mirrors(LOOP, LOOP.blocks[k]) {
      forall p ensures p in LOOP.blocks[k].predecessors <==> Edge(Flow(LOOP), p, LOOP.blocks[k].index) {
        LoopEdge(p, k);
      }
    }
  }

  /** The assigned immediate dominator need not be the true one: 2 gets the entry although 1 dominates it. */
  lemma AssignedMayBeCoarse()
    ensures Valid(LOOP) && AssignedIdom(0, LOOP.blocks[2]) == Some(0)
    ensures StrictlyDominates(LOOP, 1, 2) && !IsTrueIdom(LOOP, 0, 2)
  {
    LoopIsValid();
    assert [1, 2][0] == 1 && [1, 2][1] == 2;
    forall p | Joins(Flow(LOOP), p, 0, 2) ensures 1 in p {
      assert Edge(Flow(LOOP), p[0], p[1]);
      LoopEdge(p[0], p[1]);
      assert p[1] in p;
    }
    assert Joins(Flow(LOOP), [0], 0, 0) && 1 !in [0];
  }
}
