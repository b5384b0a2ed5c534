/** The blocks reachable from the entry, and a depth-first order in which each follows one of its predecessors. */
module PostOrders {
  import opened Collections
  import opened Digraphs

  datatype CfgBlock = CfgBlock(successors: seq<int>, predecessors: seq<int>, isTerminating: bool)

  /** Blocks are numbered by their place in the list. */
  datatype FunctionCfg = FunctionCfg(blocks: seq<CfgBlock>, entryBlockId: int, loopHeaders: seq<int>)

  function FlowOf(cfg: FunctionCfg): (g: Graph)
    ensures forall i :: i in g <==> 0 <= i < |cfg.blocks|
  {
    map i | 0 <= i < |cfg.blocks| :: cfg.blocks[i].successors
  }

  /** Successors are blocks, and predecessor lists mirror them. */
  ghost predicate WellFormed(cfg: FunctionCfg) {
    && cfg.entryBlockId < |cfg.blocks| && Closed(FlowOf(cfg))
    && forall i, p :: 0 <= i < |cfg.blocks| ==> (p in cfg.blocks[i].predecessors <==> Edge(FlowOf(cfg), p, i))
  }

  // ----- The end of buildCfg -----

  /** The blocks apart from their predecessors. */
  ghost predicate SameFlow(before: seq<CfgBlock>, after: seq<CfgBlock>) {
    |before| == |after| && forall i :: 0 <= i < |before| ==>
      after[i].successors == before[i].successors && after[i].isTerminating == before[i].isTerminating
  }

  /** `p` is listed for `i` exactly when one of its first `n` successors is `i`, or `p` comes before `u`. */
  ghost predicate IsFilled(blocks: seq<CfgBlock>, after: seq<CfgBlock>, u: nat, n: nat)
    requires u <= |blocks| && (u < |blocks| ==> n <= |blocks[u].successors|)
  {
    SameFlow(blocks, after) && forall i :: 0 <= i < |after| ==>
      && NoDuplicates(after[i].predecessors)
      && forall p :: p in after[i].predecessors <==> IsListedBefore(blocks, u, n, p, i)
  }

  ghost predicate IsListedBefore(blocks: seq<CfgBlock>, u: nat, n: nat, p: int, i: int)
    requires u <= |blocks| && (u < |blocks| ==> n <= |blocks[u].successors|)
  {
    && 0 <= p < |blocks|
    && ((p < u && i in blocks[p].successors) || (p == u && i in blocks[p].successors[..n]))
  }

  /** The body of the inner loop: block `u` enters the list of its successor, if that is a block and it is not there. */
  function AddPredecessor(blocks: seq<CfgBlock>, u: int, s: int): seq<CfgBlock> {
    if 0 <= s < |blocks| then blocks[s := blocks[s].(predecessors := PushNew(blocks[s].predecessors, u))] else blocks
  }

  lemma FillOne(blocks: seq<CfgBlock>, after: seq<CfgBlock>, u: nat, n: nat)
    requires u < |blocks| && n < |blocks[u].successors| && IsFilled(blocks, after, u, n)
    ensures IsFilled(blocks, AddPredecessor(after, u, blocks[u].successors[n]), u, n + 1)
  {
    var successors := blocks[u].successors;
    var s := successors[n];
    var filled := AddPredecessor(after, u, s);
    assert successors[..n + 1] == successors[..n] + [s];
    forall i | 0 <= i < |filled|
      ensures NoDuplicates(filled[i].predecessors)
      ensures forall p :: p in filled[i].predecessors <==> IsListedBefore(blocks, u, n + 1, p, i)
    {
      forall p
        ensures IsListedBefore(blocks, u, n + 1, p, i) <==> IsListedBefore(blocks, u, n, p, i) || (p == u && i == s)
      {}
    }
  }

  lemma FillNext(blocks: seq<CfgBlock>, after: seq<CfgBlock>, u: nat)
    requires u < |blocks| && IsFilled(blocks, after, u, |blocks[u].successors|)
    ensures IsFilled(blocks, after, u + 1, 0)
  {
    assert blocks[u].successors[..|blocks[u].successors|] == blocks[u].successors;
    forall p, i
      ensures IsListedBefore(blocks, u, |blocks[u].successors|, p, i) <==> IsListedBefore(blocks, u + 1, 0, p, i)
    {}
  }

  /** Fills the predecessor lists, which are empty before, from the successor lists. */
  method FillPredecessors(blocks: seq<CfgBlock>) returns (after: seq<CfgBlock>)
    requires forall i :: 0 <= i < |blocks| ==> blocks[i].predecessors == []
    ensures IsFilled(blocks, after, |blocks|, 0)
  {
    after := blocks;
    for u := 0 to |blocks|
      invariant IsFilled(blocks, after, u, 0)
    {
      var successors := blocks[u].successors;
      for n := 0 to |successors|
        invariant IsFilled(blocks, after, u, n)
      {
        FillOne(blocks, after, u, n);
        after := AddPredecessor(after, u, successors[n]);
      }
      FillNext(blocks, after, u);
    }
  }

  /** For any blocks whose successors are blocks the graph is well formed, and its flow is theirs. */
  lemma FilledIsWellFormed(blocks: seq<CfgBlock>, after: seq<CfgBlock>, entry: int, loopHeaders: seq<int>)
    requires IsFilled(blocks, after, |blocks|, 0) && entry < |blocks|
    requires forall i, s :: 0 <= i < |blocks| && s in blocks[i].successors ==> 0 <= s < |blocks|
    ensures var cfg := FunctionCfg(after, entry, loopHeaders);
      WellFormed(cfg) && FlowOf(cfg) == FlowOf(FunctionCfg(blocks, entry, loopHeaders))
  {
    var g := FlowOf(FunctionCfg(after, entry, loopHeaders));
    forall i, p | 0 <= i < |after| ensures p in after[i].predecessors <==> Edge(g, p, i) {
      assert p in after[i].predecessors <==> IsListedBefore(blocks, |blocks|, 0, p, i);
    }
    forall u, v | Edge(g, u, v) ensures v in g { assert v in blocks[u].successors; }
  }

  ghost function ReachableSet(cfg: FunctionCfg): set<int> { ReachableFrom(FlowOf(cfg), {cfg.entryBlockId}) }

  lemma InReachableSet(cfg: FunctionCfg, v: int)
    ensures v in ReachableSet(cfg) <==>
      v in FlowOf(cfg) && cfg.entryBlockId in FlowOf(cfg) && Reaches(FlowOf(cfg), cfg.entryBlockId, v)
  {
    assert cfg.entryBlockId in {cfg.entryBlockId};
  }

  // ----- reachableBlocks -----

  /** The search of a queue of blocks. */
  ghost predicate IsSpread(g: Graph, entry: int, visited: set<int>, queue: seq<int>) {
    && Closed(g) && entry in g && (entry in visited || entry in queue)
    && (forall v :: v in visited ==> v in g && Reaches(g, entry, v))
    && (forall v :: v in queue ==> v in g && Reaches(g, entry, v))
    && (forall u, v :: u in visited && Edge(g, u, v) ==> v in visited || v in queue)
  }

  function Unvisited(visited: set<int>, xs: seq<int>): (r: seq<int>)
    ensures forall x :: x in r <==> x in xs && x !in visited
  {
    if xs == [] then []
    else
      var n := |xs| - 1;
      Unvisited(visited, xs[..n]) + if xs[n] in visited then [] else [xs[n]]
  }

  lemma SpreadSkips(g: Graph, entry: int, visited: set<int>, queue: seq<int>)
    requires IsSpread(g, entry, visited, queue) && queue != [] && queue[0] in visited
    ensures IsSpread(g, entry, visited, queue[1..])
  {
    assert forall v :: v in queue <==> v == queue[0] || v in queue[1..];
  }

  lemma SpreadVisits(g: Graph, entry: int, visited: set<int>, queue: seq<int>)
    requires IsSpread(g, entry, visited, queue) && queue != []
    ensures queue[0] in g
    ensures var after := visited + {queue[0]};
      IsSpread(g, entry, after, queue[1..] + Unvisited(after, g[queue[0]]))
  {
    var u := queue[0];
    var after := visited + {u};
    var more := Unvisited(after, g[u]);
    assert queue[0] in queue;
    assert forall v :: v in queue <==> v == u || v in queue[1..];
    forall v | v in more ensures v in g && Reaches(g, entry, v) {
      assert Edge(g, u, v);
      ReachesThenSteps(g, entry, u, v);
    }
    forall x, v | x in after && Edge(g, x, v) ensures v in after || v in queue[1..] + more {
      if x == u { assert v in more || v in after; }
    }
  }

  lemma SpreadEnds(g: Graph, entry: int, visited: set<int>)
    requires IsSpread(g, entry, visited, [])
    ensures visited == ReachableFrom(g, {entry})
  {
    forall v | v in g && Reaches(g, entry, v) ensures v in visited {
      var p :| Joins(g, p, entry, v);
      ClosedSetHoldsWalk(g, visited, p);
    }
    assert entry in {entry};
    forall v ensures v in visited <==> v in ReachableFrom(g, {entry}) {}
  }

  method ReachableBlocks(cfg: FunctionCfg) returns (visited: set<int>)
    requires WellFormed(cfg)
    ensures visited == ReachableSet(cfg)
  {
    if cfg.entryBlockId < 0 || |cfg.blocks| == 0 { return {}; }
    ghost var g := FlowOf(cfg);
    visited := {};
    var queue := [cfg.entryBlockId];
    ReachesSelf(g, cfg.entryBlockId);
    while queue != []
      invariant IsSpread(g, cfg.entryBlockId, visited, queue)
      decreases g.Keys - visited, |queue|
    {
      var id := queue[0];
      assert id in queue;
      if id in visited {
        SpreadSkips(g, cfg.entryBlockId, visited, queue);
        queue := queue[1..];
      } else {
        SpreadVisits(g, cfg.entryBlockId, visited, queue);
        visited := visited + {id};
        queue := queue[1..] + Unvisited(visited, cfg.blocks[id].successors);
      }
    }
    SpreadEnds(g, cfg.entryBlockId, visited);
  }

  // ----- The depth-first search -----

  ghost predicate HasCaller(g: Graph, v: int, callers: set<int>) { exists u :: u in callers && Edge(g, u, v) }

  /** Each listed block has a predecessor later in the list or in `base`. */
  ghost predicate Hangs(g: Graph, xs: seq<int>, base: set<int>) {
    xs == [] || (HasCaller(g, xs[0], Elements(xs[1..]) + base) && Hangs(g, xs[1..], base))
  }

  lemma {:induction false} HangsConcat(g: Graph, xs: seq<int>, ys: seq<int>, base: set<int>, more: set<int>)
    requires Hangs(g, xs, more) && Hangs(g, ys, base) && more <= Elements(ys) + base
    ensures Hangs(g, xs + ys, base)
  {
    if xs == [] {
      assert xs + ys == ys;
    } else {
      HangsConcat(g, xs[1..], ys, base, more);
      var u :| u in Elements(xs[1..]) + more && Edge(g, u, xs[0]);
      assert (xs + ys)[1..] == xs[1..] + ys;
      assert Elements(xs[1..] + ys) == Elements(xs[1..]) + Elements(ys);
    }
  }

  lemma {:induction false} HangsAt(g: Graph, xs: seq<int>, base: set<int>, i: nat)
    requires Hangs(g, xs, base) && i < |xs|
    ensures HasCaller(g, xs[i], Elements(xs[i + 1..]) + base)
  {
    if i > 0 {
      HangsAt(g, xs[1..], base, i - 1);
      assert xs[1..][i..] == xs[i + 1..];
    }
  }

  /** `path` holds the blocks whose search is running; the listed blocks are those whose search is over. */
  ghost predicate IsPostOrder(g: Graph, reachable: set<int>, path: set<int>, visited: set<int>, post: seq<int>) {
    && path <= visited <= reachable <= g.Keys
    && NoDuplicates(post) && Elements(post) == visited - path
    && forall u, s :: u in post && Edge(g, u, s) && s in reachable ==> s in visited
  }

  lemma EnterBlock(g: Graph, reachable: set<int>, path: set<int>, visited: set<int>, post: seq<int>, id: int)
    requires IsPostOrder(g, reachable, path, visited, post) && id in reachable && id !in visited
    ensures IsPostOrder(g, reachable, path + {id}, visited + {id}, post)
  {}

  ghost predicate SuccessorsVisited(g: Graph, reachable: set<int>, visited: set<int>, id: int, n: nat)
    requires id in g && n <= |g[id]|
  {
    forall k :: 0 <= k < n ==> g[id][k] in reachable ==> g[id][k] in visited
  }

  lemma LeaveBlock(g: Graph, reachable: set<int>, path: set<int>, visited: set<int>, post: seq<int>, id: int)
    requires IsPostOrder(g, reachable, path + {id}, visited, post) && id in g && id !in path
    requires SuccessorsVisited(g, reachable, visited, id, |g[id]|)
    ensures IsPostOrder(g, reachable, path, visited, post + [id])
  {
    assert Elements(post + [id]) == Elements(post) + {id};
    assert id !in post by { assert id in post ==> id in Elements(post); }
    assert NoDuplicates(post + [id]);
  }

  /** The variables captured by the `dfs` closure, updated in place. */
  class Traversal {
    const cfg: FunctionCfg
    const reachable: set<int>
    var visited: set<int>
    var postOrder: seq<int>

    ghost predicate Valid(path: set<int>)
      reads this
    {
      IsPostOrder(FlowOf(cfg), reachable, path, visited, postOrder)
    }

    constructor (cfg: FunctionCfg, reachable: set<int>)
      requires reachable <= FlowOf(cfg).Keys
      ensures Valid({}) && this.cfg == cfg && this.reachable == reachable && postOrder == [] && visited == {}
    {
      this.cfg, this.reachable := cfg, reachable;
      visited, postOrder := {}, [];
    }

    /** Lists what it visits first, `id` last, each other block before one of its predecessors. */
    method Dfs(id: int, ghost path: set<int>) returns (ghost inner: seq<int>)
      requires Valid(path) && id in reachable
      modifies this
      ensures Valid(path) && old(visited) + {id} <= visited
      ensures Hangs(FlowOf(cfg), inner, {id})
      ensures postOrder == if id in old(visited) then old(postOrder) else old(postOrder) + inner + [id]
      decreases reachable - visited, 0
    {
      inner := [];
      if id in visited { return; }
      ghost var before, start := visited, postOrder;
      EnterBlock(FlowOf(cfg), reachable, path, visited, postOrder, id);
      visited := visited + {id};
      var successors := cfg.blocks[id].successors;
      for k := 0 to |successors|
        invariant Valid(path + {id}) && before + {id} <= visited
        invariant Hangs(FlowOf(cfg), inner, {id}) && postOrder == start + inner
        invariant SuccessorsVisited(FlowOf(cfg), reachable, visited, id, k)
      {
        inner := FollowSuccessor(id, k, path, start, inner);
      }
      LeaveBlock(FlowOf(cfg), reachable, path, visited, postOrder, id);
      postOrder := postOrder + [id];
    }

    method FollowSuccessor(id: int, k: nat, ghost path: set<int>, ghost start: seq<int>, ghost inner: seq<int>)
      returns (ghost more: seq<int>)
      requires id in FlowOf(cfg) && k < |FlowOf(cfg)[id]| && Valid(path + {id})
      requires Hangs(FlowOf(cfg), inner, {id}) && postOrder == start + inner
      requires SuccessorsVisited(FlowOf(cfg), reachable, visited, id, k)
      modifies this
      ensures Valid(path + {id}) && old(visited) <= visited
      ensures Hangs(FlowOf(cfg), more, {id}) && postOrder == start + more
      ensures SuccessorsVisited(FlowOf(cfg), reachable, visited, id, k + 1)
      decreases reachable - visited, 1
    {
      more := inner;
      ghost var before := visited;
      var s := cfg.blocks[id].successors[k];
      if s in reachable {
        ghost var known := s in visited;
        ghost var chunk := Dfs(s, path + {id});
        if !known {
          more := inner + (chunk + [s]);
          ChunkHangs(FlowOf(cfg), id, k, inner, chunk);
          Regroup(start, inner, chunk, s);
        }
      }
      OneMoreVisited(FlowOf(cfg), reachable, before, visited, id, k);
    }
  }

  lemma Regroup(start: seq<int>, inner: seq<int>, chunk: seq<int>, s: int)
    ensures start + inner + chunk + [s] == start + (inner + (chunk + [s]))
  {}

  lemma OneMoreVisited(g: Graph, reachable: set<int>, before: set<int>, after: set<int>, id: int, k: nat)
    requires id in g && k < |g[id]| && SuccessorsVisited(g, reachable, before, id, k) && before <= after
    requires g[id][k] in reachable ==> g[id][k] in after
    ensures SuccessorsVisited(g, reachable, after, id, k + 1)
  {}

  lemma ChunkHangs(g: Graph, id: int, k: nat, inner: seq<int>, chunk: seq<int>)
    requires id in g && k < |g[id]| && Hangs(g, inner, {id}) && Hangs(g, chunk, {g[id][k]})
    ensures Hangs(g, inner + (chunk + [g[id][k]]), {id})
  {
    var s := g[id][k];
    assert Edge(g, id, s) && HasCaller(g, s, Elements([s][1..]) + {id});
    assert s in Elements([s]);
    HangsConcat(g, chunk, [s], {id}, {s});
    HangsConcat(g, inner, chunk + [s], {id}, {id});
  }
}
