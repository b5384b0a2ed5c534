/** `computeDominators`: immediate dominators by iteration over the reverse postorder, and what is read off them. */
module ComputedDominators {
  import opened Collections
  import opened Digraphs
  import opened PostOrders
  import opened DominatorFixpoint
  import opened DominatorPasses

  // ----- The reverse postorder -----

  function Reversed(xs: seq<int>): (r: seq<int>)
    ensures |r| == |xs| && forall i :: 0 <= i < |xs| ==> r[i] == xs[|xs| - 1 - i]
  {
    seq(|xs|, i requires 0 <= i < |xs| => xs[|xs| - 1 - i])
  }

  /** The reachable blocks, each once, the entry first and every other block after one of its predecessors. */
  ghost predicate IsReversePostOrder(g: Graph, entry: int, rpo: seq<int>) {
    && NoDuplicates(rpo) && rpo != [] && rpo[0] == entry
    && (forall v :: v in rpo <==> Reaches(g, entry, v))
    && forall i :: 0 < i < |rpo| ==> HasCaller(g, rpo[i], Elements(rpo[..i]))
  }

  lemma ReversedHangs(g: Graph, entry: int, inner: seq<int>, i: nat)
    requires Hangs(g, inner, {entry}) && 0 < i <= |inner|
    ensures var rpo := Reversed(inner + [entry]); HasCaller(g, rpo[i], Elements(rpo[..i]))
  {
    var post := inner + [entry];
    var rpo := Reversed(post);
    var k := |inner| - i;
    HangsAt(g, inner, {entry}, k);
    var u :| u in Elements(inner[k + 1..]) + {entry} && Edge(g, u, inner[k]);
    if u == entry {
      assert rpo[..i][0] == entry;
    } else {
      var j :| 0 <= j < |inner[k + 1..]| && inner[k + 1..][j] == u;
      assert rpo[..i][i - 1 - j] == post[|inner| - (i - 1 - j)];
    }
  }

  method ReversePostOrder(cfg: FunctionCfg, reachable: set<int>) returns (rpo: seq<int>)
    requires WellFormed(cfg) && cfg.entryBlockId >= 0 && reachable == ReachableSet(cfg)
    ensures IsReversePostOrder(FlowOf(cfg), cfg.entryBlockId, rpo)
  {
    var entry := cfg.entryBlockId;
    ReachesSelf(FlowOf(cfg), entry);
    InReachableSet(cfg, entry);
    var traversal := new Traversal(cfg, reachable);
    ghost var inner := traversal.Dfs(entry, {});
    assert traversal.postOrder == inner + [entry];
    rpo := Reversed(traversal.postOrder);
    PostOrderIsComplete(cfg, inner, traversal.visited);
  }

  lemma PostOrderIsComplete(cfg: FunctionCfg, inner: seq<int>, visited: set<int>)
    requires WellFormed(cfg) && cfg.entryBlockId >= 0
    requires IsPostOrder(FlowOf(cfg), ReachableSet(cfg), {}, visited, inner + [cfg.entryBlockId])
    requires Hangs(FlowOf(cfg), inner, {cfg.entryBlockId})
    ensures IsReversePostOrder(FlowOf(cfg), cfg.entryBlockId, Reversed(inner + [cfg.entryBlockId]))
  {
    var g, entry := FlowOf(cfg), cfg.entryBlockId;
    var post := inner + [entry];
    var rpo := Reversed(post);
    forall v ensures v in rpo <==> v in post {
      if v in post {
        var k :| 0 <= k < |post| && post[k] == v;
        assert rpo[|post| - 1 - k] == v;
      }
    }
    forall v ensures v in post <==> Reaches(g, entry, v) {
      assert v in post <==> v in Elements(post);
      InReachableSet(cfg, v);
      if Reaches(g, entry, v) { ListedIsClosed(cfg, visited, post, v); }
    }
    forall i | 0 < i < |rpo| ensures HasCaller(g, rpo[i], Elements(rpo[..i])) { ReversedHangs(g, entry, inner, i); }
  }

  lemma ListedIsClosed(cfg: FunctionCfg, visited: set<int>, post: seq<int>, v: int)
    requires WellFormed(cfg) && IsPostOrder(FlowOf(cfg), ReachableSet(cfg), {}, visited, post)
    requires cfg.entryBlockId in post && Reaches(FlowOf(cfg), cfg.entryBlockId, v)
    ensures v in visited
  {
    var g := FlowOf(cfg);
    forall u, s | u in visited && Edge(g, u, s) ensures s in visited {
      assert u in Elements(post);
      InReachableSet(cfg, u);
      ReachesThenSteps(g, cfg.entryBlockId, u, s);
      InReachableSet(cfg, s);
    }
    assert cfg.entryBlockId in Elements(post);
    var p :| Joins(g, p, cfg.entryBlockId, v);
    ClosedSetHoldsWalk(g, visited, p);
  }

  /** The place of each block in the list. */
  ghost predicate IsIndex(rpo: seq<int>, rank: map<int, int>) {
    rank.Keys == Elements(rpo) && forall i :: 0 <= i < |rpo| ==> rpo[i] in rank && rank[rpo[i]] == i
  }

  method IndexOrder(rpo: seq<int>) returns (rank: map<int, int>)
    requires NoDuplicates(rpo)
    ensures IsIndex(rpo, rank)
  {
    rank := map[];
    for i := 0 to |rpo|
      invariant IsIndex(rpo[..i], rank)
    {
      assert rpo[..i + 1] == rpo[..i] + [rpo[i]];
      assert rpo[i] !in rpo[..i];
      rank := rank[rpo[i] := i];
      assert Elements(rpo[..i + 1]) == Elements(rpo[..i]) + {rpo[i]};
    }
    assert rpo[..|rpo|] == rpo;
  }

  lemma IndexIsOrder(g: Graph, entry: int, rpo: seq<int>, rank: map<int, int>)
    requires IsReversePostOrder(g, entry, rpo) && IsIndex(rpo, rank)
    ensures IsOrder(g, Order(entry, rank))
  {
    var o := Order(entry, rank);
    forall b ensures b in rank <==> Reaches(g, entry, b) { assert b in rpo <==> b in Elements(rpo); }
    forall b | b in rank ensures 0 <= rank[b] < |rpo| && rpo[rank[b]] == b {
      assert b in Elements(rpo);
      var i :| 0 <= i < |rpo| && rpo[i] == b;
    }
    forall b | b in rank && b != entry ensures exists u :: IsForward(g, o, u, b) {
      var i := rank[b];
      var u :| u in Elements(rpo[..i]) && Edge(g, u, rpo[i]);
      var k :| 0 <= k < i && rpo[..i][k] == u;
      assert rpo[k] == u;
      assert IsForward(g, o, u, b);
    }
  }

  // ----- Candidates -----

  /** `idom` holds -1 for the blocks not processed yet, and the tree `t` for the others. */
  ghost predicate Tracks(o: Order, idom: map<int, int>, t: Tree) {
    && idom.Keys == o.rank.Keys && IsTree(o, t) && (forall b :: b in o.rank ==> b >= 0)
    && forall b :: b in idom ==> (b in t <==> idom[b] != -1) && (b in t ==> t[b] == idom[b])
  }

  lemma TracksUpdate(o: Order, idom: map<int, int>, t: Tree, b: int, r: int)
    requires Tracks(o, idom, t) && b in idom && r in t && IsTree(o, t[b := r])
    ensures Tracks(o, idom[b := r], t[b := r])
  {}

  /** The fingers may replace the blocks they started from. */
  ghost predicate SameAbove(o: Order, t: Tree, a: int, b: int, f1: int, f2: int) {
    && IsTree(o, t) && a in t && b in t && f1 in t && f2 in t
    && forall x :: Above(o, t, x, f1) && Above(o, t, x, f2) <==> Above(o, t, x, a) && Above(o, t, x, b)
  }

  lemma ClimbFirst(o: Order, t: Tree, a: int, b: int, f1: int, f2: int)
    requires SameAbove(o, t, a, b, f1, f2) && o.rank[f1] > o.rank[f2]
    ensures f1 != o.entry && SameAbove(o, t, a, b, t[f1], f2) && 0 <= o.rank[t[f1]] < o.rank[f1]
  {
    ClimbOne(o, t, f1, f2);
  }

  lemma ClimbSecond(o: Order, t: Tree, a: int, b: int, f1: int, f2: int)
    requires SameAbove(o, t, a, b, f1, f2) && o.rank[f2] > o.rank[f1]
    ensures f2 != o.entry && SameAbove(o, t, a, b, f1, t[f2]) && 0 <= o.rank[t[f2]] < o.rank[f2]
  {
    ClimbOne(o, t, f2, f1);
  }

  /** Two fingers climb until they meet: exactly what stands above both blocks stands above the meeting point. */
  method Intersect(o: Order, idom: map<int, int>, ghost t: Tree, b1: int, b2: int) returns (finger: int)
    requires Tracks(o, idom, t) && b1 in t && b2 in t
    ensures Meets(o, t, b1, b2, finger)
  {
    var finger1, finger2 := b1, b2;
    while finger1 != finger2
      invariant SameAbove(o, t, b1, b2, finger1, finger2)
      decreases o.rank[finger1] + o.rank[finger2]
    {
      ghost var sum := o.rank[finger1] + o.rank[finger2];
      while o.rank[finger1] > o.rank[finger2]
        invariant SameAbove(o, t, b1, b2, finger1, finger2) && o.rank[finger1] + o.rank[finger2] <= sum
        invariant o.rank[finger1] + o.rank[finger2] < sum || finger1 != finger2
        decreases o.rank[finger1]
      {
        ClimbFirst(o, t, b1, b2, finger1, finger2);
        finger1 := idom[finger1];
      }
      while o.rank[finger2] > o.rank[finger1]
        invariant SameAbove(o, t, b1, b2, finger1, finger2) && o.rank[finger1] + o.rank[finger2] <= sum
        invariant o.rank[finger1] + o.rank[finger2] < sum || o.rank[finger1] < o.rank[finger2]
        decreases o.rank[finger2]
      {
        ClimbSecond(o, t, b1, b2, finger1, finger2);
        finger2 := idom[finger2];
      }
    }
    finger := finger1;
  }

  function ProcessedPredecessors(preds: seq<int>, reachable: set<int>, idom: map<int, int>): (r: seq<int>)
    requires reachable <= idom.Keys
    ensures forall p :: p in r <==> p in preds && p in reachable && idom[p] != -1
  {
    if preds == [] then []
    else
      var n := |preds| - 1;
      ProcessedPredecessors(preds[..n], reachable, idom) +
        if preds[n] in reachable && idom[preds[n]] != -1 then [preds[n]] else []
  }

  /** Exactly what stands above all listed blocks stands above `r`. */
  ghost predicate MeetsList(o: Order, t: Tree, ps: seq<int>, r: int) {
    && IsTree(o, t) && r in t && (forall k :: 0 <= k < |ps| ==> ps[k] in t)
    && forall x :: Above(o, t, x, r) <==> forall k :: 0 <= k < |ps| ==> Above(o, t, x, ps[k])
  }

  lemma MeetsOne(o: Order, t: Tree, p: int)
    requires IsTree(o, t) && p in t
    ensures MeetsList(o, t, [p], p)
  {
    forall x ensures Above(o, t, x, p) <==> forall k :: 0 <= k < |[p]| ==> Above(o, t, x, [p][k]) {
      assert [p][0] == p;
    }
  }

  lemma MeetsOneMore(o: Order, t: Tree, ps: seq<int>, r: int, p: int, meet: int)
    requires MeetsList(o, t, ps, r) && p in t && Meets(o, t, p, r, meet)
    ensures MeetsList(o, t, ps + [p], meet)
  {
    var qs := ps + [p];
    forall x ensures Above(o, t, x, meet) <==> forall k :: 0 <= k < |qs| ==> Above(o, t, x, qs[k]) {
      if forall k :: 0 <= k < |qs| ==> Above(o, t, x, qs[k]) {
        assert Above(o, t, x, qs[|ps|]);
        forall k | 0 <= k < |ps| ensures Above(o, t, x, ps[k]) { assert Above(o, t, x, qs[k]); }
      }
    }
  }

  method IntersectAll(o: Order, idom: map<int, int>, ghost t: Tree, ps: seq<int>) returns (newIdom: int)
    requires Tracks(o, idom, t) && ps != [] && forall k :: 0 <= k < |ps| ==> ps[k] in t
    ensures MeetsList(o, t, ps, newIdom)
  {
    newIdom := ps[0];
    MeetsOne(o, t, ps[0]);
    assert ps[..1] == [ps[0]];
    for i := 1 to |ps|
      invariant MeetsList(o, t, ps[..i], newIdom)
    {
      var meet := Intersect(o, idom, t, ps[i], newIdom);
      MeetsOneMore(o, t, ps[..i], newIdom, ps[i], meet);
      assert ps[..i + 1] == ps[..i] + [ps[i]];
      newIdom := meet;
    }
    assert ps[..|ps|] == ps;
  }

  // ----- The iteration -----

  lemma ListIsMeet(cfg: FunctionCfg, o: Order, idom: map<int, int>, t: Tree, b: int, r: int)
    requires WellFormed(cfg) && b in FlowOf(cfg) && Tracks(o, idom, t)
    requires MeetsList(o, t, ProcessedPredecessors(cfg.blocks[b].predecessors, o.rank.Keys, idom), r)
    ensures IsMeet(FlowOf(cfg), o, t, b, r)
  {
    var g, ps := FlowOf(cfg), ProcessedPredecessors(cfg.blocks[b].predecessors, o.rank.Keys, idom);
    forall p ensures IsProcessed(g, t, p, b) <==> p in ps {}
    forall x ensures AboveAll(g, o, t, x, b) <==> forall k :: 0 <= k < |ps| ==> Above(o, t, x, ps[k]) {
      if AboveAll(g, o, t, x, b) {
        forall k | 0 <= k < |ps| ensures Above(o, t, x, ps[k]) { assert IsProcessed(g, t, ps[k], b); }
      } else {
        var p :| IsProcessed(g, t, p, b) && !Above(o, t, x, p);
        assert p in ps;
      }
    }
  }

  lemma SomeProcessed(cfg: FunctionCfg, o: Order, idom: map<int, int>, was: Tree, t: Tree, b: int)
    requires WellFormed(cfg) && b in FlowOf(cfg) && Tracks(o, idom, t) && b in o.rank && b != o.entry
    requires IsPass(FlowOf(cfg), o, was, t, o.rank[b])
    ensures var ps := ProcessedPredecessors(cfg.blocks[b].predecessors, o.rank.Keys, idom);
      ps != [] && forall k :: 0 <= k < |ps| ==> ps[k] in t
  {
    var y :| IsForward(FlowOf(cfg), o, y, b);
    var ps := ProcessedPredecessors(cfg.blocks[b].predecessors, o.rank.Keys, idom);
    assert y in ps;
    forall k | 0 <= k < |ps| ensures ps[k] in t {
      assert ps[k] in ps;
      IsInTree(o, idom, t, ps[k]);
    }
  }

  lemma IsInTree(o: Order, idom: map<int, int>, t: Tree, p: int)
    requires Tracks(o, idom, t) && p in idom && idom[p] != -1
    ensures p in t
  {}

  /** The new candidate of one block; some predecessor is always processed by then. */
  method RefineBlock(cfg: FunctionCfg, o: Order, idom: map<int, int>, ghost was: Tree, ghost t: Tree, b: int)
    returns (newIdom: int)
    requires WellFormed(cfg) && b in FlowOf(cfg) && Tracks(o, idom, t) && b in o.rank && b != o.entry
    requires IsPass(FlowOf(cfg), o, was, t, o.rank[b])
    ensures IsMeet(FlowOf(cfg), o, t, b, newIdom)
  {
    var processed := ProcessedPredecessors(cfg.blocks[b].predecessors, o.rank.Keys, idom);
    SomeProcessed(cfg, o, idom, was, t, b);
    newIdom := IntersectAll(o, idom, t, processed);
    ListIsMeet(cfg, o, idom, t, b, newIdom);
  }

  /** The state of a pass that has come to place `n`. */
  ghost predicate IsPassing(
      g: Graph, o: Order, rpo: seq<int>, was: Tree, t: Tree, idom: map<int, int>, changed: bool, n: int) {
    && IsPass(g, o, was, t, n) && Tracks(o, idom, t)
    && if changed then IsLighter(o, rpo, t, was) else t == was && MeetsBelow(g, o, t, n)
  }

  ghost predicate IsLighter(o: Order, rpo: seq<int>, t: Tree, was: Tree)
    requires IsTree(o, t) && IsTree(o, was)
  {
    Weight(o, rpo, t, |rpo|) < Weight(o, rpo, was, |rpo|)
  }

  ghost predicate MeetsBelow(g: Graph, o: Order, t: Tree, n: int)
    requires IsTree(o, t)
  {
    forall c :: c in t && c != o.entry && o.rank[c] < n ==> IsMeet(g, o, t, c, t[c])
  }

  ghost predicate IsListed(g: Graph, o: Order, rpo: seq<int>) {
    IsOrder(g, o) && IsReversePostOrder(g, o.entry, rpo) && IsIndex(rpo, o.rank)
  }

  lemma SameMap<K, V>(m: map<K, V>, k: K)
    requires k in m
    ensures m[k := m[k]] == m
  {}

  lemma KeepsCandidate(
      g: Graph, o: Order, rpo: seq<int>, was: Tree, t: Tree, idom: map<int, int>, changed: bool, b: int, n: int)
    requires b in o.rank && o.rank[b] == n && b != o.entry && IsPassing(g, o, rpo, was, t, idom, changed, n)
    requires IsRanking(o) && b in t && IsMeet(g, o, t, b, t[b])
    ensures IsPassing(g, o, rpo, was, t, idom, changed, n + 1)
  {
    PassStep(g, o, was, t, b, n, t[b]);
    SameMap(t, b);
    forall c | !changed && c in t && c != o.entry && o.rank[c] < n + 1 ensures IsMeet(g, o, t, c, t[c]) {
      if o.rank[c] == n { assert c == b; }
    }
  }

  lemma ChangesCandidate(
      g: Graph, o: Order, rpo: seq<int>, was: Tree, t: Tree, idom: map<int, int>, changed: bool, b: int, n: int, r: int)
    requires b in o.rank && o.rank[b] == n && b != o.entry && IsPassing(g, o, rpo, was, t, idom, changed, n)
    requires b in rpo && IsIndex(rpo, o.rank) && (b in t ==> t[b] != r) && IsMeet(g, o, t, b, r)
    ensures IsPassing(g, o, rpo, was, t[b := r], idom[b := r], true, n + 1)
  {
    PassStep(g, o, was, t, b, n, r);
    TracksUpdate(o, idom, t, b, r);
    RankIsPlace(rpo, o.rank, r);
    WeightFalls(o, rpo, t, b, r, |rpo|);
  }

  lemma PassesEntry(g: Graph, o: Order, rpo: seq<int>, was: Tree, t: Tree, idom: map<int, int>, changed: bool)
    requires IsRanking(o) && IsPassing(g, o, rpo, was, t, idom, changed, 0)
    ensures IsPassing(g, o, rpo, was, t, idom, changed, 1)
  {
    PassEntry(g, o, was, t);
  }

  lemma RankIsPlace(rpo: seq<int>, rank: map<int, int>, b: int)
    requires IsIndex(rpo, rank) && b in rank
    ensures 0 <= rank[b] < |rpo| && rpo[rank[b]] == b
  {
    assert b in Elements(rpo);
    var i :| 0 <= i < |rpo| && rpo[i] == b;
  }

  /** One pass over the list; without a change the tree is the fixpoint, with one it is smaller by the measure. */
  method RunPass(cfg: FunctionCfg, o: Order, rpo: seq<int>, before: map<int, int>, ghost was: Tree)
    returns (idom: map<int, int>, changed: bool, ghost t: Tree)
    requires WellFormed(cfg) && IsListed(FlowOf(cfg), o, rpo) && o.entry in FlowOf(cfg)
    requires IsBetweenPasses(FlowOf(cfg), o, before, was, true)
    ensures IsBetweenPasses(FlowOf(cfg), o, idom, t, changed)
    ensures if changed then IsLighter(o, rpo, t, was) else t == was
  {
    PassingBegins(FlowOf(cfg), o, rpo, was, before);
    idom, changed, t := PassBlocks(cfg, o, rpo, before, was);
    PassingEnds(FlowOf(cfg), o, rpo, was, t, idom, changed);
  }

  method PassBlocks(cfg: FunctionCfg, o: Order, rpo: seq<int>, before: map<int, int>, ghost was: Tree)
    returns (idom: map<int, int>, changed: bool, ghost t: Tree)
    requires WellFormed(cfg) && IsListed(FlowOf(cfg), o, rpo) && o.entry in FlowOf(cfg)
    requires IsPassing(FlowOf(cfg), o, rpo, was, was, before, false, 0)
    ensures IsPassing(FlowOf(cfg), o, rpo, was, t, idom, changed, |rpo|)
  {
    idom, changed, t := before, false, was;
    for i := 0 to |rpo|
      invariant IsPassing(FlowOf(cfg), o, rpo, was, t, idom, changed, i)
    {
      idom, changed, t := PassBlock(cfg, o, rpo, idom, changed, was, t, i);
    }
  }

  lemma PassingBegins(g: Graph, o: Order, rpo: seq<int>, was: Tree, idom: map<int, int>)
    requires Tracks(o, idom, was) && IsRest(g, o, was)
    ensures IsPassing(g, o, rpo, was, was, idom, false, 0)
  {
    PassBegins(g, o, was);
  }

  lemma PassingEnds(g: Graph, o: Order, rpo: seq<int>, was: Tree, t: Tree, idom: map<int, int>, changed: bool)
    requires IsListed(g, o, rpo) && IsPassing(g, o, rpo, was, t, idom, changed, |rpo|)
    ensures IsBetweenPasses(g, o, idom, t, changed)
    ensures if changed then IsLighter(o, rpo, t, was) else t == was
  {
    forall b | b in o.rank ensures o.rank[b] < |rpo| { RankIsPlace(rpo, o.rank, b); }
    PassEnds(g, o, was, t, |rpo|);
  }

  /** The body of the loop over the list. */
  method PassBlock(
      cfg: FunctionCfg, o: Order, rpo: seq<int>, before: map<int, int>, changedBefore: bool, ghost was: Tree,
      ghost t: Tree, i: nat)
    returns (idom: map<int, int>, changed: bool, ghost after: Tree)
    requires WellFormed(cfg) && IsListed(FlowOf(cfg), o, rpo) && o.entry in FlowOf(cfg) && i < |rpo|
    requires IsPassing(FlowOf(cfg), o, rpo, was, t, before, changedBefore, i)
    ensures IsPassing(FlowOf(cfg), o, rpo, was, after, idom, changed, i + 1)
  {
    idom, changed, after := before, changedBefore, t;
    var b := rpo[i];
    PlaceInList(cfg, o, rpo, i);
    if b == o.entry {
      PassesEntry(FlowOf(cfg), o, rpo, was, t, idom, changed);
      return;
    }
    var newIdom := RefineBlock(cfg, o, idom, was, t, b);
    if idom[b] != newIdom {
      ChangesCandidate(FlowOf(cfg), o, rpo, was, t, idom, changed, b, i, newIdom);
      idom, changed, after := idom[b := newIdom], true, t[b := newIdom];
    } else {
      KeepsCandidate(FlowOf(cfg), o, rpo, was, t, idom, changed, b, i);
    }
  }

  lemma PlaceInList(cfg: FunctionCfg, o: Order, rpo: seq<int>, i: nat)
    requires WellFormed(cfg) && IsListed(FlowOf(cfg), o, rpo) && o.entry in FlowOf(cfg)
    requires i < |rpo|
    ensures rpo[i] in o.rank && o.rank[rpo[i]] == i && rpo[i] in FlowOf(cfg)
    ensures rpo[i] == o.entry ==> i == 0
  {
    ReachedIsBlock(cfg, o.entry, rpo[i]);
  }

  lemma ReachedIsBlock(cfg: FunctionCfg, entry: int, b: int)
    requires WellFormed(cfg) && entry in FlowOf(cfg) && Reaches(FlowOf(cfg), entry, b)
    ensures b in FlowOf(cfg)
  {
    var p :| Joins(FlowOf(cfg), p, entry, b);
    if |p| > 1 { assert Edge(FlowOf(cfg), p[|p| - 2], p[|p| - 1]); }
  }

  method InitialCandidates(rpo: seq<int>, entry: int) returns (idom: map<int, int>)
    requires entry in rpo
    ensures idom.Keys == Elements(rpo) && forall b :: b in idom ==> idom[b] == if b == entry then entry else -1
  {
    idom := map[];
    for i := 0 to |rpo|
      invariant idom.Keys == Elements(rpo[..i]) && forall b :: b in idom ==> idom[b] == -1
    {
      assert rpo[..i + 1] == rpo[..i] + [rpo[i]];
      assert Elements(rpo[..i + 1]) == Elements(rpo[..i]) + {rpo[i]};
      idom := idom[rpo[i] := -1];
    }
    assert rpo[..|rpo|] == rpo;
    assert entry in Elements(rpo);
    idom := idom[entry := entry];
  }

  lemma InitialTracks(cfg: FunctionCfg, o: Order, rpo: seq<int>, idom: map<int, int>)
    requires WellFormed(cfg) && IsListed(FlowOf(cfg), o, rpo) && o.entry in FlowOf(cfg)
    requires idom.Keys == o.rank.Keys && forall b :: b in idom ==> idom[b] == if b == o.entry then o.entry else -1
    ensures IsBetweenPasses(FlowOf(cfg), o, idom, map[o.entry := o.entry], true)
  {
    FirstRest(FlowOf(cfg), o);
    forall b | b in o.rank ensures b >= 0 { ReachedIsBlock(cfg, o.entry, b); }
  }

  /** Passes until nothing changes: the candidates are then at the fixpoint. */
  method Iterate(cfg: FunctionCfg, o: Order, rpo: seq<int>) returns (idom: map<int, int>, ghost t: Tree)
    requires WellFormed(cfg) && IsListed(FlowOf(cfg), o, rpo) && o.entry in FlowOf(cfg)
    ensures Tracks(o, idom, t) && IsFixpoint(FlowOf(cfg), o, t)
  {
    assert o.entry in rpo by { assert rpo[0] in rpo; }
    idom := InitialCandidates(rpo, o.entry);
    InitialTracks(cfg, o, rpo, idom);
    idom, t := RunPasses(cfg, o, rpo, idom);
  }

  method RunPasses(cfg: FunctionCfg, o: Order, rpo: seq<int>, before: map<int, int>)
    returns (idom: map<int, int>, ghost t: Tree)
    requires WellFormed(cfg) && IsListed(FlowOf(cfg), o, rpo) && o.entry in FlowOf(cfg)
    requires IsBetweenPasses(FlowOf(cfg), o, before, map[o.entry := o.entry], true)
    ensures Tracks(o, idom, t) && IsFixpoint(FlowOf(cfg), o, t)
  {
    var changed := true;
    idom, t := before, map[o.entry := o.entry];
    while changed
      invariant IsBetweenPasses(FlowOf(cfg), o, idom, t, changed)
      decreases Weight(o, rpo, t, |rpo|), changed
    {
      idom, changed, t := RunPass(cfg, o, rpo, idom, t);
    }
  }

  ghost predicate IsBetweenPasses(g: Graph, o: Order, idom: map<int, int>, t: Tree, changed: bool) {
    Tracks(o, idom, t) && IsRest(g, o, t) && (!changed ==> IsFixpoint(g, o, t))
  }

  // ----- The result -----

  /** -1 for the entry, and its immediate dominator for every other reachable block. */
  ghost predicate AreImmediate(cfg: FunctionCfg, idom: map<int, int>) {
    && idom.Keys == ReachableSet(cfg)
    && (cfg.entryBlockId in idom ==> idom[cfg.entryBlockId] == -1)
    && forall b :: b in idom && b != cfg.entryBlockId ==> IsImmediate(FlowOf(cfg), cfg.entryBlockId, idom[b], b)
  }

  /** The final candidates, with -1 at the entry. */
  ghost predicate IsResult(cfg: FunctionCfg, o: Order, t: Tree, idom: map<int, int>) {
    && IsFixpoint(FlowOf(cfg), o, t) && o.entry == cfg.entryBlockId
    && idom == t[o.entry := -1]
    && forall b :: b in t ==> b in FlowOf(cfg)
  }

  lemma ResultIsExact(cfg: FunctionCfg, o: Order, t: Tree, idom: map<int, int>)
    requires IsResult(cfg, o, t, idom) && cfg.entryBlockId in FlowOf(cfg)
    ensures AreImmediate(cfg, idom)
  {
    forall b ensures b in idom <==> b in ReachableSet(cfg) { InReachableSet(cfg, b); }
    forall b | b in idom && b != cfg.entryBlockId ensures IsImmediate(FlowOf(cfg), cfg.entryBlockId, idom[b], b) {
      FixpointIsExact(FlowOf(cfg), o, t, b);
    }
  }

  method ImmediateDominators(cfg: FunctionCfg, reachable: set<int>)
    returns (rpo: seq<int>, o: Order, idom: map<int, int>, ghost t: Tree)
    requires WellFormed(cfg) && cfg.entryBlockId >= 0 && reachable == ReachableSet(cfg)
    ensures IsListed(FlowOf(cfg), o, rpo) && IsResult(cfg, o, t, idom)
    ensures AreImmediate(cfg, idom)
  {
    rpo := ReversePostOrder(cfg, reachable);
    var rpoIndex := IndexOrder(rpo);
    o := Order(cfg.entryBlockId, rpoIndex);
    IndexIsOrder(FlowOf(cfg), cfg.entryBlockId, rpo, rpoIndex);
    idom, t := Iterate(cfg, o, rpo);
    ResultAfter(cfg, o, t, idom);
    idom := idom[cfg.entryBlockId := -1];
    ResultIsExact(cfg, o, t, idom);
  }

  lemma ResultAfter(cfg: FunctionCfg, o: Order, t: Tree, idom: map<int, int>)
    requires WellFormed(cfg) && o.entry == cfg.entryBlockId && o.entry in FlowOf(cfg)
    requires Tracks(o, idom, t) && IsFixpoint(FlowOf(cfg), o, t)
    ensures IsResult(cfg, o, t, idom[cfg.entryBlockId := -1])
  {
    forall b | b in t ensures b in FlowOf(cfg) { ReachedIsBlock(cfg, o.entry, b); }
    forall b | b in t ensures b in idom && idom[b] == t[b] {}
    assert idom[cfg.entryBlockId := -1].Keys == t[o.entry := -1].Keys;
  }
}
