/** `enumerateCyclesInScc`: a search that blocks functions from which the start cannot be reached for now. */
module CycleSearch {
  import opened Collections
  import opened Digraphs
  import opened CycleLists
  import opened CycleLimits

  type BlockMap = map<int, seq<int>>

  // ----- The state of the search -----

  /** Whoever waits for `u` calls `u`. */
  ghost predicate WaitsForCallee(g: Graph, members: set<int>, blockMap: BlockMap) {
    && blockMap.Keys == members
    && forall u, x :: u in members && x in blockMap[u] ==> x in members && u in Successors(g, x)
  }

  /** Only blocked or active functions are waited for. */
  ghost predicate WaitedIsBlocked(blockMap: BlockMap, blocked: set<int>) {
    forall u :: u in blockMap && blockMap[u] != [] ==> u in blocked
  }

  /** `x` waits for all it calls, and does not call the start. */
  ghost predicate WaitsForAll(g: Graph, members: set<int>, start: int, blockMap: BlockMap, x: int) {
    forall w :: w in Successors(g, x) && w in members ==> w != start && w in blockMap && x in blockMap[w]
  }

  ghost predicate OthersWait(
      g: Graph, members: set<int>, start: int, path: set<int>, blocked: set<int>, blockMap: BlockMap)
  {
    forall x :: x in blocked && x !in path ==> WaitsForAll(g, members, start, blockMap, x)
  }

  /** `path` holds the functions being searched; the other blocked functions wait for all they call. */
  ghost predicate IsBlocking(
      g: Graph, members: set<int>, start: int, path: set<int>, blocked: set<int>, blockMap: BlockMap)
  {
    && path <= blocked <= members && WaitsForCallee(g, members, blockMap) && WaitedIsBlocked(blockMap, blocked)
    && OthersWait(g, members, start, path, blocked, blockMap)
  }

  /** What a blocked function off the path calls is blocked as well. */
  lemma CalleeIsBlocked(
      g: Graph, members: set<int>, start: int, path: set<int>, blocked: set<int>, blockMap: BlockMap, x: int, w: int)
    requires IsBlocking(g, members, start, path, blocked, blockMap)
    requires x in blocked && x !in path && w in Successors(g, x) && w in members
    ensures w in blocked && w != start
  {
    assert WaitsForAll(g, members, start, blockMap, x);
    assert blockMap[w] != [];
  }

  /** No cycle that begins with the path goes through a blocked function off the path. */
  lemma {:induction false} BlockedHasNone(
      g: Graph, members: set<int>, start: int, path: set<int>, blocked: set<int>, blockMap: BlockMap, p: seq<int>,
      k: nat)
    requires IsBlocking(g, members, start, path, blocked, blockMap)
    requires p != [] && p[0] == start && start in members && path <= Elements(p)
    requires Last(p) in blocked && Last(p) !in path
    ensures Cycles(g, members, p, k) == []
    decreases members - Elements(p), |Successors(g, Last(p))| - k
  {
    var succ := Successors(g, Last(p));
    if k < |succ| {
      var w := succ[k];
      BlockedHasNone(g, members, start, path, blocked, blockMap, p, k + 1);
      if w in members {
        CalleeIsBlocked(g, members, start, path, blocked, blockMap, Last(p), w);
        if w !in p {
          FewerOutside(members, p, w);
          assert w !in path by { assert w in path ==> w in Elements(p); }
          assert Elements(p + [w]) == Elements(p) + {w};
          BlockedHasNone(g, members, start, path, blocked, blockMap, p + [w], 0);
        }
      }
    }
  }

  // ----- Unblocking -----

  /** While functions are being unblocked: those active are unblocked and may still be waited for. */
  ghost predicate IsUnblocking(
      g: Graph, members: set<int>, start: int, path: set<int>, active: set<int>, blocked: set<int>,
      blockMap: BlockMap)
  {
    && blocked <= members && WaitsForCallee(g, members, blockMap) && WaitedIsBlocked(blockMap, blocked + active)
    && OthersWait(g, members, start, path, blocked, blockMap) && active !! blocked
  }

  /** Nobody in `shield` waits for a function outside it, so that unblocking from outside leaves it alone. */
  ghost predicate IsShield(shield: set<int>, blockMap: BlockMap) {
    forall y, x :: y in blockMap && y !in shield && x in blockMap[y] ==> x !in shield
  }

  lemma UnblockBegins(
      g: Graph, members: set<int>, start: int, path: set<int>, active: set<int>, blocked: set<int>,
      blockMap: BlockMap, u: int)
    requires IsUnblocking(g, members, start, path + {u}, active, blocked, blockMap) && u in blocked && u !in path
    ensures IsUnblocking(g, members, start, path, active + {u}, blocked - {u}, blockMap)
  {
    forall x | x in blocked - {u} && x !in path ensures WaitsForAll(g, members, start, blockMap, x) {
      assert x in blocked && x !in path + {u};
    }
    assert blocked - {u} + (active + {u}) == blocked + active;
  }

  /** The first who waits for `u` is taken off the list; only that function may now lack an entry. */
  lemma TakeFirst(
      g: Graph, members: set<int>, start: int, path: set<int>, active: set<int>, blocked: set<int>,
      blockMap: BlockMap, u: int)
    requires IsUnblocking(g, members, start, path, active, blocked, blockMap)
    requires u in active && u in blockMap && blockMap[u] != []
    ensures var w := blockMap[u][0];
      IsUnblocking(g, members, start, path + {w}, active, blocked, blockMap[u := blockMap[u][1..]])
  {
    var w, after := blockMap[u][0], blockMap[u := blockMap[u][1..]];
    assert forall x :: x in blockMap[u] <==> x == w || x in after[u];
    forall x | x in blocked && x !in path + {w} ensures WaitsForAll(g, members, start, after, x) {
      assert WaitsForAll(g, members, start, blockMap, x);
    }
    assert after.Keys == members;
  }

  lemma NotBlockedNeedsNothing(
      g: Graph, members: set<int>, start: int, path: set<int>, active: set<int>, blocked: set<int>,
      blockMap: BlockMap, w: int)
    requires IsUnblocking(g, members, start, path + {w}, active, blocked, blockMap) && w !in blocked
    ensures IsUnblocking(g, members, start, path, active, blocked, blockMap)
  {
    forall x | x in blocked && x !in path ensures WaitsForAll(g, members, start, blockMap, x) {
      assert x !in path + {w};
    }
  }

  lemma UnblockEnds(
      g: Graph, members: set<int>, start: int, path: set<int>, active: set<int>, blocked: set<int>,
      blockMap: BlockMap, u: int)
    requires IsUnblocking(g, members, start, path, active + {u}, blocked, blockMap)
    requires u in blockMap && blockMap[u] == []
    ensures IsUnblocking(g, members, start, path, active, blocked, blockMap)
  {
    forall y | y in blockMap && blockMap[y] != [] ensures y in blocked + active {
      assert y in blocked + (active + {u});
    }
  }

  /** The lists only lose entries, and the lists of functions outside `blocked` are untouched. */
  ghost predicate Released(before: BlockMap, after: BlockMap, blocked: set<int>) {
    && before.Keys == after.Keys
    && (forall y, x :: y in after && x in after[y] ==> x in before[y])
    && forall y :: y in after && y !in blocked ==> after[y] == before[y]
  }

  lemma ReleasedTwice(first: BlockMap, second: BlockMap, third: BlockMap, blocked: set<int>, fewer: set<int>)
    requires Released(first, second, blocked) && Released(second, third, fewer) && fewer <= blocked
    ensures Released(first, third, blocked)
  {
    forall y, x | y in third && x in third[y] ensures x in first[y] { assert x in second[y]; }
  }

  /** `shield` is blocked and left alone. */
  ghost predicate IsShielded(
      g: Graph, members: set<int>, start: int, path: set<int>, active: set<int>, shield: set<int>,
      blocked: set<int>, blockMap: BlockMap, exempt: set<int>)
  {
    && IsUnblocking(g, members, start, path + exempt, active, blocked, blockMap)
    && path <= shield <= blocked && IsShield(shield, blockMap) && exempt !! shield
  }

  lemma ShieldStays(shield: set<int>, before: BlockMap, after: BlockMap, blocked: set<int>)
    requires IsShield(shield, before) && Released(before, after, blocked)
    ensures IsShield(shield, after)
  {
    forall y, x | y in after && y !in shield && x in after[y] ensures x !in shield { assert x in before[y]; }
  }

  lemma UnblockOne(
      g: Graph, members: set<int>, start: int, path: set<int>, active: set<int>, shield: set<int>,
      blocked: set<int>, blockMap: BlockMap, u: int)
    requires IsShielded(g, members, start, path, active, shield, blocked, blockMap, {u}) && u in blocked
    ensures IsShielded(g, members, start, path, active + {u}, shield, blocked - {u}, blockMap, {})
  {
    assert u !in path;
    UnblockBegins(g, members, start, path, active, blocked, blockMap, u);
    assert path + {} == path;
  }

  lemma ReleaseOne(
      g: Graph, members: set<int>, start: int, path: set<int>, active: set<int>, shield: set<int>,
      blocked: set<int>, blockMap: BlockMap, u: int)
    requires IsShielded(g, members, start, path, active, shield, blocked, blockMap, {})
    requires u in active && u in blockMap && blockMap[u] != []
    ensures var w, after := blockMap[u][0], blockMap[u := blockMap[u][1..]];
      && Released(blockMap, after, {u}) && w in members
      && IsShielded(g, members, start, path, active, shield, blocked, after, {w})
      && (w !in blocked ==> IsShielded(g, members, start, path, active, shield, blocked, after, {}))
  {
    var w, after := blockMap[u][0], blockMap[u := blockMap[u][1..]];
    assert path + {} == path;
    assert w in blockMap[u] && u !in shield;
    TakeFirst(g, members, start, path, active, blocked, blockMap, u);
    ShieldStays(shield, blockMap, after, {u});
    if w !in blocked { NotBlockedNeedsNothing(g, members, start, path, active, blocked, after, w); }
  }

  lemma UnblockDone(
      g: Graph, members: set<int>, start: int, path: set<int>, active: set<int>, shield: set<int>,
      blocked: set<int>, blockMap: BlockMap, u: int)
    requires IsShielded(g, members, start, path, active + {u}, shield, blocked, blockMap, {})
    requires u in blockMap && blockMap[u] == []
    ensures IsShielded(g, members, start, path, active, shield, blocked, blockMap, {})
  {
    assert path + {} == path;
    UnblockEnds(g, members, start, path, active, blocked, blockMap, u);
  }

  // ----- One function -----

  /** The search of the functions in `path`, with nothing else going on. */
  ghost predicate IsSearching(
      g: Graph, members: set<int>, start: int, path: seq<int>, blocked: set<int>, blockMap: BlockMap)
  {
    NoDuplicates(path) && IsBlocking(g, members, start, Elements(path), blocked, blockMap)
  }

  /** The functions of the path wait for no more than before. */
  ghost predicate NoNewWaiting(path: seq<int>, before: BlockMap, after: BlockMap) {
    before.Keys == after.Keys && forall u, x :: u in after && x in path && x in after[u] ==> x in before[u]
  }

  /** The first `k` calls of `v` lead to blocked functions other than the start. */
  ghost predicate CallsBlocked(g: Graph, members: set<int>, start: int, v: int, k: nat, blocked: set<int>) {
    forall j :: 0 <= j < k && j < |Successors(g, v)| && Successors(g, v)[j] in members ==>
      Successors(g, v)[j] in blocked && Successors(g, v)[j] != start
  }

  /** What holds while the calls of `v`, the last function of the path, are followed. */
  ghost predicate IsFollowing(
      g: Graph, members: set<int>, start: int, path: seq<int>, v: int, k: nat, found: bool,
      shield: set<int>, entries: BlockMap, blocked: set<int>, blockMap: BlockMap)
  {
    && IsSearching(g, members, start, path + [v], blocked, blockMap)
    && shield <= blocked && NoNewWaiting(path, entries, blockMap)
    && (!found ==> CallsBlocked(g, members, start, v, k, blocked))
  }

  lemma BeginFunction(
      g: Graph, members: set<int>, start: int, path: seq<int>, v: int, blocked: set<int>, blockMap: BlockMap)
    requires IsSearching(g, members, start, path, blocked, blockMap) && v in members && v !in blocked
    ensures v !in path
    ensures IsFollowing(g, members, start, path, v, 0, false, blocked, blockMap, blocked + {v}, blockMap)
  {
    assert v !in path by { assert v in path ==> v in Elements(path); }
    assert Elements(path + [v]) == Elements(path) + {v};
    forall x | x in blocked + {v} && x !in Elements(path + [v]) ensures WaitsForAll(g, members, start, blockMap, x) {
      assert x in blocked && x !in Elements(path);
    }
  }

  /** No function in the shield waits for one outside. */
  lemma BlockedIsShield(
      g: Graph, members: set<int>, start: int, path: seq<int>, shield: set<int>, entries: BlockMap,
      blockMap: BlockMap)
    requires IsSearching(g, members, start, path, shield, entries)
    requires NoNewWaiting(path, entries, blockMap) && WaitsForCallee(g, members, blockMap)
    ensures IsShield(shield, blockMap)
  {
    forall y, x | y in blockMap && y !in shield && x in blockMap[y] ensures x !in shield {
      if x in shield { WaitedForInside(g, members, start, path, shield, entries, blockMap, x, y); }
    }
  }

  lemma WaitedForInside(
      g: Graph, members: set<int>, start: int, path: seq<int>, shield: set<int>, entries: BlockMap,
      blockMap: BlockMap, x: int, y: int)
    requires IsSearching(g, members, start, path, shield, entries)
    requires NoNewWaiting(path, entries, blockMap) && WaitsForCallee(g, members, blockMap)
    requires x in shield && y in blockMap && x in blockMap[y]
    ensures y in shield
  {
    if x in path {
      assert x in entries[y];
    } else {
      assert x !in Elements(path);
      CalleeIsBlocked(g, members, start, Elements(path), shield, entries, x, y);
    }
  }

  lemma LeaveFound(
      g: Graph, members: set<int>, start: int, path: seq<int>, v: int, k: nat, shield: set<int>,
      entries: BlockMap, blocked: set<int>, blockMap: BlockMap)
    requires IsSearching(g, members, start, path, shield, entries) && v !in shield
    requires IsFollowing(g, members, start, path, v, k, true, shield, entries, blocked, blockMap)
    ensures IsShielded(g, members, start, Elements(path), {}, shield, blocked, blockMap, {v}) && v in blocked
  {
    assert Elements(path + [v]) == Elements(path) + {v};
    BlockedIsShield(g, members, start, path, shield, entries, blockMap);
    assert blocked + {} == blocked;
  }

  lemma AfterUnblocking(
      g: Graph, members: set<int>, start: int, path: seq<int>, shield: set<int>, entries: BlockMap,
      before: BlockMap, blocked: set<int>, blockMap: BlockMap, fewer: set<int>)
    requires NoDuplicates(path) && IsShielded(g, members, start, Elements(path), {}, shield, blocked, blockMap, {})
    requires NoNewWaiting(path, entries, before) && Released(before, blockMap, fewer)
    ensures IsSearching(g, members, start, path, blocked, blockMap) && shield <= blocked
    ensures NoNewWaiting(path, entries, blockMap)
  {
    assert Elements(path) + {} == Elements(path) && blocked + {} == blocked;
  }

  /** `v` waits for all members it calls, besides those it waited for. */
  ghost predicate HasJoined(g: Graph, v: int, k: nat, before: BlockMap, after: BlockMap) {
    && before.Keys == after.Keys && k <= |Successors(g, v)|
    && forall u, x :: u in after ==> (x in after[u] <==> x in before[u] || (x == v && u in Successors(g, v)[..k]))
  }

  lemma JoinOne(g: Graph, v: int, k: nat, before: BlockMap, after: BlockMap)
    requires HasJoined(g, v, k, before, after) && k < |Successors(g, v)|
    ensures var w := Successors(g, v)[k];
      HasJoined(g, v, k + 1, before, if w in after then after[w := PushNew(after[w], v)] else after)
  {
    var succ := Successors(g, v);
    assert succ[..k + 1] == succ[..k] + [succ[k]];
  }

  lemma LeaveUnfound(
      g: Graph, members: set<int>, start: int, path: seq<int>, v: int, shield: set<int>, entries: BlockMap,
      blocked: set<int>, before: BlockMap, after: BlockMap)
    requires v !in path
    requires IsFollowing(
      g, members, start, path, v, |Successors(g, v)|, false, shield, entries, blocked, before)
    requires HasJoined(g, v, |Successors(g, v)|, before, after)
    ensures IsSearching(g, members, start, path, blocked, after) && v in blocked && NoNewWaiting(path, entries, after)
  {
    var succ := Successors(g, v);
    assert succ[..|succ|] == succ;
    assert Elements(path + [v]) == Elements(path) + {v};
    assert (path + [v])[..|path|] == path;
    UnfoundWaits(g, members, start, path, v, blocked, before, after);
    forall u | u in after && after[u] != [] ensures u in blocked {
      var x := after[u][0];
      assert x in after[u];
      if u in succ {
        var j :| 0 <= j < |succ| && succ[j] == u;
      } else {
        assert x in before[u];
      }
    }
  }

  lemma UnfoundWaits(
      g: Graph, members: set<int>, start: int, path: seq<int>, v: int, blocked: set<int>, before: BlockMap,
      after: BlockMap)
    requires IsBlocking(g, members, start, Elements(path) + {v}, blocked, before)
    requires HasJoined(g, v, |Successors(g, v)|, before, after)
    requires CallsBlocked(g, members, start, v, |Successors(g, v)|, blocked)
    ensures OthersWait(g, members, start, Elements(path), blocked, after)
  {
    var succ := Successors(g, v);
    assert succ[..|succ|] == succ;
    forall x | x in blocked && x !in Elements(path) ensures WaitsForAll(g, members, start, after, x) {
      if x == v {
        forall w | w in succ && w in members ensures w != start && v in after[w] {
          var j :| 0 <= j < |succ| && succ[j] == w;
        }
      } else {
        assert WaitsForAll(g, members, start, before, x);
      }
    }
  }

  lemma NextSkipped(
      g: Graph, members: set<int>, start: int, path: seq<int>, v: int, k: nat, found: bool, shield: set<int>,
      entries: BlockMap, blocked: set<int>, blockMap: BlockMap)
    requires IsFollowing(g, members, start, path, v, k, found, shield, entries, blocked, blockMap)
    requires k < |Successors(g, v)|
    requires var w := Successors(g, v)[k]; found || w !in members || (w in blocked && w != start)
    ensures IsFollowing(g, members, start, path, v, k + 1, found, shield, entries, blocked, blockMap)
  {}

  lemma NextEntered(
      g: Graph, members: set<int>, start: int, path: seq<int>, v: int, k: nat, found: bool, inner: bool,
      shield: set<int>, entries: BlockMap, before: set<int>, blockMap: BlockMap, blocked: set<int>, after: BlockMap)
    requires IsFollowing(g, members, start, path, v, k, found, shield, entries, before, blockMap)
    requires IsSearching(g, members, start, path + [v], blocked, after) && before <= blocked
    requires NoNewWaiting(path + [v], blockMap, after) && k < |Successors(g, v)|
    requires var w := Successors(g, v)[k]; w != start && (inner || w in blocked)
    ensures IsFollowing(g, members, start, path, v, k + 1, found || inner, shield, entries, blocked, after)
  {
    forall u, x | u in after && x in path && x in after[u] ensures x in entries[u] {
      assert x in path + [v];
    }
  }

  lemma NextFound(
      g: Graph, members: set<int>, start: int, path: seq<int>, v: int, k: nat, found: bool, shield: set<int>,
      entries: BlockMap, blocked: set<int>, blockMap: BlockMap)
    requires IsFollowing(g, members, start, path, v, k, found, shield, entries, blocked, blockMap)
    ensures IsFollowing(g, members, start, path, v, k + 1, true, shield, entries, blocked, blockMap)
  {}

  /** A call that leads to no search reports nothing. */
  lemma ReportedSkipped(
      g: Graph, members: set<int>, start: int, here: seq<int>, k: nat, n: int, blocked: set<int>, blockMap: BlockMap)
    requires here != [] && here[0] == start && start in members && k < |Successors(g, Last(here))|
    requires n > 0 ==> IsSearching(g, members, start, here, blocked, blockMap)
    requires var w := Successors(g, Last(here))[k]; w != start && (w !in members || w in blocked || n <= 0)
    ensures Reported(g, members, here, k, n) == Reported(g, members, here, k + 1, n)
  {
    var w := Successors(g, Last(here))[k];
    if w in members && n > 0 && w !in here {
      BlockedReportsNone(g, members, start, here, n, blocked, blockMap, w);
    }
  }

  lemma BlockedReportsNone(
      g: Graph, members: set<int>, start: int, here: seq<int>, n: int, blocked: set<int>, blockMap: BlockMap, w: int)
    requires here != [] && here[0] == start && start in members && n > 0
    requires IsSearching(g, members, start, here, blocked, blockMap) && w in blocked && w !in here
    ensures Reported(g, members, here + [w], 0, n) == []
  {
    assert w !in Elements(here) && Elements(here + [w]) == Elements(here) + {w};
    assert (here + [w])[0] == start;
    BlockedHasNone(g, members, start, Elements(here), blocked, blockMap, here + [w], 0);
    WithinLimit(g, members, here + [w], 0, n);
  }

  lemma AddOn<T>(done: seq<T>, whole: seq<T>, cycles: seq<T>, inner: seq<T>, left: seq<T>, rest: seq<T>)
    requires done + whole == cycles + left && left == inner + rest
    ensures done + whole == cycles + inner + rest
  {}

  /** What one search adds is what the exhaustive search reports through that call. */
  lemma EnteredAdds(
      g: Graph, members: set<int>, start: int, here: seq<int>, k: nat, max: int, done: seq<seq<int>>,
      whole: seq<seq<int>>, before: seq<seq<int>>, cycles: seq<seq<int>>, blocked: set<int>, blockMap: BlockMap)
    requires here != [] && here[0] == start && start in members && k < |Successors(g, Last(here))|
    requires done + whole == before + Reported(g, members, here, k, max - |before|)
    requires |before| < max ==> IsSearching(g, members, start, here, blocked, blockMap)
    requires var w := Successors(g, Last(here))[k];
      && w in members && w != start && w !in blocked
      && cycles == before + if |before| < max then Reported(g, members, here + [w], 0, max - |before|) else []
    ensures done + whole == cycles + Reported(g, members, here, k + 1, max - |cycles|)
  {
    var n := max - |before|;
    if n <= 0 {
      ReportedSkipped(g, members, start, here, k, n, blocked, blockMap);
    } else {
      NotOnPath(g, members, start, here, blocked, blockMap, Successors(g, Last(here))[k]);
      var reported, rest, first, others := Entered(g, members, here, k, n);
      AddOn(done, whole, before, reported, Reported(g, members, here, k, n), rest);
    }
  }

  lemma NotOnPath(
      g: Graph, members: set<int>, start: int, path: seq<int>, blocked: set<int>, blockMap: BlockMap, w: int)
    requires IsSearching(g, members, start, path, blocked, blockMap) && w !in blocked
    ensures w !in path
  {
    assert w in path ==> w in Elements(path);
  }

  /** The variables captured by the closures, updated in place. */
  class Enumeration {
    const graph: Graph
    const members: set<int>
    const maxCycles: int
    var cycles: seq<seq<int>>
    var blocked: set<int>
    var blockMap: BlockMap
    var stack: seq<int>

    constructor (graph: Graph, members: seq<int>, maxCycles: int)
      ensures this.graph == graph && this.members == Elements(members) && this.maxCycles == maxCycles
      ensures cycles == [] && blocked == {} && stack == []
      ensures blockMap.Keys == Elements(members) && forall u :: u in blockMap ==> blockMap[u] == []
    {
      this.graph, this.members, this.maxCycles := graph, Elements(members), maxCycles;
      cycles, blocked, stack := [], {}, [];
      blockMap := map m | m in Elements(members) :: [];
    }

    ghost predicate Shielded(
        start: int, path: set<int>, active: set<int>, shield: set<int>, exempt: set<int>)
      reads this
    {
      IsShielded(graph, members, start, path, active, shield, blocked, blockMap, exempt)
    }

    /** Unblocks `u` and, one after the other, those who wait for it. */
    method Unblock(u: int, ghost start: int, ghost path: set<int>, ghost active: set<int>, ghost shield: set<int>)
      requires u in members && blocked <= members && blockMap.Keys == members
      modifies this`blocked, this`blockMap
      ensures blocked <= old(blocked) - {u} && Released(old(blockMap), blockMap, old(blocked) + {u})
      ensures old(u in blocked && Shielded(start, path, active, shield, {u})) ==>
        Shielded(start, path, active, shield, {})
      decreases blocked + {u}, 1
    {
      ghost var ready, before, entries :=
        u in blocked && Shielded(start, path, active, shield, {u}), blocked + {u}, blockMap;
      if ready { UnblockOne(graph, members, start, path, active, shield, blocked, blockMap, u); }
      blocked := blocked - {u};
      while blockMap[u] != []
        invariant blocked <= before - {u} && Released(entries, blockMap, before) && blockMap.Keys == members
        invariant ready ==> Shielded(start, path, active + {u}, shield, {})
        decreases |blockMap[u]|
      {
        Release(u, start, path, active + {u}, shield, before, entries);
      }
      if ready { UnblockDone(graph, members, start, path, active, shield, blocked, blockMap, u); }
    }

    /** Takes one function off the list of `u` and unblocks it if it is still blocked. */
    method Release(u: int, ghost start: int, ghost path: set<int>, ghost active: set<int>, ghost shield: set<int>,
        ghost before: set<int>, ghost entries: BlockMap)
      requires u in before && blocked <= before - {u} && before <= members && blockMap.Keys == members
      requires blockMap[u] != [] && u in active && Released(entries, blockMap, before)
      modifies this`blocked, this`blockMap
      ensures blocked <= before - {u} && Released(entries, blockMap, before) && blockMap.Keys == members
      ensures |blockMap[u]| < |old(blockMap)[u]|
      ensures old(Shielded(start, path, active, shield, {})) ==> Shielded(start, path, active, shield, {})
      decreases before, 0
    {
      ghost var ready := Shielded(start, path, active, shield, {});
      var w := blockMap[u][0];
      if ready { ReleaseOne(graph, members, start, path, active, shield, blocked, blockMap, u); }
      ghost var taken := blockMap[u := blockMap[u][1..]];
      TakenIsReleased(blockMap, u);
      ReleasedTwice(entries, blockMap, taken, before, {u});
      blockMap := blockMap[u := blockMap[u][1..]];
      if w in blocked {
        ghost var fewer := blocked + {w};
        Unblock(w, start, path, active, shield);
        ReleasedTwice(entries, taken, blockMap, before, fewer);
      }
    }

    /** The search has gone through the first `k` calls of `v`: what is reported and what is left make up the whole. */
    ghost predicate Following(
        start: int, path: seq<int>, v: int, k: nat, found: bool, done: seq<seq<int>>, shield: set<int>,
        entries: BlockMap)
      reads this
    {
      && stack == path + [v] && blocked <= members && blockMap.Keys == members
      && (found <==> |cycles| > |done|) && |cycles| >= |done|
      && done + Reported(graph, members, path + [v], 0, maxCycles - |done|) ==
         cycles + Reported(graph, members, path + [v], k, maxCycles - |cycles|)
      && (|cycles| < maxCycles ==>
           IsFollowing(graph, members, start, path, v, k, found, shield, entries, blocked, blockMap))
    }

    /** All cycles that begin with the path and `v` are reported, as far as the limit allows. */
    method Circuit(v: int, start: int, ghost path: seq<int>) returns (found: bool)
      requires stack == path && v in members && start in members && blocked <= members && blockMap.Keys == members
      requires (path + [v])[0] == start
      requires |cycles| < maxCycles ==>
        v !in blocked && IsSearching(graph, members, start, path, blocked, blockMap)
      modifies this
      ensures stack == path && blocked <= members && blockMap.Keys == members
      ensures (found <==> |cycles| > |old(cycles)|) && |cycles| >= |old(cycles)|
      ensures cycles == old(cycles) +
        if |old(cycles)| < maxCycles then Reported(graph, members, path + [v], 0, maxCycles - |old(cycles)|) else []
      ensures |cycles| < maxCycles ==>
        && IsSearching(graph, members, start, path, blocked, blockMap) && old(blocked) <= blocked
        && (found || v in blocked) && NoNewWaiting(path, old(blockMap), blockMap)
      decreases if |cycles| < maxCycles then |members - Elements(path)| + 1 else 0, 3
    {
      found := false;
      if |cycles| >= maxCycles { return; }
      ghost var done, shield, entries := cycles, blocked, blockMap;
      BeginFunction(graph, members, start, path, v, blocked, blockMap);
      stack := stack + [v];
      blocked := blocked + {v};
      var stop;
      found, stop := FollowCalls(v, start, path, done, shield, entries);
      if !stop { Leave(v, start, path, found, done, shield, entries); }
      stack := stack[..|stack| - 1];
    }

    /** The calls of `v`, up to one that reaches the limit. */
    method FollowCalls(v: int, start: int, ghost path: seq<int>, ghost done: seq<seq<int>>, ghost shield: set<int>,
        ghost entries: BlockMap)
      returns (found: bool, stop: bool)
      requires v in members && start in members && (path + [v])[0] == start && |done| < maxCycles
      requires Following(start, path, v, 0, false, done, shield, entries)
      modifies this
      ensures !stop ==> Following(start, path, v, |Successors(graph, v)|, found, done, shield, entries)
      ensures stop ==>
        && stack == path + [v] && blocked <= members && blockMap.Keys == members && found && |cycles| > |done|
        && cycles == done + Reported(graph, members, path + [v], 0, maxCycles - |done|) && |cycles| >= maxCycles
      decreases |members - Elements(path)| + 1, 2
    {
      found, stop := false, false;
      for k := 0 to |Successors(graph, v)|
        invariant Following(start, path, v, k, found, done, shield, entries)
      {
        found, stop := FollowCall(v, start, k, found, path, done, shield, entries);
        if stop { return; }
      }
    }

    /** One call of `v`. */
    method FollowCall(v: int, start: int, k: nat, foundBefore: bool, ghost path: seq<int>, ghost done: seq<seq<int>>,
        ghost shield: set<int>, ghost entries: BlockMap)
      returns (found: bool, stop: bool)
      requires v in members && start in members && (path + [v])[0] == start && |done| < maxCycles
      requires k < |Successors(graph, v)| && Following(start, path, v, k, foundBefore, done, shield, entries)
      modifies this
      ensures !stop ==> Following(start, path, v, k + 1, found, done, shield, entries)
      ensures stop ==>
        && stack == path + [v] && blocked <= members && blockMap.Keys == members && found && |cycles| > |done|
        && cycles == done + Reported(graph, members, path + [v], 0, maxCycles - |done|) && |cycles| >= maxCycles
      decreases |members - Elements(path)| + 1, 1
    {
      found, stop := foundBefore, false;
      var w := Successors(graph, v)[k];
      if w !in members || (w != start && w in blocked) {
        SkipCall(v, start, k, found, path, done, shield, entries);
      } else if w == start {
        stop := ReportPath(v, start, k, found, path, done, shield, entries);
        found := true;
      } else {
        found := EnterCall(v, start, k, found, path, done, shield, entries);
      }
    }

    lemma SkipCall(v: int, start: int, k: nat, found: bool, path: seq<int>, done: seq<seq<int>>, shield: set<int>,
        entries: BlockMap)
      requires start in members && (path + [v])[0] == start
      requires k < |Successors(graph, v)| && Following(start, path, v, k, found, done, shield, entries)
      requires var w := Successors(graph, v)[k]; w !in members || (w != start && w in blocked)
      ensures Following(start, path, v, k + 1, found, done, shield, entries)
    {
      assert Last(path + [v]) == v;
      ReportedSkipped(graph, members, start, path + [v], k, maxCycles - |cycles|, blocked, blockMap);
      if |cycles| < maxCycles {
        NextSkipped(graph, members, start, path, v, k, found, shield, entries, blocked, blockMap);
      }
    }

    /** The call closes a cycle. */
    method ReportPath(v: int, start: int, k: nat, found: bool, ghost path: seq<int>, ghost done: seq<seq<int>>,
        ghost shield: set<int>, ghost entries: BlockMap)
      returns (stop: bool)
      requires start in members && (path + [v])[0] == start
      requires k < |Successors(graph, v)| && Following(start, path, v, k, found, done, shield, entries)
      requires Successors(graph, v)[k] == start
      modifies this`cycles
      ensures !stop ==> Following(start, path, v, k + 1, true, done, shield, entries)
      ensures stop ==>
        && |cycles| >= maxCycles && |cycles| > |done|
        && cycles == done + Reported(graph, members, path + [v], 0, maxCycles - |done|)
    {
      ghost var here, n, before := path + [v], maxCycles - |cycles|, cycles;
      assert Last(here) == v;
      ReportedStart(graph, members, here, k, n);
      if n > 1 {
        NextFound(graph, members, start, path, v, k, found, shield, entries, blocked, blockMap);
        AddOn(done, Reported(graph, members, here, 0, maxCycles - |done|), cycles, [here],
          Reported(graph, members, here, k, n), Reported(graph, members, here, k + 1, n - 1));
      }
      cycles := cycles + [stack];
      stop := |cycles| >= maxCycles;
    }

    /** The call leads to a function that is not blocked. */
    method EnterCall(v: int, start: int, k: nat, foundBefore: bool, ghost path: seq<int>, ghost done: seq<seq<int>>,
        ghost shield: set<int>, ghost entries: BlockMap)
      returns (found: bool)
      requires v in members && start in members && (path + [v])[0] == start
      requires k < |Successors(graph, v)| && Following(start, path, v, k, foundBefore, done, shield, entries)
      requires var w := Successors(graph, v)[k]; w in members && w != start && w !in blocked
      modifies this
      ensures Following(start, path, v, k + 1, found, done, shield, entries)
      decreases |members - Elements(path)| + 1, 0
    {
      var w := Successors(graph, v)[k];
      ghost var here, n, before, marks, lists := path + [v], maxCycles - |cycles|, cycles, blocked, blockMap;
      if n > 0 { FewerToSearch(members, path, v); }
      var inner := Circuit(w, start, here);
      found := foundBefore || inner;
      EnteredAdds(graph, members, start, here, k, maxCycles, done,
        Reported(graph, members, here, 0, maxCycles - |done|), before, cycles, marks, lists);
      if |cycles| < maxCycles {
        NextEntered(graph, members, start, path, v, k, foundBefore, inner, shield, entries, marks, lists, blocked,
          blockMap);
      }
    }

    /** `v` is unblocked if a cycle was found; otherwise it waits for the members it calls. */
    method Leave(v: int, start: int, ghost path: seq<int>, found: bool, ghost done: seq<seq<int>>,
        ghost shield: set<int>, ghost entries: BlockMap)
      requires v in members && Following(start, path, v, |Successors(graph, v)|, found, done, shield, entries)
      requires v !in path && v !in shield && IsSearching(graph, members, start, path, shield, entries)
      modifies this`blocked, this`blockMap
      ensures blocked <= members && blockMap.Keys == members
      ensures |cycles| < maxCycles ==>
        && IsSearching(graph, members, start, path, blocked, blockMap) && shield <= blocked
        && (found || v in blocked) && NoNewWaiting(path, entries, blockMap)
    {
      ghost var before, marks, n := blockMap, blocked, |Successors(graph, v)|;
      if found {
        if |cycles| < maxCycles {
          LeaveFound(graph, members, start, path, v, n, shield, entries, blocked, blockMap);
        }
        Unblock(v, start, Elements(path), {}, shield);
        if |cycles| < maxCycles {
          AfterUnblocking(graph, members, start, path, shield, entries, before, blocked, blockMap, marks + {v});
        }
      } else {
        Join(v);
        if |cycles| < maxCycles {
          LeaveUnfound(graph, members, start, path, v, shield, entries, blocked, before, blockMap);
        }
      }
    }

    method Join(v: int)
      requires blockMap.Keys == members
      modifies this`blockMap
      ensures HasJoined(graph, v, |Successors(graph, v)|, old(blockMap), blockMap) && blockMap.Keys == members
    {
      var succ := Successors(graph, v);
      for k := 0 to |succ|
        invariant HasJoined(graph, v, k, old(blockMap), blockMap) && blockMap.Keys == members
      {
        JoinOne(graph, v, k, old(blockMap), blockMap);
        var w := succ[k];
        if w in members { blockMap := blockMap[w := PushNew(blockMap[w], v)]; }
      }
    }
  }

  lemma FewerToSearch(members: set<int>, path: seq<int>, v: int)
    requires v in members && NoDuplicates(path + [v])
    ensures |members - Elements(path + [v])| < |members - Elements(path)|
  {
    forall i | 0 <= i < |path| ensures path[i] != v { assert (path + [v])[i] != (path + [v])[|path|]; }
    FewerOutside(members, path, v);
    SubsetSize(members - Elements(path + [v]) + {v}, members - Elements(path));
  }

  lemma TakenIsReleased(blockMap: BlockMap, u: int)
    requires u in blockMap && blockMap[u] != []
    ensures Released(blockMap, blockMap[u := blockMap[u][1..]], {u})
  {
    var after := blockMap[u := blockMap[u][1..]];
    assert after.Keys == blockMap.Keys;
  }
}