/** The simple cycles of a call graph, in the order an exhaustive depth-first search meets them. */
module CycleLists {
  import opened Collections
  import opened Digraphs

  function Successors(g: Graph, u: int): seq<int> { if u in g then g[u] else [] }

  /** A walk that stays among the members. */
  ghost predicate JoinsInside(g: Graph, members: set<int>, p: seq<int>, u: int, v: int) {
    Joins(g, p, u, v) && Elements(p) <= members
  }

  /** Where a cycle goes after its first `j` functions: on, or back to its start. */
  function NextOf(c: seq<int>, j: int): int
    requires c != [] && 0 <= j
  {
    if j < |c| then c[j] else c[0]
  }

  ghost predicate StepsFrom(g: Graph, c: seq<int>, n: int)
    requires c != [] && n > 0
  {
    forall j :: n <= j <= |c| ==> NextOf(c, j) in Successors(g, c[j - 1])
  }

  /** No function twice, each calling the next and the last one the first. */
  ghost predicate IsSimpleCycle(g: Graph, members: set<int>, c: seq<int>) {
    c != [] && NoDuplicates(c) && Elements(c) <= members && StepsFrom(g, c, 1)
  }

  /**
   * All simple cycles that begin with `path` and go on to the `k`-th or a later function called at its
   * end, as a search meets them that follows every call.
   */
  function Cycles(g: Graph, members: set<int>, path: seq<int>, k: nat): seq<seq<int>>
    requires path != []
    decreases members - Elements(path), |Successors(g, Last(path))| - k
  {
    var succ := Successors(g, Last(path));
    if k >= |succ| then []
    else
      var w := succ[k];
      var rest := Cycles(g, members, path, k + 1);
      if w !in members then rest
      else if w == path[0] then [path] + rest
      else if w in path then rest
      else
        FewerOutside(members, path, w);
        Cycles(g, members, path + [w], 0) + rest
  }

  lemma FewerOutside(members: set<int>, path: seq<int>, w: int)
    requires w in members && w !in path
    ensures members - Elements(path + [w]) < members - Elements(path)
  {
    assert Elements(path + [w]) == Elements(path) + {w};
    assert w in members - Elements(path);
  }

  /** `c` begins with `path` and goes on to a function called at the end of `path`, in place `k` or later. */
  ghost predicate Completes(g: Graph, members: set<int>, path: seq<int>, k: nat, c: seq<int>) {
    && path != [] && path <= c && NoDuplicates(c) && Elements(c[|path|..]) <= members
    && StepsFrom(g, c, |path|)
    && exists i :: k <= i < |Successors(g, Last(path))| && Successors(g, Last(path))[i] == NextOf(c, |path|)
  }

  lemma CompletesLonger(g: Graph, members: set<int>, path: seq<int>, w: int, c: seq<int>)
    requires path != [] && w in members && w in Successors(g, Last(path)) && Completes(g, members, path + [w], 0, c)
    ensures path <= c && |path| < |c| && c[|path|] == w && NoDuplicates(c) && StepsFrom(g, c, |path|)
    ensures Elements(c[|path|..]) <= members
  {
    assert c[|path|] == (path + [w])[|path|];
    assert c[|path| - 1] == (path + [w])[|path| - 1];
    assert c[|path|..] == [w] + c[|path| + 1..];
    assert c[..|path|] == path;
  }

  lemma CompletesShorter(g: Graph, members: set<int>, path: seq<int>, c: seq<int>)
    requires path != [] && path <= c && |path| < |c| && NoDuplicates(c) && StepsFrom(g, c, |path|)
    requires Elements(c[|path|..]) <= members
    ensures c[|path|] in members && c[|path|] !in path
    ensures Completes(g, members, path + [c[|path|]], 0, c)
  {
    var w := c[|path|];
    assert c[|path|..][0] == w;
    assert c[|path|..] == [w] + c[|path| + 1..];
    var next := path + [w];
    assert next <= c;
    assert NextOf(c, |next|) in Successors(g, c[|next| - 1]);
    var i :| 0 <= i < |Successors(g, w)| && Successors(g, w)[i] == NextOf(c, |next|);
    assert Last(next) == w;
  }

  /** The list holds exactly the simple cycles that complete the path. */
  lemma {:induction false} CyclesComplete(g: Graph, members: set<int>, path: seq<int>, k: nat, c: seq<int>)
    requires path != [] && path[0] in members && NoDuplicates(path)
    ensures c in Cycles(g, members, path, k) <==> Completes(g, members, path, k, c)
    decreases members - Elements(path), |Successors(g, Last(path))| - k
  {
    var succ := Successors(g, Last(path));
    if k < |succ| {
      var w := succ[k];
      CyclesComplete(g, members, path, k + 1, c);
      if w in members && w != path[0] && w !in path {
        FewerOutside(members, path, w);
        CyclesComplete(g, members, path + [w], 0, c);
      }
      CompletesStep(g, members, path, k, c);
    }
  }

  /** How the completions from place `k` on divide. */
  lemma CompletesStep(g: Graph, members: set<int>, path: seq<int>, k: nat, c: seq<int>)
    requires path != [] && path[0] in members && NoDuplicates(path) && k < |Successors(g, Last(path))|
    ensures var w := Successors(g, Last(path))[k];
      Completes(g, members, path, k, c) <==>
        || Completes(g, members, path, k + 1, c)
        || (w == path[0] && c == path)
        || (w in members && w !in path && Completes(g, members, path + [w], 0, c))
  {
    var succ := Successors(g, Last(path));
    var w := succ[k];
    if w == path[0] && c == path {
      assert NextOf(c, |path|) == w && c[|path|..] == [];
      assert StepsFrom(g, c, |path|);
    }
    if w in members && w !in path && Completes(g, members, path + [w], 0, c) {
      CompletesLonger(g, members, path, w, c);
    }
    if Completes(g, members, path, k, c) && !Completes(g, members, path, k + 1, c) {
      assert NextOf(c, |path|) == w;
      if |c| == |path| {
        assert c == path;
      } else {
        CompletesShorter(g, members, path, c);
      }
    }
  }

  lemma CyclesBegin(g: Graph, members: set<int>, path: seq<int>, k: nat, c: seq<int>)
    requires path != [] && path[0] in members && NoDuplicates(path) && c in Cycles(g, members, path, k)
    ensures path <= c
  {
    CyclesComplete(g, members, path, k, c);
  }

  ghost predicate DistinctCalls(g: Graph) { forall u :: u in g ==> NoDuplicates(g[u]) }

  /** No completion goes on both to the `k`-th function called and to a later one. */
  lemma ApartFromRest(g: Graph, members: set<int>, path: seq<int>, k: nat, c: seq<int>)
    requires DistinctCalls(g) && path != [] && path[0] in members && NoDuplicates(path)
    requires k < |Successors(g, Last(path))| && c in Cycles(g, members, path, k + 1)
    ensures c != [] && NextOf(c, |path|) != Successors(g, Last(path))[k]
  {
    CyclesComplete(g, members, path, k + 1, c);
  }

  /** Each cycle is listed once. */
  lemma {:induction false} CyclesDistinct(g: Graph, members: set<int>, path: seq<int>, k: nat)
    requires DistinctCalls(g) && path != [] && path[0] in members && NoDuplicates(path)
    ensures NoDuplicates(Cycles(g, members, path, k))
    decreases members - Elements(path), |Successors(g, Last(path))| - k
  {
    var succ := Successors(g, Last(path));
    if k < |succ| {
      var w := succ[k];
      var rest := Cycles(g, members, path, k + 1);
      CyclesDistinct(g, members, path, k + 1);
      if w in members && w == path[0] {
        if path in rest { ApartFromRest(g, members, path, k, path); }
        JoinedDistinct([path], rest);
      } else if w in members && w !in path {
        FewerOutside(members, path, w);
        CyclesDistinct(g, members, path + [w], 0);
        forall c | c in Cycles(g, members, path + [w], 0) ensures c !in rest {
          CyclesComplete(g, members, path + [w], 0, c);
          CompletesLonger(g, members, path, w, c);
          if c in rest { ApartFromRest(g, members, path, k, c); }
        }
        JoinedDistinct(Cycles(g, members, path + [w], 0), rest);
      }
    }
  }

  // ----- All cycles of the members -----

  /** The cycles that begin at one of the first `n` members, member by member. */
  function AllCycles(g: Graph, members: seq<int>, n: nat): seq<seq<int>>
    requires n <= |members|
  {
    if n == 0 then []
    else AllCycles(g, members, n - 1) + Cycles(g, Elements(members), [members[n - 1]], 0)
  }

  lemma CompletesStart(g: Graph, members: set<int>, s: int, c: seq<int>)
    requires s in members
    ensures Completes(g, members, [s], 0, c) <==> IsSimpleCycle(g, members, c) && c[0] == s
  {
    if Completes(g, members, [s], 0, c) {
      assert c[0] == [s][0];
      assert c == [s] + c[1..];
      assert Elements(c) == {s} + Elements(c[1..]);
    }
    if IsSimpleCycle(g, members, c) && c[0] == s {
      assert [s] == c[..1] && Last([s]) == s && c[|[s]|..] == c[1..];
      assert NextOf(c, 1) in Successors(g, c[0]);
      var i :| 0 <= i < |Successors(g, s)| && Successors(g, s)[i] == NextOf(c, 1);
      forall x | x in c[1..] ensures x in members { assert x in Elements(c); }
    }
  }

  lemma {:induction false} AllCyclesHold(g: Graph, members: seq<int>, n: nat, c: seq<int>)
    requires n <= |members|
    ensures c in AllCycles(g, members, n) <==> IsSimpleCycle(g, Elements(members), c) && c[0] in members[..n]
  {
    if n > 0 {
      var s := members[n - 1];
      assert s in Elements(members) && members[..n] == members[..n - 1] + [s];
      AllCyclesHold(g, members, n - 1, c);
      CyclesComplete(g, Elements(members), [s], 0, c);
      CompletesStart(g, Elements(members), s, c);
    }
  }

  /** All simple cycles within the members are listed, each once for every function it may begin with. */
  lemma {:induction false} AllCyclesDistinct(g: Graph, members: seq<int>, n: nat)
    requires DistinctCalls(g) && NoDuplicates(members) && n <= |members|
    ensures NoDuplicates(AllCycles(g, members, n))
  {
    if n > 0 {
      var s := members[n - 1];
      assert s in Elements(members);
      AllCyclesDistinct(g, members, n - 1);
      CyclesDistinct(g, Elements(members), [s], 0);
      forall c | c in AllCycles(g, members, n - 1) ensures c !in Cycles(g, Elements(members), [s], 0) {
        AllCyclesHold(g, members, n - 1, c);
        CyclesComplete(g, Elements(members), [s], 0, c);
        CompletesStart(g, Elements(members), s, c);
      }
      JoinedDistinct(AllCycles(g, members, n - 1), Cycles(g, Elements(members), [s], 0));
    }
  }

  /** The same cycle, begun at its `i`-th function. */
  function Rotation(c: seq<int>, i: nat): seq<int>
    requires i < |c|
  {
    c[i..] + c[..i]
  }

  lemma RotationIsCycle(g: Graph, members: set<int>, c: seq<int>, i: nat)
    requires IsSimpleCycle(g, members, c) && i < |c|
    ensures IsSimpleCycle(g, members, Rotation(c, i)) && Rotation(c, i)[0] == c[i]
  {
    var r := Rotation(c, i);
    assert c == c[..i] + c[i..];
    assert Elements(r) == Elements(c[i..]) + Elements(c[..i]) == Elements(c);
    forall j | 1 <= j <= |r| ensures NextOf(r, j) in Successors(g, r[j - 1]) {
      if i + j <= |c| {
        assert NextOf(r, j) == NextOf(c, i + j) && r[j - 1] == c[i + j - 1];
      } else {
        assert NextOf(r, j) == NextOf(c, i + j - |c|) && r[j - 1] == c[i + j - 1 - |c|];
      }
    }
  }

  /** A cycle is listed as often as it has functions: once from each. */
  lemma EachRotationIsListed(g: Graph, members: seq<int>, c: seq<int>, i: nat)
    requires c in AllCycles(g, members, |members|) && i < |c|
    ensures Rotation(c, i) in AllCycles(g, members, |members|) && (i > 0 ==> Rotation(c, i) != c)
  {
    var all := Elements(members);
    assert members[..|members|] == members;
    AllCyclesHold(g, members, |members|, c);
    RotationIsCycle(g, all, c, i);
    assert c[i] in all by { assert c[i] in Elements(c); }
    AllCyclesHold(g, members, |members|, Rotation(c, i));
  }
}
