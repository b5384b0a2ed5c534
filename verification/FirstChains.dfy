/** Simple call chains in the order a depth-first search tries them. */
module FirstChains {
  import opened Collections
  import opened Digraphs

  /** The place of the call from `u` to `v` among the calls of `u`. */
  function Rank(g: Graph, u: int, v: int): nat
    requires Edge(g, u, v)
  {
    FirstIndex(g[u], v)
  }

  predicate DiffersAt(p: seq<int>, q: seq<int>, i: int) {
    0 < i < |p| && i < |q| && p[..i] == q[..i] && p[i] != q[i]
  }

  ghost predicate PrecedesAt(g: Graph, p: seq<int>, q: seq<int>, i: int) {
    && DiffersAt(p, q, i) && Edge(g, p[i - 1], p[i]) && Edge(g, p[i - 1], q[i])
    && Rank(g, p[i - 1], p[i]) < Rank(g, p[i - 1], q[i])
  }

  /** Where the two chains part, `p` takes the earlier call. */
  ghost predicate Precedes(g: Graph, p: seq<int>, q: seq<int>) { exists i :: PrecedesAt(g, p, q, i) }

  ghost predicate Connects(g: Graph, p: seq<int>, r: int, v: int) { IsChain(g, p, r, {}) && Last(p) == v }

  /** The chain from `r` to `v` that precedes every other one. */
  ghost predicate IsFirstChain(g: Graph, r: int, v: int, p: seq<int>) {
    Connects(g, p, r, v) && forall q :: Connects(g, q, r, v) && q != p ==> Precedes(g, p, q)
  }

  lemma PartOnce(p: seq<int>, q: seq<int>, i: nat, j: nat)
    requires DiffersAt(p, q, i) && j != i
    ensures !DiffersAt(q, p, j)
  {
    if 0 < j < i {
      assert p[..i][j] == p[j] && q[..i][j] == q[j];
    } else if i < j < |p| && j < |q| {
      assert p[..j][i] == p[i] && q[..j][i] == q[i];
    }
  }

  lemma PrecedesOneWay(g: Graph, p: seq<int>, q: seq<int>)
    requires Precedes(g, p, q)
    ensures !Precedes(g, q, p)
  {
    var i :| PrecedesAt(g, p, q, i);
    forall j ensures !PrecedesAt(g, q, p, j) {
      if 0 < j && j != i { PartOnce(p, q, i, j); }
    }
  }

  lemma FirstChainIsUnique(g: Graph, r: int, v: int, p: seq<int>, q: seq<int>)
    requires IsFirstChain(g, r, v, p) && IsFirstChain(g, r, v, q)
    ensures p == q
  {
    if p != q { PrecedesOneWay(g, p, q); }
  }

  lemma NoPrefix(g: Graph, r: int, v: int, p: seq<int>, q: seq<int>)
    requires Connects(g, p, r, v) && Connects(g, q, r, v) && p <= q
    ensures p == q
  {
    assert q[|p| - 1] == p[|p| - 1] == q[|q| - 1];
  }

  /** Different chains between the same functions part somewhere. */
  lemma ChainsPart(g: Graph, r: int, v: int, p: seq<int>, q: seq<int>) returns (i: nat)
    requires Connects(g, p, r, v) && Connects(g, q, r, v) && p != q
    ensures DiffersAt(p, q, i)
  {
    assert !(p <= q) by { if p <= q { NoPrefix(g, r, v, p, q); } }
    assert !(q <= p) by { if q <= p { NoPrefix(g, r, v, q, p); } }
    assert p[..1] == q[..1] == [r];
    i := 1;
    while p[i] == q[i]
      invariant 1 <= i < |p| && i < |q| && p[..i] == q[..i]
      decreases |p| - i
    {
      assert p[..i + 1] == p[..i] + [p[i]] == q[..i + 1];
      i := i + 1;
    }
  }

  // ----- What a depth-first search keeps true -----

  ghost predicate ScannedUpTo(g: Graph, path: seq<int>, visited: set<int>, m: int) {
    0 < m < |path| && Edge(g, path[m - 1], path[m]) ==>
      forall x :: Edge(g, path[m - 1], x) && Rank(g, path[m - 1], x) < Rank(g, path[m - 1], path[m]) ==> x in visited
  }

  /** Everything called by a visited function that is not on the path has been visited. */
  ghost predicate FinishedOff(g: Graph, path: seq<int>, visited: set<int>) {
    forall u, x :: u in visited && u !in path && Edge(g, u, x) ==> x in visited
  }

  /** `path` is the chain of functions being searched: each prefix is a first chain. */
  ghost predicate IsFront(g: Graph, r: int, path: seq<int>, visited: set<int>) {
    && IsChain(g, path, r, {}) && Elements(path) <= visited
    && (forall m {:trigger path[..m + 1]} :: 0 <= m < |path| ==> IsFirstChain(g, r, path[m], path[..m + 1]))
    && (forall m {:trigger ScannedUpTo(g, path, visited, m)} :: 0 < m < |path| ==> ScannedUpTo(g, path, visited, m))
    && FinishedOff(g, path, visited)
  }

  lemma RootIsFront(g: Graph, r: int)
    ensures IsFront(g, r, [r], {r})
  {
    assert [r][..1] == [r];
    forall q | Connects(g, q, r, r) ensures q == [r] {
      assert q[0] == q[|q| - 1];
    }
  }

  /** A chain that leaves a finished function and avoids the path stays among visited functions. */
  lemma {:induction false} TailIsVisited(g: Graph, path: seq<int>, visited: set<int>, q: seq<int>, i: nat, j: nat)
    requires FinishedOff(g, path, visited) && IsWalk(g, q) && i <= j < |q| && q[i] in visited
    requires forall m :: i <= m < j ==> q[m] !in path
    ensures q[j] in visited
    decreases j - i
  {
    if i < j {
      assert Edge(g, q[i], q[i + 1]);
      TailIsVisited(g, path, visited, q, i + 1, j);
    }
  }

  /** The path extended by the next unvisited function called is the first chain to it. */
  lemma NextIsFirst(g: Graph, r: int, path: seq<int>, visited: set<int>, t: int)
    requires IsFront(g, r, path, visited) && Edge(g, Last(path), t) && t !in visited
    requires forall x :: Edge(g, Last(path), x) && Rank(g, Last(path), x) < Rank(g, Last(path), t) ==> x in visited
    ensures IsFirstChain(g, r, t, path + [t])
  {
    var next := path + [t];
    assert t !in path by { assert t in path ==> t in Elements(path); }
    WalkStep(g, path, t);
    forall q | Connects(g, q, r, t) && q != next ensures Precedes(g, next, q) {
      var i := ChainsPart(g, r, t, next, q);
      NextPrecedes(g, r, path, visited, t, q, i);
    }
  }

  lemma NextPrecedes(g: Graph, r: int, path: seq<int>, visited: set<int>, t: int, q: seq<int>, i: nat)
    requires IsFront(g, r, path, visited) && Edge(g, Last(path), t) && t !in visited && t !in path
    requires forall x :: Edge(g, Last(path), x) && Rank(g, Last(path), x) < Rank(g, Last(path), t) ==> x in visited
    requires Connects(g, q, r, t) && DiffersAt(path + [t], q, i) && IsWalk(g, path + [t])
    ensures PrecedesAt(g, path + [t], q, i)
  {
    var next := path + [t];
    var u := next[i - 1];
    assert q[i - 1] == q[..i][i - 1] == u;
    assert Edge(g, u, next[i]) && Edge(g, u, q[i]);
    assert g[u][Rank(g, u, q[i])] == q[i] && g[u][Rank(g, u, next[i])] == next[i];
    if i < |path| { assert ScannedUpTo(g, path, visited, i); }
    if Rank(g, u, q[i]) < Rank(g, u, next[i]) { EarlierIsVisited(g, r, path, visited, t, q, i); }
  }

  /** A chain that took an earlier call never meets the path again. */
  lemma EarlierAvoidsPath(g: Graph, r: int, path: seq<int>, visited: set<int>, t: int, q: seq<int>, i: nat, j: nat,
      m: nat)
    requires IsFront(g, r, path, visited) && Connects(g, q, r, t) && DiffersAt(path + [t], q, i)
    requires Edge(g, (path + [t])[i - 1], (path + [t])[i]) && Edge(g, (path + [t])[i - 1], q[i])
    requires Rank(g, (path + [t])[i - 1], q[i]) < Rank(g, (path + [t])[i - 1], (path + [t])[i])
    requires i <= j < |q| && m < |path|
    ensures path[m] != q[j]
  {
    if m < i {
      assert (path + [t])[..i][m] == path[m] && q[..i][m] == q[m];
    } else {
      var a, b := q[..j + 1], path[..m + 1];
      WalkSlice(g, q, 0, j + 1);
      assert q[0..j + 1] == a;
      PrefixesPrecede(g, path, t, q, i, j, m);
      PrecedesOneWay(g, a, b);
      assert Connects(g, a, r, q[j]) && IsFirstChain(g, r, path[m], b);
      assert a[i] == q[i] && b[i] == path[i] && a != b;
    }
  }

  lemma PrefixesPrecede(g: Graph, path: seq<int>, t: int, q: seq<int>, i: nat, j: nat, m: nat)
    requires DiffersAt(path + [t], q, i) && i <= j < |q| && i <= m < |path|
    requires Edge(g, (path + [t])[i - 1], (path + [t])[i]) && Edge(g, (path + [t])[i - 1], q[i])
    requires Rank(g, (path + [t])[i - 1], q[i]) < Rank(g, (path + [t])[i - 1], (path + [t])[i])
    ensures PrecedesAt(g, q[..j + 1], path[..m + 1], i)
  {
    var a, b := q[..j + 1], path[..m + 1];
    assert a[i] == q[i] && b[i] == (path + [t])[i];
    assert a[..i] == q[..i] == (path + [t])[..i] == b[..i];
    assert a[i - 1] == a[..i][i - 1] == b[..i][i - 1] == (path + [t])[i - 1];
  }

  /** A chain that took an earlier call stays among finished functions. */
  lemma EarlierIsVisited(g: Graph, r: int, path: seq<int>, visited: set<int>, t: int, q: seq<int>, i: nat)
    requires IsFront(g, r, path, visited) && Connects(g, q, r, t)
    requires DiffersAt(path + [t], q, i) && q[i] in visited
    requires Edge(g, (path + [t])[i - 1], (path + [t])[i]) && Edge(g, (path + [t])[i - 1], q[i])
    requires Rank(g, (path + [t])[i - 1], q[i]) < Rank(g, (path + [t])[i - 1], (path + [t])[i])
    ensures t in visited
  {
    forall j | i <= j < |q| ensures q[j] !in path {
      forall m | 0 <= m < |path| ensures path[m] != q[j] {
        EarlierAvoidsPath(g, r, path, visited, t, q, i, j, m);
      }
    }
    TailIsVisited(g, path, visited, q, i, |q| - 1);
  }

  lemma FrontGrows(g: Graph, r: int, path: seq<int>, visited: set<int>, t: int)
    requires IsFront(g, r, path, visited) && Edge(g, Last(path), t) && t !in visited
    requires forall x :: Edge(g, Last(path), x) && Rank(g, Last(path), x) < Rank(g, Last(path), t) ==> x in visited
    ensures IsFront(g, r, path + [t], visited + {t})
  {
    NextIsFirst(g, r, path, visited, t);
    var next, more := path + [t], visited + {t};
    assert Elements(next) == Elements(path) + {t};
    forall m | 0 <= m < |next| ensures IsFirstChain(g, r, next[m], next[..m + 1]) {
      if m < |path| { assert next[..m + 1] == path[..m + 1]; } else { assert next[..m + 1] == next; }
    }
    forall m | 0 < m < |next| ensures ScannedUpTo(g, next, more, m) {
      if m < |path| { assert ScannedUpTo(g, path, visited, m); }
    }
  }

  lemma FrontStays(g: Graph, r: int, path: seq<int>, before: set<int>, after: set<int>)
    requires IsFront(g, r, path, before) && before <= after && FinishedOff(g, path, after)
    ensures IsFront(g, r, path, after)
  {
    forall m | 0 < m < |path| ensures ScannedUpTo(g, path, after, m) {
      assert ScannedUpTo(g, path, before, m);
    }
  }

  lemma FrontEnds(g: Graph, r: int, here: seq<int>, visited: set<int>)
    requires IsFront(g, r, here, visited)
    ensures IsFirstChain(g, r, Last(here), here)
  {
    var m := |here| - 1;
    assert here[..m + 1] == here;
    assert IsFirstChain(g, r, here[m], here[..m + 1]);
  }

  /** The search goes on along the first call not scanned. */
  lemma NextFront(g: Graph, r: int, here: seq<int>, visited: set<int>, n: nat)
    requires IsFront(g, r, here, visited) && Last(here) in g && n < |g[Last(here)]| && g[Last(here)][n] !in visited
    requires forall i :: 0 <= i < n ==> g[Last(here)][i] in visited
    ensures IsFront(g, r, here + [g[Last(here)][n]], visited + {g[Last(here)][n]})
  {
    var u := Last(here);
    var t := g[u][n];
    assert Edge(g, u, t) && Rank(g, u, t) == n by {
      assert g[u][Rank(g, u, t)] == t;
    }
    forall x | Edge(g, u, x) && Rank(g, u, x) < n ensures x in visited {
      assert g[u][Rank(g, u, x)] == x;
    }
    FrontGrows(g, r, here, visited, t);
  }

  // ----- First chains and their prefixes -----

  /** Of two chains that part, one precedes the other. */
  lemma OneComesFirst(g: Graph, r: int, v: int, p: seq<int>, w: int, q: seq<int>, i: nat)
    requires Connects(g, p, r, v) && Connects(g, q, r, w) && DiffersAt(p, q, i)
    ensures PrecedesAt(g, p, q, i) || PrecedesAt(g, q, p, i)
  {
    var u := p[i - 1];
    assert q[i - 1] == q[..i][i - 1] == u;
    assert Edge(g, u, p[i]) && Edge(g, u, q[i]);
    assert g[u][Rank(g, u, p[i])] == p[i] && g[u][Rank(g, u, q[i])] == q[i];
  }

  /** A chain to the last caller, extended to `v` or cut at `v`, parts from `p` where it did before. */
  lemma ChainOnTo(g: Graph, r: int, v: int, p: seq<int>, q: seq<int>, i: nat) returns (z: seq<int>)
    requires Connects(g, p, r, v) && |p| > 1 && Connects(g, q, r, p[|p| - 2]) && DiffersAt(p[..|p| - 1], q, i)
    ensures Connects(g, z, r, v) && DiffersAt(p, z, i) && z[i] == q[i]
  {
    var n := |p| - 1;
    assert p[..n][..i] == p[..i];
    if v in q {
      forall m | 0 <= m < i ensures q[m] != v { assert q[m] == q[..i][m] == p[m]; }
      var m :| 0 <= m < |q| && q[m] == v;
      z := q[..m + 1];
      WalkSlice(g, q, 0, m + 1);
      assert q[0..m + 1] == z && z[..i] == q[..i];
    } else {
      z := q + [v];
      assert Edge(g, p[n - 1], p[n]);
      WalkStep(g, q, v);
      assert z[..i] == q[..i];
    }
  }

  /** Without its last function, a first chain is the first chain to the one before. */
  lemma FirstPrefix(g: Graph, r: int, v: int, p: seq<int>)
    requires IsFirstChain(g, r, v, p) && |p| > 1
    ensures IsFirstChain(g, r, p[|p| - 2], p[..|p| - 1])
  {
    var n := |p| - 1;
    WalkSlice(g, p, 0, n);
    assert p[0..n] == p[..n];
    var u := p[n - 1];
    forall q | Connects(g, q, r, u) && q != p[..n] ensures Precedes(g, p[..n], q) {
      var i := ChainsPart(g, r, u, p[..n], q);
      var z := ChainOnTo(g, r, v, p, q, i);
      OneComesFirst(g, r, u, p[..n], u, q, i);
      FirstIsBefore(g, r, v, p, z, i);
      assert p[..n][i] == p[i] && p[..n][i - 1] == p[i - 1];
    }
  }

  lemma FirstIsBefore(g: Graph, r: int, v: int, p: seq<int>, z: seq<int>, i: nat)
    requires IsFirstChain(g, r, v, p) && Connects(g, z, r, v) && DiffersAt(p, z, i)
    ensures PrecedesAt(g, p, z, i)
  {
    var j :| PrecedesAt(g, p, z, j);
    if i != j { PartOnce(p, z, i, j); }
  }

  /** Every walk contains a chain no longer than itself. */
  lemma {:induction false} WalkHasChain(g: Graph, p: seq<int>) returns (q: seq<int>)
    requires IsWalk(g, p)
    ensures Connects(g, q, p[0], Last(p)) && |q| <= |p|
  {
    var n := |p| - 1;
    if n == 0 {
      q := p;
    } else {
      WalkSlice(g, p, 0, n);
      assert p[0..n] == p[..n];
      var front := WalkHasChain(g, p[..n]);
      if p[n] in front {
        var m :| 0 <= m < |front| && front[m] == p[n];
        q := front[..m + 1];
        WalkSlice(g, front, 0, m + 1);
        assert front[0..m + 1] == q;
      } else {
        assert Edge(g, p[n - 1], p[n]);
        q := front + [p[n]];
        WalkStep(g, front, p[n]);
      }
    }
  }
}
