/** What a limit on the number of cycles makes of the exhaustive search. */
module CycleLimits {
  import opened Collections
  import opened Digraphs
  import opened CycleLists

  /**
   * The search that stops at `n` cycles the way `circuit` does: no function is entered once the limit is
   * reached, but each function still being searched goes through its calls until one leads to the start.
   */
  function Reported(g: Graph, members: set<int>, path: seq<int>, k: nat, n: int): seq<seq<int>>
    requires path != []
    decreases members - Elements(path), |Successors(g, Last(path))| - k
  {
    var succ := Successors(g, Last(path));
    if k >= |succ| then []
    else
      var w := succ[k];
      if w !in members then Reported(g, members, path, k + 1, n)
      else if w == path[0] then [path] + if n <= 1 then [] else Reported(g, members, path, k + 1, n - 1)
      else if w in path || n <= 0 then Reported(g, members, path, k + 1, n)
      else
        FewerOutside(members, path, w);
        var inner := Reported(g, members, path + [w], 0, n);
        inner + Reported(g, members, path, k + 1, n - |inner|)
  }

  /** With the limit reached, one more cycle is reported if a later call leads to the start. */
  lemma {:induction false} OneMore(g: Graph, members: set<int>, path: seq<int>, k: nat, n: int)
    requires path != [] && path[0] in members && n <= 0
    ensures Reported(g, members, path, k, n) ==
      if k < |Successors(g, Last(path))| && path[0] in Successors(g, Last(path))[k..] then [path] else []
    decreases |Successors(g, Last(path))| - k
  {
    var succ := Successors(g, Last(path));
    if k < |succ| {
      OneMore(g, members, path, k + 1, n);
      assert succ[k..] == [succ[k]] + succ[k + 1..];
    }
  }

  /** A limit that is not exceeded changes nothing. */
  lemma {:induction false} WithinLimit(g: Graph, members: set<int>, path: seq<int>, k: nat, n: int)
    requires path != [] && path[0] in members && |Cycles(g, members, path, k)| <= n
    ensures Reported(g, members, path, k, n) == Cycles(g, members, path, k)
    decreases members - Elements(path), |Successors(g, Last(path))| - k
  {
    var succ := Successors(g, Last(path));
    if k < |succ| {
      var w := succ[k];
      if w in members && w == path[0] {
        if n > 1 { WithinLimit(g, members, path, k + 1, n - 1); }
      } else if w in members && w !in path {
        FewerOutside(members, path, w);
        var inner := Cycles(g, members, path + [w], 0);
        WithinLimit(g, members, path + [w], 0, n);
        if n <= 0 {
          WithinLimit(g, members, path, k + 1, n);
        } else {
          WithinLimit(g, members, path, k + 1, n - |inner|);
        }
      } else {
        WithinLimit(g, members, path, k + 1, n);
      }
    }
  }

  /** What is listed after `x`. */
  function After(xs: seq<int>, x: int): seq<int> { if x in xs then xs[FirstIndex(xs, x) + 1..] else [] }

  /**
   * What is reported beyond the limit after the cycle `c`: each beginning of `c`, the longest first and none
   * shorter than `n`, whose last function calls the start after calling the next function of `c`.
   */
  function Overrun(g: Graph, c: seq<int>, n: nat): seq<seq<int>>
    requires n > 0
    decreases |c| - n
  {
    if n >= |c| then []
    else Overrun(g, c, n + 1) + if c[0] in After(Successors(g, c[n - 1]), c[n]) then [c[..n]] else []
  }

  lemma AfterPlace(xs: seq<int>, k: nat)
    requires NoDuplicates(xs) && k < |xs|
    ensures After(xs, xs[k]) == xs[k + 1..]
  {
    assert xs[k] in xs;
  }

  /** The limit is reached below the `k`-th function called, which is the next function of the last cycle. */
  lemma OverrunBelow(g: Graph, members: set<int>, path: seq<int>, k: nat, n: int, c: seq<int>,
      more: seq<seq<int>>)
    requires DistinctCalls(g) && path != [] && path[0] in members && k < |Successors(g, Last(path))| && n <= 0
    requires path + [Successors(g, Last(path))[k]] <= c
    requires more == Reported(g, members, path, k + 1, n)
    ensures Overrun(g, c, |path|) == Overrun(g, c, |path| + 1) + more
  {
    var succ := Successors(g, Last(path));
    assert c[|path|] == (path + [succ[k]])[|path|] == succ[k];
    assert c[|path| - 1] == (path + [succ[k]])[|path| - 1] == Last(path);
    assert c[0] == (path + [succ[k]])[0] == path[0];
    assert c[..|path|] == path;
    AfterPlace(succ, k);
    OneMore(g, members, path, k + 1, n);
  }

  /** `xs` is `all` cut at the limit, with the overrun of the last cycle down to length `b`. */
  ghost predicate IsCut(g: Graph, xs: seq<seq<int>>, all: seq<seq<int>>, n: int, b: nat) {
    1 <= n <= |all| && b > 0 && xs == all[..n] + Overrun(g, all[n - 1], b)
  }

  lemma CutInFirst(
      g: Graph, xs: seq<seq<int>>, all: seq<seq<int>>, inner: seq<seq<int>>, more: seq<seq<int>>,
      first: seq<seq<int>>, rest: seq<seq<int>>, n: int, b: nat)
    requires xs == inner + more && all == first + rest && b > 0 && IsCut(g, inner, first, n, b + 1)
    requires Overrun(g, first[n - 1], b) == Overrun(g, first[n - 1], b + 1) + more
    ensures IsCut(g, xs, all, n, b)
  {
    var c := first[n - 1];
    assert all[..n] == first[..n] && all[n - 1] == c;
    JoinAgain(first[..n], Overrun(g, c, b + 1), more);
  }

  lemma JoinAgain<T>(xs: seq<T>, ys: seq<T>, zs: seq<T>)
    ensures xs + ys + zs == xs + (ys + zs)
  {}

  lemma CutInRest(
      g: Graph, xs: seq<seq<int>>, all: seq<seq<int>>, first: seq<seq<int>>, more: seq<seq<int>>,
      rest: seq<seq<int>>, n: int, b: nat)
    requires xs == first + more && all == first + rest && IsCut(g, more, rest, n - |first|, b)
    ensures IsCut(g, xs, all, n, b)
  {
    var i := n - |first|;
    assert all[..n] == first + rest[..i] && all[n - 1] == rest[i - 1];
    JoinAgain(first, rest[..i], Overrun(g, rest[i - 1], b));
  }

  /** The two lists divide into what comes through the `k`-th function called and the rest. */
  lemma Entered(g: Graph, members: set<int>, path: seq<int>, k: nat, n: int)
    returns (inner: seq<seq<int>>, more: seq<seq<int>>, first: seq<seq<int>>, rest: seq<seq<int>>)
    requires path != [] && path[0] in members && k < |Successors(g, Last(path))| && n >= 1
    requires var w := Successors(g, Last(path))[k]; w in members && w !in path
    ensures var w := Successors(g, Last(path))[k];
      && inner == Reported(g, members, path + [w], 0, n) && more == Reported(g, members, path, k + 1, n - |inner|)
      && first == Cycles(g, members, path + [w], 0) && rest == Cycles(g, members, path, k + 1)
    ensures Reported(g, members, path, k, n) == inner + more && Cycles(g, members, path, k) == first + rest
  {
    var w := Successors(g, Last(path))[k];
    assert path[0] in path;
    inner, first := Reported(g, members, path + [w], 0, n), Cycles(g, members, path + [w], 0);
    more, rest := Reported(g, members, path, k + 1, n - |inner|), Cycles(g, members, path, k + 1);
  }

  /** The limit is reached among the cycles that go on to the `k`-th function called. */
  lemma CutBelow(g: Graph, members: set<int>, path: seq<int>, k: nat, n: int, xs: seq<seq<int>>, all: seq<seq<int>>,
      inner: seq<seq<int>>, more: seq<seq<int>>, first: seq<seq<int>>, rest: seq<seq<int>>)
    requires DistinctCalls(g) && path != [] && path[0] in members && NoDuplicates(path)
    requires k < |Successors(g, Last(path))|
    requires var w := Successors(g, Last(path))[k];
      w in members && w !in path && first == Cycles(g, members, path + [w], 0)
    requires xs == inner + more && all == first + rest && IsCut(g, inner, first, n, |path| + 1)
    requires more == Reported(g, members, path, k + 1, n - |inner|)
    ensures IsCut(g, xs, all, n, |path|)
  {
    assert first[n - 1] in first;
    CyclesBegin(g, members, path + [Successors(g, Last(path))[k]], 0, first[n - 1]);
    OverrunBelow(g, members, path, k, n - |inner|, first[n - 1], more);
    CutInFirst(g, xs, all, inner, more, first, rest, n, |path|);
  }

  /** A call to the start reports the path. */
  lemma ReportedStart(g: Graph, members: set<int>, path: seq<int>, k: nat, n: int)
    requires path != [] && path[0] in members && k < |Successors(g, Last(path))|
    requires Successors(g, Last(path))[k] == path[0]
    ensures Reported(g, members, path, k, n) ==
      [path] + if n <= 1 then [] else Reported(g, members, path, k + 1, n - 1)
    ensures Cycles(g, members, path, k) == [path] + Cycles(g, members, path, k + 1)
  {}

  lemma CutAtPath(g: Graph, xs: seq<seq<int>>, all: seq<seq<int>>, path: seq<int>, rest: seq<seq<int>>)
    requires path != [] && xs == [path] && all == [path] + rest
    ensures IsCut(g, xs, all, 1, |path|)
  {
    assert all[..1] == [path] && Overrun(g, path, |path|) == [];
  }

  /** The limit is reached by the path itself. */
  lemma CutHere(g: Graph, members: set<int>, path: seq<int>, k: nat)
    requires path != [] && path[0] in members && k < |Successors(g, Last(path))|
    requires Successors(g, Last(path))[k] == path[0]
    ensures IsCut(g, Reported(g, members, path, k, 1), Cycles(g, members, path, k), 1, |path|)
  {
    ReportedStart(g, members, path, k, 1);
    CutAtPath(
      g, Reported(g, members, path, k, 1), Cycles(g, members, path, k), path, Cycles(g, members, path, k + 1));
  }

  /** The limit is reached after the path. */
  lemma CutAfterPath(g: Graph, members: set<int>, path: seq<int>, k: nat, n: int)
    requires path != [] && path[0] in members && k < |Successors(g, Last(path))| && n > 1
    requires Successors(g, Last(path))[k] == path[0]
    requires IsCut(g, Reported(g, members, path, k + 1, n - 1), Cycles(g, members, path, k + 1), n - 1, |path|)
    ensures IsCut(g, Reported(g, members, path, k, n), Cycles(g, members, path, k), n, |path|)
  {
    var xs, all := Reported(g, members, path, k, n), Cycles(g, members, path, k);
    var more, rest := Reported(g, members, path, k + 1, n - 1), Cycles(g, members, path, k + 1);
    ReportedStart(g, members, path, k, n);
    assert xs == [path] + more;
    CutInRest(g, xs, all, [path], more, rest, n, |path|);
  }

  lemma CutAfterSkipped(g: Graph, members: set<int>, path: seq<int>, k: nat, n: int)
    requires path != [] && path[0] in members && k < |Successors(g, Last(path))|
    requires var w := Successors(g, Last(path))[k]; w !in members || (w != path[0] && w in path)
    ensures Reported(g, members, path, k, n) == Reported(g, members, path, k + 1, n)
    ensures Cycles(g, members, path, k) == Cycles(g, members, path, k + 1)
  {}

  /** A limit that is reached cuts the list there, except for what the functions still being searched report. */
  lemma {:induction false} BeyondLimit(g: Graph, members: set<int>, path: seq<int>, k: nat, n: int)
    requires DistinctCalls(g) && path != [] && path[0] in members && NoDuplicates(path)
    requires 1 <= n <= |Cycles(g, members, path, k)|
    ensures IsCut(g, Reported(g, members, path, k, n), Cycles(g, members, path, k), n, |path|)
    decreases members - Elements(path), |Successors(g, Last(path))| - k, 1
  {
    var w := Successors(g, Last(path))[k];
    if w in members && w == path[0] {
      BeyondStart(g, members, path, k, n);
    } else if w in members && w !in path {
      BeyondEntered(g, members, path, k, n);
    } else {
      CutAfterSkipped(g, members, path, k, n);
      BeyondLimit(g, members, path, k + 1, n);
    }
  }

  lemma {:induction false} BeyondStart(g: Graph, members: set<int>, path: seq<int>, k: nat, n: int)
    requires DistinctCalls(g) && path != [] && path[0] in members && NoDuplicates(path)
    requires k < |Successors(g, Last(path))| && 1 <= n <= |Cycles(g, members, path, k)|
    requires Successors(g, Last(path))[k] == path[0]
    ensures IsCut(g, Reported(g, members, path, k, n), Cycles(g, members, path, k), n, |path|)
    decreases members - Elements(path), |Successors(g, Last(path))| - k, 0
  {
    if n > 1 {
      ReportedStart(g, members, path, k, n);
      BeyondLimit(g, members, path, k + 1, n - 1);
      CutAfterPath(g, members, path, k, n);
    } else {
      CutHere(g, members, path, k);
    }
  }

  lemma {:induction false} BeyondEntered(g: Graph, members: set<int>, path: seq<int>, k: nat, n: int)
    requires DistinctCalls(g) && path != [] && path[0] in members && NoDuplicates(path)
    requires k < |Successors(g, Last(path))| && 1 <= n <= |Cycles(g, members, path, k)|
    requires var w := Successors(g, Last(path))[k]; w in members && w !in path
    ensures IsCut(g, Reported(g, members, path, k, n), Cycles(g, members, path, k), n, |path|)
    decreases members - Elements(path), |Successors(g, Last(path))| - k, 0
  {
    var w, xs, all := Successors(g, Last(path))[k], Reported(g, members, path, k, n), Cycles(g, members, path, k);
    FewerOutside(members, path, w);
    var inner, more, first, rest := Entered(g, members, path, k, n);
    if n <= |first| {
      BeyondLimit(g, members, path + [w], 0, n);
      CutBelow(g, members, path, k, n, xs, all, inner, more, first, rest);
    } else {
      WithinLimit(g, members, path + [w], 0, n);
      BeyondLimit(g, members, path, k + 1, n - |first|);
      CutInRest(g, xs, all, first, more, rest, n, |path|);
    }
  }

  // ----- All members -----

  /** What has been reported after the searches from the first `i` members. */
  function ReportedUpTo(g: Graph, members: seq<int>, i: nat, max: int): seq<seq<int>>
    requires i <= |members|
  {
    if i == 0 then []
    else
      var before := ReportedUpTo(g, members, i - 1, max);
      if |before| < max then before + Reported(g, Elements(members), [members[i - 1]], 0, max - |before|) else before
  }

  /** Below the limit all cycles are reported; at the limit the list is cut, and its last cycle's overrun follows. */
  lemma {:induction false} ReportedIsCut(g: Graph, members: seq<int>, i: nat, max: int)
    requires DistinctCalls(g) && i <= |members| && max >= 1
    ensures var xs, all := ReportedUpTo(g, members, i, max), AllCycles(g, members, i);
      if |all| < max then xs == all else IsCut(g, xs, all, max, 1)
  {
    if i > 0 {
      ReportedIsCut(g, members, i - 1, max);
      var before := AllCycles(g, members, i - 1);
      if |before| < max {
        OneMoreMember(g, members, i, max);
      } else {
        CutStays(g, ReportedUpTo(g, members, i - 1, max), before,
          Cycles(g, Elements(members), [members[i - 1]], 0), max, 1);
      }
    }
  }

  lemma CutStays(g: Graph, xs: seq<seq<int>>, first: seq<seq<int>>, rest: seq<seq<int>>, n: int, b: nat)
    requires IsCut(g, xs, first, n, b)
    ensures IsCut(g, xs, first + rest, n, b)
  {
    assert (first + rest)[..n] == first[..n];
  }

  lemma OneMoreMember(g: Graph, members: seq<int>, i: nat, max: int)
    requires DistinctCalls(g) && 0 < i <= |members| && |AllCycles(g, members, i - 1)| < max
    requires ReportedUpTo(g, members, i - 1, max) == AllCycles(g, members, i - 1)
    ensures var xs, all := ReportedUpTo(g, members, i, max), AllCycles(g, members, i);
      if |all| < max then xs == all else IsCut(g, xs, all, max, 1)
  {
    var s, before := members[i - 1], AllCycles(g, members, i - 1);
    assert s in Elements(members);
    var own, n := Cycles(g, Elements(members), [s], 0), max - |before|;
    if |own| < n {
      WithinLimit(g, Elements(members), [s], 0, n);
    } else {
      BeyondLimit(g, Elements(members), [s], 0, n);
      CutInRest(g, ReportedUpTo(g, members, i, max), AllCycles(g, members, i), before,
        Reported(g, Elements(members), [s], 0, n), own, max, 1);
    }
  }

  ghost predicate OverrunsAt(g: Graph, c: seq<int>, j: int) {
    0 < j < |c| && c[0] in After(Successors(g, c[j - 1]), c[j])
  }

  /** Some function of the cycle calls the start after the next function of the cycle. */
  ghost predicate Overruns(g: Graph, c: seq<int>) { exists j :: OverrunsAt(g, c, j) }

  lemma OverrunStep(g: Graph, c: seq<int>, n: nat)
    requires 0 < n < |c|
    ensures |Overrun(g, c, n)| == |Overrun(g, c, n + 1)| + if OverrunsAt(g, c, n) then 1 else 0
  {}

  lemma {:induction false} OverrunAt(g: Graph, c: seq<int>, n: nat, j: int)
    requires 0 < n <= j && OverrunsAt(g, c, j)
    ensures Overrun(g, c, n) != []
    decreases |c| - n
  {
    OverrunStep(g, c, n);
    if n < j { OverrunAt(g, c, n + 1, j); }
  }

  lemma {:induction false} OverrunWitness(g: Graph, c: seq<int>, n: nat) returns (j: int)
    requires n > 0 && Overrun(g, c, n) != []
    ensures OverrunsAt(g, c, j)
    decreases |c| - n
  {
    if n < |c| { OverrunStep(g, c, n); }
    if Overrun(g, c, n + 1) != [] { j := OverrunWitness(g, c, n + 1); } else { j := n; }
  }

  /** All cycles are reported when there are no more than the limit. */
  lemma {:induction false} ReportedIsAll(g: Graph, members: seq<int>, i: nat, max: int)
    requires i <= |members| && |AllCycles(g, members, i)| <= max
    ensures ReportedUpTo(g, members, i, max) == AllCycles(g, members, i)
  {
    if i > 0 {
      var s, before := members[i - 1], AllCycles(g, members, i - 1);
      assert s in Elements(members);
      ReportedIsAll(g, members, i - 1, max);
      if |before| < max { WithinLimit(g, Elements(members), [s], 0, max - |before|); }
    }
  }

  /**
   * More cycles are reported than the limit allows exactly when there are more and some function of the
   * cycle that reaches the limit calls the start after the next function of the cycle.
   */
  lemma ExceedsLimitIff(g: Graph, members: seq<int>, max: int)
    requires DistinctCalls(g) && max >= 1
    ensures var all := AllCycles(g, members, |members|);
      |ReportedUpTo(g, members, |members|, max)| > max <==> |all| > max && Overruns(g, all[max - 1])
  {
    ReportedIsCut(g, members, |members|, max);
    var all := AllCycles(g, members, |members|);
    if |all| <= max { ReportedIsAll(g, members, |members|, max); }
    if |all| >= max {
      var c := all[max - 1];
      if Overruns(g, c) {
        var j :| OverrunsAt(g, c, j);
        OverrunAt(g, c, 1, j);
      }
      if Overrun(g, c, 1) != [] { var j := OverrunWitness(g, c, 1); }
    }
  }

  // ----- Nothing but cycles -----

  lemma {:induction false} ReportedIsPart(g: Graph, members: set<int>, path: seq<int>, k: nat, n: int, c: seq<int>)
    requires path != [] && c in Reported(g, members, path, k, n)
    ensures c in Cycles(g, members, path, k)
    decreases members - Elements(path), |Successors(g, Last(path))| - k
  {
    var succ := Successors(g, Last(path));
    var w := succ[k];
    if w !in members || (w != path[0] && (w in path || n <= 0)) {
      ReportedIsPart(g, members, path, k + 1, n, c);
    } else if w == path[0] {
      if c != path { ReportedIsPart(g, members, path, k + 1, n - 1, c); }
    } else {
      FewerOutside(members, path, w);
      var inner := Reported(g, members, path + [w], 0, n);
      if c in inner {
        ReportedIsPart(g, members, path + [w], 0, n, c);
      } else {
        ReportedIsPart(g, members, path, k + 1, n - |inner|, c);
      }
    }
  }

  /** Whatever the limit, every list reported is a simple cycle of the members. */
  lemma {:induction false} ReportedAreCycles(g: Graph, members: seq<int>, i: nat, max: int, c: seq<int>)
    requires i <= |members| && c in ReportedUpTo(g, members, i, max)
    ensures IsSimpleCycle(g, Elements(members), c)
  {
    if c in ReportedUpTo(g, members, i - 1, max) {
      ReportedAreCycles(g, members, i - 1, max, c);
    } else {
      var s := members[i - 1];
      assert s in Elements(members);
      ReportedIsPart(g, Elements(members), [s], 0, max - |ReportedUpTo(g, members, i - 1, max)|, c);
      CyclesComplete(g, Elements(members), [s], 0, c);
      CompletesStart(g, Elements(members), s, c);
    }
  }
}
