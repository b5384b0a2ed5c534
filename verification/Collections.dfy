/** Optional values, duplicate-free and ascending lists, and the stable sort used by every report. */
module Collections {

  datatype Option<+T> = None | Some(value: T)

  function Last<T>(xs: seq<T>): T
    requires xs != []
  {
    xs[|xs| - 1]
  }

  predicate StartsWith(s: string, part: string) { |part| <= |s| && s[..|part|] == part }

  lemma StartsLike(s: string, part: string, i: nat)
    requires i < |part|
    ensures StartsWith(s, part) ==> s[i] == part[i]
  {
    if StartsWith(s, part) { assert s[..|part|][i] == s[i]; }
  }

  function Max(a: int, b: int): int { if a < b then b else a }

  function Min(a: int, b: int): int { if a < b then a else b }

  predicate NoDuplicates<T(==)>(xs: seq<T>) {
    forall i, j :: 0 <= i < j < |xs| ==> xs[i] != xs[j]
  }

  lemma JoinedDistinct<T>(xs: seq<T>, ys: seq<T>)
    requires NoDuplicates(xs) && NoDuplicates(ys) && forall x :: x in xs ==> x !in ys
    ensures NoDuplicates(xs + ys)
  {
    forall i, j | 0 <= i < j < |xs + ys| ensures (xs + ys)[i] != (xs + ys)[j] {
      if i < |xs| <= j { assert xs[i] in xs && ys[j - |xs|] in ys; }
    }
  }

  /** Where `x` first occurs. */
  function FirstIndex(xs: seq<int>, x: int): (i: nat)
    requires x in xs
    ensures i < |xs| && xs[i] == x && forall j :: 0 <= j < i ==> xs[j] != x
  {
    if xs[0] == x then 0 else 1 + FirstIndex(xs[1..], x)
  }

  /** How often `x` occurs. */
  function Occurrences<T(==)>(xs: seq<T>, x: T): nat {
    if xs == [] then 0
    else
      var n := |xs| - 1;
      Occurrences(xs[..n], x) + if xs[n] == x then 1 else 0
  }

  lemma {:induction false} OccursIff<T>(xs: seq<T>, x: T)
    ensures Occurrences(xs, x) > 0 <==> x in xs
  {
    if xs != [] { OccursIff(xs[..|xs| - 1], x); }
  }

  lemma {:induction false} OccurrencesConcat<T>(xs: seq<T>, ys: seq<T>, x: T)
    ensures Occurrences(xs + ys, x) == Occurrences(xs, x) + Occurrences(ys, x)
    decreases |ys|
  {
    if ys == [] {
      assert xs + ys == xs;
    } else {
      var n := |ys| - 1;
      assert (xs + ys)[..|xs + ys| - 1] == xs + ys[..n];
      OccurrencesConcat(xs, ys[..n], x);
    }
  }

  function Elements<T>(xs: seq<T>): set<T> { set x | x in xs }

  /** `x` at the end, unless it is listed already. */
  function PushNew(xs: seq<int>, x: int): (r: seq<int>)
    ensures NoDuplicates(xs) ==> NoDuplicates(r)
    ensures forall y :: y in r <==> y in xs || y == x
  {
    if x in xs then xs else xs + [x]
  }

  predicate StrictlyAscending(xs: seq<int>) {
    forall i, j :: 0 <= i < j < |xs| ==> xs[i] < xs[j]
  }

  /** `xs` lists each member of `s` once, in ascending order. */
  predicate IsListing(xs: seq<int>, s: set<int>) {
    StrictlyAscending(xs) && Elements(xs) == s
  }

  /** A listing is determined by the set it lists. */
  lemma {:induction false} ListingIsUnique(xs: seq<int>, ys: seq<int>, s: set<int>)
    requires IsListing(xs, s) && IsListing(ys, s)
    ensures xs == ys
    decreases |xs|
  {
    DistinctSize(xs);
    DistinctSize(ys);
    if xs != [] {
      var a, b := xs[|xs| - 1], ys[|ys| - 1];
      assert a in s && b in s;
      assert a == b by {
        var i :| 0 <= i < |ys| && ys[i] == a;
        var j :| 0 <= j < |xs| && xs[j] == b;
      }
      ListingDropLast(xs, s);
      ListingDropLast(ys, s);
      ListingIsUnique(xs[..|xs| - 1], ys[..|ys| - 1], s - {a});
    }
  }

  lemma ListingDropLast(xs: seq<int>, s: set<int>)
    requires IsListing(xs, s) && |xs| > 0
    ensures IsListing(xs[..|xs| - 1], s - {xs[|xs| - 1]})
  {
    var ys, a := xs[..|xs| - 1], xs[|xs| - 1];
    forall x ensures x in Elements(ys) <==> x in s - {a} {
      if x in s - {a} {
        var i :| 0 <= i < |xs| && xs[i] == x;
        assert ys[i] == x;
      }
    }
  }

  lemma MemberOf<T>(s: set<T>) returns (x: T)
    requires s != {}
    ensures x in s
  {
    x :| x in s;
  }

  /** The ascending listing of a finite set. */
  function Ascending(s: set<int>): (xs: seq<int>)
    ensures IsListing(xs, s)
    decreases |s|
  {
    if s == {} then []
    else
      LeastExists(s);
      var m :| m in s && forall x :: x in s ==> m <= x;
      var rest := Ascending(s - {m});
      LeastThenRest(m, rest, s);
      [m] + rest
  }

  lemma LeastThenRest(m: int, rest: seq<int>, s: set<int>)
    requires m in s && (forall x :: x in s ==> m <= x) && IsListing(rest, s - {m})
    ensures IsListing([m] + rest, s)
  {
    var xs := [m] + rest;
    assert forall k :: 0 <= k < |rest| ==> rest[k] in Elements(rest);
    assert StrictlyAscending(xs);
    forall x ensures x in Elements(xs) <==> x in s {
      assert x in xs <==> x == m || x in rest;
      assert x in rest <==> x in Elements(rest);
    }
  }

  lemma {:induction false} LeastExists(s: set<int>)
    requires s != {}
    ensures exists m :: m in s && forall x :: x in s ==> m <= x
    decreases |s|
  {
    var x := MemberOf(s);
    var rest := s - {x};
    if rest == {} {
      assert s == {x};
    } else {
      LeastExists(rest);
      var m :| m in rest && forall y :: y in rest ==> m <= y;
      assert forall y :: y in s ==> y == x || y in rest;
      var n := if m < x then m else x;
      assert n in s && forall y :: y in s ==> n <= y;
    }
  }

  /** Reflexive comparisons that never contradict themselves: the comparison functions given to `sort`. */
  ghost predicate TotalPreorder<T(!new)>(le: (T, T) -> bool) {
    && (forall x, y :: le(x, y) || le(y, x))
    && (forall x, y, z :: le(x, y) && le(y, z) ==> le(x, z))
  }

  predicate SortedBy<T>(xs: seq<T>, le: (T, T) -> bool) {
    forall i, j :: 0 <= i < j < |xs| ==> le(xs[i], xs[j])
  }

  function InsertInOrder<T>(x: T, xs: seq<T>, le: (T, T) -> bool): seq<T> {
    if xs == [] then [x]
    else if le(x, xs[0]) then [x] + xs
    else [xs[0]] + InsertInOrder(x, xs[1..], le)
  }

  lemma {:induction false} InsertKeeps<T>(x: T, xs: seq<T>, le: (T, T) -> bool)
    ensures multiset(InsertInOrder(x, xs, le)) == multiset(xs) + multiset{x}
  {
    if xs != [] && !le(x, xs[0]) {
      InsertKeeps(x, xs[1..], le);
      assert xs == [xs[0]] + xs[1..];
    }
  }

  lemma {:induction false} InsertSorts<T(!new)>(x: T, xs: seq<T>, le: (T, T) -> bool)
    requires TotalPreorder(le) && SortedBy(xs, le)
    ensures SortedBy(InsertInOrder(x, xs, le), le)
    ensures forall y :: y in InsertInOrder(x, xs, le) ==> y == x || y in xs
  {
    if xs != [] && !le(x, xs[0]) {
      InsertSorts(x, xs[1..], le);
      var rest := InsertInOrder(x, xs[1..], le);
      forall k | 0 <= k < |rest| ensures le(xs[0], rest[k]) {
        assert rest[k] in rest;
      }
    }
  }

  /** The array sort of the reports: a sorted rearrangement. */
  function Sort<T(!new)>(xs: seq<T>, le: (T, T) -> bool): (r: seq<T>)
    requires TotalPreorder(le)
    ensures SortedBy(r, le) && multiset(r) == multiset(xs)
  {
    if xs == [] then []
    else
      var rest := Sort(xs[1..], le);
      SortStep(xs, rest, le);
      InsertInOrder(xs[0], rest, le)
  }

  lemma SortStep<T(!new)>(xs: seq<T>, rest: seq<T>, le: (T, T) -> bool)
    requires TotalPreorder(le) && xs != [] && SortedBy(rest, le) && multiset(rest) == multiset(xs[1..])
    ensures SortedBy(InsertInOrder(xs[0], rest, le), le)
    ensures multiset(InsertInOrder(xs[0], rest, le)) == multiset(xs)
  {
    InsertSorts(xs[0], rest, le);
    InsertKeeps(xs[0], rest, le);
    assert xs == [xs[0]] + xs[1..];
  }

  lemma SameMembers<T>(xs: seq<T>, ys: seq<T>)
    requires multiset(xs) == multiset(ys)
    ensures Elements(xs) == Elements(ys)
  {
    forall x ensures x in xs <==> x in ys {
      assert x in xs <==> x in multiset(xs);
      assert x in ys <==> x in multiset(ys);
    }
  }

  lemma MultiplicityOne<T>(xs: seq<T>)
    requires NoDuplicates(xs)
    ensures forall x :: multiset(xs)[x] <= 1
  {
    if xs != [] {
      MultiplicityOne(xs[1..]);
      assert xs == [xs[0]] + xs[1..];
      assert xs[0] !in multiset(xs[1..]);
    }
  }

  lemma RepeatCountsTwice<T>(xs: seq<T>, i: nat, j: nat)
    requires i < j < |xs| && xs[i] == xs[j]
    ensures multiset(xs)[xs[i]] >= 2
  {
    assert xs == xs[..j] + xs[j..];
    assert xs[..j][i] in multiset(xs[..j]);
    assert xs[j..][0] in multiset(xs[j..]);
  }

  /** A rearrangement of a duplicate-free list is duplicate-free. */
  lemma RearrangedNoDuplicates<T>(xs: seq<T>, ys: seq<T>)
    requires NoDuplicates(xs) && multiset(xs) == multiset(ys)
    ensures NoDuplicates(ys)
  {
    MultiplicityOne(xs);
    forall i, j | 0 <= i < j < |ys| ensures ys[i] != ys[j] {
      if ys[i] == ys[j] {
        RepeatCountsTwice(ys, i, j);
      }
    }
  }

  /** `xs.sort((a, b) => a - b)` on a duplicate-free list of indices. */
  function SortIndices(xs: seq<int>): (r: seq<int>)
    ensures multiset(r) == multiset(xs)
    ensures NoDuplicates(xs) ==> IsListing(r, Elements(xs))
  {
    var r := Sort(xs, (a: int, b: int) => a <= b);
    assert NoDuplicates(xs) ==> IsListing(r, Elements(xs)) by {
      if NoDuplicates(xs) {
        SameMembers(xs, r);
        RearrangedNoDuplicates(xs, r);
      }
    }
    r
  }

  lemma DistinctSize<T>(xs: seq<T>)
    requires NoDuplicates(xs)
    ensures |Elements(xs)| == |xs|
  {
    if xs != [] {
      var n := |xs| - 1;
      DistinctSize(xs[..n]);
      assert Elements(xs) == Elements(xs[..n]) + {xs[n]};
    } else {
      assert Elements(xs) == {};
    }
  }

  lemma SubsetSize<T>(a: set<T>, b: set<T>)
    requires a <= b
    ensures |a| <= |b|
  {
    assert b == a + (b - a);
  }

  // ----- Counting a relation by rows and by columns -----

  /** The sizes of the listed rows, added up. */
  function TotalSize(rows: map<int, set<int>>, order: seq<int>): nat
    requires forall k :: 0 <= k < |order| ==> order[k] in rows
  {
    if order == [] then 0
    else
      var n := |order| - 1;
      TotalSize(rows, order[..n]) + |rows[order[n]]|
  }

  lemma {:induction false} PairRow(i: int, row: set<int>)
    ensures |set t | t in row :: (i, t)| == |row|
    decreases |row|
  {
    if row == {} {
      assert (set t | t in row :: (i, t)) == {};
    } else {
      var x := MemberOf(row);
      PairRow(i, row - {x});
      assert (set t | t in row :: (i, t)) == (set t | t in row - {x} :: (i, t)) + {(i, x)};
    }
  }

  lemma {:induction false} TotalSizeCountsPairs(rows: map<int, set<int>>, order: seq<int>, pairs: set<(int, int)>)
    requires (forall k :: 0 <= k < |order| ==> order[k] in rows) && NoDuplicates(order)
    requires forall p :: p in pairs <==> p.0 in order && p.1 in rows[p.0]
    ensures TotalSize(rows, order) == |pairs|
    decreases |order|
  {
    if order == [] {
      assert pairs == {};
    } else {
      var n := |order| - 1;
      var row := set t | t in rows[order[n]] :: (order[n], t);
      PairRow(order[n], rows[order[n]]);
      LastRow(rows, order, pairs, order[n], row);
      TotalSizeCountsPairs(rows, order[..n], pairs - row);
      assert pairs == (pairs - row) + row;
    }
  }

  lemma LastRow(rows: map<int, set<int>>, order: seq<int>, pairs: set<(int, int)>, i: int, row: set<(int, int)>)
    requires order != [] && (forall k :: 0 <= k < |order| ==> order[k] in rows) && NoDuplicates(order)
    requires forall p :: p in pairs <==> p.0 in order && p.1 in rows[p.0]
    requires i == order[|order| - 1] && row == set t | t in rows[i] :: (i, t)
    ensures row <= pairs
    ensures forall p :: p in pairs - row <==> p.0 in order[..|order| - 1] && p.1 in rows[p.0]
  {
    var n := |order| - 1;
    assert order == order[..n] + [i] && i !in order[..n];
    forall p ensures p in row <==> p.0 == i && p.1 in rows[i] {
      if p.0 == i && p.1 in rows[i] {
        var t := p.1;
        assert (i, t) in row && p == (i, t);
      }
    }
  }

  ghost function Swapped(pairs: set<(int, int)>): set<(int, int)> { set p: (int, int) | p in pairs :: (p.1, p.0) }

  lemma {:induction false} SwappedSize(pairs: set<(int, int)>)
    ensures |Swapped(pairs)| == |pairs|
    decreases |pairs|
  {
    var swapped := Swapped(pairs);
    if pairs == {} {
      assert swapped == {};
    } else {
      var q := MemberOf(pairs);
      var rest := pairs - {q};
      SwappedSize(rest);
      var less := Swapped(rest);
      assert swapped == less + {(q.1, q.0)};
      forall p | p in rest ensures (p.1, p.0) != (q.1, q.0) {
        assert p == (p.0, p.1) && q == (q.0, q.1);
      }
    }
  }

  /** A relation between the listed indices has as many pairs counted by rows as by columns. */
  lemma DoubleCount(rows: map<int, set<int>>, columns: map<int, set<int>>, order: seq<int>)
    requires NoDuplicates(order) && forall k :: 0 <= k < |order| ==> order[k] in rows && order[k] in columns
    requires forall i, t :: i in order && t in rows[i] <==> t in order && i in columns[t]
    ensures TotalSize(rows, order) == TotalSize(columns, order)
  {
    var pairs := RelationPairs(rows, order);
    TotalSizeCountsPairs(rows, order, pairs);
    var swapped := Swapped(pairs);
    SwappedSize(pairs);
    forall q ensures q in swapped <==> q.0 in order && q.1 in columns[q.0] {
      SwappedMember(pairs, q);
      var i, t := q.1, q.0;
      assert (i, t) in pairs <==> i in order && t in rows[i];
    }
    TotalSizeCountsPairs(columns, order, swapped);
  }

  lemma RelationPairs(rows: map<int, set<int>>, order: seq<int>) returns (pairs: set<(int, int)>)
    requires forall k :: 0 <= k < |order| ==> order[k] in rows
    ensures forall p :: p in pairs <==> p.0 in order && p.1 in rows[p.0]
  {
    pairs := set i, t | i in order && t in rows[i] :: (i, t);
    forall p ensures p in pairs <==> p.0 in order && p.1 in rows[p.0] {
      if p.0 in order && p.1 in rows[p.0] {
        var i, t := p.0, p.1;
        assert (i, t) in pairs && p == (i, t);
      }
    }
  }

  lemma SwappedMember(pairs: set<(int, int)>, q: (int, int))
    ensures q in Swapped(pairs) <==> (q.1, q.0) in pairs
  {
    var swapped := Swapped(pairs);
    if q in swapped {
      var p :| p in pairs && q == (p.1, p.0);
      assert p == (q.1, q.0);
    }
    if (q.1, q.0) in pairs {
      var p := (q.1, q.0);
      assert p in pairs && q == (p.1, p.0);
    }
  }
}
