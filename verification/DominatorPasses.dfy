/** Why iterating to a fixpoint ends: from pass to pass every candidate only moves up. */
module DominatorPasses {
  import opened Digraphs
  import opened DominatorFixpoint

  /** No block above all processed predecessors of `c` comes after the candidate of `c`. */
  ghost predicate IsBounded(g: Graph, o: Order, t: Tree, c: int)
    requires IsTree(o, t) && c in t
  {
    forall x :: x in o.rank && AboveAll(g, o, t, x, c) ==> o.rank[x] <= o.rank[t[c]]
  }

  /** The candidate of `c` stands above each earlier predecessor of `c`. */
  ghost predicate IsSettled(g: Graph, o: Order, t: Tree, c: int)
    requires IsTree(o, t) && c in t
  {
    forall y :: IsForward(g, o, y, c) ==> y in t && Above(o, t, t[c], y)
  }

  ghost predicate AllBounded(g: Graph, o: Order, t: Tree)
    requires IsTree(o, t)
  {
    forall c :: c in t && c != o.entry ==> IsBounded(g, o, t, c)
  }

  ghost predicate SettledBelow(g: Graph, o: Order, t: Tree, n: int)
    requires IsTree(o, t)
  {
    forall c :: c in t && c != o.entry && o.rank[c] < n ==> IsSettled(g, o, t, c)
  }

  /** The blocks from place `n` on are as they were; those before it are processed. */
  ghost predicate ProcessedUpTo(o: Order, was: Tree, t: Tree, n: int) {
    && was.Keys <= t.Keys
    && (forall c :: c in o.rank && o.rank[c] < n ==> c in t)
    && forall c :: c in o.rank && o.rank[c] >= n ==> (c in t <==> c in was) && (c in was ==> t[c] == was[c])
  }

  /** In `t` each candidate is the one it had in `was`, or one above it. */
  ghost predicate HasRisen(o: Order, was: Tree, t: Tree)
    requires IsTree(o, t)
  {
    forall c :: c in was && c in t && c != o.entry ==> was[c] in t && Above(o, t, t[c], was[c])
  }

  /** A pass that began with `was` has come to place `n`. */
  ghost predicate IsPass(g: Graph, o: Order, was: Tree, t: Tree, n: int) {
    && AllCandidates(g, o, t) && AllBounded(g, o, t) && SettledBelow(g, o, t, n)
    && IsTree(o, was) && (forall c :: c in was && c != o.entry ==> IsSettled(g, o, was, c))
    && ProcessedUpTo(o, was, t, n) && HasRisen(o, was, t)
  }

  lemma {:induction false} LowerKept(o: Order, t: Tree, b: int, r: int, x: int, c: int)
    requires IsTree(o, t) && IsTree(o, t[b := r]) && c in t && b in o.rank && o.rank[c] < o.rank[b]
    ensures Above(o, t[b := r], x, c) <==> Above(o, t, x, c)
    decreases o.rank[c]
  {
    if c != o.entry { LowerKept(o, t, b, r, x, t[c]); }
  }

  /** Moving one candidate up adds nothing above any block. */
  lemma {:induction false} NothingNewAbove(o: Order, t: Tree, b: int, r: int, x: int, c: int)
    requires IsTree(o, t) && IsTree(o, t[b := r]) && c in t && b != o.entry && r in t
    requires b in t ==> Above(o, t, r, t[b])
    requires Above(o, t[b := r], x, c)
    ensures Above(o, t, x, c)
    decreases o.rank[c]
  {
    if x != c {
      if c == b {
        LowerKept(o, t, b, r, x, r);
        AboveTransitive(o, t, x, r, t[b]);
      } else {
        NothingNewAbove(o, t, b, r, x, t[c]);
      }
    }
  }

  /** What was above a block before the pass bounds what is above it now. */
  lemma {:induction false} Inherits(g: Graph, o: Order, was: Tree, t: Tree, w: int, z: int, y: int)
    requires IsTree(o, was) && IsTree(o, t) && was.Keys <= t.Keys && HasRisen(o, was, t)
    requires y in was && Above(o, was, z, y) && Above(o, t, w, y)
    requires z in t && w in t && o.rank[w] <= o.rank[z]
    ensures Above(o, t, w, z)
    decreases o.rank[y]
  {
    if z != y {
      AboveRank(o, was, z, was[y]);
      AboveTransitive(o, t, w, t[y], was[y]);
      Inherits(g, o, was, t, w, z, was[y]);
    }
  }

  /** A block computed again gets a candidate above the one it has. */
  lemma MeetRises(g: Graph, o: Order, was: Tree, t: Tree, b: int, r: int)
    requires b in o.rank && b != o.entry && IsPass(g, o, was, t, o.rank[b]) && b in t && IsMeet(g, o, t, b, r)
    ensures Above(o, t, r, t[b])
  {
    assert IsBounded(g, o, t, b) && Above(o, t, r, r) && AboveAll(g, o, t, r, b);
    assert b in was && IsSettled(g, o, was, b);
    var y :| IsForward(g, o, y, b);
    assert IsProcessed(g, t, y, b);
    Inherits(g, o, was, t, r, t[b], y);
  }

  lemma GrownTree(o: Order, t: Tree, b: int, r: int)
    requires IsTree(o, t) && b in o.rank && b != o.entry && r in t && o.rank[r] < o.rank[b]
    ensures IsTree(o, t[b := r])
  {}

  lemma NothingNewAboveAll(g: Graph, o: Order, t: Tree, b: int, r: int, x: int, c: int)
    requires IsTree(o, t) && IsTree(o, t[b := r]) && b != o.entry && r in t && (b in t ==> Above(o, t, r, t[b]))
    requires AboveAll(g, o, t[b := r], x, c)
    ensures AboveAll(g, o, t, x, c)
  {
    forall p | IsProcessed(g, t, p, c) ensures Above(o, t, x, p) {
      assert IsProcessed(g, t[b := r], p, c);
      NothingNewAbove(o, t, b, r, x, p);
    }
  }

  lemma StaysBounded(g: Graph, o: Order, t: Tree, b: int, r: int, c: int)
    requires IsTree(o, t) && AllBounded(g, o, t) && IsMeet(g, o, t, b, r) && IsTree(o, t[b := r]) && b != o.entry
    requires b in t ==> Above(o, t, r, t[b])
    requires c != o.entry && (c == b || c in t)
    ensures IsBounded(g, o, t[b := r], c)
  {
    forall x | x in o.rank && AboveAll(g, o, t[b := r], x, c) ensures o.rank[x] <= o.rank[t[b := r][c]] {
      NothingNewAboveAll(g, o, t, b, r, x, c);
      if c == b {
        AboveRank(o, t, x, r);
      } else {
        assert IsBounded(g, o, t, c);
      }
    }
  }

  lemma StaysSettled(g: Graph, o: Order, t: Tree, b: int, r: int, c: int)
    requires IsTree(o, t) && IsMeet(g, o, t, b, r) && IsTree(o, t[b := r]) && b in o.rank && b != o.entry
    requires forall y :: y in o.rank && o.rank[y] < o.rank[b] ==> y in t
    requires c == b || (c in t && c != o.entry && o.rank[c] < o.rank[b] && IsSettled(g, o, t, c))
    ensures IsSettled(g, o, t[b := r], c)
  {
    var after := t[b := r];
    forall y | IsForward(g, o, y, c) ensures y in after && Above(o, after, after[c], y) {
      if c == b {
        assert IsProcessed(g, t, y, b) && Above(o, t, r, r) && AboveAll(g, o, t, r, b);
      }
      LowerKept(o, t, b, r, after[c], y);
    }
  }

  lemma StaysRisen(g: Graph, o: Order, was: Tree, t: Tree, b: int, r: int)
    requires b in o.rank && b != o.entry && IsPass(g, o, was, t, o.rank[b]) && IsTree(o, t[b := r])
    requires b in t ==> Above(o, t, r, t[b])
    ensures HasRisen(o, was, t[b := r])
  {
    var after := t[b := r];
    forall c | c in was && c in after && c != o.entry ensures was[c] in after && Above(o, after, after[c], was[c]) {
      if o.rank[c] <= o.rank[b] {
        LowerKept(o, t, b, r, after[c], was[c]);
      } else {
        assert after[c] == was[c];
      }
    }
  }

  lemma CandidatesStep(g: Graph, o: Order, t: Tree, b: int, r: int)
    requires AllCandidates(g, o, t) && IsTree(o, t[b := r]) && b != o.entry && IsCandidate(g, o, r, b)
    ensures AllCandidates(g, o, t[b := r])
  {}

  lemma BoundedStep(g: Graph, o: Order, t: Tree, b: int, r: int)
    requires IsTree(o, t) && AllBounded(g, o, t) && IsMeet(g, o, t, b, r) && IsTree(o, t[b := r]) && b != o.entry
    requires b in t ==> Above(o, t, r, t[b])
    ensures AllBounded(g, o, t[b := r])
  {
    var after := t[b := r];
    forall c | c in after && c != o.entry ensures IsBounded(g, o, after, c) { StaysBounded(g, o, t, b, r, c); }
  }

  lemma SettledStep(g: Graph, o: Order, t: Tree, b: int, r: int)
    requires IsTree(o, t) && IsMeet(g, o, t, b, r) && IsTree(o, t[b := r]) && b in o.rank && b != o.entry
    requires forall y :: y in o.rank && o.rank[y] < o.rank[b] ==> y in t
    requires SettledBelow(g, o, t, o.rank[b])
    ensures SettledBelow(g, o, t[b := r], o.rank[b] + 1)
  {
    var after := t[b := r];
    forall c | c in after && c != o.entry && o.rank[c] < o.rank[b] + 1 ensures IsSettled(g, o, after, c) {
      StaysSettled(g, o, t, b, r, c);
    }
  }

  lemma ProcessedStep(o: Order, was: Tree, t: Tree, b: int, r: int)
    requires IsRanking(o) && b in o.rank && ProcessedUpTo(o, was, t, o.rank[b])
    ensures ProcessedUpTo(o, was, t[b := r], o.rank[b] + 1)
  {}

  lemma RisesIfKnown(g: Graph, o: Order, was: Tree, t: Tree, b: int, r: int)
    requires b in o.rank && b != o.entry && IsPass(g, o, was, t, o.rank[b]) && IsMeet(g, o, t, b, r)
    ensures b in t ==> Above(o, t, r, t[b]) && (r != t[b] ==> o.rank[r] < o.rank[t[b]])
  {
    if b in t {
      MeetRises(g, o, was, t, b, r);
      AboveRank(o, t, r, t[b]);
    }
  }

  /** Computing one candidate again takes the pass one place further; a candidate that changes moves up. */
  lemma PassStep(g: Graph, o: Order, was: Tree, t: Tree, b: int, n: int, r: int)
    requires b in o.rank && o.rank[b] == n && b != o.entry && IsPass(g, o, was, t, n) && IsMeet(g, o, t, b, r)
    ensures IsPass(g, o, was, t[b := r], n + 1)
    ensures b in t && r != t[b] ==> o.rank[r] < o.rank[t[b]]
  {
    var y :| IsForward(g, o, y, b);
    MeetIsCandidate(g, o, t, y, b, r);
    GrownTree(o, t, b, r);
    RisesIfKnown(g, o, was, t, b, r);
    CandidatesStep(g, o, t, b, r);
    BoundedStep(g, o, t, b, r);
    SettledStep(g, o, t, b, r);
    ProcessedStep(o, was, t, b, r);
    StaysRisen(g, o, was, t, b, r);
  }

  /** Between passes. */
  ghost predicate IsRest(g: Graph, o: Order, t: Tree) {
    && AllCandidates(g, o, t) && AllBounded(g, o, t)
    && forall c :: c in t && c != o.entry ==> IsSettled(g, o, t, c)
  }

  lemma FirstRest(g: Graph, o: Order)
    requires IsOrder(g, o)
    ensures IsRest(g, o, map[o.entry := o.entry])
  {}

  lemma PassBegins(g: Graph, o: Order, t: Tree)
    requires IsRest(g, o, t)
    ensures IsPass(g, o, t, t, 0)
  {
    forall c | c in t && c != o.entry ensures Above(o, t, t[c], t[c]) {}
  }

  lemma PassEntry(g: Graph, o: Order, was: Tree, t: Tree)
    requires IsPass(g, o, was, t, 0)
    ensures IsPass(g, o, was, t, 1)
  {}

  lemma PassEnds(g: Graph, o: Order, was: Tree, t: Tree, n: int)
    requires IsPass(g, o, was, t, n) && forall b :: b in o.rank ==> o.rank[b] < n
    ensures IsRest(g, o, t) && t.Keys == o.rank.Keys
  {
    forall b | b in o.rank ensures b in t {}
  }

  // ----- The measure -----

  ghost function RankAt(o: Order, b: int): (n: nat)
    requires IsRanking(o) && b in o.rank
    ensures n == o.rank[b]
  {
    o.rank[b]
  }

  /** The place of a block's candidate, or `limit` while there is none. */
  ghost function Place(o: Order, t: Tree, b: int, limit: nat): nat
    requires IsTree(o, t)
  {
    if b in t then RankAt(o, t[b]) else limit
  }

  ghost function Weight(o: Order, bs: seq<int>, t: Tree, limit: nat): nat
    requires IsTree(o, t)
  {
    if bs == [] then 0 else Place(o, t, bs[0], limit) + Weight(o, bs[1..], t, limit)
  }

  lemma {:induction false} WeightFalls(o: Order, bs: seq<int>, t: Tree, b: int, r: int, limit: nat)
    requires IsTree(o, t) && IsTree(o, t[b := r]) && r in o.rank && o.rank[r] < Place(o, t, b, limit)
    ensures Weight(o, bs, t[b := r], limit) <= Weight(o, bs, t, limit)
    ensures b in bs ==> Weight(o, bs, t[b := r], limit) < Weight(o, bs, t, limit)
  {
    if bs != [] { WeightFalls(o, bs[1..], t, b, r, limit); }
  }
}
