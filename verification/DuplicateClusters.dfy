/** What the greedy clusters of the duplicate finder guarantee, and the statistics drawn from them. */
module DuplicateClusters {
  import opened Collections
  import opened PolynomialHash
  import opened DuplicateFinder
  import opened Numerals

  lemma {:induction false} IndicesConcat(xs: seq<Code>, ys: seq<Code>)
    ensures IndicesOf(xs + ys) == IndicesOf(xs) + IndicesOf(ys)
    decreases |ys|
  {
    if ys == [] {
      assert xs + ys == xs;
    } else {
      var n := |ys| - 1;
      assert (xs + ys)[..|xs + ys| - 1] == xs + ys[..n];
      IndicesConcat(xs, ys[..n]);
    }
  }

  /** A cluster holds the reference and exactly the unseen functions that match it, each once. */
  lemma ClusterMembers(o: Options, fs: seq<Code>, r: Code, seen: set<int>)
    requires Distinct(fs) && r in fs && r.index !in seen
    ensures var c := Cluster(o, r, Unseen(fs, seen));
      && Distinct(c)
      && (forall f :: f in c <==> f == r || (f in fs && f.index !in seen && f.index != r.index && IsDuplicate(o, r, f)))
  {
    var unseen, p := Unseen(fs, seen), MatchesReference(o, r);
    KeptMembers(NotSeen(seen), fs);
    KeptDistinct(NotSeen(seen), fs);
    KeptMembers(p, unseen);
    KeptDistinct(p, unseen);
    DistinctJoin([r], Kept(p, unseen));
  }

  /** A new cluster repeats nothing and takes unseen functions only. */
  ghost predicate IsFresh(fs: seq<Code>, r: Code, seen: set<int>, c: seq<Code>) {
    Distinct(c) && r in c && forall f :: f in c ==> f in fs && f.index !in seen
  }

  lemma ClusterIsFresh(o: Options, fs: seq<Code>, r: Code, seen: set<int>)
    requires Distinct(fs) && r in fs && r.index !in seen
    ensures IsFresh(fs, r, seen, Cluster(o, r, Unseen(fs, seen)))
  {
    ClusterMembers(o, fs, r, seen);
  }

  /** The clusters so far: disjoint, without repeats, made of the given functions, and covering the references tried. */
  ghost predicate IsPartial(fs: seq<Code>, k: nat, all: seq<Code>)
    requires k <= |fs|
  {
    && Distinct(all)
    && (forall f :: f in all ==> f in fs)
    && (forall j :: 0 <= j < k ==> fs[j].index in IndicesOf(all))
  }

  /** The clusters of the first `k + 1` references: as before, or with one more cluster. */
  lemma NextClusters(o: Options, fs: seq<Code>, k: nat) returns (c: seq<Code>)
    requires Distinct(fs) && k < |fs|
    ensures fs[k].index in IndicesOf(Flatten(Clusters(o, fs, k))) ==> Clusters(o, fs, k + 1) == Clusters(o, fs, k)
    ensures fs[k].index !in IndicesOf(Flatten(Clusters(o, fs, k))) ==>
      && Clusters(o, fs, k + 1) == Clusters(o, fs, k) + [c]
      && IsFresh(fs, fs[k], IndicesOf(Flatten(Clusters(o, fs, k))), c)
  {
    var seen := IndicesOf(Flatten(Clusters(o, fs, k)));
    c := Cluster(o, fs[k], Unseen(fs, seen));
    if fs[k].index !in seen { ClusterIsFresh(o, fs, fs[k], seen); }
  }

  lemma ClustersPartition(o: Options, fs: seq<Code>, k: nat)
    requires Distinct(fs) && k <= |fs|
    ensures IsPartial(fs, k, Flatten(Clusters(o, fs, k)))
  {
    for j := 0 to k
      invariant IsPartial(fs, j, Flatten(Clusters(o, fs, j)))
    {
      PartitionNext(o, fs, j);
    }
  }

  lemma PartitionNext(o: Options, fs: seq<Code>, k: nat)
    requires Distinct(fs) && k < |fs| && IsPartial(fs, k, Flatten(Clusters(o, fs, k)))
    ensures IsPartial(fs, k + 1, Flatten(Clusters(o, fs, k + 1)))
  {
    var before, after := Clusters(o, fs, k), Clusters(o, fs, k + 1);
    var c := NextClusters(o, fs, k);
    PartitionStep(fs, k, before, after, c);
  }

  lemma PartitionStep(fs: seq<Code>, k: nat, before: seq<seq<Code>>, after: seq<seq<Code>>, c: seq<Code>)
    requires k < |fs| && IsPartial(fs, k, Flatten(before))
    requires fs[k].index in IndicesOf(Flatten(before)) ==> after == before
    requires fs[k].index !in IndicesOf(Flatten(before)) ==>
      after == before + [c] && IsFresh(fs, fs[k], IndicesOf(Flatten(before)), c)
    ensures IsPartial(fs, k + 1, Flatten(after))
  {
    if fs[k].index !in IndicesOf(Flatten(before)) {
      NextCluster(fs, k, Flatten(before), c);
      AddedCluster(before, c);
    }
  }

  lemma NextCluster(fs: seq<Code>, k: nat, all: seq<Code>, c: seq<Code>)
    requires k < |fs| && IsPartial(fs, k, all) && IsFresh(fs, fs[k], IndicesOf(all), c)
    ensures IsPartial(fs, k + 1, all + c)
  {
    IndicesConcat(all, c);
    IndexHeld(c, fs[k].index);
    forall f, g | f in all && g in c ensures f.index != g.index {
      IndexHeld(all, f.index);
    }
    DistinctJoin(all, c);
  }

  /** The clusters are disjoint and their members are exactly the given functions. */
  lemma PartitionIsComplete(o: Options, fs: seq<Code>)
    requires Distinct(fs)
    ensures var all := Flatten(Clusters(o, fs, |fs|));
      Distinct(all) && |all| == |fs| && (forall f :: f in all <==> f in fs)
  {
    ClustersPartition(o, fs, |fs|);
    var all := Flatten(Clusters(o, fs, |fs|));
    forall f | f in fs ensures f in all {
      var j :| 0 <= j < |fs| && fs[j] == f;
      IndexHeld(all, f.index);
      var g :| g in all && g.index == f.index;
      OneWithIndex(fs, f, g);
    }
    SameLength(all, fs);
  }

  lemma DistinctHasNoDuplicates(fs: seq<Code>)
    requires Distinct(fs)
    ensures NoDuplicates(fs)
  {
    forall i, j | 0 <= i < j < |fs| ensures fs[i] != fs[j] {
      assert IndexAt(fs, i) != IndexAt(fs, j);
    }
  }

  lemma SameLength(xs: seq<Code>, ys: seq<Code>)
    requires Distinct(xs) && Distinct(ys) && forall f :: f in xs <==> f in ys
    ensures |xs| == |ys|
  {
    DistinctHasNoDuplicates(xs);
    DistinctHasNoDuplicates(ys);
    DistinctSize(xs);
    DistinctSize(ys);
    assert Elements(xs) == Elements(ys);
  }

  // ----- Identical bodies stay together -----

  ghost predicate SameBody(f: Code, g: Code) { f.body == g.body && f.size == g.size }

  /** Each cluster holds both functions or neither. */
  ghost predicate Together(clusters: seq<seq<Code>>, f: Code, g: Code) {
    forall c {:trigger BothOrNeither(c, f, g)} :: c in clusters ==> BothOrNeither(c, f, g)
  }

  ghost predicate AreTwins(fs: seq<Code>, f: Code, g: Code) { f in fs && g in fs && SameBody(f, g) }

  ghost predicate BothOrNeither(c: seq<Code>, f: Code, g: Code) { f in c <==> g in c }

  lemma TogetherBothWays(clusters: seq<seq<Code>>, f: Code, g: Code)
    requires Together(clusters, f, g)
    ensures Together(clusters, g, f)
  {
    forall c | c in clusters ensures BothOrNeither(c, g, f) { assert BothOrNeither(c, f, g); }
  }

  lemma MatchesAlike(o: Options, r: Code, f: Code, g: Code)
    requires SameBody(f, g)
    ensures IsDuplicate(o, r, f) <==> IsDuplicate(o, r, g)
    ensures SameBody(r, f) ==> IsDuplicate(o, r, f)
  {}

  lemma PlacedAlike(clusters: seq<seq<Code>>, fs: seq<Code>, f: Code, g: Code)
    requires Distinct(fs) && f in fs && g in fs && SameBody(f, g) && Together(clusters, f, g)
    requires forall h :: h in Flatten(clusters) ==> h in fs
    ensures f.index in IndicesOf(Flatten(clusters)) ==> g.index in IndicesOf(Flatten(clusters))
  {
    var all := Flatten(clusters);
    if f.index in IndicesOf(all) {
      IndexHeld(all, f.index);
      var h :| h in all && h.index == f.index;
      OneWithIndex(fs, h, f);
      InSomeCluster(clusters, f);
      var c :| c in clusters && f in c;
      assert BothOrNeither(c, f, g);
      InSomeCluster(clusters, g);
      IndexHeld(all, g.index);
    }
  }

  lemma {:induction false} InSomeCluster(clusters: seq<seq<Code>>, f: Code)
    ensures f in Flatten(clusters) <==> exists c :: c in clusters && f in c
  {
    if clusters != [] {
      var n := |clusters| - 1;
      InSomeCluster(clusters[..n], f);
      assert forall c :: c in clusters <==> c in clusters[..n] || c == clusters[n];
    }
  }

  /** Functions with identical bodies are never put in different clusters. */
  lemma {:induction false} IdenticalBodiesStayTogether(o: Options, fs: seq<Code>, k: nat, f: Code, g: Code)
    requires Distinct(fs) && k <= |fs| && AreTwins(fs, f, g)
    ensures Together(Clusters(o, fs, k), f, g)
    decreases k, 1
  {
    if k == 0 {
      NothingApart(o, fs, f, g);
    } else {
      TogetherNext(o, fs, k, f, g);
    }
  }

  lemma TogetherNext(o: Options, fs: seq<Code>, k: nat, f: Code, g: Code)
    requires Distinct(fs) && 0 < k <= |fs| && AreTwins(fs, f, g)
    ensures Together(Clusters(o, fs, k), f, g)
    decreases k, 0
  {
    IdenticalBodiesStayTogether(o, fs, k - 1, f, g);
    TogetherStep(o, fs, k, f, g);
  }

  lemma NothingApart(o: Options, fs: seq<Code>, f: Code, g: Code)
    ensures Together(Clusters(o, fs, 0), f, g)
  {}

  lemma TogetherStep(o: Options, fs: seq<Code>, k: nat, f: Code, g: Code)
    requires Distinct(fs) && 0 < k <= |fs| && AreTwins(fs, f, g) && Together(Clusters(o, fs, k - 1), f, g)
    ensures Together(Clusters(o, fs, k), f, g)
  {
    ClusteredAreGiven(o, fs, k - 1);
    TogetherAfter(o, fs, Clusters(o, fs, k - 1), fs[k - 1], Clusters(o, fs, k), f, g);
  }

  lemma ClusteredAreGiven(o: Options, fs: seq<Code>, k: nat)
    requires Distinct(fs) && k <= |fs|
    ensures forall h :: h in Flatten(Clusters(o, fs, k)) ==> h in fs
  {
    ClustersPartition(o, fs, k);
  }

  lemma TogetherAfter(
      o: Options, fs: seq<Code>, before: seq<seq<Code>>, r: Code, after: seq<seq<Code>>, f: Code, g: Code)
    requires Distinct(fs) && r in fs && AreTwins(fs, f, g) && Together(before, f, g)
    requires forall h :: h in Flatten(before) ==> h in fs
    requires after == if r.index in IndicesOf(Flatten(before)) then before
                      else before + [Cluster(o, r, Unseen(fs, IndicesOf(Flatten(before))))]
    ensures Together(after, f, g)
  {
    if r.index !in IndicesOf(Flatten(before)) { TogetherInNext(o, fs, before, r, f, g); }
  }

  lemma TogetherInNext(o: Options, fs: seq<Code>, before: seq<seq<Code>>, r: Code, f: Code, g: Code)
    requires Distinct(fs) && r in fs && AreTwins(fs, f, g) && Together(before, f, g)
    requires forall h :: h in Flatten(before) ==> h in fs
    requires r.index !in IndicesOf(Flatten(before))
    ensures Together(before + [Cluster(o, r, Unseen(fs, IndicesOf(Flatten(before))))], f, g)
  {
    TogetherBothWays(before, f, g);
    JoinsToo(o, fs, before, r, f, g);
    JoinsToo(o, fs, before, r, g, f);
    TogetherAlso(before, Cluster(o, r, Unseen(fs, IndicesOf(Flatten(before)))), f, g);
  }

  lemma JoinsToo(o: Options, fs: seq<Code>, before: seq<seq<Code>>, r: Code, f: Code, g: Code)
    requires Distinct(fs) && f in fs && g in fs && r in fs && SameBody(f, g) && Together(before, f, g)
    requires forall h :: h in Flatten(before) ==> h in fs
    requires r.index !in IndicesOf(Flatten(before))
    ensures var c := Cluster(o, r, Unseen(fs, IndicesOf(Flatten(before)))); f in c ==> g in c
  {
    var seen := IndicesOf(Flatten(before));
    ClusterMembers(o, fs, r, seen);
    TogetherBothWays(before, f, g);
    PlacedAlike(before, fs, g, f);
    MatchesAlike(o, r, f, g);
    if g.index == r.index { OneWithIndex(fs, g, r); }
  }

  lemma TogetherAlso(before: seq<seq<Code>>, c: seq<Code>, f: Code, g: Code)
    requires Together(before, f, g) && (f in c <==> g in c)
    ensures Together(before + [c], f, g)
  {
    assert forall d :: d in before + [c] <==> d in before || d == c;
  }

  // ----- The report -----

  datatype Group = Group(functions: seq<int>, bodySize: nat, fingerprint: string, instructionCount: nat)

  datatype Stats = Stats(
    uniqueFunctions: nat, duplicateGroups: nat, duplicatedFunctions: nat, largestGroupSize: nat,
    duplicatedSize: nat, duplicatedInstructionCount: nat)

  function IndexList(fs: seq<Code>): seq<int> { seq(|fs|, k requires 0 <= k < |fs| => fs[k].index) }

  function TotalBytes(fs: seq<Code>): nat { if fs == [] then 0 else TotalBytes(fs[..|fs| - 1]) + fs[|fs| - 1].size }

  function TotalInstructions(fs: seq<Code>): nat {
    if fs == [] then 0 else TotalInstructions(fs[..|fs| - 1]) + |Decode(fs[|fs| - 1].body)|
  }

  function GroupOf(c: seq<Code>): Group
    requires c != []
  {
    Group(SortIndices(IndexList(c)), TotalBytes(c), Fingerprint(c[0].body), TotalInstructions(c))
  }

  /** The groups are the clusters with more than one function. */
  function GroupsOf(clusters: seq<seq<Code>>): seq<Group> {
    if clusters == [] then []
    else
      var n := |clusters| - 1;
      GroupsOf(clusters[..n]) + if |clusters[n]| > 1 then [GroupOf(clusters[n])] else []
  }

  function StatsOf(clusters: seq<seq<Code>>): Stats {
    if clusters == [] then Stats(0, 0, 0, 0, 0, 0)
    else
      var s, c := StatsOf(clusters[..|clusters| - 1]), clusters[|clusters| - 1];
      if |c| > 1 then
        Stats(s.uniqueFunctions, s.duplicateGroups + 1, s.duplicatedFunctions + |c|,
              if s.largestGroupSize < |c| then |c| else s.largestGroupSize,
              s.duplicatedSize + TotalBytes(c), s.duplicatedInstructionCount + TotalInstructions(c))
      else s.(uniqueFunctions := s.uniqueFunctions + 1)
  }

  // ----- Groups and sums, field by field -----

  lemma IndexListMembers(c: seq<Code>)
    requires Distinct(c)
    ensures NoDuplicates(IndexList(c)) && forall i :: i in IndexList(c) <==> exists f :: f in c && f.index == i
  {
    forall i, j | 0 <= i < j < |c| ensures IndexList(c)[i] != IndexList(c)[j] {
      assert IndexAt(c, i) != IndexAt(c, j);
    }
    forall i ensures i in IndexList(c) <==> exists f :: f in c && f.index == i {
      if i in IndexList(c) {
        var k :| 0 <= k < |c| && IndexList(c)[k] == i;
        assert c[k] in c && c[k].index == i;
      }
      if f :| f in c && f.index == i {
        var k :| 0 <= k < |c| && c[k] == f;
        assert IndexList(c)[k] == i;
      }
    }
  }

  /** A group lists the members' indices ascending, and carries the first member's hash. */
  lemma GroupIs(c: seq<Code>)
    requires c != [] && Distinct(c)
    ensures StrictlyAscending(GroupOf(c).functions) && |GroupOf(c).functions| == |c|
    ensures forall i :: i in GroupOf(c).functions <==> exists f :: f in c && f.index == i
    ensures Value(GroupOf(c).fingerprint, 16) == Abs(Hash(c[0].body))
  {
    IndexListMembers(c);
    FingerprintIsWhole(c[0].body, c[0].body);
    NumeralReadsBack(Abs(Hash(c[0].body)), 16);
    var functions := SortIndices(IndexList(c));
    DistinctSize(functions);
    DistinctSize(IndexList(c));
    forall i ensures i in functions <==> i in IndexList(c) { assert i in functions <==> i in Elements(functions); }
  }

  /** Sizes and instruction counts of a group add up over its members. */
  lemma GroupSums(f: Code, xs: seq<Code>, ys: seq<Code>)
    requires xs != [] && ys != []
    ensures GroupOf([f]).bodySize == f.size && GroupOf([f]).instructionCount == |Decode(f.body)|
    ensures GroupOf(xs + ys).bodySize == GroupOf(xs).bodySize + GroupOf(ys).bodySize
    ensures GroupOf(xs + ys).instructionCount == GroupOf(xs).instructionCount + GroupOf(ys).instructionCount
  {
    SingleSums(f);
    BytesConcat(xs, ys);
    InstructionsConcat(xs, ys);
  }

  lemma SingleSums(f: Code)
    ensures TotalBytes([f]) == f.size && TotalInstructions([f]) == |Decode(f.body)|
  {
    assert [f][..|[f]| - 1] == [];
    assert TotalBytes([]) == 0 && TotalInstructions([]) == 0;
  }

  lemma {:induction false} InstructionsConcat(xs: seq<Code>, ys: seq<Code>)
    ensures TotalInstructions(xs + ys) == TotalInstructions(xs) + TotalInstructions(ys)
    decreases |ys|
  {
    if ys == [] {
      assert xs + ys == xs;
    } else {
      var n := |ys| - 1;
      assert (xs + ys)[..|xs + ys| - 1] == xs + ys[..n];
      InstructionsConcat(xs, ys[..n]);
    }
  }

  /** The positions of the clusters of several functions among the first `n`. */
  function SeveralAt(clusters: seq<seq<Code>>, n: nat): seq<int>
    requires n <= |clusters|
  {
    if n == 0 then []
    else if |clusters[n - 1]| >= 2 then SeveralAt(clusters, n - 1) + [n - 1]
    else SeveralAt(clusters, n - 1)
  }

  lemma {:induction false} SeveralAscend(clusters: seq<seq<Code>>, n: nat)
    requires n <= |clusters|
    ensures var at := SeveralAt(clusters, n);
      && StrictlyAscending(at)
      && (forall j :: 0 <= j < |at| ==> 0 <= at[j] < n && |clusters[at[j]]| >= 2)
      && (forall k :: 0 <= k < n && |clusters[k]| >= 2 ==> k in at)
  {
    if n > 0 { SeveralAscend(clusters, n - 1); }
  }

  ghost predicate AreGroupsAt(clusters: seq<seq<Code>>, at: seq<int>, groups: seq<Group>) {
    |groups| == |at| && forall j :: 0 <= j < |at| ==> IsGroupAt(clusters, at[j], groups[j])
  }

  ghost predicate IsGroupAt(clusters: seq<seq<Code>>, k: int, g: Group) {
    0 <= k < |clusters| && clusters[k] != [] && g == GroupOf(clusters[k])
  }

  lemma OneMoreGroup(clusters: seq<seq<Code>>, at: seq<int>, groups: seq<Group>, k: int, g: Group)
    requires AreGroupsAt(clusters, at, groups) && IsGroupAt(clusters, k, g)
    ensures AreGroupsAt(clusters, at + [k], groups + [g])
  {}

  /** One group for each cluster of several functions, in order. */
  lemma {:induction false} GroupsInOrder(clusters: seq<seq<Code>>, n: nat)
    requires n <= |clusters|
    ensures AreGroupsAt(clusters, SeveralAt(clusters, n), GroupsOf(clusters[..n]))
  {
    if n > 0 {
      GroupsInOrder(clusters, n - 1);
      GroupsStep(clusters[..n]);
      assert clusters[..n][..n - 1] == clusters[..n - 1];
      if |clusters[n - 1]| >= 2 {
        OneMoreGroup(clusters, SeveralAt(clusters, n - 1), GroupsOf(clusters[..n - 1]), n - 1,
          GroupOf(clusters[n - 1]));
      }
    }
  }

  function BytesOfGroups(groups: seq<Group>): nat {
    if groups == [] then 0 else BytesOfGroups(groups[..|groups| - 1]) + groups[|groups| - 1].bodySize
  }

  function InstructionsOfGroups(groups: seq<Group>): nat {
    if groups == [] then 0 else InstructionsOfGroups(groups[..|groups| - 1]) + groups[|groups| - 1].instructionCount
  }

  function MembersOfGroups(groups: seq<Group>): nat {
    if groups == [] then 0 else MembersOfGroups(groups[..|groups| - 1]) + |groups[|groups| - 1].functions|
  }

  /** The statistics sum up the groups; the other clusters hold the unique functions. */
  lemma {:induction false} StatsSumGroups(clusters: seq<seq<Code>>)
    ensures var s, groups := StatsOf(clusters), GroupsOf(clusters);
      && s.duplicatedSize == BytesOfGroups(groups)
      && s.duplicatedInstructionCount == InstructionsOfGroups(groups)
      && s.duplicatedFunctions == MembersOfGroups(groups)
      && s.uniqueFunctions == |clusters| - |groups|
  {
    if clusters != [] {
      var n := |clusters| - 1;
      StatsSumGroups(clusters[..n]);
      GroupsStep(clusters);
      if |clusters[n]| > 1 { SumsStep(GroupsOf(clusters[..n]), clusters[n]); }
    }
  }

  lemma GroupsStep(clusters: seq<seq<Code>>)
    requires clusters != []
    ensures var front, c := clusters[..|clusters| - 1], Last(clusters);
      GroupsOf(clusters) == if |c| > 1 then GroupsOf(front) + [GroupOf(c)] else GroupsOf(front)
  {}

  lemma SortedSize(c: seq<Code>)
    ensures |SortIndices(IndexList(c))| == |c|
  {
    assert |multiset(SortIndices(IndexList(c)))| == |multiset(IndexList(c))|;
  }

  lemma SumsStep(groups: seq<Group>, c: seq<Code>)
    requires c != []
    ensures BytesOfGroups(groups + [GroupOf(c)]) == BytesOfGroups(groups) + TotalBytes(c)
    ensures InstructionsOfGroups(groups + [GroupOf(c)]) == InstructionsOfGroups(groups) + TotalInstructions(c)
    ensures MembersOfGroups(groups + [GroupOf(c)]) == MembersOfGroups(groups) + |c|
  {
    assert (groups + [GroupOf(c)])[..|groups|] == groups;
    assert |GroupOf(c).functions| == |c| by { SortedSize(c); }
  }

  /** The loop over the functions: each unseen one starts a cluster. */
  method DetectDuplicates(o: Options, fs: seq<Code>) returns (groups: seq<Group>, stats: Stats)
    requires Distinct(fs)
    ensures groups == GroupsOf(Clusters(o, fs, |fs|)) && stats == StatsOf(Clusters(o, fs, |fs|))
  {
    groups := [];
    stats := Stats(0, 0, 0, 0, 0, 0);
    var seen: set<int> := {};
    for k := 0 to |fs|
      invariant groups == GroupsOf(Clusters(o, fs, k)) && stats == StatsOf(Clusters(o, fs, k))
      invariant seen == IndicesOf(Flatten(Clusters(o, fs, k)))
    {
      if fs[k].index !in seen {
        var duplicates := FindDuplicates(o, fs[k], Unseen(fs, seen));
        AddedCluster(Clusters(o, fs, k), duplicates);
        seen := seen + IndicesOf(duplicates);
        groups, stats := Record(Clusters(o, fs, k), duplicates, groups, stats);
      }
    }
  }

  /** The bookkeeping for one cluster. */
  method Record(ghost before: seq<seq<Code>>, c: seq<Code>, groups: seq<Group>, stats: Stats)
    returns (groups': seq<Group>, stats': Stats)
    requires c != [] && groups == GroupsOf(before) && stats == StatsOf(before)
    ensures groups' == GroupsOf(before + [c]) && stats' == StatsOf(before + [c])
  {
    AddedCluster(before, c);
    if |c| > 1 {
      var group := MakeGroup(c);
      groups' := groups + [group];
      stats' := Stats(stats.uniqueFunctions, stats.duplicateGroups + 1, stats.duplicatedFunctions + |c|,
                      if stats.largestGroupSize < |c| then |c| else stats.largestGroupSize,
                      stats.duplicatedSize + group.bodySize, stats.duplicatedInstructionCount + group.instructionCount);
    } else {
      groups' := groups;
      stats' := stats.(uniqueFunctions := stats.uniqueFunctions + 1);
    }
  }

  lemma AddedCluster(before: seq<seq<Code>>, c: seq<Code>)
    ensures (before + [c])[..|before|] == before
    ensures IndicesOf(Flatten(before + [c])) == IndicesOf(Flatten(before)) + IndicesOf(c)
  {
    assert (before + [c])[..|before|] == before;
    IndicesConcat(Flatten(before), c);
  }

  method MakeGroup(c: seq<Code>) returns (g: Group)
    requires c != []
    ensures g == GroupOf(c)
  {
    var bytes, instructions := 0, 0;
    for k := 0 to |c|
      invariant bytes == TotalBytes(c[..k]) && instructions == TotalInstructions(c[..k])
    {
      assert c[..k + 1][..k] == c[..k];
      var count := CountInstructions(c[k].body);
      bytes := bytes + c[k].size;
      instructions := instructions + count;
    }
    assert c[..|c|] == c;
    var hash, hex := SimpleHash(c[0].body);
    g := Group(SortIndices(IndexList(c)), bytes, FirstSixteen(hex), instructions);
  }

  ghost predicate NoEmptyCluster(clusters: seq<seq<Code>>) { forall k :: 0 <= k < |clusters| ==> clusters[k] != [] }

  lemma {:induction false} ClustersAreNotEmpty(o: Options, fs: seq<Code>, k: nat)
    requires k <= |fs|
    ensures NoEmptyCluster(Clusters(o, fs, k))
  {
    if k > 0 {
      ClustersAreNotEmpty(o, fs, k - 1);
      NextIsNotEmpty(o, fs, k);
    }
  }

  lemma NextIsNotEmpty(o: Options, fs: seq<Code>, k: nat)
    requires 0 < k <= |fs| && NoEmptyCluster(Clusters(o, fs, k - 1))
    ensures NoEmptyCluster(Clusters(o, fs, k))
  {
    var before := Clusters(o, fs, k - 1);
    NoEmptyAlso(before, Cluster(o, fs[k - 1], Unseen(fs, IndicesOf(Flatten(before)))));
  }

  lemma NoEmptyAlso(before: seq<seq<Code>>, c: seq<Code>)
    requires NoEmptyCluster(before) && c != []
    ensures NoEmptyCluster(before + [c])
  {}

  lemma {:induction false} BytesConcat(xs: seq<Code>, ys: seq<Code>)
    ensures TotalBytes(xs + ys) == TotalBytes(xs) + TotalBytes(ys)
    decreases |ys|
  {
    if ys == [] {
      assert xs + ys == xs;
    } else {
      var n := |ys| - 1;
      assert (xs + ys)[..|xs + ys| - 1] == xs + ys[..n];
      BytesConcat(xs, ys[..n]);
    }
  }

  /** The size of the largest cluster of several, or 0 when there is none. */
  ghost predicate IsLargestGroup(clusters: seq<seq<Code>>, size: nat) {
    && (forall c :: c in clusters && |c| > 1 ==> |c| <= size)
    && (if forall c :: c in clusters ==> |c| <= 1 then size == 0
        else size > 1 && exists c :: c in clusters && |c| == size)
  }

  lemma LargestOfMore(clusters: seq<seq<Code>>, size: nat)
    requires clusters != [] && IsLargestGroup(clusters[..|clusters| - 1], size)
    ensures IsLargestGroup(clusters, if |Last(clusters)| > 1 && size < |Last(clusters)| then |Last(clusters)| else size)
  {
    var front, last := clusters[..|clusters| - 1], Last(clusters);
    assert forall c :: c in clusters <==> c in front || c == last;
  }

  lemma {:induction false} StatsCount(clusters: seq<seq<Code>>)
    requires NoEmptyCluster(clusters)
    ensures var s := StatsOf(clusters);
      && s.uniqueFunctions + s.duplicatedFunctions == |Flatten(clusters)|
      && s.duplicateGroups == |GroupsOf(clusters)|
      && s.duplicatedSize <= TotalBytes(Flatten(clusters))
      && IsLargestGroup(clusters, s.largestGroupSize)
  {
    if clusters != [] {
      var n := |clusters| - 1;
      StatsCount(clusters[..n]);
      LargestOfMore(clusters, StatsOf(clusters[..n]).largestGroupSize);
      BytesConcat(Flatten(clusters[..n]), clusters[n]);
      assert forall c :: c in clusters <==> c in clusters[..n] || c == clusters[n];
    }
  }

  lemma {:induction false} BytesOfPart(xs: seq<Code>, ys: seq<Code>)
    requires Distinct(xs) && Distinct(ys) && forall f :: f in xs ==> f in ys
    ensures TotalBytes(xs) <= TotalBytes(ys)
    decreases |xs|
  {
    if xs != [] {
      var n := |xs| - 1;
      assert xs[n] in xs;
      var i :| 0 <= i < |ys| && ys[i] == xs[n];
      var rest := ys[..i] + ys[i + 1..];
      SplitAround(ys, i);
      BytesBetween(ys, ys[..i], ys[i], ys[i + 1..], rest);
      LastTakenOut(xs, ys, i);
      BytesOfPart(xs[..n], rest);
    }
  }

  lemma LastTakenOut(xs: seq<Code>, ys: seq<Code>, i: nat)
    requires Distinct(xs) && Distinct(ys) && forall f :: f in xs ==> f in ys
    requires xs != [] && i < |ys| && ys[i] == xs[|xs| - 1]
    ensures var front, rest := xs[..|xs| - 1], ys[..i] + ys[i + 1..];
      Distinct(front) && Distinct(rest) && forall f :: f in front ==> f in rest
  {
    var n := |xs| - 1;
    OthersDiffer(xs, n);
    DistinctPart(xs, n);
    DistinctRest(ys, i);
    forall g | g in xs[..n] ensures g in ys[..i] + ys[i + 1..] {
      assert g in xs;
      StillThere(ys, i, g);
    }
  }

  lemma DistinctRest(ys: seq<Code>, i: nat)
    requires Distinct(ys) && i < |ys|
    ensures Distinct(ys[..i] + ys[i + 1..])
  {
    DistinctPart(ys, i);
    DistinctPart(ys, i + 1);
    forall f, g | f in ys[..i] && g in ys[i + 1..] ensures f.index != g.index {
      var a :| 0 <= a < i && ys[a] == f;
      var b :| i < b < |ys| && ys[b] == g;
      assert IndexAt(ys, a) != IndexAt(ys, b);
    }
    DistinctJoin(ys[..i], ys[i + 1..]);
  }

  lemma SplitAround(ys: seq<Code>, i: nat)
    requires i < |ys|
    ensures ys == ys[..i] + [ys[i]] + ys[i + 1..]
  {}

  lemma BytesBetween(whole: seq<Code>, front: seq<Code>, f: Code, back: seq<Code>, rest: seq<Code>)
    requires whole == front + [f] + back && rest == front + back
    ensures TotalBytes(whole) == TotalBytes(rest) + f.size
  {
    BytesConcat(front + [f], back);
    BytesConcat(front, back);
    BytesOneMore(front, f);
  }

  lemma BytesOneMore(front: seq<Code>, f: Code)
    ensures TotalBytes(front + [f]) == TotalBytes(front) + f.size
  {
    assert (front + [f])[..|front|] == front;
  }

  lemma StillThere(ys: seq<Code>, i: nat, g: Code)
    requires i < |ys| && g in ys && g.index != ys[i].index
    ensures g in ys[..i] + ys[i + 1..]
  {
    var m :| 0 <= m < |ys| && ys[m] == g;
    assert m < i ==> ys[..i][m] == g;
    assert m > i ==> ys[i + 1..][m - i - 1] == g;
  }

  /** Unique and duplicated functions make up the total, and duplicated bytes never exceed the bytes there are. */
  lemma StatsAddUp(o: Options, fs: seq<Code>)
    requires Distinct(fs)
    ensures var s := StatsOf(Clusters(o, fs, |fs|));
      s.uniqueFunctions + s.duplicatedFunctions == |fs| && s.duplicatedSize <= TotalBytes(fs)
  {
    var clusters := Clusters(o, fs, |fs|);
    ClustersAreNotEmpty(o, fs, |fs|);
    StatsCount(clusters);
    PartitionIsComplete(o, fs);
    BytesOfPart(Flatten(clusters), fs);
  }

  /** For thresholds up to 100, each new cluster is exactly its reference with the unseen functions similar to it. */
  lemma ClusterIsSimilarity(o: Options, fs: seq<Code>, k: nat)
    requires Distinct(fs) && k < |fs| && o.similarityThreshold <= 100.0
    requires fs[k].index !in IndicesOf(Flatten(Clusters(o, fs, k)))
    ensures var before := Clusters(o, fs, k);
      var c := Last(Clusters(o, fs, k + 1));
      && Clusters(o, fs, k + 1) == before + [c]
      && forall f :: f in c <==>
           f in fs && f.index !in IndicesOf(Flatten(before)) && IsSimilar(o, fs[k], f)
  {
    SimilarMembers(o, fs, fs[k], IndicesOf(Flatten(Clusters(o, fs, k))));
  }

  lemma SimilarMembers(o: Options, fs: seq<Code>, r: Code, seen: set<int>)
    requires Distinct(fs) && r in fs && r.index !in seen && o.similarityThreshold <= 100.0
    ensures forall f :: f in Cluster(o, r, Unseen(fs, seen)) <==> f in fs && f.index !in seen && IsSimilar(o, r, f)
  {
    ClusterMembers(o, fs, r, seen);
    SimilarityIsFullIff(Normalized(r.body), Normalized(r.body));
    forall f ensures f in Cluster(o, r, Unseen(fs, seen)) <==> f in fs && f.index !in seen && IsSimilar(o, r, f) {
      DuplicateIsSimilar(o, r, f);
      if f in fs && f.index == r.index { OneWithIndex(fs, f, r); }
    }
  }
}
