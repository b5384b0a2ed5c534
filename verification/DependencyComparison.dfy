/** `compareDependencies`: which direct dependencies two modules do not share, function by function. */
module DependencyComparison {
  import opened Collections
  import opened WasmModules
  import opened FunctionDependencies

  datatype Row = Row(functionIndex: int, functions: seq<int>, imports: seq<int>, globals: seq<int>)

  datatype Comparison = Comparison(added: seq<Row>, removed: seq<Row>, unchangedFunctions: seq<int>)

  /** `xs.filter(x => !ys.includes(x))` */
  function Without(xs: seq<int>, ys: seq<int>): seq<int> {
    if xs == [] then []
    else
      var n := |xs| - 1;
      Without(xs[..n], ys) + if xs[n] in ys then [] else [xs[n]]
  }

  lemma {:induction false} WithoutMembers(xs: seq<int>, ys: seq<int>)
    ensures forall x :: x in Without(xs, ys) <==> x in xs && x !in ys
    ensures NoDuplicates(xs) ==> NoDuplicates(Without(xs, ys))
  {
    if xs != [] { WithoutMembers(xs[..|xs| - 1], ys); }
  }

  function WholeRow(d: Dependencies, i: int): Row {
    Row(i, d.directFunctionCalls, IndexList(d.importedFunctionCalls), d.globalReferences)
  }

  /** What `d` has and `e` lacks. */
  function Excess(d: Dependencies, e: Dependencies, i: int): Row {
    Row(i, Without(d.directFunctionCalls, e.directFunctionCalls),
        Without(IndexList(d.importedFunctionCalls), IndexList(e.importedFunctionCalls)),
        Without(d.globalReferences, e.globalReferences))
  }

  predicate IsBlank(r: Row) { r.functions == [] && r.imports == [] && r.globals == [] }

  /** The row a function contributes to the added list when `current` is compared with `other`. */
  function AddedRow(current: DependencyMap, other: DependencyMap, i: int): Option<Row> {
    if i in current && i in other then
      var row := Excess(current[i], other[i], i);
      if IsBlank(row) then None else Some(row)
    else if i in other then Some(WholeRow(other[i], i))
    else None
  }

  function RemovedRow(current: DependencyMap, other: DependencyMap, i: int): Option<Row> {
    if i in current && i in other then
      var row := Excess(other[i], current[i], i);
      if IsBlank(row) then None else Some(row)
    else if i in current then Some(WholeRow(current[i], i))
    else None
  }

  predicate IsUnchanged(current: DependencyMap, other: DependencyMap, i: int) {
    i in current && i in other && IsBlank(Excess(current[i], other[i], i)) && IsBlank(Excess(other[i], current[i], i))
  }

  predicate RowsAscend(rows: seq<Row>) {
    forall a, b :: 0 <= a < b < |rows| ==> rows[a].functionIndex < rows[b].functionIndex
  }

  /** The report: each list complete, and ascending by function. */
  ghost predicate Compares(current: DependencyMap, other: DependencyMap, c: Comparison) {
    && RowsAscend(c.added) && (forall r :: r in c.added <==> AddedRow(current, other, r.functionIndex) == Some(r))
    && RowsAscend(c.removed) && (forall r :: r in c.removed <==> RemovedRow(current, other, r.functionIndex) == Some(r))
    && StrictlyAscending(c.unchangedFunctions)
    && (forall i :: i in c.unchangedFunctions <==> IsUnchanged(current, other, i))
  }

  /** Keys are taken in ascending order, and the functions only the other module has come last. */
  method CompareDependencies(current: DependencyMap, other: DependencyMap) returns (c: Comparison)
    ensures Compares(current, other, c)
  {
    var mine, theirs := Ascending(current.Keys), Ascending(other.Keys - current.Keys);
    ListedMembers(mine, current.Keys);
    ListedMembers(theirs, other.Keys - current.Keys);
    var added, removed, same := CompareOwn(current, other, mine);
    var addedNew := AddNew(current, other, theirs);
    ComparedLists(current, other, mine, theirs);
    c := SortedReport(added + addedNew, removed, same);
  }

  function SortedReport(added: seq<Row>, removed: seq<Row>, same: seq<int>): Comparison {
    Comparison(Sort(added, ByFunction), Sort(removed, ByFunction), SortIndices(same))
  }

  lemma ListedMembers(xs: seq<int>, s: set<int>)
    requires IsListing(xs, s)
    ensures forall k :: 0 <= k < |xs| ==> xs[k] in s
  {
    forall k | 0 <= k < |xs| ensures xs[k] in s { assert xs[k] in Elements(xs); }
  }

  /** The loop over the functions of the current module. */
  method CompareOwn(current: DependencyMap, other: DependencyMap, mine: seq<int>)
    returns (added: seq<Row>, removed: seq<Row>, same: seq<int>)
    requires forall k :: 0 <= k < |mine| ==> mine[k] in current
    ensures added == RowsOf(AddedBy(current, other), mine)
    ensures removed == RowsOf(RemovedBy(current, other), mine)
    ensures same == KeysWhere(UnchangedBy(current, other), mine)
  {
    added, removed, same := [], [], [];
    for k := 0 to |mine|
      invariant added == RowsOf(AddedBy(current, other), mine[..k])
      invariant removed == RowsOf(RemovedBy(current, other), mine[..k])
      invariant same == KeysWhere(UnchangedBy(current, other), mine[..k])
    {
      assert mine[..k + 1][..k] == mine[..k];
      added, removed, same := CompareFunction(current, other, mine[k], added, removed, same);
    }
    assert mine[..|mine|] == mine;
  }

  /** One function of the current module. */
  method CompareFunction(current: DependencyMap, other: DependencyMap, i: int, added: seq<Row>, removed: seq<Row>,
      same: seq<int>)
    returns (added': seq<Row>, removed': seq<Row>, same': seq<int>)
    requires i in current
    ensures added' == added + match AddedBy(current, other)(i) case Some(r) => [r] case None => []
    ensures removed' == removed + match RemovedBy(current, other)(i) case Some(r) => [r] case None => []
    ensures same' == same + if UnchangedBy(current, other)(i) then [i] else []
  {
    added', removed', same' := added, removed, same;
    if i !in other {
      removed' := removed + [WholeRow(current[i], i)];
    } else {
      var more, less := Excess(current[i], other[i], i), Excess(other[i], current[i], i);
      if |more.functions| > 0 || |more.imports| > 0 || |more.globals| > 0 { added' := added + [more]; }
      if |less.functions| > 0 || |less.imports| > 0 || |less.globals| > 0 { removed' := removed + [less]; }
      if IsBlank(more) && IsBlank(less) { same' := same + [i]; }
    }
  }

  /** The loop over the functions that are new in the other module. */
  method AddNew(current: DependencyMap, other: DependencyMap, theirs: seq<int>) returns (added: seq<Row>)
    requires forall k :: 0 <= k < |theirs| ==> theirs[k] in other && theirs[k] !in current
    ensures added == RowsOf(AddedBy(current, other), theirs)
  {
    added := [];
    for k := 0 to |theirs|
      invariant added == RowsOf(AddedBy(current, other), theirs[..k])
    {
      assert theirs[..k + 1][..k] == theirs[..k];
      added := added + [WholeRow(other[theirs[k]], theirs[k])];
    }
    assert theirs[..|theirs|] == theirs;
  }

  predicate ByFunction(a: Row, b: Row) { a.functionIndex <= b.functionIndex }

  function AddedBy(current: DependencyMap, other: DependencyMap): int -> Option<Row> {
    i => AddedRow(current, other, i)
  }

  function RemovedBy(current: DependencyMap, other: DependencyMap): int -> Option<Row> {
    i => RemovedRow(current, other, i)
  }

  function UnchangedBy(current: DependencyMap, other: DependencyMap): int -> bool {
    i => IsUnchanged(current, other, i)
  }

  /** The rows of the listed functions, in order. */
  function RowsOf(row: int -> Option<Row>, keys: seq<int>): seq<Row> {
    if keys == [] then []
    else
      var n := |keys| - 1;
      RowsOf(row, keys[..n]) + match row(keys[n]) case Some(r) => [r] case None => []
  }

  function KeysWhere(p: int -> bool, keys: seq<int>): seq<int> {
    if keys == [] then []
    else
      var n := |keys| - 1;
      KeysWhere(p, keys[..n]) + if p(keys[n]) then [keys[n]] else []
  }

  ghost predicate RowsAreOwn(row: int -> Option<Row>) { forall i :: row(i).Some? ==> row(i).value.functionIndex == i }

  /** No function has two rows in one list. */
  predicate OneRowEach(rows: seq<Row>) {
    forall a, b :: 0 <= a < b < |rows| ==> rows[a].functionIndex != rows[b].functionIndex
  }

  lemma {:induction false} RowsMembers(row: int -> Option<Row>, keys: seq<int>)
    requires RowsAreOwn(row)
    ensures forall r :: r in RowsOf(row, keys) <==> r.functionIndex in keys && row(r.functionIndex) == Some(r)
    ensures NoDuplicates(keys) ==> OneRowEach(RowsOf(row, keys))
  {
    if keys != [] {
      var n := |keys| - 1;
      RowsMembers(row, keys[..n]);
      assert row(keys[n]).Some? ==> row(keys[n]).value.functionIndex == keys[n];
      forall a | NoDuplicates(keys) && 0 <= a < |RowsOf(row, keys[..n])|
        ensures RowsOf(row, keys[..n])[a].functionIndex != keys[n]
      {
        assert RowsOf(row, keys[..n])[a].functionIndex in keys[..n];
      }
    }
  }

  lemma {:induction false} KeysMembers(p: int -> bool, keys: seq<int>)
    ensures forall i :: i in KeysWhere(p, keys) <==> i in keys && p(i)
    ensures NoDuplicates(keys) ==> NoDuplicates(KeysWhere(p, keys))
  {
    if keys != [] { KeysMembers(p, keys[..|keys| - 1]); }
  }

  lemma SortedRowsAscend(rows: seq<Row>)
    requires OneRowEach(rows)
    ensures RowsAscend(Sort(rows, ByFunction)) && forall r :: r in Sort(rows, ByFunction) <==> r in rows
  {
    var sorted := Sort(rows, ByFunction);
    forall r ensures r in sorted <==> r in rows { assert r in multiset(sorted) <==> r in multiset(rows); }
    RearrangedNoDuplicates(rows, sorted);
    forall a, b | 0 <= a < b < |sorted| ensures sorted[a].functionIndex < sorted[b].functionIndex {
      assert sorted[a] in rows && sorted[b] in rows;
      var i :| 0 <= i < |rows| && rows[i] == sorted[a];
      var j :| 0 <= j < |rows| && rows[j] == sorted[b];
      assert i != j;
    }
  }

  lemma ComparedLists(current: DependencyMap, other: DependencyMap, mine: seq<int>, theirs: seq<int>)
    requires IsListing(mine, current.Keys) && IsListing(theirs, other.Keys - current.Keys)
    ensures Compares(current, other, SortedReport(
      RowsOf(AddedBy(current, other), mine) + RowsOf(AddedBy(current, other), theirs),
      RowsOf(RemovedBy(current, other), mine), KeysWhere(UnchangedBy(current, other), mine)))
  {
    forall i ensures (i in mine <==> i in current) && (i in theirs <==> i in other && i !in current) {
      assert (i in mine <==> i in Elements(mine)) && (i in theirs <==> i in Elements(theirs));
    }
    AddedRowsListed(current, other, mine, theirs);
    RemovedRowsListed(current, other, mine);
    UnchangedListed(current, other, mine);
  }

  lemma AddedRowsListed(current: DependencyMap, other: DependencyMap, mine: seq<int>, theirs: seq<int>)
    requires NoDuplicates(mine) && NoDuplicates(theirs)
    requires forall i :: (i in mine <==> i in current) && (i in theirs <==> i in other && i !in current)
    ensures
      var rows := Sort(RowsOf(AddedBy(current, other), mine) + RowsOf(AddedBy(current, other), theirs), ByFunction);
      RowsAscend(rows) && forall r :: r in rows <==> AddedRow(current, other, r.functionIndex) == Some(r)
  {
    OwnRows(current, other);
    JoinedRows(AddedBy(current, other), mine, theirs);
    assert forall i :: AddedRow(current, other, i) == AddedBy(current, other)(i);
  }

  lemma RemovedRowsListed(current: DependencyMap, other: DependencyMap, mine: seq<int>)
    requires NoDuplicates(mine) && forall i :: i in mine <==> i in current
    ensures var rows := Sort(RowsOf(RemovedBy(current, other), mine), ByFunction);
      RowsAscend(rows) && forall r :: r in rows <==> RemovedRow(current, other, r.functionIndex) == Some(r)
  {
    OwnRows(current, other);
    var none: seq<int> := [];
    JoinedRows(RemovedBy(current, other), mine, none);
    assert RowsOf(RemovedBy(current, other), mine) + RowsOf(RemovedBy(current, other), none) ==
      RowsOf(RemovedBy(current, other), mine);
    assert forall i :: RemovedRow(current, other, i) == RemovedBy(current, other)(i);
  }

  lemma OwnRows(current: DependencyMap, other: DependencyMap)
    ensures RowsAreOwn(AddedBy(current, other)) && RowsAreOwn(RemovedBy(current, other))
  {}

  lemma JoinedRows(row: int -> Option<Row>, mine: seq<int>, theirs: seq<int>)
    requires NoDuplicates(mine) && NoDuplicates(theirs) && RowsAreOwn(row)
    requires forall i :: i in mine ==> i !in theirs
    requires forall i :: row(i).Some? ==> i in mine || i in theirs
    ensures var rows := Sort(RowsOf(row, mine) + RowsOf(row, theirs), ByFunction);
      RowsAscend(rows) && forall r :: r in rows <==> row(r.functionIndex) == Some(r)
  {
    RowsMembers(row, mine);
    RowsMembers(row, theirs);
    var xs, ys := RowsOf(row, mine), RowsOf(row, theirs);
    forall a, b | 0 <= a < |xs| && 0 <= b < |ys| ensures xs[a].functionIndex != ys[b].functionIndex {
      assert xs[a] in xs && ys[b] in ys;
    }
    SortedRowsAscend(xs + ys);
  }

  lemma UnchangedListed(current: DependencyMap, other: DependencyMap, mine: seq<int>)
    requires NoDuplicates(mine) && forall i :: i in mine <==> i in current
    ensures var keys := SortIndices(KeysWhere(UnchangedBy(current, other), mine));
      StrictlyAscending(keys) && forall i :: i in keys <==> IsUnchanged(current, other, i)
  {
    var kept := KeysWhere(UnchangedBy(current, other), mine);
    KeysMembers(UnchangedBy(current, other), mine);
    forall i ensures i in SortIndices(kept) <==> IsUnchanged(current, other, i) {
      assert i in SortIndices(kept) <==> i in Elements(SortIndices(kept));
      assert i in kept <==> i in Elements(kept);
    }
  }

  // ----- What the report means -----

  /** Rows ascending by function are determined by their members. */
  lemma {:induction false} RowsAreUnique(xs: seq<Row>, ys: seq<Row>)
    requires RowsAscend(xs) && RowsAscend(ys) && Elements(xs) == Elements(ys)
    ensures xs == ys
    decreases |xs|
  {
    DistinctSize(xs);
    DistinctSize(ys);
    if xs != [] {
      var n := |xs| - 1;
      SameLastRow(xs, ys);
      WithoutLast(xs);
      WithoutLast(ys);
      RowsAreUnique(xs[..n], ys[..n]);
      assert xs == xs[..n] + [xs[n]] && ys == ys[..n] + [ys[n]];
    }
  }

  lemma SameLastRow(xs: seq<Row>, ys: seq<Row>)
    requires xs != [] && ys != [] && RowsAscend(xs) && RowsAscend(ys) && Elements(xs) == Elements(ys)
    ensures xs[|xs| - 1] == ys[|ys| - 1]
  {
    var r, s := xs[|xs| - 1], ys[|ys| - 1];
    assert r in Elements(xs) && s in Elements(ys);
    var i :| 0 <= i < |ys| && ys[i] == r;
    var j :| 0 <= j < |xs| && xs[j] == s;
  }

  lemma WithoutLast(xs: seq<Row>)
    requires xs != [] && RowsAscend(xs)
    ensures Elements(xs[..|xs| - 1]) == Elements(xs) - {xs[|xs| - 1]}
  {
    var n := |xs| - 1;
    forall r ensures r in xs[..n] <==> r in xs && r != xs[n] {
      if r in xs[..n] {
        var i :| 0 <= i < n && xs[..n][i] == r;
        assert xs[i].functionIndex < xs[n].functionIndex;
      }
    }
  }

  lemma SameRows(a: DependencyMap, b: DependencyMap, xs: seq<Row>, ys: seq<Row>)
    requires RowsAscend(xs) && forall r :: r in xs <==> AddedRow(a, b, r.functionIndex) == Some(r)
    requires RowsAscend(ys) && forall r :: r in ys <==> RemovedRow(b, a, r.functionIndex) == Some(r)
    ensures xs == ys
  {
    forall r ensures r in xs <==> r in ys {}
    assert Elements(xs) == Elements(ys);
    RowsAreUnique(xs, ys);
  }

  /** Comparing the other way round gives the mirror image. */
  lemma ComparisonMirrors(a: DependencyMap, b: DependencyMap, ab: Comparison, ba: Comparison)
    requires Compares(a, b, ab) && Compares(b, a, ba)
    ensures ab.added == ba.removed && ab.removed == ba.added && ab.unchangedFunctions == ba.unchangedFunctions
  {
    SameRows(a, b, ab.added, ba.removed);
    SameRows(b, a, ba.added, ab.removed);
    forall i ensures i in Elements(ba.unchangedFunctions) <==> i in Elements(ab.unchangedFunctions) {
      assert IsUnchanged(a, b, i) <==> IsUnchanged(b, a, i);
    }
    assert Elements(ba.unchangedFunctions) == Elements(ab.unchangedFunctions);
    ListingIsUnique(ab.unchangedFunctions, ba.unchangedFunctions, Elements(ab.unchangedFunctions));
  }

  /** Taking out the added items and putting in the removed ones turns one list into the other. */
  lemma PatchedList(xs: seq<int>, ys: seq<int>)
    requires StrictlyAscending(xs) && StrictlyAscending(ys)
    ensures SortIndices(Without(xs, Without(xs, ys)) + Without(ys, xs)) == ys
  {
    var patched := Without(xs, Without(xs, ys)) + Without(ys, xs);
    WithoutMembers(xs, ys);
    WithoutMembers(xs, Without(xs, ys));
    WithoutMembers(ys, xs);
    var kept, put := Without(xs, Without(xs, ys)), Without(ys, xs);
    forall i, j | 0 <= i < |kept| && 0 <= j < |put| ensures kept[i] != put[j] {
      assert kept[i] in kept && put[j] in put;
    }
    assert NoDuplicates(patched);
    forall x ensures x in Elements(patched) <==> x in Elements(ys) {}
    ListingIsUnique(SortIndices(patched), ys, Elements(ys));
  }

  lemma MapIsOrdered(m: WasmModule, deps: DependencyMap, i: int)
    requires IsDependencyMap(m, deps) && i in deps
    ensures Ordered(deps[i])
  {
    assert DescribedAt(m, deps, i);
  }

  ghost predicate Ordered(d: Dependencies) {
    StrictlyAscending(d.directFunctionCalls) && StrictlyAscending(IndexList(d.importedFunctionCalls))
    && StrictlyAscending(d.globalReferences)
  }

  function RowOr(rows: Option<Row>, i: int): Row {
    match rows case Some(r) => r case None => Row(i, [], [], [])
  }

  function Patch(xs: seq<int>, added: seq<int>, removed: seq<int>): seq<int> {
    SortIndices(Without(xs, added) + removed)
  }

  /** For a function of both modules the report is a patch from one module's lists to the other's. */
  lemma ReportIsPatch(current: WasmModule, other: WasmModule, a: DependencyMap, b: DependencyMap, i: int)
    requires IsDependencyMap(current, a) && IsDependencyMap(other, b) && i in a && i in b
    ensures var more, less := RowOr(AddedRow(a, b, i), i), RowOr(RemovedRow(a, b, i), i);
      && Patch(a[i].directFunctionCalls, more.functions, less.functions) == b[i].directFunctionCalls
      && Patch(IndexList(a[i].importedFunctionCalls), more.imports, less.imports) ==
        IndexList(b[i].importedFunctionCalls)
      && Patch(a[i].globalReferences, more.globals, less.globals) == b[i].globalReferences
  {
    MapIsOrdered(current, a, i);
    MapIsOrdered(other, b, i);
    PatchedList(a[i].directFunctionCalls, b[i].directFunctionCalls);
    PatchedList(IndexList(a[i].importedFunctionCalls), IndexList(b[i].importedFunctionCalls));
    PatchedList(a[i].globalReferences, b[i].globalReferences);
  }

  /** What a module says of a function; nothing when it has no such function. */
  function RowOf(deps: DependencyMap, i: int): Row { if i in deps then WholeRow(deps[i], i) else Row(i, [], [], []) }

  function PatchRow(row: Row, more: Row, less: Row): Row {
    Row(row.functionIndex, Patch(row.functions, more.functions, less.functions),
        Patch(row.imports, more.imports, less.imports), Patch(row.globals, more.globals, less.globals))
  }

  /** The report is a patch for a function exactly when both modules have it, or neither says anything of it. */
  lemma ReportIsPatchIff(current: WasmModule, other: WasmModule, a: DependencyMap, b: DependencyMap, i: int)
    requires IsDependencyMap(current, a) && IsDependencyMap(other, b)
    ensures PatchRow(RowOf(a, i), RowOr(AddedRow(a, b, i), i), RowOr(RemovedRow(a, b, i), i)) == RowOf(b, i) <==>
      (i in a && i in b) || (IsBlank(RowOf(a, i)) && IsBlank(RowOf(b, i)))
  {
    if i in a && i in b {
      ReportIsPatch(current, other, a, b, i);
    } else if i in a {
      MapIsOrdered(current, a, i);
      PutBack(a[i].directFunctionCalls);
      PutBack(IndexList(a[i].importedFunctionCalls));
      PutBack(a[i].globalReferences);
    } else if i in b {
      MapIsOrdered(other, b, i);
      PutBack(b[i].directFunctionCalls);
      PutBack(IndexList(b[i].importedFunctionCalls));
      PutBack(b[i].globalReferences);
    } else {
      PutBack([]);
    }
  }

  /**
   * Patching the wrong way: removing from nothing, or putting in what is there already, misses unless
   * the list is empty.
   */
  lemma PutBack(xs: seq<int>)
    requires StrictlyAscending(xs)
    ensures Patch([], xs, []) == xs <==> xs == []
    ensures Patch(xs, [], xs) == [] <==> xs == []
  {
    assert Without([], xs) + [] == [];
    SizeKept([]);
    SizeKept(Without(xs, []) + xs);
  }

  lemma SizeKept(xs: seq<int>)
    ensures |SortIndices(xs)| == |xs|
  {
    assert |multiset(SortIndices(xs))| == |multiset(xs)|;
  }

  /** A function is unchanged exactly when its three lists are the same in both modules. */
  lemma UnchangedIffEqual(current: WasmModule, other: WasmModule, a: DependencyMap, b: DependencyMap, i: int)
    requires IsDependencyMap(current, a) && IsDependencyMap(other, b) && i in a && i in b
    ensures IsUnchanged(a, b, i) <==> WholeRow(a[i], i) == WholeRow(b[i], i)
  {
    MapIsOrdered(current, a, i);
    MapIsOrdered(other, b, i);
    SameListIff(a[i].directFunctionCalls, b[i].directFunctionCalls);
    SameListIff(IndexList(a[i].importedFunctionCalls), IndexList(b[i].importedFunctionCalls));
    SameListIff(a[i].globalReferences, b[i].globalReferences);
  }

  lemma SameListIff(xs: seq<int>, ys: seq<int>)
    requires StrictlyAscending(xs) && StrictlyAscending(ys)
    ensures Without(xs, ys) == [] && Without(ys, xs) == [] <==> xs == ys
  {
    WithoutMembers(xs, ys);
    WithoutMembers(ys, xs);
    if Without(xs, ys) == [] && Without(ys, xs) == [] {
      forall x ensures x in Elements(xs) <==> x in Elements(ys) {
        assert x !in Without(xs, ys) && x !in Without(ys, xs);
      }
      ListingIsUnique(xs, ys, Elements(xs));
    }
    if xs == ys {
      DistinctSize(Without(xs, xs));
      assert Elements(Without(xs, xs)) == {};
    }
  }

  ghost predicate AllFrom(r: Row, d: Dependencies) {
    && (forall x :: x in r.functions ==> x in d.directFunctionCalls)
    && (forall x :: x in r.imports ==> x in IndexList(d.importedFunctionCalls))
    && (forall x :: x in r.globals ==> x in d.globalReferences)
  }

  ghost predicate NoneFrom(r: Row, d: Dependencies) {
    && (forall x :: x in r.functions ==> x !in d.directFunctionCalls)
    && (forall x :: x in r.imports ==> x !in IndexList(d.importedFunctionCalls))
    && (forall x :: x in r.globals ==> x !in d.globalReferences)
  }

  /**
   * For a function of both modules the added items are the current module's, which the other lacks;
   * a function of one module only is reported the other way round, as added by the other module.
   */
  lemma AddedDirection(a: DependencyMap, b: DependencyMap, i: int, r: Row)
    requires AddedRow(a, b, i) == Some(r)
    ensures i in b
    ensures i in a ==> !IsBlank(r) && AllFrom(r, a[i]) && NoneFrom(r, b[i])
    ensures i !in a ==> AllFrom(r, b[i]) && RemovedRow(a, b, i).None? && RemovedRow(b, a, i) == Some(r)
  {
    if i in a {
      WithoutMembers(a[i].directFunctionCalls, b[i].directFunctionCalls);
      WithoutMembers(IndexList(a[i].importedFunctionCalls), IndexList(b[i].importedFunctionCalls));
      WithoutMembers(a[i].globalReferences, b[i].globalReferences);
    }
  }

  // ----- The items reported -----

  lemma WithoutAscends(xs: seq<int>, ys: seq<int>)
    requires StrictlyAscending(xs)
    ensures IsListing(Without(xs, ys), Elements(xs) - Elements(ys))
  {
    WithoutMembers(xs, ys);
    WithoutInOrder(xs, ys);
    assert Elements(Without(xs, ys)) == Elements(xs) - Elements(ys);
  }

  lemma {:induction false} WithoutInOrder(xs: seq<int>, ys: seq<int>)
    requires StrictlyAscending(xs)
    ensures StrictlyAscending(Without(xs, ys))
  {
    if xs != [] {
      var n := |xs| - 1;
      WithoutInOrder(xs[..n], ys);
      WithoutMembers(xs[..n], ys);
      var rest := Without(xs[..n], ys);
      forall j | 0 <= j < |rest| ensures rest[j] < xs[n] {
        assert rest[j] in rest;
        var k :| 0 <= k < n && xs[..n][k] == rest[j];
        assert xs[k] < xs[n];
      }
    }
  }

  /** All that `d` has and `e` lacks, ascending. */
  ghost predicate ListsExcess(r: Row, d: Dependencies, e: Dependencies) {
    && IsListing(r.functions, Elements(d.directFunctionCalls) - Elements(e.directFunctionCalls))
    && IsListing(r.imports, Elements(IndexList(d.importedFunctionCalls)) - Elements(IndexList(e.importedFunctionCalls)))
    && IsListing(r.globals, Elements(d.globalReferences) - Elements(e.globalReferences))
  }

  ghost predicate HasAll(d: Dependencies, e: Dependencies) {
    && Elements(e.directFunctionCalls) <= Elements(d.directFunctionCalls)
    && Elements(IndexList(e.importedFunctionCalls)) <= Elements(IndexList(d.importedFunctionCalls))
    && Elements(e.globalReferences) <= Elements(d.globalReferences)
  }

  /** All that `d` has, with nothing taken off. */
  ghost predicate ListsAll(r: Row, d: Dependencies) {
    && r.functions == d.directFunctionCalls && r.globals == d.globalReferences
    && |r.imports| == |d.importedFunctionCalls|
    && forall k :: 0 <= k < |r.imports| ==> r.imports[k] == d.importedFunctionCalls[k].index
  }

  lemma BlankIff(xs: seq<int>, members: set<int>)
    requires IsListing(xs, members)
    ensures xs == [] <==> members == {}
  {
    if xs != [] { assert xs[0] in Elements(xs); }
  }

  lemma ExcessLists(d: Dependencies, e: Dependencies, i: int)
    requires Ordered(d)
    ensures ListsExcess(Excess(d, e, i), d, e) && (IsBlank(Excess(d, e, i)) <==> HasAll(e, d))
  {
    var f, g, h := Elements(d.directFunctionCalls), Elements(IndexList(d.importedFunctionCalls)),
      Elements(d.globalReferences);
    WithoutAscends(d.directFunctionCalls, e.directFunctionCalls);
    WithoutAscends(IndexList(d.importedFunctionCalls), IndexList(e.importedFunctionCalls));
    WithoutAscends(d.globalReferences, e.globalReferences);
    BlankIff(Excess(d, e, i).functions, f - Elements(e.directFunctionCalls));
    BlankIff(Excess(d, e, i).imports, g - Elements(IndexList(e.importedFunctionCalls)));
    BlankIff(Excess(d, e, i).globals, h - Elements(e.globalReferences));
    NothingLeft(f, Elements(e.directFunctionCalls));
    NothingLeft(g, Elements(IndexList(e.importedFunctionCalls)));
    NothingLeft(h, Elements(e.globalReferences));
  }

  lemma NothingLeft(s: set<int>, t: set<int>)
    ensures s - t == {} <==> s <= t
  {
    if s - t == {} {
      forall x | x in s ensures x in t { assert x !in s - t; }
    }
  }

  /**
   * The added list has a row for a function exactly when the other module has the function, and the
   * current one does not or depends on something the other lacks; it holds all such items, or for a
   * new function everything.
   */
  lemma AddedItems(current: WasmModule, other: WasmModule, a: DependencyMap, b: DependencyMap, c: Comparison, i: int)
    requires IsDependencyMap(current, a) && IsDependencyMap(other, b) && Compares(a, b, c)
    ensures (exists r :: r in c.added && r.functionIndex == i) <==> i in b && (i !in a || !HasAll(b[i], a[i]))
    ensures forall r :: r in c.added && r.functionIndex == i && i in a ==> i in b && ListsExcess(r, a[i], b[i])
    ensures forall r :: r in c.added && r.functionIndex == i && i !in a ==> i in b && ListsAll(r, b[i])
  {
    if i in a && i in b {
      MapIsOrdered(current, a, i);
      ExcessLists(a[i], b[i], i);
    }
    if AddedRow(a, b, i).Some? { assert AddedRow(a, b, i).value in c.added; }
  }

  /** The removed list, with the modules exchanged. */
  lemma RemovedItems(current: WasmModule, other: WasmModule, a: DependencyMap, b: DependencyMap, c: Comparison, i: int)
    requires IsDependencyMap(current, a) && IsDependencyMap(other, b) && Compares(a, b, c)
    ensures (exists r :: r in c.removed && r.functionIndex == i) <==> i in a && (i !in b || !HasAll(a[i], b[i]))
    ensures forall r :: r in c.removed && r.functionIndex == i && i in b ==> i in a && ListsExcess(r, b[i], a[i])
    ensures forall r :: r in c.removed && r.functionIndex == i && i !in b ==> i in a && ListsAll(r, a[i])
  {
    if i in a && i in b {
      MapIsOrdered(other, b, i);
      ExcessLists(b[i], a[i], i);
    }
    if RemovedRow(a, b, i).Some? { assert RemovedRow(a, b, i).value in c.removed; }
  }
}
