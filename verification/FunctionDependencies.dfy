/** `FunctionDependencyAnalyzer`: per-function dependency lists, their transitive closure and their comparison. */
module FunctionDependencies {
  import opened Collections
  import opened WasmModules
  import opened Digraphs
  import opened FirstChains
  import opened Numerals

  datatype ImportedCall = ImportedCall(index: int, moduleName: string, name: string)

  datatype MemoryOps = MemoryOps(loads: nat, stores: nat, sizes: nat, grows: nat)

  datatype Dependencies = Dependencies(
    functionIndex: int, functionName: string,
    directFunctionCalls: seq<int>, importedFunctionCalls: seq<ImportedCall>, globalReferences: seq<int>,
    memoryOperations: MemoryOps, tableReferences: seq<int>, totalDependencyCount: nat)

  // ----- What one body depends on -----

  /** `getImportDefinition`: the `index`-th import that is a function. */
  function ImportDefinition(imports: seq<Import>, index: int): (r: Option<Import>)
    ensures r.Some? <==> 0 <= index < FunctionImportCount(imports)
  {
    if imports == [] then None
    else
      var n := |imports| - 1;
      if imports[n].kind == FunctionKind && FunctionImportCount(imports[..n]) == index then Some(imports[n])
      else ImportDefinition(imports[..n], index)
  }

  /** The import at position `k` is a function, and `index` functions are imported before it. */
  ghost predicate IsImportAt(imports: seq<Import>, k: int, index: int) {
    && 0 <= k < |imports| && imports[k].kind == FunctionKind
    && |set j | 0 <= j < k && imports[j].kind == FunctionKind| == index
  }

  /** The definition found is the function import with `index` function imports before it, if there is one. */
  lemma {:induction false} ImportDefinitionIff(imports: seq<Import>, index: int, d: Import)
    ensures ImportDefinition(imports, index) == Some(d) <==>
      exists k :: IsImportAt(imports, k, index) && imports[k] == d
  {
    if imports != [] {
      var n := |imports| - 1;
      ImportDefinitionIff(imports[..n], index, d);
      ImportAtSplit(imports, index, d);
      LastImportAt(imports, index);
    }
  }

  /** An import at some position is the last one or one before it. */
  lemma ImportAtSplit(imports: seq<Import>, index: int, d: Import)
    requires imports != []
    ensures var front, last := imports[..|imports| - 1], |imports| - 1;
      (exists k :: IsImportAt(imports, k, index) && imports[k] == d) <==>
        || (exists k :: IsImportAt(front, k, index) && front[k] == d)
        || (IsImportAt(imports, last, index) && imports[last] == d)
  {
    var n := |imports| - 1;
    forall k | 0 <= k < n ensures IsImportAt(imports, k, index) <==> IsImportAt(imports[..n], k, index) {
      ImportsBefore(imports, k, n);
    }
    forall k | IsImportAt(imports[..n], k, index) ensures imports[..n][k] == imports[k] {}
  }

  lemma LastImportAt(imports: seq<Import>, index: int)
    requires imports != []
    ensures var front, last := imports[..|imports| - 1], |imports| - 1;
      && (IsImportAt(imports, last, index) <==>
           imports[last].kind == FunctionKind && FunctionImportCount(front) == index)
      && (IsImportAt(imports, last, index) ==> forall k :: !IsImportAt(front, k, index))
  {
    var n := |imports| - 1;
    ImportsBefore(imports, n, n);
    FunctionImportCountIs(imports[..n]);
    ImportAtIsBelow(imports[..n], index);
  }

  lemma ImportsBefore(imports: seq<Import>, k: nat, n: nat)
    requires k <= n <= |imports|
    ensures (set j | 0 <= j < k && imports[j].kind == FunctionKind) ==
      (set j | 0 <= j < k && imports[..n][j].kind == FunctionKind)
  {}

  /** A function import comes before the number of all function imports. */
  lemma ImportAtIsBelow(imports: seq<Import>, index: int)
    ensures forall k :: IsImportAt(imports, k, index) ==> index < FunctionImportCount(imports)
  {
    forall k | IsImportAt(imports, k, index) ensures index < FunctionImportCount(imports) {
      FunctionImportCountIs(imports);
      var before := set j | 0 <= j < k && imports[j].kind == FunctionKind;
      var all := set j | 0 <= j < |imports| && imports[j].kind == FunctionKind;
      SubsetSize(before + {k}, all);
    }
  }

  function LocalTargets(importCount: int, instrs: seq<Instr>): seq<int> {
    if instrs == [] then []
    else
      var n := |instrs| - 1;
      var rest := LocalTargets(importCount, instrs[..n]);
      if IsDirectCall(instrs[n]) && instrs[n].index.value >= importCount
      then PushNew(rest, instrs[n].index.value) else rest
  }

  function ImportTargets(imports: seq<Import>, instrs: seq<Instr>): seq<ImportedCall> {
    if instrs == [] then []
    else
      var n := |instrs| - 1;
      var rest := ImportTargets(imports, instrs[..n]);
      if IsDirectCall(instrs[n]) && instrs[n].index.value < FunctionImportCount(imports)
      then NoteImport(imports, instrs[n].index.value, rest) else rest
  }

  /** The call of the import with index `i`, listed once; nothing when there is no such import. */
  function NoteImport(imports: seq<Import>, i: int, calls: seq<ImportedCall>): seq<ImportedCall> {
    match ImportDefinition(imports, i)
    case Some(def) => PushNewImport(calls, ImportedCall(i, def.moduleName, def.name))
    case None => calls
  }

  function PushNewImport(xs: seq<ImportedCall>, x: ImportedCall): seq<ImportedCall> {
    if x.index in IndexList(xs) then xs else xs + [x]
  }

  function IndexList(xs: seq<ImportedCall>): seq<int> { seq(|xs|, k requires 0 <= k < |xs| => xs[k].index) }

  predicate IsGlobalAccess(instr: Instr) {
    (instr.name == "global.get" || instr.name == "global.set") && instr.index.Some?
  }

  predicate IsTableAccess(instr: Instr) {
    (instr.name == "table.get" || instr.name == "table.set") && instr.index.Some?
  }

  /** The distinct indices named by the instructions that satisfy `p`, in first-use order. */
  function IndicesNamed(instrs: seq<Instr>, p: Instr -> bool): seq<int> {
    if instrs == [] then []
    else
      var n := |instrs| - 1;
      var rest := IndicesNamed(instrs[..n], p);
      if p(instrs[n]) && instrs[n].index.Some? then PushNew(rest, instrs[n].index.value) else rest
  }

  predicate Contains(s: string, part: string) {
    exists i | 0 <= i <= |s| - |part| :: OccursAt(s, part, i)
  }

  predicate OccursAt(s: string, part: string, i: nat) { i + |part| <= |s| && s[i..i + |part|] == part }

  predicate IsLoad(instr: Instr) { Contains(instr.name, ".load") }

  predicate IsStore(instr: Instr) { !IsLoad(instr) && Contains(instr.name, ".store") }

  predicate IsMemorySize(instr: Instr) { !IsLoad(instr) && !IsStore(instr) && instr.name == "memory.size" }

  predicate IsMemoryGrow(instr: Instr) { !IsLoad(instr) && !IsStore(instr) && instr.name == "memory.grow" }

  predicate ByIndex(a: ImportedCall, b: ImportedCall) { a.index <= b.index }

  // ----- Members of those lists -----

  lemma {:induction false} LocalTargetsMembers(importCount: int, instrs: seq<Instr>)
    ensures NoDuplicates(LocalTargets(importCount, instrs))
    ensures forall t :: t in LocalTargets(importCount, instrs) <==> t >= importCount && t in CallTargets(instrs)
  {
    if instrs != [] { LocalTargetsMembers(importCount, instrs[..|instrs| - 1]); }
  }

  lemma {:induction false} ImportTargetsMembers(imports: seq<Import>, instrs: seq<Instr>)
    ensures var r := ImportTargets(imports, instrs);
      && NoDuplicates(IndexList(r))
      && (forall t :: t in IndexList(r) <==> 0 <= t < FunctionImportCount(imports) && t in CallTargets(instrs))
      && (forall k :: 0 <= k < |r| ==> NamesImport(imports, r[k]))
  {
    if instrs != [] {
      var n := |instrs| - 1;
      ImportTargetsMembers(imports, instrs[..n]);
      var rest, r := ImportTargets(imports, instrs[..n]), ImportTargets(imports, instrs);
      if r != rest {
        var i := instrs[n].index.value;
        ImportDefinitionIff(imports, i, ImportDefinition(imports, i).value);
        assert IndexList(r) == IndexList(rest) + [instrs[n].index.value];
      }
    }
  }

  /** The call carries module and name of the import with its index. */
  ghost predicate NamesImport(imports: seq<Import>, c: ImportedCall) {
    exists k :: IsImportAt(imports, k, c.index) && c.moduleName == imports[k].moduleName && c.name == imports[k].name
  }

  lemma {:induction false} IndicesNamedMembers(instrs: seq<Instr>, p: Instr -> bool)
    ensures NoDuplicates(IndicesNamed(instrs, p))
    ensures forall x :: x in IndicesNamed(instrs, p) <==>
      exists k :: 0 <= k < |instrs| && p(instrs[k]) && instrs[k].index == Some(x)
  {
    if instrs != [] {
      var n := |instrs| - 1;
      IndicesNamedMembers(instrs[..n], p);
      forall x ensures x in IndicesNamed(instrs, p) <==>
        exists k :: 0 <= k < |instrs| && p(instrs[k]) && instrs[k].index == Some(x)
      {
        if x in IndicesNamed(instrs[..n], p) {
          var k :| 0 <= k < n && p(instrs[..n][k]) && instrs[..n][k].index == Some(x);
          assert p(instrs[k]) && instrs[k].index == Some(x);
        }
        if exists k :: 0 <= k < n && p(instrs[k]) && instrs[k].index == Some(x) {
          var k :| 0 <= k < n && p(instrs[k]) && instrs[k].index == Some(x);
          assert p(instrs[..n][k]) && instrs[..n][k].index == Some(x);
        }
      }
    }
  }

  lemma SortedImports(xs: seq<ImportedCall>)
    requires NoDuplicates(IndexList(xs))
    ensures IsListing(IndexList(Sort(xs, ByIndex)), Elements(IndexList(xs)))
    ensures forall c :: c in Sort(xs, ByIndex) <==> c in xs
  {
    var ys := Sort(xs, ByIndex);
    forall c ensures c in ys <==> c in xs { assert c in multiset(ys) <==> c in multiset(xs); }
    SameIndexMembers(xs, ys);
    SortedImportsAscend(xs, ys);
  }

  lemma SameIndexMembers(xs: seq<ImportedCall>, ys: seq<ImportedCall>)
    requires forall c :: c in ys <==> c in xs
    ensures Elements(IndexList(xs)) == Elements(IndexList(ys))
  {
    IndexMembersOf(xs, ys);
    IndexMembersOf(ys, xs);
  }

  lemma IndexMembersOf(xs: seq<ImportedCall>, ys: seq<ImportedCall>)
    requires forall c :: c in xs ==> c in ys
    ensures Elements(IndexList(xs)) <= Elements(IndexList(ys))
  {
    forall t | t in IndexList(xs) ensures t in IndexList(ys) {
      var k :| 0 <= k < |xs| && IndexList(xs)[k] == t;
      assert xs[k] in ys;
      var j :| 0 <= j < |ys| && ys[j] == xs[k];
      assert IndexList(ys)[j] == t;
    }
  }

  lemma SortedImportsAscend(xs: seq<ImportedCall>, ys: seq<ImportedCall>)
    requires NoDuplicates(IndexList(xs)) && multiset(xs) == multiset(ys) && SortedBy(ys, ByIndex)
    ensures StrictlyAscending(IndexList(ys))
  {
    forall i, j | 0 <= i < j < |xs| ensures xs[i] != xs[j] { assert IndexList(xs)[i] != IndexList(xs)[j]; }
    RearrangedNoDuplicates(xs, ys);
    forall i, j | 0 <= i < j < |ys| ensures IndexList(ys)[i] < IndexList(ys)[j] {
      assert ys[i] in multiset(xs) && ys[j] in multiset(xs) by {
        assert ys[i] in multiset(ys) && ys[j] in multiset(ys);
      }
      var a :| 0 <= a < |xs| && xs[a] == ys[i];
      var b :| 0 <= b < |xs| && xs[b] == ys[j];
      assert ys[i] != ys[j] && a != b;
      assert IndexList(xs)[a] != IndexList(xs)[b];
    }
  }

  /** The lists are ascending, duplicate-free and complete; memory is counted once towards the total. */
  ghost predicate Describes(m: WasmModule, f: Func, i: nat, d: Dependencies) {
    var instrs, n := InstructionsOf(f), FunctionImportCount(m.imports);
    && d.functionIndex == i && d.functionName == DisplayName(f, i)
    && IsListing(d.directFunctionCalls, set t | t in CallTargets(instrs) && t >= n)
    && IsListing(IndexList(d.importedFunctionCalls), set t | t in CallTargets(instrs) && 0 <= t < n)
    && (forall c :: c in d.importedFunctionCalls ==> NamesImport(m.imports, c))
    && IsListing(d.globalReferences, Elements(IndicesNamed(instrs, IsGlobalAccess)))
    && IsListing(d.tableReferences, Elements(IndicesNamed(instrs, IsTableAccess)))
    && d.memoryOperations == MemoryOps(CountOf(instrs, IsLoad), CountOf(instrs, IsStore),
                                       CountOf(instrs, IsMemorySize), CountOf(instrs, IsMemoryGrow))
    && d.totalDependencyCount == |d.directFunctionCalls| + |d.importedFunctionCalls| + |d.globalReferences| +
         (if d.memoryOperations == MemoryOps(0, 0, 0, 0) then 0 else 1) + |d.tableReferences|
  }

  method GetImportDefinition(imports: seq<Import>, index: int) returns (r: Option<Import>)
    ensures r == ImportDefinition(imports, index)
    ensures forall d :: r == Some(d) <==> exists k :: IsImportAt(imports, k, index) && imports[k] == d
  {
    forall d
      ensures ImportDefinition(imports, index) == Some(d) <==>
        exists k :: IsImportAt(imports, k, index) && imports[k] == d
    {
      ImportDefinitionIff(imports, index, d);
    }
    var funcImportIndex := 0;
    for k := 0 to |imports|
      invariant funcImportIndex == FunctionImportCount(imports[..k])
      invariant ImportDefinition(imports[..k], index).None?
    {
      assert imports[..k + 1][..k] == imports[..k];
      if imports[k].kind == FunctionKind {
        if funcImportIndex == index {
          ImportDefinitionOfPrefix(imports, k + 1, index);
          return Some(imports[k]);
        }
        funcImportIndex := funcImportIndex + 1;
      }
    }
    assert imports[..|imports|] == imports;
    return None;
  }

  lemma {:induction false} ImportDefinitionOfPrefix(imports: seq<Import>, k: nat, index: int)
    requires k <= |imports| && ImportDefinition(imports[..k], index).Some?
    ensures ImportDefinition(imports, index) == ImportDefinition(imports[..k], index)
    decreases |imports| - k
  {
    if k < |imports| {
      assert imports[..k + 1][..k] == imports[..k];
      ImportDefinitionOfPrefix(imports, k + 1, index);
    } else {
      assert imports[..k] == imports;
    }
  }

  method ExtractDependencies(m: WasmModule, f: Func, i: nat) returns (d: Dependencies)
    ensures Describes(m, f, i, d)
  {
    var instrs := InstructionsOf(f);
    var direct, imported, globals, tables, ops := ScanInstructions(m, instrs);
    RawListsDescribe(m, instrs);
    direct, imported, globals, tables :=
      SortIndices(direct), Sort(imported, ByIndex), SortIndices(globals), SortIndices(tables);
    var total := |direct| + |imported| + |globals| +
      (if ops.loads + ops.stores + ops.sizes + ops.grows > 0 then 1 else 0) + |tables|;
    d := Dependencies(i, DisplayName(f, i), direct, imported, globals, ops, tables, total);
  }

  method ScanInstructions(m: WasmModule, instrs: seq<Instr>)
    returns (direct: seq<int>, imported: seq<ImportedCall>, globals: seq<int>, tables: seq<int>, ops: MemoryOps)
    ensures direct == LocalTargets(FunctionImportCount(m.imports), instrs)
    ensures imported == ImportTargets(m.imports, instrs)
    ensures globals == IndicesNamed(instrs, IsGlobalAccess) && tables == IndicesNamed(instrs, IsTableAccess)
    ensures ops == MemoryOps(CountOf(instrs, IsLoad), CountOf(instrs, IsStore),
                             CountOf(instrs, IsMemorySize), CountOf(instrs, IsMemoryGrow))
  {
    var importCount := FunctionImportCount(m.imports);
    direct, imported, globals, tables, ops := [], [], [], [], MemoryOps(0, 0, 0, 0);
    for k := 0 to |instrs|
      invariant direct == LocalTargets(importCount, instrs[..k])
      invariant imported == ImportTargets(m.imports, instrs[..k])
      invariant globals == IndicesNamed(instrs[..k], IsGlobalAccess)
      invariant tables == IndicesNamed(instrs[..k], IsTableAccess)
      invariant ops == MemoryOps(CountOf(instrs[..k], IsLoad), CountOf(instrs[..k], IsStore),
                                 CountOf(instrs[..k], IsMemorySize), CountOf(instrs[..k], IsMemoryGrow))
    {
      var instr := instrs[k];
      ScanStep(m.imports, instrs, k);
      if instr.name == "call" && instr.index.Some? {
        direct, imported := NoteCall(m.imports, importCount, instr.index.value, direct, imported);
      }
      if IsGlobalAccess(instr) { globals := PushNew(globals, instr.index.value); }
      ops := CountMemoryOp(ops, instr);
      if IsTableAccess(instr) { tables := PushNew(tables, instr.index.value); }
    }
    assert instrs[..|instrs|] == instrs;
  }

  /** What one more instruction adds to the lists. */
  lemma ScanStep(imports: seq<Import>, instrs: seq<Instr>, k: nat)
    requires k < |instrs|
    ensures var n, instr := FunctionImportCount(imports), instrs[k];
      && LocalTargets(n, instrs[..k + 1]) ==
        (if IsDirectCall(instr) && instr.index.value >= n
         then PushNew(LocalTargets(n, instrs[..k]), instr.index.value) else LocalTargets(n, instrs[..k]))
      && ImportTargets(imports, instrs[..k + 1]) ==
        (if IsDirectCall(instr) && instr.index.value < n
         then NoteImport(imports, instr.index.value, ImportTargets(imports, instrs[..k]))
         else ImportTargets(imports, instrs[..k]))
    ensures instrs[..k + 1][..k] == instrs[..k]
  {
    assert instrs[..k + 1][..k] == instrs[..k];
  }

  /** One call: a function import, or a local function. */
  method NoteCall(imports: seq<Import>, importCount: nat, target: int, direct: seq<int>, imported: seq<ImportedCall>)
    returns (direct': seq<int>, imported': seq<ImportedCall>)
    ensures direct' == if target >= importCount then PushNew(direct, target) else direct
    ensures imported' == if target < importCount then NoteImport(imports, target, imported) else imported
  {
    direct', imported' := direct, imported;
    if target < importCount {
      var def := GetImportDefinition(imports, target);
      if def.Some? {
        imported' := PushNewImport(imported, ImportedCall(target, def.value.moduleName, def.value.name));
      }
    } else {
      direct' := PushNew(direct, target);
    }
  }

  lemma RawListsDescribe(m: WasmModule, instrs: seq<Instr>)
    ensures var n := FunctionImportCount(m.imports);
      && IsListing(SortIndices(LocalTargets(n, instrs)), set t | t in CallTargets(instrs) && t >= n)
      && IsListing(IndexList(Sort(ImportTargets(m.imports, instrs), ByIndex)),
                   set t | t in CallTargets(instrs) && 0 <= t < n)
      && (forall c :: c in Sort(ImportTargets(m.imports, instrs), ByIndex) ==> NamesImport(m.imports, c))
      && NoDuplicates(IndicesNamed(instrs, IsGlobalAccess)) && NoDuplicates(IndicesNamed(instrs, IsTableAccess))
  {
    var n := FunctionImportCount(m.imports);
    LocalTargetsMembers(n, instrs);
    assert Elements(LocalTargets(n, instrs)) == set t | t in CallTargets(instrs) && t >= n;
    ImportTargetsMembers(m.imports, instrs);
    var imported := ImportTargets(m.imports, instrs);
    SortedImports(imported);
    assert Elements(IndexList(imported)) == set t | t in CallTargets(instrs) && 0 <= t < n;
    IndicesNamedMembers(instrs, IsGlobalAccess);
    IndicesNamedMembers(instrs, IsTableAccess);
  }

  function CountMemoryOp(ops: MemoryOps, instr: Instr): MemoryOps {
    if Contains(instr.name, ".load") then ops.(loads := ops.loads + 1)
    else if Contains(instr.name, ".store") then ops.(stores := ops.stores + 1)
    else if instr.name == "memory.size" then ops.(sizes := ops.sizes + 1)
    else if instr.name == "memory.grow" then ops.(grows := ops.grows + 1)
    else ops
  }

  // ----- The lists, by instruction name -----

  lemma ContainsIff(s: string, part: string)
    ensures Contains(s, part) <==> exists a: string, b: string :: s == a + part + b
  {
    if Contains(s, part) {
      var i :| 0 <= i <= |s| - |part| && OccursAt(s, part, i);
      assert s == s[..i] + part + s[i + |part|..];
    }
    forall a: string, b: string | s == a + part + b ensures Contains(s, part) { assert OccursAt(s, part, |a|); }
  }

  /** The third character of the part differs from what follows the one dot. */
  lemma NotWithin(s: string, part: string)
    requires |s| == 11 && |part| > 2 && part[0] == '.' && s[8] != part[2]
    requires forall j :: 0 <= j < |s| && s[j] == '.' ==> j == 6
    ensures !Contains(s, part)
  {
    forall i | 0 <= i <= |s| - |part| ensures !OccursAt(s, part, i) {
      if OccursAt(s, part, i) { OccursHas(s, part, i); }
    }
  }

  lemma OccursHas(s: string, part: string, i: nat)
    requires OccursAt(s, part, i)
    ensures forall j :: 0 <= j < |part| ==> s[i + j] == part[j]
    ensures |part| > 2 ==> s[i] == part[0] && s[i + 2] == part[2]
  {
    forall j | 0 <= j < |part| ensures s[i + j] == part[j] { assert s[i + j] == s[i..i + |part|][j]; }
    assert |part| > 2 ==> s[i + 0] == part[0] && s[i + 2] == part[2];
  }

  lemma MemoryNamesContain()
    ensures !Contains("memory.size", ".load") && !Contains("memory.size", ".store")
    ensures !Contains("memory.grow", ".load") && !Contains("memory.grow", ".store")
  {
    NotWithin("memory.size", ".load");
    NotWithin("memory.size", ".store");
    NotWithin("memory.grow", ".load");
    NotWithin("memory.grow", ".store");
  }

  /** Functions and imports called are those some `call` names, split at the number of function imports. */
  lemma DescribedCalls(m: WasmModule, f: Func, i: nat, d: Dependencies)
    requires Describes(m, f, i, d)
    ensures var instrs, n := InstructionsOf(f), FunctionImportCount(m.imports);
      && (forall t :: t in d.directFunctionCalls <==> t >= n && Instr("call", Some(t)) in instrs)
      && (forall t, moduleName, name :: ImportedCall(t, moduleName, name) in d.importedFunctionCalls <==>
           && Instr("call", Some(t)) in instrs
           && exists k :: 0 <= k < |m.imports| && m.imports[k] == Import(FunctionKind, moduleName, name)
                && FunctionImportCount(m.imports[..k]) == t)
  {
    var instrs, n := InstructionsOf(f), FunctionImportCount(m.imports);
    forall t ensures t in CallTargets(instrs) <==> Instr("call", Some(t)) in instrs { NamesACall(instrs, t); }
    ListingMembers(d.directFunctionCalls, set t | t in CallTargets(instrs) && t >= n);
    forall t, moduleName, name
      ensures ImportedCall(t, moduleName, name) in d.importedFunctionCalls <==>
        && Instr("call", Some(t)) in instrs
        && exists k :: 0 <= k < |m.imports| && m.imports[k] == Import(FunctionKind, moduleName, name)
             && FunctionImportCount(m.imports[..k]) == t
    {
      NamesImportIff(m.imports, ImportedCall(t, moduleName, name));
      DescribedImport(m, instrs, d.importedFunctionCalls, ImportedCall(t, moduleName, name));
    }
  }

  lemma ListingMembers(xs: seq<int>, members: set<int>)
    requires IsListing(xs, members)
    ensures forall x :: x in xs <==> x in members
  {
    forall x ensures x in xs <==> x in members { assert x in xs <==> x in Elements(xs); }
  }

  lemma NamesACall(instrs: seq<Instr>, t: int)
    ensures t in CallTargets(instrs) <==> Instr("call", Some(t)) in instrs
  {
    CallTargetsWitness(instrs, t);
    if Instr("call", Some(t)) in instrs {
      var k :| 0 <= k < |instrs| && instrs[k] == Instr("call", Some(t));
      assert CallAt(instrs, k, t);
    }
  }

  lemma NamesImportIff(imports: seq<Import>, c: ImportedCall)
    ensures NamesImport(imports, c) <==>
      exists k :: 0 <= k < |imports| && imports[k] == Import(FunctionKind, c.moduleName, c.name)
        && FunctionImportCount(imports[..k]) == c.index
    ensures NamesImport(imports, c) <==>
      ImportDefinition(imports, c.index) == Some(Import(FunctionKind, c.moduleName, c.name))
  {
    forall k | 0 <= k < |imports|
      ensures IsImportAt(imports, k, c.index) <==>
        imports[k].kind == FunctionKind && FunctionImportCount(imports[..k]) == c.index
    {
      FunctionImportCountIs(imports[..k]);
      ImportsBefore(imports, k, k);
    }
    ImportDefinitionIff(imports, c.index, Import(FunctionKind, c.moduleName, c.name));
  }

  lemma DescribedImport(m: WasmModule, instrs: seq<Instr>, calls: seq<ImportedCall>, c: ImportedCall)
    requires IsListing(IndexList(calls), set t | t in CallTargets(instrs) && 0 <= t < FunctionImportCount(m.imports))
    requires forall c :: c in calls ==> NamesImport(m.imports, c)
    ensures c in calls <==> c.index in CallTargets(instrs) && NamesImport(m.imports, c)
  {
    NamesImportIff(m.imports, c);
    ListingMembers(IndexList(calls), set t | t in CallTargets(instrs) && 0 <= t < FunctionImportCount(m.imports));
    if c in calls {
      var k :| 0 <= k < |calls| && calls[k] == c;
      assert IndexList(calls)[k] == c.index;
      assert c.index in IndexList(calls);
    }
    if c.index in CallTargets(instrs) && NamesImport(m.imports, c) {
      assert c.index in IndexList(calls);
      var k :| 0 <= k < |calls| && IndexList(calls)[k] == c.index;
      NamesImportIff(m.imports, calls[k]);
      assert calls[k] in calls && calls[k] == c;
    }
  }

  /** Globals and tables used: those that some access instruction names. */
  lemma DescribedAccesses(m: WasmModule, f: Func, i: nat, d: Dependencies)
    requires Describes(m, f, i, d)
    ensures var instrs := InstructionsOf(f);
      && (forall x :: x in d.globalReferences <==>
           Instr("global.get", Some(x)) in instrs || Instr("global.set", Some(x)) in instrs)
      && (forall x :: x in d.tableReferences <==>
           Instr("table.get", Some(x)) in instrs || Instr("table.set", Some(x)) in instrs)
  {
    NamedIndices(InstructionsOf(f), "global.get", "global.set", IsGlobalAccess);
    NamedIndices(InstructionsOf(f), "table.get", "table.set", IsTableAccess);
  }

  lemma NamedIndices(instrs: seq<Instr>, get: string, put: string, p: Instr -> bool)
    requires forall instr: Instr :: p(instr) <==> (instr.name == get || instr.name == put) && instr.index.Some?
    ensures forall x :: x in Elements(IndicesNamed(instrs, p)) <==>
      Instr(get, Some(x)) in instrs || Instr(put, Some(x)) in instrs
  {
    IndicesNamedMembers(instrs, p);
    forall x
      ensures x in Elements(IndicesNamed(instrs, p)) <==> Instr(get, Some(x)) in instrs || Instr(put, Some(x)) in instrs
    {
      if x in IndicesNamed(instrs, p) {
        var k :| 0 <= k < |instrs| && p(instrs[k]) && instrs[k].index == Some(x);
        assert instrs[k] == Instr(get, Some(x)) || instrs[k] == Instr(put, Some(x));
      }
    }
  }

  /**
   * Memory instructions by name: the numbers of positions whose name contains `.load`, contains
   * `.store` but not `.load`, is `memory.size`, is `memory.grow`.
   */
  lemma DescribedMemory(m: WasmModule, f: Func, i: nat, d: Dependencies)
    requires Describes(m, f, i, d)
    ensures var instrs, ops := InstructionsOf(f), d.memoryOperations;
      && ops.loads == |set k | 0 <= k < |instrs| && Contains(instrs[k].name, ".load")|
      && ops.stores == |set k | 0 <= k < |instrs| && Contains(instrs[k].name, ".store")
                                && !Contains(instrs[k].name, ".load")|
      && ops.sizes == |set k | 0 <= k < |instrs| && instrs[k].name == "memory.size"|
      && ops.grows == |set k | 0 <= k < |instrs| && instrs[k].name == "memory.grow"|
  {
    var instrs := InstructionsOf(f);
    LoadsCount(instrs);
    StoresCount(instrs);
    SizesCount(instrs);
    GrowsCount(instrs);
  }

  lemma LoadsCount(instrs: seq<Instr>)
    ensures CountOf(instrs, IsLoad) == |set k | 0 <= k < |instrs| && Contains(instrs[k].name, ".load")|
  {
    CountOfAt(instrs, IsLoad, set k | 0 <= k < |instrs| && Contains(instrs[k].name, ".load"));
  }

  lemma StoresCount(instrs: seq<Instr>)
    ensures CountOf(instrs, IsStore) ==
      |set k | 0 <= k < |instrs| && Contains(instrs[k].name, ".store") && !Contains(instrs[k].name, ".load")|
  {
    CountOfAt(instrs, IsStore,
      set k | 0 <= k < |instrs| && Contains(instrs[k].name, ".store") && !Contains(instrs[k].name, ".load"));
  }

  lemma SizesCount(instrs: seq<Instr>)
    ensures CountOf(instrs, IsMemorySize) == |set k | 0 <= k < |instrs| && instrs[k].name == "memory.size"|
  {
    MemoryNamesContain();
    CountOfAt(instrs, IsMemorySize, set k | 0 <= k < |instrs| && instrs[k].name == "memory.size");
  }

  lemma GrowsCount(instrs: seq<Instr>)
    ensures CountOf(instrs, IsMemoryGrow) == |set k | 0 <= k < |instrs| && instrs[k].name == "memory.grow"|
  {
    MemoryNamesContain();
    CountOfAt(instrs, IsMemoryGrow, set k | 0 <= k < |instrs| && instrs[k].name == "memory.grow");
  }

  /** Each list is ascending without repetition; memory use as a whole counts for one dependency. */
  lemma DescribedTotal(m: WasmModule, f: Func, i: nat, d: Dependencies)
    requires Describes(m, f, i, d)
    ensures d.functionIndex == i && (f.name != "" ==> d.functionName == f.name)
    ensures f.name == "" ==>
      |d.functionName| > 5 && d.functionName[..5] == "func_" && Value(d.functionName[5..], 10) == i
    ensures forall a, b :: 0 <= a < b < |d.directFunctionCalls| ==> d.directFunctionCalls[a] < d.directFunctionCalls[b]
    ensures forall a, b :: 0 <= a < b < |d.importedFunctionCalls| ==>
      d.importedFunctionCalls[a].index < d.importedFunctionCalls[b].index
    ensures forall a, b :: 0 <= a < b < |d.globalReferences| ==> d.globalReferences[a] < d.globalReferences[b]
    ensures forall a, b :: 0 <= a < b < |d.tableReferences| ==> d.tableReferences[a] < d.tableReferences[b]
    ensures var ops := d.memoryOperations;
      d.totalDependencyCount == |d.directFunctionCalls| + |d.importedFunctionCalls| + |d.globalReferences|
        + |d.tableReferences| + if ops.loads + ops.stores + ops.sizes + ops.grows > 0 then 1 else 0
  {
    DisplayNameIs(f, i);
    forall a, b | 0 <= a < b < |d.importedFunctionCalls|
      ensures d.importedFunctionCalls[a].index < d.importedFunctionCalls[b].index
    {
      assert IndexList(d.importedFunctionCalls)[a] < IndexList(d.importedFunctionCalls)[b];
    }
  }

  // ----- The analyzer and its transitive search -----

  type DependencyMap = map<int, Dependencies>

  function DirectCalls(deps: DependencyMap): Graph { map i | i in deps :: deps[i].directFunctionCalls }

  /** The constructor's result: one entry per local function. */
  ghost predicate IsDependencyMap(m: WasmModule, deps: DependencyMap) {
    && (forall i :: i in deps <==> IsLocal(m, i))
    && (forall i {:trigger DescribedAt(m, deps, i)} :: i in deps ==> DescribedAt(m, deps, i))
  }

  ghost predicate DescribedAt(m: WasmModule, deps: DependencyMap, i: int) {
    IsLocal(m, i) && i in deps && Describes(m, m.functions[i - FunctionImportCount(m.imports)], i, deps[i])
  }

  /** What the functions listed in `fs` import, and the globals they touch. */
  function ImportsOf(deps: DependencyMap, fs: seq<int>): set<int> {
    if fs == [] then {}
    else
      var n := |fs| - 1;
      ImportsOf(deps, fs[..n]) + if fs[n] in deps then Elements(IndexList(deps[fs[n]].importedFunctionCalls)) else {}
  }

  function GlobalsOf(deps: DependencyMap, fs: seq<int>): set<int> {
    if fs == [] then {}
    else
      var n := |fs| - 1;
      GlobalsOf(deps, fs[..n]) + if fs[n] in deps then Elements(deps[fs[n]].globalReferences) else {}
  }

  lemma {:induction false} UnionMembers(deps: DependencyMap, fs: seq<int>, x: int)
    ensures x in ImportsOf(deps, fs) <==>
      exists f :: f in fs && f in deps && x in IndexList(deps[f].importedFunctionCalls)
    ensures x in GlobalsOf(deps, fs) <==> exists f :: f in fs && f in deps && x in deps[f].globalReferences
  {
    if fs != [] {
      var n := |fs| - 1;
      UnionMembers(deps, fs[..n], x);
      assert forall f :: f in fs <==> f in fs[..n] || f == fs[n];
    }
  }

  /** The variables captured by the `traverse` closure. */
  datatype Found = Found(visited: set<int>, functions: seq<int>, imports: seq<int>, globals: set<int>)

  ghost predicate Consistent(deps: DependencyMap, s: Found) {
    && NoDuplicates(s.functions) && Elements(s.functions) == s.visited * deps.Keys
    && NoDuplicates(s.imports) && Elements(s.imports) == ImportsOf(deps, s.functions)
    && s.globals == GlobalsOf(deps, s.functions)
  }

  /** A call walk from `f` to `v` no longer than the depth budget `d`. */
  ghost predicate WithinDepth(g: Graph, f: int, v: int, d: int) {
    exists p :: Joins(g, p, f, v) && |p| - 1 <= d
  }

  ghost predicate CalleesIn(deps: DependencyMap, u: int, visited: set<int>) {
    u in deps ==> forall t :: t in deps[u].directFunctionCalls ==> t in visited
  }

  /**
   * What one search adds: everything new is reached within the reported depth, the callees of
   * every new local function have been visited, and the depth is paid for by new local functions.
   */
  ghost predicate Searched(deps: DependencyMap, f: int, before: Found, after: Found, depth: int) {
    && before.visited <= after.visited
    && f in after.visited
    && (forall u {:trigger CalleesIn(deps, u, after.visited)} :: u in after.visited && u !in before.visited
          ==> CalleesIn(deps, u, after.visited))
    && (forall v {:trigger WithinDepth(DirectCalls(deps), f, v, depth)} ::
          v in after.visited && v !in before.visited ==> WithinDepth(DirectCalls(deps), f, v, depth))
    && 0 <= depth <= |after.visited * deps.Keys| - |before.visited * deps.Keys|
  }

  ghost predicate SearchedTo(
      deps: DependencyMap, f: int, before: Found, after: Found, level: int, deepest: int) {
    Searched(deps, f, before, after, deepest - level)
  }

  /**
   * `u` calls a function of its own module, at level `n`: the number of functions on the first chain
   * from `root` to `u`.
   */
  ghost predicate CallsAtLevel(deps: DependencyMap, root: int, u: int, n: int) {
    && u in deps && deps[u].directFunctionCalls != []
    && exists c :: IsFirstChain(DirectCalls(deps), root, u, c) && |c| == n
  }

  /** `deepest` is the greatest level at which the functions newly visited call others, and `level` at the least. */
  ghost predicate IsDeepest(
      deps: DependencyMap, root: int, before: set<int>, after: set<int>, level: int, deepest: int) {
    && deepest >= level
    && (forall u, n {:trigger CallsAtLevel(deps, root, u, n)} ::
          u in after && u !in before && CallsAtLevel(deps, root, u, n) ==> n <= deepest)
    && (deepest > level ==> exists u :: u in after && u !in before && CallsAtLevel(deps, root, u, deepest))
  }

  method AddImports(calls: seq<ImportedCall>, imports: seq<int>) returns (r: seq<int>)
    requires NoDuplicates(imports)
    ensures NoDuplicates(r) && Elements(r) == Elements(imports) + Elements(IndexList(calls))
  {
    r := imports;
    for k := 0 to |calls|
      invariant NoDuplicates(r) && Elements(r) == Elements(imports) + Elements(IndexList(calls[..k]))
    {
      assert IndexList(calls[..k + 1]) == IndexList(calls[..k]) + [calls[k].index];
      assert Elements(PushNew(r, calls[k].index)) == Elements(r) + {calls[k].index};
      assert Elements(IndexList(calls[..k + 1])) == Elements(IndexList(calls[..k])) + {calls[k].index};
      r := PushNew(r, calls[k].index);
    }
    assert calls[..|calls|] == calls;
  }

  /** Returns the deepest level met, a function already visited counting at the level it is met again. */
  method Traverse(deps: DependencyMap, f: int, depth: int, s: Found, ghost root: int, ghost path: seq<int>)
    returns (after: Found, maxDepth: int)
    requires Consistent(deps, s) && depth == |path| && FinishedOff(DirectCalls(deps), path, s.visited)
    requires f !in s.visited ==> IsFront(DirectCalls(deps), root, path + [f], s.visited + {f})
    ensures Consistent(deps, after) && SearchedTo(deps, f, s, after, depth, maxDepth)
    ensures FinishedOff(DirectCalls(deps), path, after.visited)
    ensures IsDeepest(deps, root, s.visited, after.visited, depth, maxDepth)
    decreases deps.Keys - s.visited, 1
  {
    if f !in s.visited && f in deps {
      after, maxDepth := TraverseFunction(deps, f, depth, s, root, path);
    } else {
      after, maxDepth := s.(visited := s.visited + {f}), depth;
      NothingSearched(deps, f, depth, s, root, path);
    }
  }

  /** A function visited before, or of no interest, adds nothing. */
  lemma NothingSearched(deps: DependencyMap, f: int, depth: int, s: Found, root: int, path: seq<int>)
    requires Consistent(deps, s) && FinishedOff(DirectCalls(deps), path, s.visited)
    requires f in s.visited || f !in deps
    ensures var after := s.(visited := s.visited + {f});
      && Consistent(deps, after) && SearchedTo(deps, f, s, after, depth, depth)
      && FinishedOff(DirectCalls(deps), path, after.visited)
      && IsDeepest(deps, root, s.visited, after.visited, depth, depth)
  {
    if f in s.visited {
      assert s.visited + {f} == s.visited;
      AlreadySearched(deps, s, f);
      NoneDeeper(deps, root, s.visited, {}, depth);
    } else {
      MissingFunction(deps, s, f);
      MissingIsFinished(deps, path, s.visited, f);
      NoneDeeper(deps, root, s.visited, {f}, depth);
    }
  }

  /** Visiting functions of other modules only, the search gets no deeper. */
  lemma NoneDeeper(deps: DependencyMap, root: int, visited: set<int>, more: set<int>, depth: int)
    requires more !! deps.Keys
    ensures IsDeepest(deps, root, visited, visited + more, depth, depth)
    ensures more == {} ==> visited + more == visited
  {
    forall u | u in visited + more && u !in visited ensures u !in deps { assert u in more; }
  }

  lemma MissingIsFinished(deps: DependencyMap, path: seq<int>, visited: set<int>, f: int)
    requires f !in deps && FinishedOff(DirectCalls(deps), path, visited)
    ensures FinishedOff(DirectCalls(deps), path, visited + {f})
  {}

  /** The rest of the search of a local function met for the first time. */
  method TraverseFunction(deps: DependencyMap, f: int, depth: int, s: Found, ghost root: int, ghost path: seq<int>)
    returns (after: Found, maxDepth: int)
    requires Consistent(deps, s) && f in deps && f !in s.visited && depth == |path|
    requires IsFront(DirectCalls(deps), root, path + [f], s.visited + {f})
    ensures Consistent(deps, after) && SearchedTo(deps, f, s, after, depth, maxDepth)
    ensures FinishedOff(DirectCalls(deps), path, after.visited)
    ensures IsDeepest(deps, root, s.visited, after.visited, depth, maxDepth)
    decreases deps.Keys - s.visited, 0
  {
    var entered := Enter(deps, f, s);
    FewerLeft(deps.Keys, s.visited, entered.visited, f);
    after, maxDepth := TraverseCallees(deps, f, depth, s, entered, root, path + [f]);
    FrontEnds(DirectCalls(deps), root, path + [f], s.visited + {f});
    FunctionIsFinished(deps, path, f, after.visited);
    FunctionIsDeepest(deps, root, path, f, s.visited, after.visited, maxDepth);
  }

  /** The loop over the calls of `f` gives the depth for `f` itself, whose calls are one level below it. */
  lemma FunctionIsDeepest(
      deps: DependencyMap, root: int, path: seq<int>, f: int, before: set<int>, after: set<int>, deepest: int)
    requires f in deps && f !in before && f in after && IsFirstChain(DirectCalls(deps), root, f, path + [f])
    requires if deps[f].directFunctionCalls == [] then deepest == |path| && after == before + {f}
      else IsDeepest(deps, root, before + {f}, after, |path| + 1, deepest)
    ensures IsDeepest(deps, root, before, after, |path|, deepest)
  {
    var g := DirectCalls(deps);
    forall u, n | u in after && u !in before && CallsAtLevel(deps, root, u, n) ensures n <= deepest {
      if u == f {
        var c :| IsFirstChain(g, root, u, c) && |c| == n;
        FirstChainIsUnique(g, root, f, c, path + [f]);
      } else {
        assert u !in before + {f};
      }
    }
    if deps[f].directFunctionCalls != [] {
      assert CallsAtLevel(deps, root, f, |path| + 1);
    }
  }

  lemma FunctionIsFinished(deps: DependencyMap, path: seq<int>, f: int, visited: set<int>)
    requires FinishedOff(DirectCalls(deps), path + [f], visited)
    requires f in deps && forall t :: t in deps[f].directFunctionCalls ==> t in visited
    ensures FinishedOff(DirectCalls(deps), path, visited)
  {}

  lemma FewerLeft(keys: set<int>, before: set<int>, after: set<int>, f: int)
    requires before <= after && f in keys && f !in before && f in after
    ensures keys - after < keys - before
  {
    assert f in keys - before && f !in keys - after;
  }

  lemma AlreadySearched(deps: DependencyMap, s: Found, f: int)
    requires f in s.visited
    ensures Searched(deps, f, s, s, 0)
  {}

  /** Records a local function with its imports and globals. */
  method Enter(deps: DependencyMap, f: int, s: Found) returns (entered: Found)
    requires Consistent(deps, s) && f in deps && f !in s.visited
    ensures Consistent(deps, entered) && Expanding(deps, f, s, entered, 0)
    ensures entered.visited == s.visited + {f}
  {
    var imports := AddImports(deps[f].importedFunctionCalls, s.imports);
    EnteredFunction(deps, s, f, imports);
    entered := Found(s.visited + {f}, s.functions + [f], imports, s.globals + Elements(deps[f].globalReferences));
  }

  /** The loop over the direct calls of `f`. */
  method TraverseCallees(
      deps: DependencyMap, f: int, depth: int, ghost s: Found, entered: Found, ghost root: int, ghost here: seq<int>)
    returns (after: Found, maxDepth: int)
    requires f in deps && f !in s.visited && f in entered.visited && s.visited <= entered.visited
    requires Consistent(deps, entered) && Expanding(deps, f, s, entered, 0)
    requires here != [] && depth + 1 == |here| && Last(here) == f
    requires IsFront(DirectCalls(deps), root, here, entered.visited)
    ensures Consistent(deps, after) && Searched(deps, f, s, after, maxDepth - depth)
    ensures FinishedOff(DirectCalls(deps), here, after.visited)
    ensures forall t :: t in deps[f].directFunctionCalls ==> t in after.visited
    ensures DeepestSoFar(deps, root, |deps[f].directFunctionCalls|, entered.visited, after.visited, depth, maxDepth)
    decreases deps.Keys - entered.visited, 3
  {
    after, maxDepth := entered, depth;
    var callees := deps[f].directFunctionCalls;
    for k := 0 to |callees|
      invariant InLoop(deps, f, s, after, maxDepth - depth) && entered.visited <= after.visited
      invariant VisitedUpTo(callees, k, after.visited) && IsFront(DirectCalls(deps), root, here, after.visited)
      invariant DeepestSoFar(deps, root, k, entered.visited, after.visited, depth, maxDepth)
    {
      assert deps.Keys - after.visited <= deps.Keys - entered.visited;
      ghost var visited := after.visited;
      after, maxDepth := TraverseCallee(deps, f, k, depth, s, after, maxDepth, root, here, entered.visited);
      VisitedUpToGrows(callees, k, visited, after.visited);
    }
    VisitedUpToAll(callees, |callees|, after.visited);
    ExpandedIsSearched(deps, f, s, after, maxDepth - depth);
  }

  /** The depth after `k` calls of a function: its own level before the first, at least the next level from then on. */
  ghost predicate DeepestSoFar(
      deps: DependencyMap, root: int, k: nat, before: set<int>, after: set<int>, depth: int, deepest: int) {
    if k == 0 then deepest == depth && after == before
    else IsDeepest(deps, root, before, after, depth + 1, deepest)
  }

  lemma DeepestOfNext(
      deps: DependencyMap, root: int, k: nat, before: set<int>, middle: set<int>, after: set<int>, depth: int,
      soFar: int, child: int)
    requires before <= middle <= after && DeepestSoFar(deps, root, k, before, middle, depth, soFar)
    requires IsDeepest(deps, root, middle, after, depth + 1, child)
    ensures DeepestSoFar(deps, root, k + 1, before, after, depth, Max(soFar, child))
  {
    var deepest := Max(soFar, child);
    forall u, n | u in after && u !in before && CallsAtLevel(deps, root, u, n) ensures n <= deepest {
      if u in middle { assert k > 0; }
    }
  }

  ghost predicate VisitedUpTo(xs: seq<int>, k: nat, visited: set<int>)
    requires k <= |xs|
  {
    k == 0 || (VisitedUpTo(xs, k - 1, visited) && xs[k - 1] in visited)
  }

  lemma {:induction false} VisitedUpToGrows(xs: seq<int>, k: nat, before: set<int>, after: set<int>)
    requires k <= |xs| && VisitedUpTo(xs, k, before) && before <= after
    ensures VisitedUpTo(xs, k, after)
  {
    if k > 0 { VisitedUpToGrows(xs, k - 1, before, after); }
  }

  lemma {:induction false} VisitedUpToAll(xs: seq<int>, k: nat, visited: set<int>)
    requires k <= |xs| && VisitedUpTo(xs, k, visited)
    ensures forall j :: 0 <= j < k ==> xs[j] in visited
  {
    if k > 0 { VisitedUpToAll(xs, k - 1, visited); }
  }

  method TraverseCallee(
      deps: DependencyMap, f: int, k: nat, depth: int, ghost s: Found, before: Found, soFar: int,
      ghost root: int, ghost here: seq<int>, ghost entered: set<int>)
    returns (after: Found, maxDepth: int)
    requires f in deps && k < |deps[f].directFunctionCalls| && f in before.visited && s.visited <= before.visited
    requires InLoop(deps, f, s, before, soFar - depth) && entered <= before.visited
    requires here != [] && depth + 1 == |here| && Last(here) == f
    requires IsFront(DirectCalls(deps), root, here, before.visited)
    requires VisitedUpTo(deps[f].directFunctionCalls, k, before.visited)
    requires DeepestSoFar(deps, root, k, entered, before.visited, depth, soFar)
    ensures InLoop(deps, f, s, after, maxDepth - depth) && before.visited <= after.visited
    ensures deps[f].directFunctionCalls[k] in after.visited && IsFront(DirectCalls(deps), root, here, after.visited)
    ensures DeepestSoFar(deps, root, k + 1, entered, after.visited, depth, maxDepth)
    decreases deps.Keys - before.visited, 2
  {
    ghost var g := DirectCalls(deps);
    var t, childDepth := deps[f].directFunctionCalls[k], 0;
    BeforeCallee(deps, f, k, before.visited, root, here);
    after, childDepth := Traverse(deps, t, depth + 1, before, root, here);
    FrontStays(g, root, here, before.visited, after.visited);
    KeepExpanding(deps, f, t, s, before, after, soFar - depth, childDepth - depth - 1);
    DeepestOfNext(deps, root, k, entered, before.visited, after.visited, depth, soFar, childDepth);
    maxDepth := Max(soFar, childDepth);
  }

  lemma BeforeCallee(deps: DependencyMap, f: int, k: nat, visited: set<int>, root: int, here: seq<int>)
    requires f in deps && k < |deps[f].directFunctionCalls|
    requires here != [] && Last(here) == f && IsFront(DirectCalls(deps), root, here, visited)
    requires VisitedUpTo(deps[f].directFunctionCalls, k, visited)
    ensures FinishedOff(DirectCalls(deps), here, visited)
    ensures deps[f].directFunctionCalls[k] !in visited ==>
      IsFront(DirectCalls(deps), root, here + [deps[f].directFunctionCalls[k]],
        visited + {deps[f].directFunctionCalls[k]})
  {
    VisitedUpToAll(deps[f].directFunctionCalls, k, visited);
    if deps[f].directFunctionCalls[k] !in visited { NextFront(DirectCalls(deps), root, here, visited, k); }
  }

  ghost predicate InLoop(deps: DependencyMap, f: int, s: Found, after: Found, reached: int) {
    Consistent(deps, after) && Expanding(deps, f, s, after, reached)
  }

  /** As `Searched`, while the callees of `f` itself are still being visited. */
  ghost predicate Expanding(deps: DependencyMap, f: int, before: Found, after: Found, reached: int) {
    && (forall u {:trigger CalleesIn(deps, u, after.visited)} :: u in after.visited && u !in before.visited && u != f
          ==> CalleesIn(deps, u, after.visited))
    && (forall v {:trigger WithinDepth(DirectCalls(deps), f, v, reached)} ::
          v in after.visited && v !in before.visited ==> WithinDepth(DirectCalls(deps), f, v, reached))
    && 0 <= reached <= |after.visited * deps.Keys| - |before.visited * deps.Keys|
    && |after.visited * deps.Keys| > |before.visited * deps.Keys|
  }

  lemma ExpandedIsSearched(deps: DependencyMap, f: int, s: Found, after: Found, depth: int)
    requires f in deps && f !in s.visited && f in after.visited && s.visited <= after.visited
    requires Expanding(deps, f, s, after, depth)
    requires VisitedUpTo(deps[f].directFunctionCalls, |deps[f].directFunctionCalls|, after.visited)
    ensures Searched(deps, f, s, after, depth)
  {
    VisitedUpToAll(deps[f].directFunctionCalls, |deps[f].directFunctionCalls|, after.visited);
    assert CalleesIn(deps, f, after.visited);
  }

  /** A target outside the module is visited but adds nothing. */
  lemma MissingFunction(deps: DependencyMap, s: Found, f: int)
    requires Consistent(deps, s) && f !in deps && f !in s.visited
    ensures var after := s.(visited := s.visited + {f});
      Consistent(deps, after) && Searched(deps, f, s, after, 0)
  {
    var after := s.(visited := s.visited + {f});
    SameLocals(deps, s.visited, f);
    MissingIsSearched(deps, s, after, f);
  }

  lemma SameLocals(deps: DependencyMap, visited: set<int>, f: int)
    requires f !in deps
    ensures (visited + {f}) * deps.Keys == visited * deps.Keys
  {}

  lemma MissingIsSearched(deps: DependencyMap, s: Found, after: Found, f: int)
    requires f !in deps && f !in s.visited && after.visited == s.visited + {f}
    requires after.visited * deps.Keys == s.visited * deps.Keys
    ensures Searched(deps, f, s, after, 0)
  {
    StaysPut(DirectCalls(deps), f);
  }

  lemma StaysPut(g: Graph, f: int)
    ensures WithinDepth(g, f, f, 0)
  {
    assert Joins(g, [f], f, f);
  }

  lemma EnteredFunction(deps: DependencyMap, s: Found, f: int, imports: seq<int>)
    requires Consistent(deps, s) && f in deps && f !in s.visited
    requires NoDuplicates(imports)
    requires Elements(imports) == Elements(s.imports) + Elements(IndexList(deps[f].importedFunctionCalls))
    ensures
      var after := Found(s.visited + {f}, s.functions + [f], imports, s.globals + Elements(deps[f].globalReferences));
      Consistent(deps, after) && Expanding(deps, f, s, after, 0)
  {
    var fs := s.functions + [f];
    assert fs[..|fs| - 1] == s.functions;
    assert f in s.functions ==> f in Elements(s.functions);
    assert Elements(fs) == Elements(s.functions) + {f};
    assert (s.visited + {f}) * deps.Keys == s.visited * deps.Keys + {f};
    StaysPut(DirectCalls(deps), f);
  }

  lemma KeepExpanding(deps: DependencyMap, f: int, t: int, s: Found, before: Found, after: Found, reached: int,
      below: int)
    requires f in deps && t in deps[f].directFunctionCalls && f in before.visited && s.visited <= before.visited
    requires Expanding(deps, f, s, before, reached) && Searched(deps, t, before, after, below)
    ensures Expanding(deps, f, s, after, Max(reached, below + 1))
  {
    var g, d := DirectCalls(deps), Max(reached, below + 1);
    assert Edge(g, f, t);
    forall u | u in after.visited && u !in s.visited && u != f ensures CalleesIn(deps, u, after.visited) {
      if u in before.visited { assert CalleesIn(deps, u, before.visited); }
    }
    forall v | v in after.visited && v !in s.visited ensures WithinDepth(g, f, v, d) {
      if v in before.visited {
        assert WithinDepth(g, f, v, reached);
        var p :| Joins(g, p, f, v) && |p| - 1 <= reached;
      } else {
        assert WithinDepth(g, t, v, below);
        var p :| Joins(g, p, t, v) && |p| - 1 <= below;
        WalkPrepend(g, f, p);
      }
    }
  }

  /** The functions that `f` reaches by direct calls, itself included. */
  ghost function LocalReach(deps: DependencyMap, f: int): set<int> {
    set v | v in deps && Reaches(DirectCalls(deps), f, v)
  }

  datatype Transitive = Transitive(
    functionIndex: int, allReachableFunctions: seq<int>, allImportedFunctions: seq<int>, allGlobals: seq<int>,
    depth: int)

  /**
   * The functions reached, and exactly their imports and globals; the depth lies between every
   * shortest distance and the number of functions reached, and is the greatest level at which one of
   * them calls another, by the order in which a depth-first search meets them.
   */
  ghost predicate IsClosure(deps: DependencyMap, f: int, r: Transitive) {
    && IsListing(r.allReachableFunctions, LocalReach(deps, f))
    && StrictlyAscending(r.allImportedFunctions) && StrictlyAscending(r.allGlobals)
    && (forall x :: x in r.allImportedFunctions <==>
         exists v :: v in LocalReach(deps, f) && x in IndexList(deps[v].importedFunctionCalls))
    && (forall x :: x in r.allGlobals <==> exists v :: v in LocalReach(deps, f) && x in deps[v].globalReferences)
    && (forall v :: Reaches(DirectCalls(deps), f, v) ==> WithinDepth(DirectCalls(deps), f, v, r.depth))
    && 0 <= r.depth <= |LocalReach(deps, f)|
    && IsDeepest(deps, f, {}, LocalReach(deps, f), 0, r.depth)
  }

  method GetTransitiveDependencies(deps: DependencyMap, f: int) returns (r: Transitive)
    ensures IsClosure(deps, f, r) && r.functionIndex == f
  {
    var found, maxDepth := TraverseAll(deps, f);
    SearchIsClosure(deps, f, found, maxDepth);
    r := Compiled(f, found, maxDepth);
  }

  /** The search from `f` with nothing visited. */
  method TraverseAll(deps: DependencyMap, f: int) returns (found: Found, maxDepth: int)
    ensures IsSearch(deps, f, found, maxDepth)
  {
    var nothing := Found({}, [], [], {});
    ghost var path: seq<int> := [];
    SearchBegins(deps, f, nothing, path);
    found, maxDepth := Traverse(deps, f, 0, nothing, f, path);
    SearchEnds(deps, f, nothing, found, maxDepth);
  }

  ghost predicate IsSearch(deps: DependencyMap, f: int, found: Found, depth: int) {
    && Consistent(deps, found) && Searched(deps, f, Found({}, [], [], {}), found, depth)
    && IsDeepest(deps, f, {}, found.visited, 0, depth)
  }

  function Compiled(f: int, found: Found, depth: int): (r: Transitive)
    ensures r.functionIndex == f
  {
    Transitive(f, SortIndices(found.functions), SortIndices(found.imports), Ascending(found.globals), depth)
  }

  lemma DeepestAmongLocals(deps: DependencyMap, f: int, visited: set<int>, depth: int)
    requires IsDeepest(deps, f, {}, visited, 0, depth)
    ensures IsDeepest(deps, f, {}, visited * deps.Keys, 0, depth)
  {}

  lemma SearchBegins(deps: DependencyMap, f: int, nothing: Found, path: seq<int>)
    requires nothing == Found({}, [], [], {}) && path == []
    ensures Consistent(deps, nothing) && FinishedOff(DirectCalls(deps), path, nothing.visited)
    ensures IsFront(DirectCalls(deps), f, path + [f], nothing.visited + {f})
  {
    RootIsFront(DirectCalls(deps), f);
    assert path + [f] == [f] && nothing.visited + {f} == {f};
  }

  lemma SearchEnds(deps: DependencyMap, f: int, nothing: Found, found: Found, depth: int)
    requires nothing == Found({}, [], [], {})
    requires Consistent(deps, found) && SearchedTo(deps, f, nothing, found, 0, depth)
    requires IsDeepest(deps, f, nothing.visited, found.visited, 0, depth)
    ensures IsSearch(deps, f, found, depth)
  {}

  lemma SearchIsClosure(deps: DependencyMap, f: int, found: Found, depth: int)
    requires IsSearch(deps, f, found, depth)
    ensures IsClosure(deps, f, Compiled(f, found, depth))
  {
    var g := DirectCalls(deps);
    forall v ensures v in found.visited <==> Reaches(g, f, v) {
      if v in found.visited {
        assert WithinDepth(g, f, v, depth);
        var p :| Joins(g, p, f, v) && |p| - 1 <= depth;
      }
      if Reaches(g, f, v) {
        var p :| Joins(g, p, f, v);
        forall u, w | u in found.visited && Edge(g, u, w) ensures w in found.visited {
          assert CalleesIn(deps, u, found.visited);
        }
        ClosedSetHoldsWalk(g, found.visited, p);
      }
    }
    assert {} * deps.Keys == {};
    assert found.visited * deps.Keys == LocalReach(deps, f);
    DeepestAmongLocals(deps, f, found.visited, depth);
    forall v ensures v in found.functions <==> v in LocalReach(deps, f) {
      assert v in found.functions <==> v in Elements(found.functions);
    }
    var imports, globals := SortIndices(found.imports), Ascending(found.globals);
    forall x
      ensures x in imports <==> exists v :: v in LocalReach(deps, f) && x in IndexList(deps[v].importedFunctionCalls)
    {
      UnionMembers(deps, found.functions, x);
      assert x in imports <==> x in Elements(imports);
    }
    forall x ensures x in globals <==> exists v :: v in LocalReach(deps, f) && x in deps[v].globalReferences {
      UnionMembers(deps, found.functions, x);
      assert x in globals <==> x in Elements(globals);
    }
  }

  ghost predicate DescribesFirst(m: WasmModule, deps: DependencyMap, n: int) {
    && (forall i :: i in deps <==> FunctionImportCount(m.imports) <= i < FunctionImportCount(m.imports) + n)
    && (forall i {:trigger DescribedAt(m, deps, i)} :: i in deps ==> DescribedAt(m, deps, i))
  }

  lemma DescribesNext(m: WasmModule, before: DependencyMap, n: nat, d: Dependencies)
    requires n < |m.functions| && DescribesFirst(m, before, n)
    requires Describes(m, m.functions[n], FunctionImportCount(m.imports) + n, d)
    ensures DescribesFirst(m, before[FunctionImportCount(m.imports) + n := d], n + 1)
  {
    var i := FunctionImportCount(m.imports) + n;
    var after := before[i := d];
    forall j | j in after ensures DescribedAt(m, after, j) {
      if j != i { assert DescribedAt(m, before, j); }
    }
  }

  class FunctionDependencyAnalyzer {
    const wasmModule: WasmModule
    var functionDependencies: DependencyMap

    constructor (m: WasmModule)
      ensures wasmModule == m && IsDependencyMap(m, functionDependencies)
    {
      wasmModule := m;
      functionDependencies := map[];
      new;
      var importCount := FunctionImportCount(m.imports);
      for idx := 0 to |m.functions|
        invariant DescribesFirst(m, functionDependencies, idx)
      {
        ghost var before := functionDependencies;
        var deps := ExtractDependencies(m, m.functions[idx], importCount + idx);
        functionDependencies := functionDependencies[importCount + idx := deps];
        DescribesNext(m, before, idx, deps);
      }
    }
  }
}
