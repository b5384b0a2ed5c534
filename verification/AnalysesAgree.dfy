/** Reachability over the call graph and the transitive dependencies are computed independently, and agree. */
module AnalysesAgree {
  import opened Collections
  import opened WasmModules
  import opened Digraphs
  import opened CallGraphs
  import opened FunctionDependencies

  /** The functions reached from `f` by direct calls, and the imports those functions name. */
  ghost function Depended(deps: DependencyMap, f: int): set<int> {
    LocalReach(deps, f) +
    (set v, x | v in LocalReach(deps, f) && x in IndexList(deps[v].importedFunctionCalls) :: x)
  }

  ghost predicate Agree(m: WasmModule) {
    forall g, deps, f {:trigger IsBuiltGraph(m, g), IsDependencyMap(m, deps), IsLocal(m, f)} ::
      IsBuiltGraph(m, g) && IsDependencyMap(m, deps) && IsLocal(m, f) ==> ReachableFrom(g, {f}) == Depended(deps, f)
  }

  /** The function imports come before the other imports. */
  predicate FunctionImportsFirst(imports: seq<Import>) {
    forall k :: 0 <= k < FunctionImportCount(imports) ==> imports[k].kind == FunctionKind
  }

  lemma CountStep(imports: seq<Import>, k: nat)
    requires k < |imports|
    ensures FunctionImportCount(imports[..k + 1]) ==
      FunctionImportCount(imports[..k]) + if imports[k].kind == FunctionKind then 1 else 0
  {
    assert imports[..k + 1][..k] == imports[..k];
  }

  lemma {:induction false} CountGrows(imports: seq<Import>, j: nat, k: nat)
    requires j <= k <= |imports|
    ensures FunctionImportCount(imports[..j]) <= FunctionImportCount(imports[..k])
  {
    if j < k {
      CountStep(imports, k - 1);
      CountGrows(imports, j, k - 1);
    }
  }

  lemma {:induction false} LeadingFunctionsCount(imports: seq<Import>, k: nat)
    requires k <= |imports| && forall j :: 0 <= j < k ==> imports[j].kind == FunctionKind
    ensures FunctionImportCount(imports[..k]) == k
  {
    if k > 0 {
      assert imports[..k][..k - 1] == imports[..k - 1];
      LeadingFunctionsCount(imports, k - 1);
    }
  }

  /** With the function imports first, an import's position is its function index. */
  lemma ImportKeysAreIndices(m: WasmModule, i: int)
    requires FunctionImportsFirst(m.imports)
    ensures IsImportKey(m, i) <==> 0 <= i < FunctionImportCount(m.imports)
  {
    var n := FunctionImportCount(m.imports);
    LeadingFunctionsCount(m.imports, n);
    if n <= i < |m.imports| && m.imports[i].kind == FunctionKind { OneFunctionTooMany(m.imports, n, i); }
  }

  lemma OneFunctionTooMany(imports: seq<Import>, n: nat, i: nat)
    requires n <= i < |imports| && imports[i].kind == FunctionKind && FunctionImportCount(imports[..n]) == n
    ensures FunctionImportCount(imports) > n
  {
    CountGrows(imports, n, i);
    CountStep(imports, i);
    CountGrows(imports, i + 1, |imports|);
    assert imports[..|imports|] == imports;
  }

  lemma OnlyLocalsCall(m: WasmModule, i: int, t: int)
    requires Calls(m, i, t)
    ensures IsLocal(m, i)
  {}

  /** One step of either analysis is a call instruction. */
  lemma DirectCallIff(m: WasmModule, deps: DependencyMap, u: int, v: int)
    requires IsDependencyMap(m, deps)
    ensures Edge(DirectCalls(deps), u, v) <==> IsLocal(m, u) && Calls(m, u, v) && v >= FunctionImportCount(m.imports)
    ensures u in deps ==> (v in IndexList(deps[u].importedFunctionCalls) <==>
      Calls(m, u, v) && 0 <= v < FunctionImportCount(m.imports))
  {
    if u in deps {
      assert DescribedAt(m, deps, u);
      assert v in deps[u].directFunctionCalls <==> v in Elements(deps[u].directFunctionCalls);
      assert v in IndexList(deps[u].importedFunctionCalls) <==> v in Elements(IndexList(deps[u].importedFunctionCalls));
    }
  }

  lemma {:induction false} GraphWalkIsDependency(m: WasmModule, g: Graph, deps: DependencyMap, p: seq<int>)
    requires FunctionImportsFirst(m.imports) && IsBuiltGraph(m, g) && IsDependencyMap(m, deps)
    requires IsWalk(g, p) && IsLocal(m, p[0])
    ensures IsLocal(m, Last(p)) ==> Reaches(DirectCalls(deps), p[0], Last(p))
    ensures Last(p) in Depended(deps, p[0])
  {
    var n := |p| - 1;
    if n == 0 {
      ReachesSelf(DirectCalls(deps), p[0]);
    } else {
      WalkSlice(g, p, 0, n);
      assert p[0..n] == p[..n];
      GraphWalkIsDependency(m, g, deps, p[..n]);
      var u, v := p[n - 1], p[n];
      assert Edge(g, u, v) && Last(p[..n]) == u;
      OnlyLocalsCall(m, u, v);
      DirectCallIff(m, deps, u, v);
      ImportKeysAreIndices(m, v);
      if IsLocal(m, v) {
        ReachesThenSteps(DirectCalls(deps), p[0], u, v);
      } else {
        assert u in LocalReach(deps, p[0]) && v in IndexList(deps[u].importedFunctionCalls);
      }
    }
  }

  lemma {:induction false} DependencyWalkIsReachable(m: WasmModule, g: Graph, deps: DependencyMap, p: seq<int>)
    requires IsBuiltGraph(m, g) && IsDependencyMap(m, deps)
    requires IsWalk(DirectCalls(deps), p) && IsLocal(m, p[0]) && IsLocal(m, Last(p))
    ensures Reaches(g, p[0], Last(p))
  {
    var n := |p| - 1;
    if n == 0 {
      ReachesSelf(g, p[0]);
    } else {
      WalkSlice(DirectCalls(deps), p, 0, n);
      assert p[0..n] == p[..n];
      assert Edge(DirectCalls(deps), p[n - 1], p[n]) && Last(p[..n]) == p[n - 1];
      DirectCallIff(m, deps, p[n - 1], p[n]);
      DependencyWalkIsReachable(m, g, deps, p[..n]);
      ReachesThenSteps(g, p[0], p[n - 1], p[n]);
    }
  }

  lemma DependedIsReachable(m: WasmModule, g: Graph, deps: DependencyMap, f: int, v: int)
    requires FunctionImportsFirst(m.imports) && IsBuiltGraph(m, g) && IsDependencyMap(m, deps)
    requires IsLocal(m, f) && v in Depended(deps, f)
    ensures v in g && Reaches(g, f, v)
  {
    if v in LocalReach(deps, f) {
      var p :| Joins(DirectCalls(deps), p, f, v);
      DependencyWalkIsReachable(m, g, deps, p);
    } else {
      var u :| u in LocalReach(deps, f) && v in IndexList(deps[u].importedFunctionCalls);
      var p :| Joins(DirectCalls(deps), p, f, u);
      DependencyWalkIsReachable(m, g, deps, p);
      DirectCallIff(m, deps, u, v);
      ImportKeysAreIndices(m, v);
      ReachesThenSteps(g, f, u, v);
    }
  }

  /** For every module whose function imports come first, and every local function, the two analyses agree. */
  lemma FunctionImportsFirstAgree(m: WasmModule)
    requires FunctionImportsFirst(m.imports)
    ensures Agree(m)
  {
    forall g, deps, f | IsBuiltGraph(m, g) && IsDependencyMap(m, deps) && IsLocal(m, f)
      ensures ReachableFrom(g, {f}) == Depended(deps, f)
    {
      forall v ensures v in ReachableFrom(g, {f}) <==> v in Depended(deps, f) {
        if v in ReachableFrom(g, {f}) {
          assert Reaches(g, f, v);
          var p :| Joins(g, p, f, v);
          GraphWalkIsDependency(m, g, deps, p);
        }
        if v in Depended(deps, f) {
          DependedIsReachable(m, g, deps, f, v);
          assert f in {f} && f in g;
        }
      }
    }
  }

  /** One function that calls the import index `i`. */
  function CallerOf(imports: seq<Import>, i: int): WasmModule {
    WasmModule(imports, [Func("", Some([Instr("call", Some(i))]))], [])
  }

  function CallerDependencies(n: nat, i: int, def: Import): Dependencies {
    Dependencies(n, DisplayName(Func("", None), n), [], [ImportedCall(i, def.moduleName, def.name)], [],
      MemoryOps(0, 0, 0, 0), [], 1)
  }

  /** The call graph of `CallerOf`: no call leads to a known function. */
  function CallerGraph(imports: seq<Import>): Graph {
    (map k | k in ImportKeys(imports) :: [])[FunctionImportCount(imports) := []]
  }

  function ImportKeys(imports: seq<Import>): set<int> { set j | 0 <= j < |imports| && imports[j].kind == FunctionKind }

  /** The call graph misses a call to an import that a non-function import precedes. */
  lemma MisplacedImportDisagrees(imports: seq<Import>, i: nat)
    requires i < FunctionImportCount(imports) && imports[i].kind != FunctionKind
    ensures !Agree(CallerOf(imports, i))
  {
    var m, n, g := CallerOf(imports, i), FunctionImportCount(imports), CallerGraph(imports);
    var deps: DependencyMap := map[n := CallerDependencies(n, i, ImportDefinition(imports, i).value)];
    CallerIsDescribed(imports, i);
    CallerHasNoEdge(imports, i);
    CallerImportDepended(deps, n, i);
    OneDisagreement(m, g, deps, n, i);
  }

  lemma OneDisagreement(m: WasmModule, g: Graph, deps: DependencyMap, f: int, v: int)
    requires IsBuiltGraph(m, g) && IsDependencyMap(m, deps) && IsLocal(m, f)
    requires v in Depended(deps, f) && !(v in g && Reaches(g, f, v))
    ensures !Agree(m)
  {
    assert v !in ReachableFrom(g, {f});
  }

  lemma CallerImportDepended(deps: DependencyMap, n: int, i: int)
    requires n in deps && IndexList(deps[n].importedFunctionCalls) == [i]
    ensures i in Depended(deps, n)
  {
    ReachesSelf(DirectCalls(deps), n);
    assert [i][0] == i;
    assert n in LocalReach(deps, n) && i in IndexList(deps[n].importedFunctionCalls);
  }

  lemma OneInstruction(instr: Instr)
    ensures CallTargets([instr]) == if IsDirectCall(instr) then [instr.index.value] else []
    ensures forall p :: CountOf([instr], p) == if p(instr) then 1 else 0
    ensures forall p :: IndicesNamed([instr], p) == if p(instr) && instr.index.Some? then [instr.index.value] else []
  {
    assert [instr][..0] == [];
  }

  lemma CallTouchesNoMemory()
    ensures !Contains("call", ".load") && !Contains("call", ".store")
  {}

  lemma CallerIsDescribed(imports: seq<Import>, i: nat)
    requires i < FunctionImportCount(imports)
    ensures var n := FunctionImportCount(imports);
      IsDependencyMap(CallerOf(imports, i), map[n := CallerDependencies(n, i, ImportDefinition(imports, i).value)])
  {
    var m := CallerOf(imports, i);
    var d := CallerDependencies(FunctionImportCount(imports), i, ImportDefinition(imports, i).value);
    CallerListsDescribed(imports, i, d);
    OneFunctionMap(m, d);
  }

  lemma OneFunctionMap(m: WasmModule, d: Dependencies)
    requires |m.functions| == 1 && Describes(m, m.functions[0], FunctionImportCount(m.imports), d)
    ensures IsDependencyMap(m, map[FunctionImportCount(m.imports) := d])
  {
    assert DescribedAt(m, map[FunctionImportCount(m.imports) := d], FunctionImportCount(m.imports));
  }

  lemma CallerListsDescribed(imports: seq<Import>, i: nat, d: Dependencies)
    requires i < FunctionImportCount(imports)
    requires d == CallerDependencies(FunctionImportCount(imports), i, ImportDefinition(imports, i).value)
    ensures Describes(CallerOf(imports, i), CallerOf(imports, i).functions[0], FunctionImportCount(imports), d)
  {
    var n := FunctionImportCount(imports);
    CallScan(i);
    CallerSets(n, i);
    assert IndexList(d.importedFunctionCalls) == [i];
    assert d.importedFunctionCalls[0] in d.importedFunctionCalls;
    ImportDefinitionIff(imports, i, ImportDefinition(imports, i).value);
  }

  lemma CallerSets(n: int, i: int)
    requires 0 <= i < n
    ensures IsListing([], set t | t in [i] && t >= n)
    ensures IsListing([i], set t | t in [i] && 0 <= t < n)
  {
    assert [i][0] == i;
    assert Elements([i]) == set t | t in [i] && 0 <= t < n;
  }

  /** A body of one call uses nothing else. */
  lemma CallScan(i: int)
    ensures var body := [Instr("call", Some(i))];
      && CallTargets(body) == [i]
      && IndicesNamed(body, IsGlobalAccess) == [] && IndicesNamed(body, IsTableAccess) == []
      && CountOf(body, IsLoad) == 0 && CountOf(body, IsStore) == 0
      && CountOf(body, IsMemorySize) == 0 && CountOf(body, IsMemoryGrow) == 0
  {
    OneInstruction(Instr("call", Some(i)));
    CallTouchesNoMemory();
  }

  lemma CallerHasNoEdge(imports: seq<Import>, i: nat)
    requires i < FunctionImportCount(imports) && imports[i].kind != FunctionKind
    ensures var m := CallerOf(imports, i);
      forall u, v :: !(IsFunctionIndex(m, u) && IsFunctionIndex(m, v) && Calls(m, u, v))
  {
    var m := CallerOf(imports, i);
    OneInstruction(Instr("call", Some(i)));
    forall u, v ensures !(IsFunctionIndex(m, u) && IsFunctionIndex(m, v) && Calls(m, u, v)) {
      if Calls(m, u, v) {
        assert IsLocal(m, u) ==> CallTargets(Body(m, u)) == [i];
        assert !IsLocal(m, u) ==> CallTargets(Body(m, u)) == [];
      }
    }
  }

  /** The analyses agree on every module with these imports exactly when the function imports come first. */
  lemma AgreeIffFunctionImportsFirst(imports: seq<Import>)
    ensures FunctionImportsFirst(imports) <==> forall m: WasmModule :: m.imports == imports ==> Agree(m)
  {
    if FunctionImportsFirst(imports) {
      forall m: WasmModule | m.imports == imports ensures Agree(m) {
        FunctionImportsFirstAgree(m);
      }
    } else {
      var i :| 0 <= i < FunctionImportCount(imports) && imports[i].kind != FunctionKind;
      MisplacedImportDisagrees(imports, i);
      assert CallerOf(imports, i).imports == imports;
    }
  }
}
