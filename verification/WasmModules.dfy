/** Decoded modules, and what their bodies mean to the analyses: which call instruction names which function. */
module WasmModules {
  import opened Collections
  import opened Numerals

  datatype ExternKind = FunctionKind | TableKind | MemoryKind | GlobalKind

  datatype Import = Import(kind: ExternKind, moduleName: string, name: string)

  datatype Export = Export(kind: ExternKind, name: string, index: int)

  /** An instruction without a numeric index has `None`; an unnamed one has the empty name. */
  datatype Instr = Instr(name: string, index: Option<int>)

  datatype Func = Func(name: string, body: Option<seq<Instr>>)

  /** A missing section is an empty list. */
  datatype WasmModule = WasmModule(imports: seq<Import>, functions: seq<Func>, exports: seq<Export>)

  function FunctionImportCount(imports: seq<Import>): (n: nat)
    ensures n <= |imports|
  {
    if imports == [] then 0
    else
      var n := |imports| - 1;
      FunctionImportCount(imports[..n]) + if imports[n].kind == FunctionKind then 1 else 0
  }

  /** The count is the number of positions that hold a function import. */
  lemma {:induction false} FunctionImportCountIs(imports: seq<Import>)
    ensures FunctionImportCount(imports) == |set j | 0 <= j < |imports| && imports[j].kind == FunctionKind|
  {
    if imports != [] {
      var n := |imports| - 1;
      FunctionImportCountIs(imports[..n]);
      var before, all := (set j | 0 <= j < n && imports[..n][j].kind == FunctionKind),
        (set j | 0 <= j < |imports| && imports[j].kind == FunctionKind);
      OneMorePosition(before, all, n);
    }
  }

  lemma OneMorePosition(before: set<int>, all: set<int>, n: int)
    requires n !in before && before <= all <= before + {n}
    ensures |all| == |before| + if n in all then 1 else 0
  {
    assert all == if n in all then before + {n} else before;
  }

  predicate IsLocal(m: WasmModule, i: int) {
    var n := FunctionImportCount(m.imports);
    n <= i < n + |m.functions|
  }

  /** Import nodes are keyed by their position among all imports, not among the function imports. */
  predicate IsImportKey(m: WasmModule, i: int) {
    0 <= i < |m.imports| && m.imports[i].kind == FunctionKind
  }

  ghost predicate IsFunctionIndex(m: WasmModule, i: int) { IsLocal(m, i) || IsImportKey(m, i) }

  /** All instructions of the body; none without a body. */
  function InstructionsOf(f: Func): (instrs: seq<Instr>)
    ensures f.body.Some? ==> f.body == Some(instrs)
    ensures f.body.None? ==> instrs == []
  {
    match f.body
    case None => []
    case Some(instrs) => instrs
  }

  /** The instructions of a local function; an import has none. */
  function Body(m: WasmModule, i: int): seq<Instr> {
    if IsLocal(m, i) then InstructionsOf(m.functions[i - FunctionImportCount(m.imports)]) else []
  }

  predicate IsDirectCall(instr: Instr) { instr.name == "call" && instr.index.Some? }

  /** The targets of the direct calls, in order. */
  function CallTargets(instrs: seq<Instr>): seq<int> {
    if instrs == [] then []
    else
      var n := |instrs| - 1;
      if IsDirectCall(instrs[n]) then CallTargets(instrs[..n]) + [instrs[n].index.value] else CallTargets(instrs[..n])
  }

  /** How many instructions of the list satisfy `p`. */
  function CountOf(instrs: seq<Instr>, p: Instr -> bool): nat {
    if instrs == [] then 0
    else
      var n := |instrs| - 1;
      CountOf(instrs[..n], p) + if p(instrs[n]) then 1 else 0
  }

  /** Counting is the size of the set of positions that satisfy `p`. */
  lemma {:induction false} CountOfIs(instrs: seq<Instr>, p: Instr -> bool)
    ensures CountOf(instrs, p) == |set k | 0 <= k < |instrs| && p(instrs[k])|
  {
    if instrs != [] {
      var n := |instrs| - 1;
      CountOfIs(instrs[..n], p);
      var before, all := (set k | 0 <= k < n && p(instrs[..n][k])), (set k | 0 <= k < |instrs| && p(instrs[k]));
      OneMorePosition(before, all, n);
    }
  }

  lemma CountOfAt(instrs: seq<Instr>, p: Instr -> bool, at: set<int>)
    requires forall k :: k in at <==> 0 <= k < |instrs| && p(instrs[k])
    ensures CountOf(instrs, p) == |at|
  {
    CountOfIs(instrs, p);
    assert at == set k | 0 <= k < |instrs| && p(instrs[k]);
  }

  /** The number of call instructions in function `i` that name function `t`. */
  function CallCount(m: WasmModule, i: int, t: int): nat { Occurrences(CallTargets(Body(m, i)), t) }

  ghost predicate Calls(m: WasmModule, i: int, t: int) { t in CallTargets(Body(m, i)) }

  ghost predicate CallAt(instrs: seq<Instr>, k: int, t: int) {
    0 <= k < |instrs| && instrs[k] == Instr("call", Some(t))
  }

  /** A function is called exactly when some direct call instruction names it. */
  lemma {:induction false} CallTargetsWitness(instrs: seq<Instr>, t: int)
    ensures t in CallTargets(instrs) <==> exists k :: CallAt(instrs, k, t)
  {
    if instrs != [] {
      var n := |instrs| - 1;
      CallTargetsWitness(instrs[..n], t);
      if t in CallTargets(instrs[..n]) {
        var k :| CallAt(instrs[..n], k, t);
        assert CallAt(instrs, k, t);
      } else if CallAt(instrs, n, t) {
      } else {
        forall k ensures !CallAt(instrs, k, t) {
          assert CallAt(instrs[..n], k, t) || k == n || !CallAt(instrs, k, t);
        }
      }
    }
  }

  /** A target is listed as often as it is called. */
  lemma {:induction false} CallTargetsCount(instrs: seq<Instr>, t: int)
    ensures Occurrences(CallTargets(instrs), t) == |set k | 0 <= k < |instrs| && instrs[k] == Instr("call", Some(t))|
  {
    if instrs != [] {
      var n := |instrs| - 1;
      CallTargetsCount(instrs[..n], t);
      var before, all := (set k | 0 <= k < n && instrs[..n][k] == Instr("call", Some(t))),
        (set k | 0 <= k < |instrs| && instrs[k] == Instr("call", Some(t)));
      OneMorePosition(before, all, n);
      if IsDirectCall(instrs[n]) { OneMoreTarget(CallTargets(instrs[..n]), instrs[n].index.value, t); }
    }
  }

  /** The targets come in the order of the instructions, here the first `n`. */
  lemma {:induction false} CallTargetsInOrder(instrs: seq<Instr>, n: nat) returns (at: seq<int>)
    requires n <= |instrs|
    ensures StrictlyAscending(at) && |at| == |CallTargets(instrs[..n])|
    ensures forall j :: 0 <= j < |at| ==>
      0 <= at[j] < n && instrs[at[j]] == Instr("call", Some(CallTargets(instrs[..n])[j]))
  {
    at := [];
    if n > 0 {
      assert instrs[..n][..n - 1] == instrs[..n - 1];
      at := CallTargetsInOrder(instrs, n - 1);
      if IsDirectCall(instrs[n - 1]) { at := at + [n - 1]; }
    }
  }

  lemma OneMoreTarget(targets: seq<int>, target: int, t: int)
    ensures Occurrences(targets + [target], t) == Occurrences(targets, t) + if target == t then 1 else 0
  {
    assert (targets + [target])[..|targets|] == targets;
  }

  /** `func.name || 'func_N'`. */
  function DisplayName(f: Func, i: nat): string {
    if f.name == "" then "func_" + Numeral(i, 10) else f.name
  }

  /** A function without a name is shown as `func_` and its index in decimal digits. */
  lemma DisplayNameIs(f: Func, i: nat)
    ensures f.name != "" ==> DisplayName(f, i) == f.name
    ensures f.name == "" ==>
      |DisplayName(f, i)| > 5 && DisplayName(f, i)[..5] == "func_" && Value(DisplayName(f, i)[5..], 10) == i
  {
    NumeralReadsBack(i, 10);
    assert f.name == "" ==> DisplayName(f, i)[5..] == Numeral(i, 10);
  }
}
