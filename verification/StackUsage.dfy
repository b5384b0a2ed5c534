/** `StackUsageAnalyzer`: one pass that adds up table effects, against a machine that pops and pushes operands. */
module StackUsage {
  import opened Collections
  import opened WasmModules

  // ----- The effect table -----

  predicate IsIntArithmetic(op: string) {
    op == "add" || op == "sub" || op == "mul" || op == "div_s" || op == "div_u" || op == "rem_s" || op == "rem_u"
    || op == "and" || op == "or" || op == "xor" || op == "shl" || op == "shr_s" || op == "shr_u" || op == "rotl"
    || op == "rotr"
  }

  predicate IsFloatArithmetic(op: string) {
    op == "add" || op == "sub" || op == "mul" || op == "div" || op == "min" || op == "max" || op == "copysign"
  }

  predicate IsIntComparison(op: string) {
    op == "eq" || op == "ne" || op == "lt_s" || op == "lt_u" || op == "gt_s" || op == "gt_u"
    || op == "le_s" || op == "le_u" || op == "ge_s" || op == "ge_u"
  }

  predicate IsFloatComparison(op: string) {
    op == "eq" || op == "ne" || op == "lt" || op == "gt" || op == "le" || op == "ge"
  }

  predicate IsIntUnary(op: string) { op == "clz" || op == "ctz" || op == "popcnt" }

  predicate IsFloatUnary(op: string) {
    op == "abs" || op == "neg" || op == "ceil" || op == "floor" || op == "trunc" || op == "nearest" || op == "sqrt"
  }

  predicate IsTruncation(op: string) {
    op == "trunc_f32_s" || op == "trunc_f32_u" || op == "trunc_f64_s" || op == "trunc_f64_u"
  }

  predicate IsConvert(op: string) {
    op == "convert_i32_s" || op == "convert_i32_u" || op == "convert_i64_s" || op == "convert_i64_u"
  }

  predicate IsConversion(ty: string, op: string) {
    match ty
    case "i32" => op == "wrap_i64" || op == "reinterpret_f32" || IsTruncation(op)
    case "i64" => op == "extend_i32_s" || op == "extend_i32_u" || op == "reinterpret_f64" || IsTruncation(op)
    case "f32" => op == "demote_f64" || op == "reinterpret_i32" || IsConvert(op)
    case _ => op == "promote_f32" || op == "reinterpret_i64" || IsConvert(op)
  }

  predicate IsNarrowLoad(op: string) { op == "load8_s" || op == "load8_u" || op == "load16_s" || op == "load16_u" }

  predicate IsLoadOf(ty: string, op: string) {
    op == "load" || ((ty == "i32" || ty == "i64") && IsNarrowLoad(op))
      || (ty == "i64" && (op == "load32_s" || op == "load32_u"))
  }

  predicate IsStoreOf(ty: string, op: string) {
    op == "store" || ((ty == "i32" || ty == "i64") && (op == "store8" || op == "store16"))
      || (ty == "i64" && op == "store32")
  }

  /** The operation of a name such as `i32.add`, with its type. */
  function Typed(name: string): Option<(string, string)> {
    if |name| >= 4 && name[3] == '.'
      && (name[..3] == "i32" || name[..3] == "i64" || name[..3] == "f32" || name[..3] == "f64")
    then Some((name[..3], name[4..])) else None
  }

  predicate IsInt(ty: string) { ty == "i32" || ty == "i64" }

  /** The table row of a typed operation. */
  function TypedEffect(ty: string, op: string): Option<int> {
    if op == "const" then Some(1)
    else if IsInt(ty) && (IsIntArithmetic(op) || IsIntComparison(op)) then Some(-1)
    else if !IsInt(ty) && (IsFloatArithmetic(op) || IsFloatComparison(op)) then Some(-1)
    else if IsInt(ty) && (op == "eqz" || IsIntUnary(op)) then Some(0)
    else if !IsInt(ty) && IsFloatUnary(op) then Some(0)
    else if IsConversion(ty, op) || IsLoadOf(ty, op) then Some(0)
    else if IsStoreOf(ty, op) then Some(-2)
    else None
  }

  function PlainEffect(name: string): Option<int> {
    match name
    case "memory.size" => Some(1)
    case "memory.grow" => Some(0)
    case "local.get" => Some(1)
    case "local.set" => Some(-1)
    case "local.tee" => Some(0)
    case "global.get" => Some(1)
    case "global.set" => Some(-1)
    case "drop" => Some(-1)
    case "select" => Some(-2)
    case "nop" => Some(0)
    case "unreachable" => Some(0)
    case "table.get" => Some(0)
    case "table.set" => Some(-2)
    case _ => None
  }

  /** `STACK_EFFECTS[name]`. */
  function StackEffect(name: string): Option<int> {
    match Typed(name)
    case Some((ty, op)) => TypedEffect(ty, op)
    case None => PlainEffect(name)
  }

  // ----- Its rows, by name -----

  lemma TypedName(ty: string, op: string)
    requires ty in {"i32", "i64", "f32", "f64"}
    ensures StackEffect(ty + "." + op) == TypedEffect(ty, op)
  {
    var name := ty + "." + op;
    assert name[..3] == ty && name[3] == '.' && name[4..] == op;
  }

  lemma TypedParts(name: string)
    ensures Typed(name).Some? ==> exists ty, op :: ty in {"i32", "i64", "f32", "f64"} && name == ty + "." + op
  {
    if Typed(name).Some? { assert name == name[..3] + "." + name[4..]; }
  }

  // Letters that tell the groups of operations apart.

  lemma IntBinaryLetters(op: string)
    requires IsIntArithmetic(op) || IsIntComparison(op)
    ensures 2 <= |op| <= 5 && op[0] != 'c' && (op[0] == 'e' ==> |op| == 2)
    ensures (op[0] == 'l' ==> op[1] != 'o') && (op[0] == 's' ==> op[1] != 't')
  {}

  lemma FloatBinaryLetters(op: string)
    requires IsFloatArithmetic(op) || IsFloatComparison(op)
    ensures 2 <= |op| <= 3 || (|op| == 8 && op[2] == 'p')
    ensures (op[0] == 'a' ==> op[1] == 'd') && (op[0] == 'n' ==> |op| == 2)
  {}

  lemma IntUnaryLetters(ty: string, op: string)
    requires IsInt(ty) && (op == "eqz" || IsIntUnary(op) || IsConversion(ty, op) || IsLoadOf(ty, op))
    ensures |op| > 5 || (|op| == 3 && (op[0] == 'e' || op[0] == 'c')) || (|op| == 4 && op[0] == 'l' && op[1] == 'o')
    ensures op[0] != 's'
  {}

  lemma FloatUnaryLetters(ty: string, op: string)
    requires !IsInt(ty) && (IsFloatUnary(op) || IsConversion(ty, op) || IsLoadOf(ty, op))
    ensures (|op| == 3 && ((op[0] == 'a' && op[1] == 'b') || op[0] == 'n')) || |op| >= 4
    ensures op[2] != 'p' && (op[0] == 's' ==> op[1] == 'q') && (op[0] == 'c' ==> |op| != 5)
  {}

  lemma StoreLetters(ty: string, op: string)
    requires IsStoreOf(ty, op)
    ensures |op| >= 5 && op[0] == 's' && op[1] == 't' && op[2] == 'o'
  {}

  /** The `i32` and `i64` rows with effect -1: the binary operators and the comparisons. */
  lemma IntBinaryRows(ty: string, op: string)
    requires ty == "i32" || ty == "i64"
    ensures StackEffect(ty + "." + op) == Some(-1) <==>
      op in {"add", "sub", "mul", "div_s", "div_u", "rem_s", "rem_u", "and", "or", "xor", "shl", "shr_s", "shr_u",
             "rotl", "rotr", "eq", "ne", "lt_s", "lt_u", "gt_s", "gt_u", "le_s", "le_u", "ge_s", "ge_u"}
  {
    TypedName(ty, op);
    if IsIntArithmetic(op) || IsIntComparison(op) { IntBinaryLetters(op); }
  }

  /** Those with effects 1 and -2: constants and stores. */
  lemma IntConstAndStoreRows(ty: string, op: string)
    requires ty == "i32" || ty == "i64"
    ensures StackEffect(ty + "." + op) == Some(1) <==> op == "const"
    ensures StackEffect(ty + "." + op) == Some(-2) <==>
      op in {"store", "store8", "store16"} || (ty == "i64" && op == "store32")
  {
    TypedName(ty, op);
    if IsStoreOf(ty, op) { StoreLetters(ty, op); }
    if IsIntArithmetic(op) || IsIntComparison(op) { IntBinaryLetters(op); }
    if op == "eqz" || IsIntUnary(op) || IsConversion(ty, op) || IsLoadOf(ty, op) { IntUnaryLetters(ty, op); }
  }

  /** Those with effect 0: tests, unary operators, conversions and loads. There are no others. */
  lemma IntUnaryRows(ty: string, op: string)
    requires ty == "i32" || ty == "i64"
    ensures StackEffect(ty + "." + op) == Some(0) <==>
      || op in {"eqz", "clz", "ctz", "popcnt", "trunc_f32_s", "trunc_f32_u", "trunc_f64_s", "trunc_f64_u",
                "load", "load8_s", "load8_u", "load16_s", "load16_u"}
      || (ty == "i32" && op in {"wrap_i64", "reinterpret_f32"})
      || (ty == "i64" && op in {"extend_i32_s", "extend_i32_u", "reinterpret_f64", "load32_s", "load32_u"})
    ensures var effect := StackEffect(ty + "." + op);
      effect.Some? ==> effect.value == 1 || effect.value == 0 || effect.value == -1 || effect.value == -2
  {
    TypedName(ty, op);
    if IsIntArithmetic(op) || IsIntComparison(op) { IntBinaryLetters(op); }
    if op == "eqz" || IsIntUnary(op) || IsConversion(ty, op) || IsLoadOf(ty, op) { IntUnaryLetters(ty, op); }
  }

  /** The `f32` and `f64` rows, in the same way. */
  lemma FloatBinaryRows(ty: string, op: string)
    requires ty == "f32" || ty == "f64"
    ensures StackEffect(ty + "." + op) == Some(-1) <==>
      op in {"add", "sub", "mul", "div", "min", "max", "copysign", "eq", "ne", "lt", "gt", "le", "ge"}
  {
    TypedName(ty, op);
    if IsFloatArithmetic(op) || IsFloatComparison(op) { FloatBinaryLetters(op); }
  }

  lemma FloatConstAndStoreRows(ty: string, op: string)
    requires ty == "f32" || ty == "f64"
    ensures StackEffect(ty + "." + op) == Some(1) <==> op == "const"
    ensures StackEffect(ty + "." + op) == Some(-2) <==> op == "store"
  {
    TypedName(ty, op);
    if IsStoreOf(ty, op) { StoreLetters(ty, op); }
    if IsFloatArithmetic(op) || IsFloatComparison(op) { FloatBinaryLetters(op); }
    if IsFloatUnary(op) || IsConversion(ty, op) || IsLoadOf(ty, op) { FloatUnaryLetters(ty, op); }
  }

  lemma FloatUnaryRows(ty: string, op: string)
    requires ty == "f32" || ty == "f64"
    ensures StackEffect(ty + "." + op) == Some(0) <==>
      || op in {"abs", "neg", "ceil", "floor", "trunc", "nearest", "sqrt",
                "convert_i32_s", "convert_i32_u", "convert_i64_s", "convert_i64_u", "load"}
      || (ty == "f32" && op in {"demote_f64", "reinterpret_i32"})
      || (ty == "f64" && op in {"promote_f32", "reinterpret_i64"})
    ensures var effect := StackEffect(ty + "." + op);
      effect.Some? ==> effect.value == 1 || effect.value == 0 || effect.value == -1 || effect.value == -2
  {
    TypedName(ty, op);
    if IsFloatArithmetic(op) || IsFloatComparison(op) { FloatBinaryLetters(op); }
    if IsFloatUnary(op) || IsConversion(ty, op) || IsLoadOf(ty, op) { FloatUnaryLetters(ty, op); }
  }

  /** The rows without a type. */
  lemma PlainRows(name: string)
    requires forall ty, op :: ty in {"i32", "i64", "f32", "f64"} ==> name != ty + "." + op
    ensures StackEffect(name) == Some(1) <==> name in {"memory.size", "local.get", "global.get"}
    ensures StackEffect(name) == Some(-1) <==> name in {"local.set", "global.set", "drop"}
    ensures StackEffect(name) == Some(-2) <==> name in {"select", "table.set"}
    ensures StackEffect(name) == Some(0) <==> name in {"memory.grow", "local.tee", "nop", "unreachable", "table.get"}
    ensures StackEffect(name).Some? ==> StackEffect(name).value in {1, 0, -1, -2}
  {
    TypedParts(name);
  }

  // ----- The operand stack of the WebAssembly Core Specification, section 3.3 -----

  /** What an instruction pops and pushes. */
  datatype Arity = Arity(pops: nat, pushes: nat)

  // The groups of numeric and memory instructions of section 2.4 of that specification.

  predicate IntBinary(op: string) {
    op in {"add", "sub", "mul", "div_s", "div_u", "rem_s", "rem_u", "and", "or", "xor", "shl", "shr_s", "shr_u",
           "rotl", "rotr", "eq", "ne", "lt_s", "lt_u", "gt_s", "gt_u", "le_s", "le_u", "ge_s", "ge_u"}
  }

  predicate FloatBinary(op: string) {
    op in {"add", "sub", "mul", "div", "min", "max", "copysign", "eq", "ne", "lt", "gt", "le", "ge"}
  }

  predicate IntUnary(op: string) {
    op in {"clz", "ctz", "popcnt", "eqz", "trunc_f32_s", "trunc_f32_u", "trunc_f64_s", "trunc_f64_u",
           "load", "load8_s", "load8_u", "load16_s", "load16_u"}
  }

  predicate FloatUnary(op: string) {
    op in {"abs", "neg", "ceil", "floor", "trunc", "nearest", "sqrt",
           "convert_i32_s", "convert_i32_u", "convert_i64_s", "convert_i64_u", "load"}
  }

  /** Constants; binary and relational operators; unary and test operators, conversions and loads; stores. */
  function TypedArity(ty: string, op: string): Option<Arity> {
    if op == "const" then Some(Arity(0, 1))
    else if ty == "i32" then
      if IntBinary(op) then Some(Arity(2, 1))
      else if IntUnary(op) || op == "wrap_i64" || op == "reinterpret_f32" then Some(Arity(1, 1))
      else if op in {"store", "store8", "store16"} then Some(Arity(2, 0))
      else None
    else if ty == "i64" then
      if IntBinary(op) then Some(Arity(2, 1))
      else if IntUnary(op) || op in {"load32_s", "load32_u", "extend_i32_s", "extend_i32_u", "reinterpret_f64"}
      then Some(Arity(1, 1))
      else if op in {"store", "store8", "store16", "store32"} then Some(Arity(2, 0))
      else None
    else
      if FloatBinary(op) then Some(Arity(2, 1))
      else if FloatUnary(op) || op in (if ty == "f32" then {"demote_f64", "reinterpret_i32"}
                                       else {"promote_f32", "reinterpret_i64"})
      then Some(Arity(1, 1))
      else if op == "store" then Some(Arity(2, 0))
      else None
  }

  /**
   * Memory size, variable, parametric and table instructions; `unreachable` has no single arity. The
   * closing `end` does nothing.
   */
  function PlainArity(name: string): Option<Arity> {
    match name
    case "memory.size" => Some(Arity(0, 1))
    case "memory.grow" => Some(Arity(1, 1))
    case "local.get" => Some(Arity(0, 1))
    case "local.set" => Some(Arity(1, 0))
    case "local.tee" => Some(Arity(1, 1))
    case "global.get" => Some(Arity(0, 1))
    case "global.set" => Some(Arity(1, 0))
    case "drop" => Some(Arity(1, 0))
    case "select" => Some(Arity(3, 1))
    case "nop" => Some(Arity(0, 0))
    case "end" => Some(Arity(0, 0))
    case "table.get" => Some(Arity(1, 1))
    case "table.set" => Some(Arity(2, 0))
    case _ => None
  }

  function ArityOf(name: string): Option<Arity> {
    match Typed(name)
    case Some((ty, op)) => TypedArity(ty, op)
    case None => PlainArity(name)
  }

  /** The table gives every instruction its pushes less its pops, and lists no other instruction but `unreachable`. */
  lemma EffectIsArity(name: string)
    ensures name != "unreachable" && name != "end" ==> (StackEffect(name).Some? <==> ArityOf(name).Some?)
    ensures StackEffect("end").None? && ArityOf("end") == Some(Arity(0, 0))
    ensures ArityOf(name).Some? && name != "end" ==>
      StackEffect(name) == Some(ArityOf(name).value.pushes - ArityOf(name).value.pops)
  {
    match Typed(name) {
      case Some((ty, op)) => TypedEffectIsArity(ty, op);
      case None => PlainEffectIsArity(name);
    }
  }

  lemma TypedEffectIsArity(ty: string, op: string)
    requires ty in {"i32", "i64", "f32", "f64"}
    ensures TypedEffect(ty, op).Some? <==> TypedArity(ty, op).Some?
    ensures TypedArity(ty, op).Some? ==>
      TypedEffect(ty, op) == Some(TypedArity(ty, op).value.pushes - TypedArity(ty, op).value.pops)
  {
    if IsInt(ty) {
      IntBinaryOps(op);
      IntUnaryOps(op);
    } else {
      FloatBinaryOps(op);
      FloatUnaryOps(op);
    }
  }

  // The groups are those of the table.

  lemma IntBinaryOps(op: string)
    ensures IntBinary(op) <==> IsIntArithmetic(op) || IsIntComparison(op)
  {}

  lemma FloatBinaryOps(op: string)
    ensures FloatBinary(op) <==> IsFloatArithmetic(op) || IsFloatComparison(op)
  {}

  lemma IntUnaryOps(op: string)
    ensures IntUnary(op) <==> op == "eqz" || op == "load" || IsIntUnary(op) || IsTruncation(op) || IsNarrowLoad(op)
  {}

  lemma FloatUnaryOps(op: string)
    ensures FloatUnary(op) <==> op == "load" || IsFloatUnary(op) || IsConvert(op)
  {}

  lemma PlainEffectIsArity(name: string)
    ensures name != "unreachable" && name != "end" ==> (PlainEffect(name).Some? <==> PlainArity(name).Some?)
    ensures PlainArity(name).Some? && name != "end" ==>
      PlainEffect(name) == Some(PlainArity(name).value.pushes - PlainArity(name).value.pops)
  {}

  // ----- The scan -----

  datatype Status = Exact | Estimated | Partial | Failed

  /** The branch of the scan an instruction name takes, in the order the branches are tried. */
  datatype Kind =
    | Call | CallIndirect | Structured | Branch(conditional: bool) | Return | Table(effect: int) | Unknown | Blank

  predicate IsStructured(name: string) {
    StartsWith(name, "block") || StartsWith(name, "loop") || StartsWith(name, "if")
  }

  function KindOf(name: string): Kind {
    if name == "call" then Call
    else if name == "call_indirect" then CallIndirect
    else if IsStructured(name) then Structured
    else if name == "br" || name == "br_if" || name == "br_table" then Branch(name == "br_if")
    else if name == "return" then Return
    else
      match StackEffect(name)
      case Some(effect) => Table(effect)
      case None => if name != "" && name != "end" && name != "else" then Unknown else Blank
  }

  /** An instruction as the scan and the machine see it. */
  datatype Item = Item(name: string, kind: Kind, arity: Option<Arity>)

  function ItemOf(name: string): Item { Item(name, KindOf(name), ArityOf(name)) }

  function Items(instrs: seq<Instr>): seq<Item> {
    seq(|instrs|, k requires 0 <= k < |instrs| => ItemOf(instrs[k].name))
  }

  datatype Scan = Scan(current: int, min: int, max: int, operations: nat, status: Status, unsupported: seq<string>)

  function Step(s: Scan, item: Item): Scan {
    match item.kind
    case Call => s.(status := Estimated, operations := s.operations + 1)
    case CallIndirect => s.(status := Estimated, current := s.current - 1, operations := s.operations + 1)
    case Structured => s.(operations := s.operations + 1)
    case Branch(conditional) =>
      s.(current := if conditional then s.current - 1 else s.current, operations := s.operations + 1)
    case Return => s.(status := Estimated)
    case Table(effect) =>
      s.(current := s.current + effect, operations := if effect != 0 then s.operations + 1 else s.operations)
    case Unknown =>
      var unsupported := if item.name in s.unsupported then s.unsupported else s.unsupported + [item.name];
      s.(unsupported := unsupported, status := if |unsupported| > 3 then Partial else Estimated)
    case Blank => s
  }

  function Track(s: Scan): Scan { s.(min := Min(s.min, s.current), max := Max(s.max, s.current)) }

  function ScanOf(items: seq<Item>): Scan {
    if items == [] then Scan(0, 0, 0, 0, Exact, [])
    else Track(Step(ScanOf(items[..|items| - 1]), items[|items| - 1]))
  }

  datatype StackMetrics = StackMetrics(
    functionIndex: int, functionName: string, minStackDepth: int, maxStackDepth: int, finalStackDepth: int,
    stackEffectOperations: nat, analysisStatus: Status, unsupportedInstructions: seq<string>)

  function Metrics(f: Func, i: nat, s: Scan): StackMetrics {
    StackMetrics(i, DisplayName(f, i), Max(0, s.min), Max(0, s.max), Max(0, s.current), s.operations,
                 if |s.unsupported| > 10 then Failed else s.status, s.unsupported)
  }

  /** What the analyzer reports for a body. */
  function Report(f: Func, i: nat): StackMetrics { Metrics(f, i, ScanOf(Items(InstructionsOf(f)))) }

  method CalculateStackMetrics(f: Func, i: nat) returns (m: StackMetrics)
    ensures m == Report(f, i)
  {
    var instrs := InstructionsOf(f);
    ghost var items := Items(instrs);
    var s := Scan(0, 0, 0, 0, Exact, []);
    for k := 0 to |instrs|
      invariant s == ScanOf(items[..k])
    {
      assert items[..k + 1][..k] == items[..k];
      s := ScanInstruction(s, instrs[k].name, items[k]);
    }
    assert items[..|items|] == items;
    m := Metrics(f, i, s);
  }

  /** The body of the instruction loop, over its running variables. */
  method ScanInstruction(s: Scan, name: string, ghost item: Item) returns (r: Scan)
    requires item.name == name && item.kind == KindOf(name)
    ensures r == Track(Step(s, item))
  {
    var Scan(current, min, max, operations, status, unsupported) := s;
    if name == "call" {
      status := Estimated;
      operations := operations + 1;
    } else if name == "call_indirect" {
      status := Estimated;
      current := current - 1;
      operations := operations + 1;
    } else if StartsWith(name, "block") || StartsWith(name, "loop") || StartsWith(name, "if") {
      operations := operations + 1;
    } else if name == "br" || name == "br_if" || name == "br_table" {
      if name == "br_if" { current := current - 1; }
      operations := operations + 1;
    } else if name == "return" {
      status := Estimated;
    } else {
      var effect := StackEffect(name);
      if effect.Some? {
        current := current + effect.value;
        if effect.value != 0 { operations := operations + 1; }
      } else if name != "" && name != "end" && name != "else" {
        if name !in unsupported { unsupported := unsupported + [name]; }
        status := if |unsupported| > 3 then Partial else Estimated;
      }
    }
    min := Min(min, current);
    max := Max(max, current);
    r := Scan(current, min, max, operations, status, unsupported);
  }

  // ----- The scan as counting -----

  // Positions of the instructions that matter to the report.

  ghost function EffectAt(instrs: seq<Instr>, effect: int): set<int> {
    set k | 0 <= k < |instrs| && StackEffect(instrs[k].name) == Some(effect)
  }

  /** A condition or a table index is popped. */
  ghost function ConditionAt(instrs: seq<Instr>): set<int> {
    set k | 0 <= k < |instrs| && instrs[k].name in {"br_if", "call_indirect"}
  }

  ghost function ControlAt(instrs: seq<Instr>): set<int> {
    set k | 0 <= k < |instrs| &&
      (instrs[k].name in {"call", "call_indirect", "br", "br_if", "br_table"}
       || "block" <= instrs[k].name || "loop" <= instrs[k].name || "if" <= instrs[k].name)
  }

  /** The depth after a body: one up or down, or two down, for each instruction with that effect. */
  ghost function Net(instrs: seq<Instr>): int {
    |EffectAt(instrs, 1)| - |EffectAt(instrs, -1)| - 2 * |EffectAt(instrs, -2)| - |ConditionAt(instrs)|
  }

  /** Control instructions but `return`, and those whose effect is not zero. */
  ghost function OperationCount(instrs: seq<Instr>): int {
    |ControlAt(instrs)| + |EffectAt(instrs, 1)| + |EffectAt(instrs, -1)| + |EffectAt(instrs, -2)|
  }

  lemma EffectAtStep(instrs: seq<Instr>, effect: int)
    requires instrs != []
    ensures |EffectAt(instrs, effect)| ==
      |EffectAt(instrs[..|instrs| - 1], effect)| + if StackEffect(Last(instrs).name) == Some(effect) then 1 else 0
  {
    var n := |instrs| - 1;
    var before := EffectAt(instrs[..n], effect);
    assert EffectAt(instrs, effect) == if StackEffect(instrs[n].name) == Some(effect) then before + {n} else before;
  }

  lemma ConditionAtStep(instrs: seq<Instr>)
    requires instrs != []
    ensures |ConditionAt(instrs)| ==
      |ConditionAt(instrs[..|instrs| - 1])| + if Last(instrs).name in {"br_if", "call_indirect"} then 1 else 0
  {
    var n := |instrs| - 1;
    var before := ConditionAt(instrs[..n]);
    assert ConditionAt(instrs) == if instrs[n].name in {"br_if", "call_indirect"} then before + {n} else before;
  }

  lemma ControlAtStep(instrs: seq<Instr>)
    requires instrs != []
    ensures |ControlAt(instrs)| ==
      |ControlAt(instrs[..|instrs| - 1])| + if IsControlOperation(Last(instrs).name) then 1 else 0
  {
    var n := |instrs| - 1;
    var before := ControlAt(instrs[..n]);
    ControlOperationIff(instrs[n].name);
    assert ControlAt(instrs) == if IsControlOperation(instrs[n].name) then before + {n} else before;
  }

  predicate IsControlOperation(name: string) { IsControl(name) && name != "return" }

  lemma ControlOperationIff(name: string)
    ensures IsControlOperation(name) <==>
      name in {"call", "call_indirect", "br", "br_if", "br_table"}
      || "block" <= name || "loop" <= name || "if" <= name
  {
    StartsWithIff(name, "block");
    StartsWithIff(name, "loop");
    StartsWithIff(name, "if");
    ReturnIsNotStructured();
  }

  lemma StartsWithIff(s: string, part: string)
    ensures StartsWith(s, part) <==> part <= s
  {}

  lemma ReturnIsNotStructured()
    ensures !IsStructured("return")
  {
    StartsLike("return", "block", 0);
    StartsLike("return", "loop", 0);
    StartsLike("return", "if", 0);
  }

  /** No control instruction is in the table. */
  lemma TableIsNotControl(name: string)
    requires StackEffect(name).Some?
    ensures !IsControl(name)
  {
    if Typed(name).Some? {
      TypedIsNotControl(name);
    } else {
      PlainIsNotControl(name);
    }
  }

  lemma EffectValues(name: string)
    ensures StackEffect(name).Some? ==> -2 <= StackEffect(name).value <= 1
  {}

  lemma StepCounts(s: Scan, name: string)
    ensures var effect, r := StackEffect(name), Step(s, ItemOf(name));
      && r.current == s.current + (if effect.Some? then effect.value else 0)
           - (if name in {"br_if", "call_indirect"} then 1 else 0)
      && r.operations == s.operations + (if effect.Some? && effect.value != 0 then 1 else 0)
           + (if IsControlOperation(name) then 1 else 0)
  {
    if StackEffect(name).Some? {
      TableKind(name);
      StepByTable(s, ItemOf(name));
    } else {
      OtherKind(name);
      StepByName(s, ItemOf(name));
    }
  }

  lemma TableKind(name: string)
    requires StackEffect(name).Some?
    ensures KindOf(name) == Table(StackEffect(name).value)
    ensures name !in {"br_if", "call_indirect"} && !IsControlOperation(name)
  {
    TableIsNotControl(name);
  }

  lemma OtherKind(name: string)
    requires StackEffect(name).None?
    ensures !KindOf(name).Table?
    ensures KindOf(name) in {CallIndirect, Branch(true)} <==> name in {"br_if", "call_indirect"}
    ensures KindOf(name) in {Call, CallIndirect, Structured, Branch(true), Branch(false)} <==> IsControlOperation(name)
  {
    ReturnIsNotStructured();
    StartsLike(name, "block", 2);
    StartsLike(name, "loop", 0);
    StartsLike(name, "if", 0);
  }

  lemma StepByTable(s: Scan, item: Item)
    requires item.kind.Table?
    ensures Step(s, item).current == s.current + item.kind.effect
    ensures Step(s, item).operations == s.operations + if item.kind.effect != 0 then 1 else 0
  {}

  lemma StepByName(s: Scan, item: Item)
    requires !item.kind.Table?
    ensures Step(s, item).current == s.current - if item.kind in {CallIndirect, Branch(true)} then 1 else 0
    ensures Step(s, item).operations ==
      s.operations + if item.kind in {Call, CallIndirect, Structured, Branch(true), Branch(false)} then 1 else 0
  {}

  lemma NetStep(instrs: seq<Instr>)
    requires instrs != []
    ensures var effect, before := StackEffect(Last(instrs).name), instrs[..|instrs| - 1];
      && Net(instrs) == Net(before) + (if effect.Some? then effect.value else 0)
           - (if Last(instrs).name in {"br_if", "call_indirect"} then 1 else 0)
      && OperationCount(instrs) == OperationCount(before) + (if effect.Some? && effect.value != 0 then 1 else 0)
           + (if IsControlOperation(Last(instrs).name) then 1 else 0)
  {
    EffectAtStep(instrs, 1);
    EffectAtStep(instrs, -1);
    EffectAtStep(instrs, -2);
    ConditionAtStep(instrs);
    ControlAtStep(instrs);
    EffectValues(Last(instrs).name);
  }

  lemma {:induction false} ScanCounts(instrs: seq<Instr>)
    ensures ScanOf(Items(instrs)).current == Net(instrs)
    ensures ScanOf(Items(instrs)).operations == OperationCount(instrs)
  {
    if instrs != [] {
      var before, item := instrs[..|instrs| - 1], ItemOf(Last(instrs).name);
      ScanCounts(before);
      NetStep(instrs);
      LastItem(instrs);
      OneMoreItem(Items(before), item);
      StepCounts(ScanOf(Items(before)), Last(instrs).name);
    }
  }

  /** The greatest depth after a part of the body, the empty part included. */
  ghost predicate IsGreatestNet(instrs: seq<Instr>, max: int) {
    && (forall k :: 0 <= k <= |instrs| ==> Net(instrs[..k]) <= max)
    && (exists k :: 0 <= k <= |instrs| && Net(instrs[..k]) == max)
  }

  lemma {:induction false} ScanMaximum(instrs: seq<Instr>)
    ensures IsGreatestNet(instrs, ScanOf(Items(instrs)).max) && ScanOf(Items(instrs)).max >= 0
  {
    if instrs == [] {
      assert Net(instrs[..0]) == 0;
    } else {
      var n := |instrs| - 1;
      ScanMaximum(instrs[..n]);
      MaximumStep(instrs);
      GreatestStep(instrs, ScanOf(Items(instrs[..n])).max);
    }
  }

  lemma MaximumStep(instrs: seq<Instr>)
    requires instrs != []
    ensures ScanOf(Items(instrs)).max == Max(ScanOf(Items(instrs[..|instrs| - 1])).max, Net(instrs))
  {
    ScanCounts(instrs);
    LastItem(instrs);
    LastMaximum(Items(instrs[..|instrs| - 1]), ItemOf(Last(instrs).name));
  }

  lemma LastItem(instrs: seq<Instr>)
    requires instrs != []
    ensures Items(instrs) == Items(instrs[..|instrs| - 1]) + [ItemOf(Last(instrs).name)]
  {}

  lemma LastMaximum(items: seq<Item>, item: Item)
    ensures ScanOf(items + [item]).max == Max(ScanOf(items).max, ScanOf(items + [item]).current)
  {
    OneMoreItem(items, item);
    StepKeepsMaximum(ScanOf(items), item);
  }

  lemma StepKeepsMaximum(s: Scan, item: Item)
    ensures Step(s, item).max == s.max
  {}

  lemma GreatestStep(instrs: seq<Instr>, max: int)
    requires instrs != [] && IsGreatestNet(instrs[..|instrs| - 1], max)
    ensures IsGreatestNet(instrs, Max(max, Net(instrs)))
  {
    var n := |instrs| - 1;
    assert instrs[..n + 1] == instrs;
    forall k | 0 <= k <= n + 1 ensures Net(instrs[..k]) <= Max(max, Net(instrs)) {
      if k <= n { assert instrs[..n][..k] == instrs[..k]; }
    }
    var k :| 0 <= k <= n && Net(instrs[..n][..k]) == max;
    assert instrs[..n][..k] == instrs[..k];
  }

  /**
   * What is reported for every body, straight or not: the numbers of instructions by effect give the
   * final depth and the operations, and the greatest depth after any part of it is the maximum.
   */
  lemma ReportCounts(f: Func, i: nat)
    ensures var m, instrs := Report(f, i), InstructionsOf(f);
      && m.functionIndex == i && m.functionName == DisplayName(f, i)
      && m.finalStackDepth == (if Net(instrs) < 0 then 0 else Net(instrs))
      && m.stackEffectOperations == OperationCount(instrs) && IsGreatestNet(instrs, m.maxStackDepth)
  {
    ScanCounts(InstructionsOf(f));
    ScanMaximum(InstructionsOf(f));
  }

  // ----- The machine -----

  /** The height of the operand stack after the body, or none if some instruction underflows or has no arity. */
  function HeightAfter(items: seq<Item>): Option<nat> {
    if items == [] then Some(0)
    else
      var n := |items| - 1;
      match (HeightAfter(items[..n]), items[n].arity)
      case (Some(h), Some(a)) => if h < a.pops then None else Some(h - a.pops + a.pushes)
      case _ => None
  }

  /** The machine runs every prefix, and `max` is the greatest height it ever reaches. */
  ghost predicate IsMaxHeight(items: seq<Item>, max: int) {
    && (forall k :: 0 <= k <= |items| ==> HeightAfter(items[..k]).Some? && HeightAfter(items[..k]).value <= max)
    && (exists k :: 0 <= k <= |items| && HeightAfter(items[..k]) == Some(max))
  }

  /** How the scan moves the current depth for an instruction of a kind without control flow. */
  function MoveOf(k: Kind): Option<int> {
    match k
    case Table(effect) => Some(effect)
    case Blank => Some(0)
    case _ => None
  }

  /**
   * An instruction with an arity takes the table branch of the scan, or is passed over, and moves the
   * depth by pushes less pops.
   */
  lemma ArityIsMove(name: string)
    requires ArityOf(name).Some?
    ensures MoveOf(KindOf(name)) == Some(ArityOf(name).value.pushes - ArityOf(name).value.pops)
  {
    if Typed(name).Some? {
      TypedIsNotControl(name);
    } else {
      PlainIsNotControl(name);
    }
    EffectIsArity(name);
  }

  predicate IsControl(name: string) {
    name == "call" || name == "call_indirect" || IsStructured(name) || name == "br" || name == "br_if"
      || name == "br_table"
    || name == "return"
  }

  lemma TypedIsNotControl(name: string)
    requires Typed(name).Some?
    ensures !IsControl(name)
  {
    assert name[..3][0] == name[0] && name[..3][1] == name[1] && name[3] == '.';
    StartsLike(name, "block", 0);
    StartsLike(name, "loop", 0);
    StartsLike(name, "if", 1);
  }

  lemma PlainIsNotControl(name: string)
    requires PlainArity(name).Some? || PlainEffect(name).Some?
    ensures !IsControl(name)
  {
    StartsLike(name, "block", 0);
    StartsLike(name, "loop", 2);
    StartsLike(name, "if", 0);
  }

  predicate MovesByArity(item: Item) {
    item.arity.Some? ==> MoveOf(item.kind) == Some(item.arity.value.pushes - item.arity.value.pops)
  }

  ghost predicate FollowsTable(items: seq<Item>) { forall k :: 0 <= k < |items| ==> MovesByArity(items[k]) }

  lemma ItemsFollowTable(instrs: seq<Instr>)
    ensures FollowsTable(Items(instrs))
  {
    forall k | 0 <= k < |instrs| ensures MovesByArity(ItemOf(instrs[k].name)) {
      if ArityOf(instrs[k].name).Some? { ArityIsMove(instrs[k].name); }
    }
  }

  /** On bodies the machine runs without underflow, the scan's maximum and final depths are the machine's. */
  lemma {:induction false} ScanIsMachine(items: seq<Item>)
    requires FollowsTable(items) && HeightAfter(items).Some?
    ensures var s := ScanOf(items);
      && HeightAfter(items) == Some(s.current) && IsMaxHeight(items, s.max) && s.status == Exact && s.unsupported == []
  {
    if items == [] {
      assert HeightAfter(items[..0]) == Some(0);
    } else {
      var n := |items| - 1;
      ScanIsMachine(items[..n]);
      MaxHeightStep(items, ScanOf(items[..n]).max, ScanOf(items).current);
    }
  }

  lemma MaxHeightStep(items: seq<Item>, max: int, height: int)
    requires items != [] && IsMaxHeight(items[..|items| - 1], max) && HeightAfter(items) == Some(height)
    ensures IsMaxHeight(items, Max(max, height))
  {
    var n := |items| - 1;
    assert items[..n + 1] == items;
    forall j | 0 <= j <= n + 1
      ensures HeightAfter(items[..j]).Some? && HeightAfter(items[..j]).value <= Max(max, height)
    {
      if j <= n { PrefixOfPrefix(items, j, n); }
    }
    if height <= max {
      var k :| 0 <= k <= n && HeightAfter(items[..n][..k]) == Some(max);
      PrefixOfPrefix(items, k, n);
    }
  }

  lemma PrefixOfPrefix(items: seq<Item>, k: nat, n: nat)
    requires k <= n <= |items|
    ensures items[..n][..k] == items[..k]
  {}

  /**
   * For every body of table instructions, with or without its closing `end`, that never underflows,
   * the report is exact and gives the machine's heights.
   */
  lemma StraightLineReport(f: Func, i: nat)
    requires HeightAfter(Items(InstructionsOf(f))).Some?
    ensures var m, items := Report(f, i), Items(InstructionsOf(f));
      && m.analysisStatus == Exact && HeightAfter(items) == Some(m.finalStackDepth)
      && IsMaxHeight(items, m.maxStackDepth)
  {
    var items := Items(InstructionsOf(f));
    ItemsFollowTable(InstructionsOf(f));
    ScanIsMachine(items);
    assert items[..0] == [] && HeightAfter(items[..0]) == Some(0);
  }

  // ----- Status -----

  predicate IsInexact(k: Kind) { k.Call? || k.CallIndirect? || k.Return? || k.Unknown? }

  ghost predicate AllExact(items: seq<Item>) { forall k :: 0 <= k < |items| ==> !IsInexact(items[k].kind) }

  ghost predicate Occurs(items: seq<Item>, name: string) {
    exists k :: 0 <= k < |items| && items[k].name == name && items[k].kind.Unknown?
  }

  lemma OccursStep(items: seq<Item>, name: string)
    requires items != []
    ensures var last := items[|items| - 1];
      Occurs(items, name) <==> Occurs(items[..|items| - 1], name) || (last.name == name && last.kind.Unknown?)
  {
    var n := |items| - 1;
    if Occurs(items[..n], name) {
      var k :| 0 <= k < n && items[..n][k].name == name && items[..n][k].kind.Unknown?;
      assert items[k].name == name;
    }
    if Occurs(items, name) {
      var k :| 0 <= k < |items| && items[k].name == name && items[k].kind.Unknown?;
      if k < n { assert items[..n][k].name == name; }
    }
  }

  /** The unsupported names are the distinct unknown ones that occur. */
  lemma {:induction false} UnsupportedAreUnknown(items: seq<Item>)
    ensures NoDuplicates(ScanOf(items).unsupported)
    ensures forall name :: name in ScanOf(items).unsupported <==> Occurs(items, name)
  {
    if items != [] {
      var n := |items| - 1;
      UnsupportedAreUnknown(items[..n]);
      forall name ensures name in ScanOf(items).unsupported <==> Occurs(items, name) {
        OccursStep(items, name);
      }
    }
  }

  lemma AllExactStep(items: seq<Item>)
    requires items != []
    ensures AllExact(items) <==> AllExact(items[..|items| - 1]) && !IsInexact(items[|items| - 1].kind)
  {
    var n := |items| - 1;
    assert forall k :: 0 <= k < n ==> items[..n][k] == items[k];
  }

  lemma {:induction false} ExactScanIff(items: seq<Item>)
    ensures ScanOf(items).status != Failed && ScanOf(items).min <= 0
    ensures ScanOf(items).status == Exact <==> AllExact(items)
    ensures ScanOf(items).status == Exact ==> ScanOf(items).unsupported == []
  {
    if items != [] {
      var n := |items| - 1;
      ExactScanIff(items[..n]);
      AllExactStep(items);
    }
  }

  /** The last instruction that keeps the scan from being exact is an unknown one, not a call or a return. */
  ghost predicate LastInexactIsUnknown(items: seq<Item>) {
    exists k :: UnknownFromHere(items, k)
  }

  ghost predicate UnknownFromHere(items: seq<Item>, k: int) {
    0 <= k < |items| && items[k].kind.Unknown? && forall j :: k < j < |items| ==> !IsInexact(items[j].kind)
  }

  lemma LastInexactStep(items: seq<Item>)
    requires items != []
    ensures var last := Last(items).kind;
      LastInexactIsUnknown(items) <==>
        last.Unknown? || (!IsInexact(last) && LastInexactIsUnknown(items[..|items| - 1]))
  {
    var n := |items| - 1;
    if items[n].kind.Unknown? { assert UnknownFromHere(items, n); }
    if LastInexactIsUnknown(items[..n]) && !IsInexact(items[n].kind) {
      var k :| UnknownFromHere(items[..n], k);
      assert forall j :: k < j < n ==> items[..n][j] == items[j];
      assert UnknownFromHere(items, k);
    }
    if LastInexactIsUnknown(items) && !items[n].kind.Unknown? {
      var k :| UnknownFromHere(items, k);
      assert UnknownFromHere(items[..n], k);
    }
  }

  /** The scan is partial exactly with more than three unknown names and no call or return after the last of them. */
  lemma {:induction false} PartialScanIff(items: seq<Item>)
    ensures ScanOf(items).status == Partial <==> |ScanOf(items).unsupported| > 3 && LastInexactIsUnknown(items)
  {
    if items != [] {
      PartialScanIff(items[..|items| - 1]);
      LastInexactStep(items);
    }
  }

  /** The names of the instructions the table does not list. */
  function UnknownNames(items: seq<Item>): set<string> {
    set k | 0 <= k < |items| && items[k].kind.Unknown? :: items[k].name
  }

  lemma UnknownNamesCount(items: seq<Item>)
    ensures |ScanOf(items).unsupported| == |UnknownNames(items)|
  {
    UnsupportedAreUnknown(items);
    DistinctSize(ScanOf(items).unsupported);
    forall name ensures name in Elements(ScanOf(items).unsupported) <==> name in UnknownNames(items) {
      assert name in ScanOf(items).unsupported <==> Occurs(items, name);
    }
    assert Elements(ScanOf(items).unsupported) == UnknownNames(items);
  }

  /** When the report has each status: together the four conditions leave no case open. */
  lemma StatusIff(f: Func, i: nat)
    ensures var m, items := Report(f, i), Items(InstructionsOf(f));
      var unknown := |UnknownNames(items)|;
      && (m.analysisStatus == Exact <==> AllExact(items))
      && (m.analysisStatus == Partial <==> 3 < unknown <= 10 && LastInexactIsUnknown(items))
      && (m.analysisStatus == Estimated <==>
           !AllExact(items) && unknown <= 10 && !(unknown > 3 && LastInexactIsUnknown(items)))
      && (m.analysisStatus == Failed <==> unknown > 10)
      && m.minStackDepth == 0
  {
    ExactScanIff(Items(InstructionsOf(f)));
    PartialScanIff(Items(InstructionsOf(f)));
    UnknownNamesCount(Items(InstructionsOf(f)));
  }

  /** The unknown names, and those that make a report an estimate, told by the name alone. */
  lemma UnknownIff(name: string)
    ensures KindOf(name).Unknown? <==>
      && StackEffect(name).None?
      && name !in {"", "end", "else", "return", "call", "call_indirect", "br", "br_if", "br_table"}
      && !("block" <= name) && !("loop" <= name) && !("if" <= name)
    ensures IsInexact(KindOf(name)) <==> name in {"call", "call_indirect", "return"} || KindOf(name).Unknown?
  {
    StartsWithIff(name, "block");
    StartsWithIff(name, "loop");
    StartsWithIff(name, "if");
    ReturnIsNotStructured();
    if StackEffect(name).Some? { TableIsNotControl(name); }
  }

  /** The names reported are the unknown ones among the instructions, each once. */
  lemma ReportedNames(f: Func, i: nat)
    ensures NoDuplicates(Report(f, i).unsupportedInstructions)
    ensures forall name :: name in Report(f, i).unsupportedInstructions <==>
      KindOf(name).Unknown? && exists k :: 0 <= k < |InstructionsOf(f)| && InstructionsOf(f)[k].name == name
  {
    var instrs := InstructionsOf(f);
    UnsupportedAreUnknown(Items(instrs));
    forall name
      ensures name in Report(f, i).unsupportedInstructions <==>
        KindOf(name).Unknown? && exists k :: 0 <= k < |instrs| && instrs[k].name == name
    {
      OccursIff(instrs, name);
    }
  }

  lemma OccursIff(instrs: seq<Instr>, name: string)
    ensures Occurs(Items(instrs), name) <==>
      KindOf(name).Unknown? && exists k :: 0 <= k < |instrs| && instrs[k].name == name
  {
    if Occurs(Items(instrs), name) {
      var k :| 0 <= k < |instrs| && Items(instrs)[k].name == name && Items(instrs)[k].kind.Unknown?;
      assert instrs[k].name == name;
    }
    if KindOf(name).Unknown? && exists k :: 0 <= k < |instrs| && instrs[k].name == name {
      var k :| 0 <= k < |instrs| && instrs[k].name == name;
      assert Items(instrs)[k].name == name;
    }
  }

  /** A store of a constant at a constant address. */
  const STORED := [Instr("i32.const", Some(8)), Instr("i32.const", Some(1)), Instr("i32.store", None)]

  lemma StoreEffects()
    ensures StackEffect("i32.const") == Some(1) && StackEffect("i32.store") == Some(-2)
  {
    assert "i32.const" == "i32" + "." + "const" && "i32.store" == "i32" + "." + "store";
    IntConstAndStoreRows("i32", "const");
    IntConstAndStoreRows("i32", "store");
  }

  lemma StoredItems()
    ensures Items(STORED) == [ItemOf("i32.const")] + [ItemOf("i32.const")] + [ItemOf("i32.store")]
  {}

  /** Two operands, both popped again: greatest depth 2, final depth 0, three operations. */
  lemma StoreReport(i: nat)
    ensures Report(Func("", Some(STORED)), i).maxStackDepth == 2
    ensures Report(Func("", Some(STORED)), i).finalStackDepth == 0
    ensures Report(Func("", Some(STORED)), i).stackEffectOperations == 3
  {
    StoreEffects();
    TableKind("i32.const");
    TableKind("i32.store");
    StoredItems();
    StoreScan(ItemOf("i32.const"), ItemOf("i32.store"));
  }

  lemma StoreScan(c: Item, w: Item)
    requires c.kind == Table(1) && w.kind == Table(-2)
    ensures var s := ScanOf([c] + [c] + [w]);
      s.max == 2 && s.current == 0 && s.operations == 3
  {
    assert [] + [c] == [c];
    OneMoreItem([], c);
    OneMoreItem([c], c);
    OneMoreItem([c] + [c], w);
  }

  /** Four instructions the table does not list, without and with a call after them. */
  const FOUR_UNKNOWN := [Instr("memory.fill", None), Instr("memory.copy", None), Instr("memory.init", None),
    Instr("data.drop", None)]

  const THEN_A_CALL := FOUR_UNKNOWN + [Instr("call", Some(0))]

  lemma UnlistedMemoryName(name: string)
    requires |name| == 11 && name[0] == 'm' && name[3] == 'o' && name[7] != 's' && name[7] != 'g'
    ensures KindOf(name) == Unknown
  {
    assert "memory.size"[7] == 's' && "memory.grow"[7] == 'g' && "unreachable"[0] == 'u';
    StartsLike(name, "block", 0);
    StartsLike(name, "loop", 0);
    StartsLike(name, "if", 0);
  }

  lemma UnlistedDataName(name: string)
    requires |name| == 9 && name[0] == 'd' && name[3] == 'a'
    ensures KindOf(name) == Unknown
  {
    assert "local.get"[0] == "local.set"[0] == "local.tee"[0] == 'l' && "table.get"[0] == "table.set"[0] == 't';
    StartsLike(name, "block", 0);
    StartsLike(name, "loop", 0);
    StartsLike(name, "if", 0);
  }

  lemma OneMoreItem(items: seq<Item>, item: Item)
    ensures ScanOf(items + [item]) == Track(Step(ScanOf(items), item))
  {
    assert (items + [item])[..|items|] == items;
  }

  lemma OneMoreUnknown(items: seq<Item>, item: Item, names: seq<string>)
    requires item.kind == Unknown && ScanOf(items).unsupported == names && item.name !in names
    ensures ScanOf(items + [item]).unsupported == names + [item.name]
    ensures ScanOf(items + [item]).status == if |names| >= 3 then Partial else Estimated
  {
    OneMoreItem(items, item);
  }

  lemma FourUnknownScan(a: Item, b: Item, c: Item, d: Item)
    requires a.kind == b.kind == c.kind == d.kind == Unknown
    requires a.name != b.name && c.name !in [a.name, b.name] && d.name !in [a.name, b.name, c.name]
    ensures ScanOf([a] + [b] + [c] + [d]).status == Partial && |ScanOf([a] + [b] + [c] + [d]).unsupported| == 4
  {
    assert [] + [a] == [a] && [] + [a.name] == [a.name];
    OneMoreUnknown([], a, []);
    assert [a.name] + [b.name] == [a.name, b.name] && [a.name, b.name] + [c.name] == [a.name, b.name, c.name];
    OneMoreUnknown([a], b, [a.name]);
    OneMoreUnknown([a] + [b], c, [a.name, b.name]);
    OneMoreUnknown([a] + [b] + [c], d, [a.name, b.name, c.name]);
  }

  lemma ItemsConcat(xs: seq<Instr>, ys: seq<Instr>)
    ensures Items(xs + ys) == Items(xs) + Items(ys)
  {}

  lemma FourUnknownNames()
    ensures KindOf("memory.fill") == KindOf("memory.copy") == KindOf("memory.init") == KindOf("data.drop") == Unknown
  {
    UnlistedMemoryName("memory.fill");
    UnlistedMemoryName("memory.copy");
    UnlistedMemoryName("memory.init");
    UnlistedDataName("data.drop");
  }

  lemma FourUnknownItems()
    ensures Items(FOUR_UNKNOWN) ==
      [ItemOf("memory.fill")] + [ItemOf("memory.copy")] + [ItemOf("memory.init")] + [ItemOf("data.drop")]
  {
    FourItems(FOUR_UNKNOWN[0], FOUR_UNKNOWN[1], FOUR_UNKNOWN[2], FOUR_UNKNOWN[3]);
  }

  lemma FourItems(a: Instr, b: Instr, c: Instr, d: Instr)
    ensures Items([a, b, c, d]) == [ItemOf(a.name)] + [ItemOf(b.name)] + [ItemOf(c.name)] + [ItemOf(d.name)]
  {}

  lemma FourUnknownBody()
    ensures ScanOf(Items(FOUR_UNKNOWN)).status == Partial && |ScanOf(Items(FOUR_UNKNOWN)).unsupported| == 4
  {
    FourUnknownNames();
    NamesDiffer();
    FourUnknownItems();
    FourUnknownScan(ItemOf("memory.fill"), ItemOf("memory.copy"), ItemOf("memory.init"), ItemOf("data.drop"));
  }

  lemma CallAfter(items: seq<Item>, call: Item)
    requires call.kind == Call
    ensures ScanOf(items + [call]).status == Estimated
    ensures ScanOf(items + [call]).unsupported == ScanOf(items).unsupported
  {
    OneMoreItem(items, call);
  }

  lemma CallIsLast()
    ensures Items(THEN_A_CALL) == Items(FOUR_UNKNOWN) + [ItemOf("call")] && ItemOf("call").kind == Call
  {
    ItemsConcat(FOUR_UNKNOWN, [Instr("call", Some(0))]);
    assert Items([Instr("call", Some(0))]) == [ItemOf("call")];
  }

  /** A call after four unknown names turns the status from partial to estimated, with the same names reported. */
  lemma LaterCallHidesPartial(i: nat)
    ensures Report(Func("", Some(FOUR_UNKNOWN)), i).analysisStatus == Partial
    ensures Report(Func("", Some(THEN_A_CALL)), i).analysisStatus == Estimated
    ensures |Report(Func("", Some(THEN_A_CALL)), i).unsupportedInstructions| == 4
  {
    FourUnknownBody();
    CallIsLast();
    CallAfter(Items(FOUR_UNKNOWN), ItemOf("call"));
    ReportedStatus(FOUR_UNKNOWN, i);
    ReportedStatus(THEN_A_CALL, i);
  }

  lemma ReportedStatus(body: seq<Instr>, i: nat)
    requires |ScanOf(Items(body)).unsupported| <= 10
    ensures Report(Func("", Some(body)), i).analysisStatus == ScanOf(Items(body)).status
    ensures Report(Func("", Some(body)), i).unsupportedInstructions == ScanOf(Items(body)).unsupported
  {}

  lemma NamesDiffer()
    ensures "memory.fill" != "memory.copy" && "memory.fill" != "memory.init" && "memory.copy" != "memory.init"
    ensures "data.drop" !in ["memory.fill", "memory.copy", "memory.init"]
  {
    assert "memory.fill"[7] == 'f' && "memory.copy"[7] == 'c' && "memory.init"[7] == 'i';
  }
}
