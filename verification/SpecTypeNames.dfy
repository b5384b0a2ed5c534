/** Contract spec types, the notation `resolveTypeName` prints and the slices `toTypeScriptType` takes of it. */
module SpecTypeNames {
  import opened Numerals

  datatype Primitive =
    | Val | Bool | Void | Error | U32 | I32 | U64 | I64 | Timepoint | Duration
    | U128 | I128 | U256 | I256 | Bytes | Str | Symbol | Address

  /** `Unrecognized` is any type kind the printer has no case for. */
  datatype SpecType =
    | Prim(p: Primitive)
    | OptionOf(value: SpecType)
    | ResultOf(ok: SpecType, err: SpecType)
    | VecOf(element: SpecType)
    | MapOf(key: SpecType, mapped: SpecType)
    | TupleOf(items: seq<SpecType>)
    | BytesN(n: nat)
    | Udt(name: string)
    | Unrecognized

  function PrimitiveName(p: Primitive): string {
    match p
    case Val => "val" case Bool => "bool" case Void => "void" case Error => "error"
    case U32 => "u32" case I32 => "i32" case U64 => "u64" case I64 => "i64"
    case Timepoint => "timepoint" case Duration => "duration"
    case U128 => "u128" case I128 => "i128" case U256 => "u256" case I256 => "i256"
    case Bytes => "bytes" case Str => "string" case Symbol => "symbol" case Address => "address"
  }

  /** `resolveTypeName` */
  function TypeName(t: SpecType): string
    decreases t
  {
    match t
    case Prim(p) => PrimitiveName(p)
    case OptionOf(v) => "Option<" + TypeName(v) + ">"
    case ResultOf(a, b) => "Result<" + TypeName(a) + ", " + TypeName(b) + ">"
    case VecOf(e) => "Vec<" + TypeName(e) + ">"
    case MapOf(k, v) => "Map<" + TypeName(k) + ", " + TypeName(v) + ">"
    case TupleOf(items) => "Tuple<" + TypeNames(items) + ">"
    case BytesN(n) => "BytesN<" + Numeral(n, 10) + ">"
    case Udt(name) => name
    case Unrecognized => "unknown"
  }

  /** `valueTypes().map(resolveTypeName).join(', ')` */
  function TypeNames(ts: seq<SpecType>): string
    decreases ts
  {
    if ts == [] then ""
    else if |ts| == 1 then TypeName(ts[0])
    else TypeName(ts[0]) + ", " + TypeNames(ts[1..])
  }

  /** The printed forms, in full. */
  lemma PrintedForms(a: SpecType, b: SpecType, items: seq<SpecType>)
    ensures TypeName(OptionOf(a)) == "Option<" + TypeName(a) + ">" && TypeName(VecOf(a)) == "Vec<" + TypeName(a) + ">"
    ensures TypeName(ResultOf(a, b)) == "Result<" + TypeName(a) + ", " + TypeName(b) + ">"
    ensures TypeName(MapOf(a, b)) == "Map<" + TypeName(a) + ", " + TypeName(b) + ">"
    ensures TypeName(TupleOf(items)) == "Tuple<" + TypeNames(items) + ">" && TypeName(Unrecognized) == "unknown"
  {}

  lemma PrintedItems(a: SpecType, items: seq<SpecType>)
    ensures TypeNames([]) == "" && TypeNames([a]) == TypeName(a)
    ensures items != [] ==> TypeNames([a] + items) == TypeName(a) + ", " + TypeNames(items)
  {
    assert ([a] + items)[1..] == items;
  }

  lemma PrintedBytes(n: nat)
    ensures exists digits :: TypeName(BytesN(n)) == "BytesN<" + digits + ">" && Value(digits, 10) == n
  {
    NumeralReadsBack(n, 10);
    assert TypeName(BytesN(n)) == "BytesN<" + Numeral(n, 10) + ">";
  }

  lemma PrintedPrimitives()
    ensures forall p :: TypeName(Prim(p)) == PrimitiveName(p)
    ensures PrimitiveName(Val) == "val" && PrimitiveName(Bool) == "bool" && PrimitiveName(Void) == "void"
    ensures PrimitiveName(Error) == "error" && PrimitiveName(Bytes) == "bytes" && PrimitiveName(Str) == "string"
    ensures PrimitiveName(Symbol) == "symbol" && PrimitiveName(Address) == "address"
    ensures PrimitiveName(U32) == "u32" && PrimitiveName(I32) == "i32" && PrimitiveName(U64) == "u64"
    ensures PrimitiveName(I64) == "i64" && PrimitiveName(U128) == "u128" && PrimitiveName(I128) == "i128"
    ensures PrimitiveName(U256) == "u256" && PrimitiveName(I256) == "i256"
    ensures PrimitiveName(Timepoint) == "timepoint" && PrimitiveName(Duration) == "duration"
  {}

  predicate IsIdentifierChar(c: char) {
    'a' <= c <= 'z' || 'A' <= c <= 'Z' || '0' <= c <= '9' || c == '_'
  }

  predicate IsIdentifierRun(s: string) { forall i :: 0 <= i < |s| ==> IsIdentifierChar(s[i]) }

  /** User types are named by non-empty identifiers. */
  predicate PlainNames(t: SpecType)
    decreases t
  {
    match t
    case OptionOf(v) => PlainNames(v)
    case ResultOf(a, b) => PlainNames(a) && PlainNames(b)
    case VecOf(e) => PlainNames(e)
    case MapOf(k, v) => PlainNames(k) && PlainNames(v)
    case TupleOf(items) => forall i :: 0 <= i < |items| ==> PlainNames(items[i])
    case Udt(name) => name != "" && IsIdentifierRun(name)
    case _ => true
  }

  /** The type a bare name is read as: a user type named like a primitive reads as the primitive. */
  function ReadName(name: string): SpecType {
    match name
    case "val" => Prim(Val) case "bool" => Prim(Bool) case "void" => Prim(Void) case "error" => Prim(Error)
    case "u32" => Prim(U32) case "i32" => Prim(I32) case "u64" => Prim(U64) case "i64" => Prim(I64)
    case "timepoint" => Prim(Timepoint) case "duration" => Prim(Duration)
    case "u128" => Prim(U128) case "i128" => Prim(I128) case "u256" => Prim(U256) case "i256" => Prim(I256)
    case "bytes" => Prim(Bytes) case "string" => Prim(Str) case "symbol" => Prim(Symbol) case "address" => Prim(Address)
    case "unknown" => Unrecognized
    case _ => Udt(name)
  }

  lemma ReadPrimitiveName(p: Primitive)
    ensures ReadName(PrimitiveName(p)) == Prim(p)
    ensures PrimitiveName(p) != "" && IsIdentifierRun(PrimitiveName(p))
  {}

  lemma NameOfRead(name: string)
    ensures TypeName(ReadName(name)) == name
  {}

  /** The type with every user type read as its name is read. */
  function Canonical(t: SpecType): SpecType
    decreases t
  {
    match t
    case OptionOf(v) => OptionOf(Canonical(v))
    case ResultOf(a, b) => ResultOf(Canonical(a), Canonical(b))
    case VecOf(e) => VecOf(Canonical(e))
    case MapOf(k, v) => MapOf(Canonical(k), Canonical(v))
    case TupleOf(items) => TupleOf(seq(|items|, i requires 0 <= i < |items| => Canonical(items[i])))
    case Udt(name) => ReadName(name)
    case _ => t
  }

  // ----- Unique readability -----

  /** What may follow a type inside a larger one: the end, a comma or a closing bracket. */
  predicate IsStop(x: string) { x == "" || x[0] == ',' || x[0] == '>' }

  predicate EndsRun(x: string) { x == "" || !IsIdentifierChar(x[0]) }

  function RunLength(s: string): nat { if s != "" && IsIdentifierChar(s[0]) then 1 + RunLength(s[1..]) else 0 }

  lemma {:induction false} RunLengthOf(a: string, x: string)
    requires IsIdentifierRun(a) && EndsRun(x)
    ensures RunLength(a + x) == |a|
  {
    if a == "" {
      assert a + x == x;
    } else {
      assert (a + x)[1..] == a[1..] + x;
      RunLengthOf(a[1..], x);
    }
  }

  /** The leading run of identifier characters of a string is determined. */
  lemma SameRun(a: string, x: string, b: string, y: string)
    requires IsIdentifierRun(a) && IsIdentifierRun(b) && EndsRun(x) && EndsRun(y) && a + x == b + y
    ensures a == b && x == y
  {
    RunLengthOf(a, x);
    RunLengthOf(b, y);
    assert a == (a + x)[..|a|] && b == (b + y)[..|b|];
    assert x == (a + x)[|a|..] && y == (b + y)[|b|..];
  }

  /** The constructor name or bare name a printed type begins with. */
  function Head(t: SpecType): string {
    match t
    case OptionOf(_) => "Option"
    case ResultOf(_, _) => "Result"
    case VecOf(_) => "Vec"
    case MapOf(_, _) => "Map"
    case TupleOf(_) => "Tuple"
    case BytesN(_) => "BytesN"
    case _ => TypeName(t)
  }

  function Inside(t: SpecType): string {
    match t
    case OptionOf(v) => TypeName(v)
    case ResultOf(a, b) => TypeName(a) + ", " + TypeName(b)
    case VecOf(e) => TypeName(e)
    case MapOf(k, v) => TypeName(k) + ", " + TypeName(v)
    case TupleOf(items) => TypeNames(items)
    case BytesN(n) => Numeral(n, 10)
    case _ => ""
  }

  predicate IsBare(t: SpecType) { t.Prim? || t.Udt? || t.Unrecognized? }

  function Rest(t: SpecType): string { if IsBare(t) then "" else "<" + Inside(t) + ">" }

  lemma HeadAndRest(t: SpecType)
    requires PlainNames(t)
    ensures TypeName(t) == Head(t) + Rest(t)
    ensures Head(t) != "" && IsIdentifierRun(Head(t))
    ensures IsBare(t) ==> Canonical(t) == ReadName(Head(t))
  {
    if IsBare(t) {
      BareHead(t);
    } else {
      BracketedName(t);
    }
  }

  lemma BareHead(t: SpecType)
    requires PlainNames(t) && IsBare(t)
    ensures Head(t) == TypeName(t) && Head(t) != "" && IsIdentifierRun(Head(t)) && Canonical(t) == ReadName(Head(t))
    ensures TypeName(t) == Head(t) + Rest(t)
  {
    if t.Prim? { ReadPrimitiveName(t.p); }
  }

  lemma Bracket(open: string, head: string, inside: string)
    requires open == head + "<"
    ensures open + inside + ">" == head + ("<" + inside + ">")
  {}

  lemma Joined(open: string, a: string, b: string)
    ensures open + a + ", " + b + ">" == open + (a + ", " + b) + ">"
  {}

  lemma OpeningNames()
    ensures "Option<" == "Option" + "<" && "Result<" == "Result" + "<" && "Vec<" == "Vec" + "<"
    ensures "Map<" == "Map" + "<" && "Tuple<" == "Tuple" + "<" && "BytesN<" == "BytesN" + "<"
  {}

  lemma HeadsAreRuns(t: SpecType)
    requires !IsBare(t)
    ensures Head(t) != "" && IsIdentifierRun(Head(t))
  {}

  lemma BracketedName(t: SpecType)
    requires !IsBare(t)
    ensures TypeName(t) == Head(t) + Rest(t) && Head(t) != "" && IsIdentifierRun(Head(t))
  {
    OpeningNames();
    HeadsAreRuns(t);
    match t
    case OptionOf(v) => Bracket("Option<", "Option", Inside(t));
    case ResultOf(a, b) => Joined("Result<", TypeName(a), TypeName(b)); Bracket("Result<", "Result", Inside(t));
    case VecOf(e) => Bracket("Vec<", "Vec", Inside(t));
    case MapOf(k, v) => Joined("Map<", TypeName(k), TypeName(v)); Bracket("Map<", "Map", Inside(t));
    case TupleOf(items) => Bracket("Tuple<", "Tuple", Inside(t));
    case BytesN(n) => Bracket("BytesN<", "BytesN", Inside(t));
    case _ =>
  }

  lemma Regroup(a: string, b: string, c: string)
    ensures (a + b) + c == a + (b + c)
  {}

  /** What follows the head: the stop itself after a bare name, an opening bracket otherwise. */
  lemma AfterHead(t: SpecType, x: string)
    requires IsStop(x)
    ensures EndsRun(Rest(t) + x)
    ensures IsBare(t) ==> Rest(t) + x == x
    ensures !IsBare(t) ==> (Rest(t) + x)[0] == '<' && (Rest(t) + x)[1..] == Inside(t) + (">" + x)
  {}

  /** Equal strings begin with the same head, and both are bare or both are bracketed around equal insides. */
  lemma SameHead(t: SpecType, x: string, u: SpecType, y: string)
    requires PlainNames(t) && PlainNames(u) && IsStop(x) && IsStop(y) && TypeName(t) + x == TypeName(u) + y
    ensures Head(t) == Head(u) && IsBare(t) == IsBare(u)
    ensures IsBare(t) ==> x == y
    ensures !IsBare(t) ==> Inside(t) + (">" + x) == Inside(u) + (">" + y)
  {
    HeadAndRest(t);
    HeadAndRest(u);
    Regroup(Head(t), Rest(t), x);
    Regroup(Head(u), Rest(u), y);
    AfterHead(t, x);
    AfterHead(u, y);
    SameRun(Head(t), Rest(t) + x, Head(u), Rest(u) + y);
  }

  /** A printed type followed by a stop determines the type, up to canonical names, and the remainder. */
  lemma {:induction false} ReadOne(t: SpecType, x: string, u: SpecType, y: string)
    requires PlainNames(t) && PlainNames(u) && IsStop(x) && IsStop(y) && TypeName(t) + x == TypeName(u) + y
    ensures Canonical(t) == Canonical(u) && x == y
    decreases t, 1
  {
    SameHead(t, x, u, y);
    if IsBare(t) {
      HeadAndRest(t);
      HeadAndRest(u);
    } else {
      SameConstructor(t, u);
      match t
      case OptionOf(v) => ReadOne(v, ">" + x, u.value, ">" + y); SameTail(x, y);
      case VecOf(e) => ReadOne(e, ">" + x, u.element, ">" + y); SameTail(x, y);
      case ResultOf(a, b) => ReadTwo(t, a, b, x, u.ok, u.err, y);
      case MapOf(k, v) => ReadTwo(t, k, v, x, u.key, u.mapped, y);
      case TupleOf(items) => ReadMany(items, x, u.items, y);
      case BytesN(n) => ReadNumber(n, x, u.n, y);
    }
  }

  lemma SameTail(x: string, y: string)
    requires ">" + x == ">" + y
    ensures x == y
  {
    assert (">" + x)[1..] == x && (">" + y)[1..] == y;
  }

  lemma SameConstructor(t: SpecType, u: SpecType)
    requires !IsBare(t) && !IsBare(u) && Head(t) == Head(u)
    ensures (t.OptionOf? <==> u.OptionOf?) && (t.ResultOf? <==> u.ResultOf?) && (t.VecOf? <==> u.VecOf?)
    ensures (t.MapOf? <==> u.MapOf?) && (t.TupleOf? <==> u.TupleOf?) && (t.BytesN? <==> u.BytesN?)
  {
    assert |"Option"| == 6 && |"Result"| == 6 && |"Vec"| == 3 && |"Map"| == 3 && |"Tuple"| == 5 && |"BytesN"| == 6;
    assert "Option"[0] == 'O' && "Result"[0] == 'R' && "BytesN"[0] == 'B' && "Vec"[0] == 'V' && "Map"[0] == 'M';
  }

  lemma {:induction false} ReadTwo(t: SpecType, a: SpecType, b: SpecType, x: string, c: SpecType, d: SpecType,
      y: string)
    requires t == ResultOf(a, b) || t == MapOf(a, b)
    requires PlainNames(a) && PlainNames(b) && PlainNames(c) && PlainNames(d) && IsStop(x) && IsStop(y)
    requires TypeName(a) + ", " + TypeName(b) + (">" + x) == TypeName(c) + ", " + TypeName(d) + (">" + y)
    ensures Canonical(a) == Canonical(c) && Canonical(b) == Canonical(d) && x == y
    decreases t, 0
  {
    var p, q := Second(TypeName(b), x), Second(TypeName(d), y);
    SplitTwo(TypeName(a), TypeName(b), x);
    SplitTwo(TypeName(c), TypeName(d), y);
    ReadOne(a, p, c, q);
    ReadOne(b, ">" + x, d, ">" + y);
    SameTail(x, y);
  }

  /** What follows the first of two arguments. */
  function Second(b: string, x: string): string { ", " + (b + (">" + x)) }

  lemma SplitTwo(a: string, b: string, x: string)
    ensures a + ", " + b + (">" + x) == a + Second(b, x)
    ensures IsStop(Second(b, x)) && Second(b, x)[2..] == b + (">" + x)
  {}

  lemma ReadNumber(m: nat, x: string, n: nat, y: string)
    requires Numeral(m, 10) + (">" + x) == Numeral(n, 10) + (">" + y)
    ensures m == n && x == y
  {
    NumeralIsRun(m);
    NumeralIsRun(n);
    SameRun(Numeral(m, 10), ">" + x, Numeral(n, 10), ">" + y);
    NumeralInjective(m, n, 10);
    SameTail(x, y);
  }

  lemma NumeralIsRun(n: nat)
    ensures IsIdentifierRun(Numeral(n, 10))
  {
    forall c | c in DIGITS ensures IsIdentifierChar(c) {}
  }

  lemma {:induction false} ReadMany(ts: seq<SpecType>, x: string, us: seq<SpecType>, y: string)
    requires (forall i :: 0 <= i < |ts| ==> PlainNames(ts[i])) && (forall i :: 0 <= i < |us| ==> PlainNames(us[i]))
    requires IsStop(x) && IsStop(y) && TypeNames(ts) + (">" + x) == TypeNames(us) + (">" + y)
    ensures x == y && |ts| == |us| && forall i :: 0 <= i < |ts| ==> Canonical(ts[i]) == Canonical(us[i])
    decreases ts
  {
    if ts == [] || us == [] {
      NoItems(ts, x, us, y);
    } else {
      var p, q := TailOf(ts, x), TailOf(us, y);
      ItemsSplit(ts, x);
      ItemsSplit(us, y);
      assert |ts| == 1 <==> p[0] == '>';
      assert |us| == 1 <==> q[0] == '>';
      ReadOne(ts[0], p, us[0], q);
      if |ts| == 1 {
        SameTail(x, y);
      } else {
        assert p[2..] == TypeNames(ts[1..]) + (">" + x) && q[2..] == TypeNames(us[1..]) + (">" + y);
        ReadMany(ts[1..], x, us[1..], y);
      }
    }
  }

  /** What follows the first item of a tuple. */
  function TailOf(ts: seq<SpecType>, x: string): string
    requires ts != []
  {
    if |ts| == 1 then ">" + x else ", " + (TypeNames(ts[1..]) + (">" + x))
  }

  lemma ItemsSplit(ts: seq<SpecType>, x: string)
    requires ts != []
    ensures TypeNames(ts) + (">" + x) == TypeName(ts[0]) + TailOf(ts, x)
  {}

  lemma FirstCharIsIdentifier(ts: seq<SpecType>, x: string)
    requires ts != [] && forall i :: 0 <= i < |ts| ==> PlainNames(ts[i])
    ensures TypeNames(ts) + (">" + x) != "" && IsIdentifierChar((TypeNames(ts) + (">" + x))[0])
  {
    HeadAndRest(ts[0]);
    ItemsSplit(ts, x);
    assert (TypeName(ts[0]) + TailOf(ts, x))[0] == Head(ts[0])[0];
  }

  lemma NoItems(ts: seq<SpecType>, x: string, us: seq<SpecType>, y: string)
    requires (forall i :: 0 <= i < |ts| ==> PlainNames(ts[i])) && (forall i :: 0 <= i < |us| ==> PlainNames(us[i]))
    requires (ts == [] || us == []) && TypeNames(ts) + (">" + x) == TypeNames(us) + (">" + y)
    ensures ts == us == [] && x == y
  {
    assert ts == [] ==> TypeNames(ts) + (">" + x) == ">" + x;
    assert us == [] ==> TypeNames(us) + (">" + y) == ">" + y;
    if ts != [] {
      FirstCharIsIdentifier(ts, x);
    } else if us != [] {
      FirstCharIsIdentifier(us, y);
    } else {
      SameTail(x, y);
    }
  }

  lemma {:induction false} CanonicalPrintsAlike(t: SpecType)
    ensures TypeName(Canonical(t)) == TypeName(t)
    decreases t
  {
    match t
    case OptionOf(v) => CanonicalPrintsAlike(v);
    case ResultOf(a, b) => CanonicalPrintsAlike(a); CanonicalPrintsAlike(b);
    case VecOf(e) => CanonicalPrintsAlike(e);
    case MapOf(k, v) => CanonicalPrintsAlike(k); CanonicalPrintsAlike(v);
    case TupleOf(items) => CanonicalItemsPrintAlike(items, Canonical(t).items);
    case Udt(name) => NameOfRead(name);
    case _ =>
  }

  lemma {:induction false} CanonicalItemsPrintAlike(ts: seq<SpecType>, cs: seq<SpecType>)
    requires |ts| == |cs| && forall i :: 0 <= i < |ts| ==> cs[i] == Canonical(ts[i])
    ensures TypeNames(cs) == TypeNames(ts)
    decreases ts
  {
    if ts != [] {
      CanonicalPrintsAlike(ts[0]);
      CanonicalItemsPrintAlike(ts[1..], cs[1..]);
    }
  }

  /** Two types print alike exactly when they are the same up to user types named like primitives. */
  lemma PrintsAlikeIff(t: SpecType, u: SpecType)
    requires PlainNames(t) && PlainNames(u)
    ensures TypeName(t) == TypeName(u) <==> Canonical(t) == Canonical(u)
  {
    if TypeName(t) == TypeName(u) {
      assert TypeName(t) + "" == TypeName(u) + "";
      ReadOne(t, "", u, "");
    }
    CanonicalPrintsAlike(t);
    CanonicalPrintsAlike(u);
  }

  /** No user type is named like a primitive, or `unknown`. */
  predicate NoReservedNames(t: SpecType)
    decreases t
  {
    match t
    case OptionOf(v) => NoReservedNames(v)
    case ResultOf(a, b) => NoReservedNames(a) && NoReservedNames(b)
    case VecOf(e) => NoReservedNames(e)
    case MapOf(k, v) => NoReservedNames(k) && NoReservedNames(v)
    case TupleOf(items) => forall i :: 0 <= i < |items| ==> NoReservedNames(items[i])
    case Udt(name) => ReadName(name) == t
    case _ => true
  }

  lemma {:induction false} NoReservedIsCanonical(t: SpecType)
    requires NoReservedNames(t)
    ensures Canonical(t) == t
    decreases t
  {
    match t
    case OptionOf(v) => NoReservedIsCanonical(v);
    case ResultOf(a, b) => NoReservedIsCanonical(a); NoReservedIsCanonical(b);
    case VecOf(e) => NoReservedIsCanonical(e);
    case MapOf(k, v) => NoReservedIsCanonical(k); NoReservedIsCanonical(v);
    case TupleOf(items) =>
      forall i | 0 <= i < |items| ensures Canonical(items[i]) == items[i] { NoReservedIsCanonical(items[i]); }
      assert Canonical(t).items == items;
    case _ =>
  }

  /** Without reserved names the printed string determines the type. */
  lemma UniquelyReadable(t: SpecType, u: SpecType)
    requires PlainNames(t) && PlainNames(u) && NoReservedNames(t) && NoReservedNames(u) && TypeName(t) == TypeName(u)
    ensures t == u
  {
    PrintsAlikeIff(t, u);
    NoReservedIsCanonical(t);
    NoReservedIsCanonical(u);
  }
}
