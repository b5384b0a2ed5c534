/**
 * `toTypeScriptType` recovers structure from a printed type by slicing; here it is compared with
 * translating the type itself.
 */
module TypeScriptTypes {
  import opened Collections
  import opened SpecTypeNames

  function PrimitiveTarget(p: Primitive): string {
    match p
    case Val => "unknown" case Bool => "boolean" case Void => "void" case Error => "unknown"
    case U32 => "number" case I32 => "number"
    case U64 => "bigint" case I64 => "bigint" case U128 => "bigint" case I128 => "bigint"
    case U256 => "bigint" case I256 => "bigint" case Timepoint => "bigint" case Duration => "bigint"
    case Bytes => "Buffer" case Str => "string" case Symbol => "string" case Address => "string"
  }

  /** Names every plain object inherits: looking them up in the table finds something that is not a type text. */
  predicate IsInherited(s: string) { IsObjectMember(s) || IsObjectQuery(s) || IsLegacyMember(s) }

  predicate IsObjectMember(s: string) {
    s == "constructor" || s == "toString" || s == "toLocaleString" || s == "valueOf" || s == "__proto__"
  }

  predicate IsObjectQuery(s: string) { s == "hasOwnProperty" || s == "isPrototypeOf" || s == "propertyIsEnumerable" }

  predicate IsLegacyMember(s: string) {
    s == "__defineGetter__" || s == "__defineSetter__" || s == "__lookupGetter__" || s == "__lookupSetter__"
  }

  datatype Lookup = Found(target: string) | Inherited | Missing

  /** `primitives[type]` */
  function LookUp(s: string): Lookup {
    if IsInherited(s) then Inherited
    else match ReadName(s)
      case Prim(p) => Found(PrimitiveTarget(p))
      case _ => Missing
  }

  predicate EndsWithBracket(s: string) { s != "" && s[|s| - 1] == '>' }

  /** The translation over any table; no result when a lookup finds an inherited property. */
  function Translate(table: string -> Lookup, s: string): Option<string>
    decreases |s|
  {
    match table(s)
    case Found(target) => Some(target)
    case Inherited => None
    case Missing =>
      if StartsWith(s, "Vec<") && EndsWithBracket(s) then
        assert s[3] == "Vec<"[3];
        match Translate(table, s[4..|s| - 1])
        case Some(e) => Some("Array<" + e + ">")
        case None => None
      else if StartsWith(s, "Option<") && EndsWithBracket(s) then
        assert s[6] == "Option<"[6];
        match Translate(table, s[7..|s| - 1])
        case Some(v) => Some(v + " | undefined")
        case None => None
      else if StartsWith(s, "BytesN<") then Some("Buffer")
      else if StartsWith(s, "Tuple<") then Some("unknown[]")
      else if StartsWith(s, "Map<") then Some("Map<unknown, unknown>")
      else if StartsWith(s, "Result<") then Some("unknown")
      else Some(s)
  }

  /** `toTypeScriptType` */
  function ToTypeScript(s: string): Option<string> { Translate(LookUp, s) }

  /** The translation read off the type itself. */
  function Target(t: SpecType): string {
    match t
    case Prim(p) => PrimitiveTarget(p)
    case VecOf(e) => "Array<" + Target(e) + ">"
    case OptionOf(v) => Target(v) + " | undefined"
    case BytesN(_) => "Buffer"
    case TupleOf(_) => "unknown[]"
    case MapOf(_, _) => "Map<unknown, unknown>"
    case ResultOf(_, _) => "unknown"
    case Udt(name) => name
    case Unrecognized => "unknown"
  }

  /** The type left after taking off the vectors and options the translation goes through. */
  function Core(t: SpecType): SpecType {
    match t
    case VecOf(e) => Core(e)
    case OptionOf(v) => Core(v)
    case _ => t
  }

  /** A user type name the slicing takes for something else: an inherited name, or a primitive's with another target. */
  predicate IsMisread(table: string -> Lookup, name: string) {
    table(name).Inherited? || (table(name).Found? && table(name).target != name)
  }

  /** What the proof needs of the table: it finds identifiers only, every primitive, and not `unknown`. */
  ghost predicate IsTable(table: string -> Lookup) {
    && (forall s :: table(s) != Missing ==> IsIdentifierRun(s))
    && (forall p :: table(PrimitiveName(p)) == Found(PrimitiveTarget(p)))
    && table("unknown") == Missing
  }

  lemma LookUpIsTable()
    ensures IsTable(LookUp)
  {
    forall s | LookUp(s) != Missing ensures IsIdentifierRun(s) { FoundNamesAreRuns(s); }
    forall p ensures LookUp(PrimitiveName(p)) == Found(PrimitiveTarget(p)) { PrimitivesAreFound(p); }
    UnknownIsMissing();
  }

  lemma FoundNamesAreRuns(s: string)
    requires LookUp(s) != Missing
    ensures IsIdentifierRun(s)
  {
    if IsInherited(s) {
      InheritedAreRuns(s);
    } else {
      NameOfRead(s);
      PrimitivesAreRuns(ReadName(s));
    }
  }

  lemma PrimitivesAreRuns(t: SpecType)
    requires t.Prim?
    ensures IsIdentifierRun(TypeName(t))
  {
    ReadPrimitiveName(t.p);
  }

  lemma PrimitivesAreFound(p: Primitive)
    ensures LookUp(PrimitiveName(p)) == Found(PrimitiveTarget(p))
  {
    ReadPrimitiveName(p);
    PrimitivesAreNotInherited(p);
  }

  lemma UnknownIsMissing()
    ensures LookUp("unknown") == Missing
  {}

  lemma InheritedAreRuns(s: string)
    requires IsInherited(s)
    ensures IsIdentifierRun(s)
  {
    if IsObjectMember(s) {
      MembersAreRuns(s);
    } else if IsObjectQuery(s) {
      QueriesAreRuns(s);
    } else {
      LegacyMembersAreRuns(s);
    }
  }

  lemma MembersAreRuns(s: string)
    requires IsObjectMember(s)
    ensures IsIdentifierRun(s)
  {}

  lemma QueriesAreRuns(s: string)
    requires IsObjectQuery(s)
    ensures IsIdentifierRun(s)
  {}

  lemma LegacyMembersAreRuns(s: string)
    requires IsLegacyMember(s)
    ensures IsIdentifierRun(s)
  {}

  lemma PrimitivesAreNotInherited(p: Primitive)
    ensures !IsInherited(PrimitiveName(p))
  {}

  lemma Shape(head: string, inside: string)
    ensures var s, h := head + ("<" + inside + ">"), head + "<";
      && |s| > |h| && s[..|h|] == h && s[|h|..|s| - 1] == inside && EndsWithBracket(s) && s[|head|] == '<'
  {
    var s, h := head + ("<" + inside + ">"), head + "<";
    assert s == h + (inside + ">");
  }

  /** A printed bracketed type begins with its constructor and an opening bracket, and ends with a bracket. */
  lemma BracketedShape(t: SpecType)
    requires !IsBare(t)
    ensures var s, h := TypeName(t), Head(t) + "<";
      && |s| > |h| && s[..|h|] == h && s[|h|..|s| - 1] == Inside(t) && EndsWithBracket(s) && !IsIdentifierRun(s)
  {
    BracketedName(t);
    Shape(Head(t), Inside(t));
    assert TypeName(t) == Head(t) + ("<" + Inside(t) + ">");
    assert !IsIdentifierChar(TypeName(t)[|Head(t)|]);
  }

  /** Which of the prefix tests a bracketed type passes. */
  lemma PrefixTests(t: SpecType)
    requires !IsBare(t)
    ensures StartsWith(TypeName(t), "Vec<") <==> t.VecOf?
    ensures StartsWith(TypeName(t), "Option<") <==> t.OptionOf?
    ensures StartsWith(TypeName(t), "BytesN<") <==> t.BytesN?
    ensures StartsWith(TypeName(t), "Tuple<") <==> t.TupleOf?
    ensures StartsWith(TypeName(t), "Map<") <==> t.MapOf?
    ensures StartsWith(TypeName(t), "Result<") <==> t.ResultOf?
  {
    BracketedShape(t);
    var s := TypeName(t);
    assert s[0] == Head(t)[0];
    StartsLike(s, "Vec<", 0);
    StartsLike(s, "Option<", 0);
    StartsLike(s, "BytesN<", 0);
    StartsLike(s, "Tuple<", 0);
    StartsLike(s, "Map<", 0);
    StartsLike(s, "Result<", 0);
    assert "Vec<" == "Vec" + "<" && "Option<" == "Option" + "<" && "BytesN<" == "BytesN" + "<";
    assert "Tuple<" == "Tuple" + "<" && "Map<" == "Map" + "<" && "Result<" == "Result" + "<";
  }

  lemma RunStartsNothing(s: string, part: string)
    requires IsIdentifierRun(s) && part != "" && part[|part| - 1] == '<'
    ensures !StartsWith(s, part)
  {
    StartsLike(s, part, |part| - 1);
  }

  lemma BareTarget(table: string -> Lookup, t: SpecType)
    requires IsTable(table) && PlainNames(t) && IsBare(t)
    ensures Translate(table, TypeName(t)) == Some(Target(t)) <==> !(t.Udt? && IsMisread(table, t.name))
  {
    var s := TypeName(t);
    BareHead(t);
    RunStartsNothing(s, "Vec<");
    RunStartsNothing(s, "Option<");
    RunStartsNothing(s, "BytesN<");
    RunStartsNothing(s, "Tuple<");
    RunStartsNothing(s, "Map<");
    RunStartsNothing(s, "Result<");
  }

  // ----- The translation, case by case -----

  /** The targets of the primitive names. */
  lemma PrimitiveTargets()
    ensures ToTypeScript("val") == ToTypeScript("error") == Some("unknown")
    ensures ToTypeScript("bool") == Some("boolean") && ToTypeScript("void") == Some("void")
    ensures ToTypeScript("u32") == ToTypeScript("i32") == Some("number")
    ensures ToTypeScript("u64") == ToTypeScript("i64") == ToTypeScript("u128") == ToTypeScript("i128") == Some("bigint")
    ensures ToTypeScript("u256") == ToTypeScript("i256") == Some("bigint")
    ensures ToTypeScript("timepoint") == ToTypeScript("duration") == Some("bigint")
    ensures ToTypeScript("bytes") == Some("Buffer")
    ensures ToTypeScript("string") == ToTypeScript("symbol") == ToTypeScript("address") == Some("string")
  {
    forall p ensures ToTypeScript(PrimitiveName(p)) == Some(PrimitiveTarget(p)) { PrimitivesAreFound(p); }
    PrintedPrimitives();
    Targets();
  }

  lemma Targets()
    ensures PrimitiveTarget(Val) == PrimitiveTarget(Error) == "unknown"
    ensures PrimitiveTarget(Bool) == "boolean" && PrimitiveTarget(Void) == "void" && PrimitiveTarget(Bytes) == "Buffer"
    ensures PrimitiveTarget(U32) == PrimitiveTarget(I32) == "number"
    ensures PrimitiveTarget(U64) == PrimitiveTarget(I64) == PrimitiveTarget(U128) == PrimitiveTarget(I128) == "bigint"
    ensures PrimitiveTarget(U256) == PrimitiveTarget(I256) == "bigint"
    ensures PrimitiveTarget(Timepoint) == PrimitiveTarget(Duration) == "bigint"
    ensures PrimitiveTarget(Str) == PrimitiveTarget(Symbol) == PrimitiveTarget(Address) == "string"
  {}

  /** Vectors and options are sliced off any string, well formed or not. */
  lemma SlicedForms(s: string)
    ensures ToTypeScript("Vec<" + s + ">") == ArrayOf(ToTypeScript(s))
    ensures ToTypeScript("Option<" + s + ">") == OrUndefined(ToTypeScript(s))
  {
    SlicedVec(s);
    SlicedOption(s);
  }

  lemma SlicedVec(s: string)
    ensures ToTypeScript("Vec<" + s + ">") == ArrayOf(ToTypeScript(s))
  {
    var v := "Vec<" + s + ">";
    assert v == "Vec<" + (s + ">") && v[4..|v| - 1] == s;
    NotInTable("Vec<", s + ">");
  }

  lemma SlicedOption(s: string)
    ensures ToTypeScript("Option<" + s + ">") == OrUndefined(ToTypeScript(s))
  {
    var v := "Option<" + s + ">";
    assert v == "Option<" + (s + ">") && v[7..|v| - 1] == s;
    NotInTable("Option<", s + ">");
    StartsLike(v, "Vec<", 0);
  }

  /** The other constructors are told by their beginning alone. */
  lemma ByBeginning(s: string)
    ensures ToTypeScript("BytesN<" + s) == Some("Buffer") && ToTypeScript("Tuple<" + s) == Some("unknown[]")
    ensures ToTypeScript("Map<" + s) == Some("Map<unknown, unknown>") && ToTypeScript("Result<" + s) == Some("unknown")
  {
    Beginning("BytesN<", s);
    Beginning("Tuple<", s);
    Beginning("Map<", s);
    Beginning("Result<", s);
  }

  lemma Beginning(open: string, s: string)
    requires open in {"BytesN<", "Tuple<", "Map<", "Result<"}
    ensures LookUp(open + s) == Missing && StartsWith(open + s, open)
    ensures !StartsWith(open + s, "Vec<") && !StartsWith(open + s, "Option<")
    ensures open != "BytesN<" ==> !StartsWith(open + s, "BytesN<")
    ensures open != "Tuple<" ==> !StartsWith(open + s, "Tuple<")
    ensures open != "Map<" ==> !StartsWith(open + s, "Map<")
    ensures open != "Result<" ==> !StartsWith(open + s, "Result<")
  {
    NotInTable(open, s);
    assert (open + s)[0] == open[0];
    StartsLike(open + s, "Vec<", 0);
    StartsLike(open + s, "Option<", 0);
    StartsLike(open + s, "BytesN<", 0);
    StartsLike(open + s, "Tuple<", 0);
    StartsLike(open + s, "Map<", 0);
    StartsLike(open + s, "Result<", 0);
  }

  /** A string with an opening bracket is no name of the table. */
  lemma NotInTable(open: string, s: string)
    requires open != "" && open[|open| - 1] == '<'
    ensures LookUp(open + s) == Missing && StartsWith(open + s, open)
    ensures forall i :: 0 <= i < |open| ==> (open + s)[i] == open[i]
  {
    LookUpIsTable();
    assert (open + s)[|open| - 1] == '<';
  }

  /** Any other string is its own translation. */
  lemma OtherForms(s: string)
    requires LookUp(s) == Missing
    requires forall a :: s != "Vec<" + a + ">" && s != "Option<" + a + ">"
    requires !("BytesN<" <= s) && !("Tuple<" <= s) && !("Map<" <= s) && !("Result<" <= s)
    ensures ToTypeScript(s) == Some(s)
  {
    UnsliceVec(s);
    UnsliceOption(s);
  }

  lemma UnsliceVec(s: string)
    ensures StartsWith(s, "Vec<") && EndsWithBracket(s) ==> exists a :: s == "Vec<" + a + ">"
  {
    if StartsWith(s, "Vec<") && EndsWithBracket(s) {
      StartsLike(s, "Vec<", 3);
      assert s == "Vec<" + s[4..|s| - 1] + ">";
    }
  }

  lemma UnsliceOption(s: string)
    ensures StartsWith(s, "Option<") && EndsWithBracket(s) ==> exists a :: s == "Option<" + a + ">"
  {
    if StartsWith(s, "Option<") && EndsWithBracket(s) {
      StartsLike(s, "Option<", 6);
      assert s == "Option<" + s[7..|s| - 1] + ">";
    }
  }

  /** What a lookup finds: a primitive's target, or a property every object inherits. */
  lemma LookUpIff(s: string)
    ensures LookUp(s).Found? <==> exists p :: s == PrimitiveName(p)
    ensures LookUp(s) == Inherited <==> IsInherited(s)
  {
    forall p ensures LookUp(PrimitiveName(p)).Found? { PrimitivesAreFound(p); }
    if LookUp(s).Found? {
      NameOfRead(s);
      PrintedPrimitives();
      assert s == PrimitiveName(ReadName(s).p);
    }
  }

  lemma InheritedNames(s: string)
    ensures IsInherited(s) <==>
      s in {"constructor", "toString", "toLocaleString", "valueOf", "__proto__", "hasOwnProperty", "isPrototypeOf",
            "propertyIsEnumerable", "__defineGetter__", "__defineSetter__", "__lookupGetter__", "__lookupSetter__"}
  {}

  lemma WrappedApart(a: string, b: string, pre: string, post: string)
    ensures pre + a + post == pre + b + post <==> a == b
  {
    var x, y := pre + a + post, pre + b + post;
    if x == y {
      assert |a| == |b|;
      assert x[|pre|..|pre| + |a|] == a && y[|pre|..|pre| + |b|] == b;
    }
  }

  function ArrayOf(o: Option<string>): Option<string> {
    match o case Some(e) => Some("Array<" + e + ">") case None => None
  }

  function OrUndefined(o: Option<string>): Option<string> {
    match o case Some(v) => Some(v + " | undefined") case None => None
  }

  /** What the translation does with a printed bracketed type. */
  lemma TranslateBracketed(table: string -> Lookup, t: SpecType)
    requires IsTable(table) && !IsBare(t)
    ensures t.VecOf? ==> Translate(table, TypeName(t)) == ArrayOf(Translate(table, Inside(t)))
    ensures t.OptionOf? ==> Translate(table, TypeName(t)) == OrUndefined(Translate(table, Inside(t)))
    ensures !t.VecOf? && !t.OptionOf? ==> Translate(table, TypeName(t)) == Some(Target(t))
  {
    BracketedShape(t);
    PrefixTests(t);
    assert table(TypeName(t)) == Missing;
  }

  lemma {:induction false} TranslationAgreesIff(table: string -> Lookup, t: SpecType)
    requires IsTable(table) && PlainNames(t)
    ensures Translate(table, TypeName(t)) == Some(Target(t)) <==> !(Core(t).Udt? && IsMisread(table, Core(t).name))
    decreases t
  {
    if IsBare(t) {
      BareTarget(table, t);
    } else {
      TranslateBracketed(table, t);
      if t.VecOf? {
        TranslationAgreesIff(table, t.element);
        ArrayApart(Translate(table, TypeName(t.element)), Target(t.element));
      } else if t.OptionOf? {
        TranslationAgreesIff(table, t.value);
        OptionApart(Translate(table, TypeName(t.value)), Target(t.value));
      }
    }
  }

  lemma ArrayApart(o: Option<string>, x: string)
    ensures ArrayOf(o) == Some("Array<" + x + ">") <==> o == Some(x)
  {
    if o.Some? { WrappedApart(o.value, x, "Array<", ">"); }
  }

  lemma OptionApart(o: Option<string>, x: string)
    ensures OrUndefined(o) == Some(x + " | undefined") <==> o == Some(x)
  {
    if o.Some? {
      WrappedApart(o.value, x, "", " | undefined");
      assert "" + o.value == o.value && "" + x == x;
    }
  }

  /** Slicing the printed string agrees with translating the type exactly when the core is not a misread user type. */
  lemma SlicingAgreesIff(t: SpecType)
    requires PlainNames(t)
    ensures ToTypeScript(TypeName(t)) == Some(Target(t)) <==> !(Core(t).Udt? && IsMisread(LookUp, Core(t).name))
  {
    LookUpIsTable();
    TranslationAgreesIff(LookUp, t);
  }

  /**
   * A user type called `address` inside an option is translated as the primitive, and one called
   * `constructor` not at all.
   */
  lemma MisreadNames()
    ensures ToTypeScript(TypeName(OptionOf(Udt("address")))) != Some(Target(OptionOf(Udt("address"))))
    ensures ToTypeScript(TypeName(VecOf(Udt("constructor")))) != Some(Target(VecOf(Udt("constructor"))))
  {
    PlainExamples();
    MisreadExamples();
    SlicingAgreesIff(OptionOf(Udt("address")));
    SlicingAgreesIff(VecOf(Udt("constructor")));
  }

  lemma PlainExamples()
    ensures PlainNames(OptionOf(Udt("address"))) && PlainNames(VecOf(Udt("constructor")))
  {
    InheritedAreRuns("constructor");
    ReadPrimitiveName(Address);
  }

  lemma MisreadExamples()
    ensures IsMisread(LookUp, "address") && IsMisread(LookUp, "constructor")
  {
    assert IsInherited("constructor");
    PrimitivesAreNotInherited(Address);
    ReadPrimitiveName(Address);
    assert LookUp("address") == Found("string");
  }
}
