/** `WasmAnalyzer` of the duplicate finder: greedy clusters of function bodies by exact, normalized or similar match. */
module DuplicateFinder {
  import opened Collections
  import opened Numerals
  import opened PolynomialHash

  datatype Code = Code(index: int, body: seq<Byte>, size: nat)

  datatype Options = Options(includeNormalized: bool, similarityThreshold: real)

  // ----- Decoding and normalizing -----

  /** An access names its operand width only; every other byte stands for itself. */
  datatype Decoded = Access(narrow: bool) | Plain(opcode: Byte)

  predicate IsAccess(opcode: Byte) { 0x20 <= opcode <= 0x24 }

  function Decode(bytes: seq<Byte>): seq<Decoded> {
    if bytes == [] then []
    else if IsAccess(bytes[0]) then
      if |bytes| == 1 then [Access(false)] else [Access(bytes[1] == 0x7F)] + Decode(bytes[2..])
    else [Plain(bytes[0])] + Decode(bytes[1..])
  }

  /** The bytes from `pos` on; `pos` may lie one past the end, after an access without its operand. */
  function From(bytes: seq<Byte>, pos: nat): seq<Byte> { if pos <= |bytes| then bytes[pos..] else [] }

  method DecodeInstructions(bytes: seq<Byte>) returns (instrs: seq<Decoded>)
    ensures instrs == Decode(bytes)
  {
    instrs := [];
    var pos := 0;
    while pos < |bytes|
      invariant 0 <= pos && instrs + Decode(From(bytes, pos)) == Decode(bytes)
    {
      var opcode := bytes[pos];
      ghost var rest := From(bytes, pos);
      pos := pos + 1;
      assert rest[0] == opcode && rest[1..] == From(bytes, pos);
      if IsAccess(opcode) {
        var narrow := pos < |bytes| && bytes[pos] == 0x7F;
        assert pos < |bytes| ==> rest[2..] == From(bytes, pos + 1);
        pos := pos + 1;
        assert Decode(rest) == [Access(narrow)] + Decode(From(bytes, pos));
        instrs := instrs + [Access(narrow)];
      } else {
        assert Decode(rest) == [Plain(opcode)] + Decode(From(bytes, pos));
        instrs := instrs + [Plain(opcode)];
      }
    }
  }

  method CountInstructions(bytes: seq<Byte>) returns (count: nat)
    ensures count == |Decode(bytes)|
  {
    count := 0;
    var pos := 0;
    while pos < |bytes|
      invariant 0 <= pos && count + |Decode(From(bytes, pos))| == |Decode(bytes)|
    {
      var opcode := bytes[pos];
      ghost var rest := From(bytes, pos);
      pos := pos + 1;
      assert rest[0] == opcode && rest[1..] == From(bytes, pos);
      count := count + 1;
      if opcode == 0x20 || opcode == 0x21 || opcode == 0x22 || opcode == 0x23 || opcode == 0x24 {
        assert pos < |bytes| ==> rest[2..] == From(bytes, pos + 1);
        pos := pos + 1;
      }
    }
  }

  /** `opcode.toString(16).padStart(2, '0')` */
  function TwoDigits(b: Byte): string { if b < 16 then "0" + Numeral(b, 16) else Numeral(b, 16) }

  function Token(d: Decoded): string {
    match d
    case Access(narrow) => (if narrow then "local.i32" else "local.i64") + " local"
    case Plain(opcode) => "0x" + TwoDigits(opcode)
  }

  /** The tokens joined by spaces. */
  function Tokens(ds: seq<Decoded>): string {
    if ds == [] then ""
    else if |ds| == 1 then Token(ds[0])
    else Token(ds[0]) + " " + Tokens(ds[1..])
  }

  /** `normalizeInstructions`; the text is ASCII, one byte a character. */
  function Normalized(bytes: seq<Byte>): string { Tokens(Decode(bytes)) }

  lemma TwoDigitsAreTwo(b: Byte)
    ensures |TwoDigits(b)| == 2
  {
    ByteDigits(b);
  }

  lemma TwoDigitsInjective(a: Byte, b: Byte)
    requires TwoDigits(a) == TwoDigits(b)
    ensures a == b
  {
    DigitsDiffer();
    ByteDigits(a);
    ByteDigits(b);
    assert TwoDigits(a)[0] == TwoDigits(b)[0] && TwoDigits(a)[1] == TwoDigits(b)[1];
  }

  lemma ByteDigits(b: Byte)
    ensures 0 <= b / 16 < 16 && 0 <= b % 16 < 16 && b == 16 * (b / 16) + b % 16
    ensures TwoDigits(b) == [DIGITS[b / 16], DIGITS[b % 16]]
  {
    if b >= 16 {
      assert Numeral(b / 16, 16) == [DIGITS[b / 16]];
    } else {
      assert DIGITS[0] == '0';
    }
  }

  lemma TokenShape(d: Decoded)
    ensures |Token(d)| == (if d.Access? then 15 else 4) && Token(d)[0] == (if d.Access? then 'l' else '0')
  {
    if d.Plain? { TwoDigitsAreTwo(d.opcode); }
  }

  lemma TokenInjective(d: Decoded, e: Decoded)
    requires Token(d) == Token(e)
    ensures d == e
  {
    TokenShape(d);
    TokenShape(e);
    if d.Plain? {
      assert Token(d)[2..] == TwoDigits(d.opcode) && Token(e)[2..] == TwoDigits(e.opcode);
      TwoDigitsInjective(d.opcode, e.opcode);
    } else {
      assert Token(d)[7] == (if d.narrow then '3' else '6') && Token(e)[7] == (if e.narrow then '3' else '6');
    }
  }

  function AfterToken(ds: seq<Decoded>): string
    requires ds != []
  { if |ds| == 1 then "" else " " + Tokens(ds[1..]) }

  lemma FirstToken(ds: seq<Decoded>)
    requires ds != []
    ensures Tokens(ds) == Token(ds[0]) + AfterToken(ds)
    ensures |Token(ds[0])| <= |Tokens(ds)|
    ensures Tokens(ds)[..|Token(ds[0])|] == Token(ds[0]) && Tokens(ds)[|Token(ds[0])|..] == AfterToken(ds)
    ensures Tokens(ds)[0] == Token(ds[0])[0]
  {
    TokenShape(ds[0]);
    var t, r := Token(ds[0]), AfterToken(ds);
    assert |ds| > 1 ==> t + " " + Tokens(ds[1..]) == t + (" " + Tokens(ds[1..]));
    assert Tokens(ds) == t + r;
  }

  /** Normalized texts are equal exactly when the decoded instructions are. */
  lemma {:induction false} TokensInjective(ds: seq<Decoded>, es: seq<Decoded>)
    requires Tokens(ds) == Tokens(es)
    ensures ds == es
    decreases |ds|
  {
    if ds == [] || es == [] {
      EmptyTokens(ds);
      EmptyTokens(es);
    } else {
      SameFirstToken(ds, es);
      if |ds| > 1 {
        assert AfterToken(ds)[1..] == Tokens(ds[1..]) && AfterToken(es)[1..] == Tokens(es[1..]);
        TokensInjective(ds[1..], es[1..]);
      }
      SameSequence(ds, es);
    }
  }

  lemma SameSequence(ds: seq<Decoded>, es: seq<Decoded>)
    requires ds != [] && es != [] && ds[0] == es[0] && ds[1..] == es[1..]
    ensures ds == es
  {
    assert ds == [ds[0]] + ds[1..] && es == [es[0]] + es[1..];
  }

  lemma SameFirstToken(ds: seq<Decoded>, es: seq<Decoded>)
    requires ds != [] && es != [] && Tokens(ds) == Tokens(es)
    ensures ds[0] == es[0] && AfterToken(ds) == AfterToken(es)
    ensures |ds| == 1 <==> |es| == 1
  {
    FirstToken(ds);
    FirstToken(es);
    TokenShape(ds[0]);
    TokenShape(es[0]);
    TokenInjective(ds[0], es[0]);
  }

  lemma EmptyTokens(ds: seq<Decoded>)
    ensures Tokens(ds) == "" <==> ds == []
  {
    if ds != [] {
      FirstToken(ds);
      TokenShape(ds[0]);
    }
  }

  /** A normalized match means the same instructions up to operand bytes and kinds of access. */
  lemma NormalizedIff(a: seq<Byte>, b: seq<Byte>)
    ensures Normalized(a) == Normalized(b) <==> Decode(a) == Decode(b)
  {
    if Normalized(a) == Normalized(b) { TokensInjective(Decode(a), Decode(b)); }
  }

  // ----- Decoding and text by opcode -----

  /** An access takes the byte after it, if there is one, as its operand; any other byte stands alone. */
  lemma DecodeLaws(opcode: Byte, operand: Byte, rest: seq<Byte>)
    ensures Decode([]) == []
    ensures opcode in {0x20, 0x21, 0x22, 0x23, 0x24} ==>
      && Decode([opcode]) == [Access(false)]
      && Decode([opcode, operand] + rest) == [Access(operand == 0x7F)] + Decode(rest)
    ensures opcode !in {0x20, 0x21, 0x22, 0x23, 0x24} ==> Decode([opcode] + rest) == [Plain(opcode)] + Decode(rest)
  {
    assert ([opcode, operand] + rest)[2..] == rest && ([opcode] + rest)[1..] == rest;
  }

  lemma AccessTokens()
    ensures Token(Access(true)) == "local.i32 local" && Token(Access(false)) == "local.i64 local"
  {
    assert "local.i32" + " local" == "local.i32 local" && "local.i64" + " local" == "local.i64 local";
  }

  /** The text of any other byte is `0x` and its two hexadecimal digits. */
  lemma PlainTokenIs(b: Byte)
    ensures |Token(Plain(b))| == 4 && Token(Plain(b))[..2] == "0x" && Value(Token(Plain(b))[2..], 16) == b
  {
    TwoDigitsAreTwo(b);
    assert Token(Plain(b))[2..] == TwoDigits(b);
    DigitsReadBack(b);
  }

  lemma DigitsReadBack(b: Byte)
    ensures Value(TwoDigits(b), 16) == b
  {
    ByteDigits(b);
    DigitStandsFor(b / 16);
    DigitStandsFor(b % 16);
    ValueOfTwo(DIGITS[b / 16], DIGITS[b % 16]);
  }

  lemma ValueOfTwo(c: char, d: char)
    ensures Value([c, d], 16) == 16 * DigitValue(c) + DigitValue(d)
  {
    assert [c, d][..|[c, d]| - 1] == [c] && [c][..|[c]| - 1] == "";
    assert Value("", 16) == 0 && Value([c], 16) == DigitValue(c);
  }

  /** The texts are separated by single spaces. */
  lemma TokensJoin(d: Decoded, ds: seq<Decoded>)
    ensures Tokens([d]) == Token(d)
    ensures ds != [] ==> Tokens([d] + ds) == Token(d) + " " + Tokens(ds)
  {
    assert ([d] + ds)[1..] == ds;
  }

  lemma ThreeTokens(a: Decoded, b: Decoded, c: Decoded)
    ensures Tokens([a, b, c]) == Token(a) + " " + (Token(b) + " " + Token(c))
  {
    assert [a] + [b, c] == [a, b, c] && [b] + [c] == [b, c];
    TokensJoin(a, [b, c]);
    TokensJoin(b, [c]);
    TokensJoin(c, []);
  }

  lemma DecodeExample()
    ensures Decode([0x20, 0x7F, 0x6A, 0x20]) == [Access(true), Plain(0x6A), Access(false)]
  {
    DecodeLaws(0x20, 0, []);
    DecodeLaws(0x6A, 0, [0x20]);
    DecodeLaws(0x20, 0x7F, [0x6A, 0x20]);
    assert [0x6A] + [0x20] == [0x6A, 0x20] && [0x20, 0x7F] + [0x6A, 0x20] == [0x20, 0x7F, 0x6A, 0x20];
  }

  lemma PlainExample()
    ensures Token(Plain(0x6A)) == "0x" + "6a"
  {
    ByteDigits(0x6A);
  }

  /** The text of a body that ends within an access. */
  lemma NormalizedExample()
    ensures Normalized([0x20, 0x7F, 0x6A, 0x20]) == "local.i32 local" + " " + ("0x" + "6a" + " " + "local.i64 local")
  {
    DecodeExample();
    ThreeTokens(Access(true), Plain(0x6A), Access(false));
    AccessTokens();
    PlainExample();
  }

  // ----- Matching -----

  method CompareBuffers<T(==)>(a: seq<T>, b: seq<T>) returns (same: bool)
    ensures same <==> a == b
  {
    if |a| != |b| { return false; }
    for i := 0 to |a|
      invariant a[..i] == b[..i]
    {
      if a[i] != b[i] { return false; }
    }
    return true;
  }

  /** The positions before `n` at which the two texts agree. */
  function Matches(a: string, b: string, n: nat): nat
    requires n <= |a| && n <= |b|
  {
    if n == 0 then 0 else Matches(a, b, n - 1) + if a[n - 1] == b[n - 1] then 1 else 0
  }

  function Similarity(a: string, b: string): real {
    if Max(|a|, |b|) == 0 then 100.0
    else (Matches(a, b, Min(|a|, |b|)) as real / Max(|a|, |b|) as real) * 100.0
  }

  method CalculateSimilarity(a: string, b: string) returns (r: real)
    ensures r == Similarity(a, b)
  {
    var maxLen := Max(|a|, |b|);
    if maxLen == 0 { return 100.0; }
    var matches, minLen := 0, Min(|a|, |b|);
    for i := 0 to minLen
      invariant matches == Matches(a, b, i)
    {
      if a[i] == b[i] { matches := matches + 1; }
    }
    return (matches as real / maxLen as real) * 100.0;
  }

  lemma {:induction false} AllMatch(a: string, n: nat)
    requires n <= |a|
    ensures Matches(a, a, n) == n
  {
    if n > 0 { AllMatch(a, n - 1); }
  }

  lemma {:induction false} MatchesBound(a: string, b: string, n: nat)
    requires n <= |a| && n <= |b|
    ensures Matches(a, b, n) <= n
    ensures Matches(a, b, n) == n <==> a[..n] == b[..n]
  {
    if n > 0 {
      MatchesBound(a, b, n - 1);
      assert a[..n] == a[..n - 1] + [a[n - 1]] && b[..n] == b[..n - 1] + [b[n - 1]];
    }
  }

  /** Similarity is full exactly for equal texts, and never more than full. */
  lemma SimilarityIsFullIff(a: string, b: string)
    ensures Similarity(a, b) <= 100.0
    ensures Similarity(a, b) == 100.0 <==> a == b
  {
    var m, n := Min(|a|, |b|), Max(|a|, |b|);
    if n > 0 {
      MatchesBound(a, b, m);
      var k := Matches(a, b, m);
      Ratio(k, n);
      if a == b { AllMatch(a, |a|); }
      assert k == n ==> |a| == |b| && a[..m] == a && b[..m] == b;
    }
  }

  lemma Ratio(k: nat, n: nat)
    requires k <= n && n > 0
    ensures k as real / n as real <= 1.0
    ensures k as real / n as real == 1.0 <==> k == n
  {
    var q := k as real / n as real;
    assert q * n as real == k as real;
  }

  lemma {:induction false} MatchesAreAgreements(a: string, b: string, n: nat)
    requires n <= |a| && n <= |b|
    ensures Matches(a, b, n) == |set i | 0 <= i < n && a[i] == b[i]|
  {
    if n > 0 {
      MatchesAreAgreements(a, b, n - 1);
      var before, all := (set i | 0 <= i < n - 1 && a[i] == b[i]), (set i | 0 <= i < n && a[i] == b[i]);
      assert all == if a[n - 1] == b[n - 1] then before + {n - 1} else before;
    }
  }

  /** The similarity of two texts is the number of positions at which they agree, in per cent of the longer length. */
  lemma SimilarityIsShare(a: string, b: string)
    ensures a == b == "" ==> Similarity(a, b) == 100.0
    ensures a != "" || b != "" ==>
      Similarity(a, b) * Max(|a|, |b|) as real == 100.0 * |set i | 0 <= i < |a| && i < |b| && a[i] == b[i]| as real
  {
    var n := Min(|a|, |b|);
    MatchesAreAgreements(a, b, n);
    assert (set i | 0 <= i < n && a[i] == b[i]) == set i | 0 <= i < |a| && i < |b| && a[i] == b[i];
    if a != "" || b != "" { ShareOf(Matches(a, b, n) as real, Max(|a|, |b|) as real); }
  }

  lemma ShareOf(k: real, n: real)
    requires n > 0.0
    ensures ((k / n) * 100.0) * n == 100.0 * k
  {
    var q := k / n;
    assert q * n == k;
  }

  predicate IsExact(a: Code, b: Code) { a.size == b.size && a.body == b.body }

  predicate IsNormalized(a: Code, b: Code) { Normalized(a.body) == Normalized(b.body) }

  predicate IsSimilar(o: Options, a: Code, b: Code) {
    Similarity(Normalized(a.body), Normalized(b.body)) >= o.similarityThreshold
  }

  predicate IsDuplicate(o: Options, reference: Code, candidate: Code) {
    IsExact(reference, candidate) || (o.includeNormalized && IsNormalized(reference, candidate))
    || IsSimilar(o, reference, candidate)
  }

  /** For thresholds up to 100, exact and normalized matches are similar, so similarity alone decides. */
  lemma DuplicateIsSimilar(o: Options, a: Code, b: Code)
    requires o.similarityThreshold <= 100.0
    ensures IsDuplicate(o, a, b) <==> IsSimilar(o, a, b)
  {
    SimilarityIsFullIff(Normalized(a.body), Normalized(b.body));
  }

  /** What makes a candidate a duplicate: same size and bytes, same instructions when asked for, or similarity. */
  lemma DuplicateIff(o: Options, a: Code, b: Code)
    ensures IsDuplicate(o, a, b) <==>
      || (a.size == b.size && a.body == b.body)
      || (o.includeNormalized && Decode(a.body) == Decode(b.body))
      || o.similarityThreshold <= Similarity(Normalized(a.body), Normalized(b.body))
  {
    NormalizedIff(a.body, b.body);
  }

  // ----- Clusters -----

  function IndicesOf(fs: seq<Code>): set<int> {
    if fs == [] then {} else IndicesOf(fs[..|fs| - 1]) + {fs[|fs| - 1].index}
  }

  lemma {:induction false} IndexHeld(fs: seq<Code>, i: int)
    ensures i in IndicesOf(fs) <==> exists f :: f in fs && f.index == i
  {
    if fs != [] {
      var n := |fs| - 1;
      IndexHeld(fs[..n], i);
      assert forall f :: f in fs <==> f in fs[..n] || f == fs[n];
    }
  }

  /** `fs.filter(p)` */
  function Kept(p: Code -> bool, fs: seq<Code>): seq<Code> {
    if fs == [] then []
    else
      var n := |fs| - 1;
      Kept(p, fs[..n]) + if p(fs[n]) then [fs[n]] else []
  }

  /** Functions are numbered by position, so no index repeats. */
  predicate Distinct(fs: seq<Code>) {
    forall i, j {:trigger IndexAt(fs, i), IndexAt(fs, j)} :: 0 <= i < j < |fs| ==> IndexAt(fs, i) != IndexAt(fs, j)
  }

  function IndexAt(fs: seq<Code>, i: nat): int
    requires i < |fs|
  { fs[i].index }

  /** An index belongs to one function only. */
  lemma OneWithIndex(fs: seq<Code>, f: Code, g: Code)
    requires Distinct(fs) && f in fs && g in fs && f.index == g.index
    ensures f == g
  {
    var i :| 0 <= i < |fs| && fs[i] == f;
    var j :| 0 <= j < |fs| && fs[j] == g;
    assert IndexAt(fs, i) == IndexAt(fs, j);
  }

  lemma DistinctPart(fs: seq<Code>, n: nat)
    requires Distinct(fs) && n <= |fs|
    ensures Distinct(fs[..n]) && Distinct(fs[n..])
  {
    forall i, j | 0 <= i < j < n ensures IndexAt(fs[..n], i) != IndexAt(fs[..n], j) {
      assert IndexAt(fs, i) != IndexAt(fs, j);
    }
    forall i, j | 0 <= i < j < |fs| - n ensures IndexAt(fs[n..], i) != IndexAt(fs[n..], j) {
      assert IndexAt(fs, n + i) != IndexAt(fs, n + j);
    }
  }

  lemma DistinctJoin(xs: seq<Code>, ys: seq<Code>)
    requires Distinct(xs) && Distinct(ys) && forall f, g :: f in xs && g in ys ==> f.index != g.index
    ensures Distinct(xs + ys)
  {
    var n := |xs|;
    forall i, j | 0 <= i < j < |xs + ys| ensures IndexAt(xs + ys, i) != IndexAt(xs + ys, j) {
      if j < n {
        assert IndexAt(xs, i) != IndexAt(xs, j);
      } else if i >= n {
        assert IndexAt(ys, i - n) != IndexAt(ys, j - n);
      } else {
        assert xs[i] in xs && ys[j - n] in ys;
      }
    }
  }

  /** A function's index occurs neither before nor after it. */
  lemma OthersDiffer(fs: seq<Code>, n: nat)
    requires Distinct(fs) && n < |fs|
    ensures forall f :: f in fs[..n] || f in fs[n + 1..] ==> f.index != fs[n].index
  {
    forall f | f in fs[..n] || f in fs[n + 1..] ensures f.index != fs[n].index {
      var i :| 0 <= i < |fs| && i != n && fs[i] == f;
      assert IndexAt(fs, i) != IndexAt(fs, n);
    }
  }

  lemma {:induction false} KeptMembers(p: Code -> bool, fs: seq<Code>)
    ensures forall f :: f in Kept(p, fs) <==> f in fs && p(f)
  {
    if fs != [] {
      var n := |fs| - 1;
      KeptMembers(p, fs[..n]);
      assert forall f :: f in fs <==> f in fs[..n] || f == fs[n];
    }
  }

  lemma {:induction false} KeptDistinct(p: Code -> bool, fs: seq<Code>)
    requires Distinct(fs)
    ensures Distinct(Kept(p, fs))
  {
    if fs != [] {
      var n := |fs| - 1;
      DistinctPart(fs, n);
      KeptDistinct(p, fs[..n]);
      KeptMembers(p, fs[..n]);
      OthersDiffer(fs, n);
      if p(fs[n]) {
        DistinctJoin(Kept(p, fs[..n]), [fs[n]]);
      } else {
        assert Kept(p, fs) == Kept(p, fs[..n]);
      }
    }
  }

  /** Filtering keeps the order: what is kept of the first `n` stands at ascending positions. */
  lemma {:induction false} KeptInOrder(p: Code -> bool, fs: seq<Code>, n: nat) returns (at: seq<int>)
    requires n <= |fs|
    ensures StrictlyAscending(at) && |at| == |Kept(p, fs[..n])|
    ensures forall j :: 0 <= j < |at| ==> 0 <= at[j] < n && p(fs[at[j]]) && Kept(p, fs[..n])[j] == fs[at[j]]
    ensures forall k :: 0 <= k < n && p(fs[k]) ==> k in at
  {
    at := [];
    if n > 0 {
      assert fs[..n][..n - 1] == fs[..n - 1];
      at := KeptInOrder(p, fs, n - 1);
      if p(fs[n - 1]) { at := at + [n - 1]; }
    }
  }

  function NotSeen(seen: set<int>): Code -> bool { (f: Code) => f.index !in seen }

  function Unseen(fs: seq<Code>, seen: set<int>): seq<Code> { Kept(NotSeen(seen), fs) }

  function MatchesReference(o: Options, reference: Code): Code -> bool {
    (c: Code) => c.index != reference.index && IsDuplicate(o, reference, c)
  }

  /** The reference with the candidates that match it. */
  function Cluster(o: Options, reference: Code, candidates: seq<Code>): seq<Code> {
    [reference] + Kept(MatchesReference(o, reference), candidates)
  }

  /** A cluster is the reference, then the candidates with another index that duplicate it, in their order. */
  lemma ClusterInOrder(o: Options, reference: Code, candidates: seq<Code>) returns (at: seq<int>)
    ensures var c := Cluster(o, reference, candidates);
      && StrictlyAscending(at) && |c| == 1 + |at| && c[0] == reference
      && (forall j :: 0 <= j < |at| ==> 0 <= at[j] < |candidates| && c[1 + j] == candidates[at[j]])
      && (forall k :: 0 <= k < |candidates| ==>
           (k in at <==> candidates[k].index != reference.index && IsDuplicate(o, reference, candidates[k])))
  {
    var p := MatchesReference(o, reference);
    assert candidates[..|candidates|] == candidates;
    at := KeptInOrder(p, candidates, |candidates|);
    var c, kept := Cluster(o, reference, candidates), Kept(p, candidates);
    assert c == [reference] + kept && forall j :: 0 <= j < |kept| ==> c[1 + j] == kept[j];
  }

  method FindDuplicates(o: Options, reference: Code, candidates: seq<Code>) returns (duplicates: seq<Code>)
    ensures duplicates == Cluster(o, reference, candidates)
  {
    duplicates := [reference];
    for k := 0 to |candidates|
      invariant duplicates == Cluster(o, reference, candidates[..k])
    {
      assert candidates[..k + 1][..k] == candidates[..k];
      var candidate := candidates[k];
      if candidate.index != reference.index {
        if IsExact(reference, candidate) {
          duplicates := duplicates + [candidate];
        } else if o.includeNormalized && IsNormalized(reference, candidate) {
          duplicates := duplicates + [candidate];
        } else if IsSimilar(o, reference, candidate) {
          duplicates := duplicates + [candidate];
        }
      }
    }
    assert candidates[..|candidates|] == candidates;
  }

  function Flatten(clusters: seq<seq<Code>>): seq<Code> {
    if clusters == [] then [] else Flatten(clusters[..|clusters| - 1]) + clusters[|clusters| - 1]
  }

  /** The clusters formed by the first `k` references; a cluster of one is a unique function. */
  function Clusters(o: Options, fs: seq<Code>, k: nat): seq<seq<Code>>
    requires k <= |fs|
  {
    if k == 0 then []
    else
      var before := Clusters(o, fs, k - 1);
      var seen := IndicesOf(Flatten(before));
      if fs[k - 1].index in seen then before
      else before + [Cluster(o, fs[k - 1], Unseen(fs, seen))]
  }
}
