/** `simpleHash` and `generateFingerprint`: a base-31 polynomial reduced to signed 32 bits at every byte. */
module PolynomialHash {
  import opened Numerals

  type Byte = b: int | 0 <= b < 256

  const MODULUS := 0x1_0000_0000

  /** `x | 0`: the signed 32-bit integer congruent to `x`. */
  function ToInt32(x: int): (r: int)
    ensures -0x8000_0000 <= r < 0x8000_0000
  {
    (x + 0x8000_0000) % MODULUS - 0x8000_0000
  }

  lemma ReduceOnce(x: int) returns (k: int)
    ensures ToInt32(x) == x - MODULUS * k
  {
    k := (x + 0x8000_0000) / MODULUS;
  }

  lemma ReduceShifted(x: int, k: int)
    ensures ToInt32(x + MODULUS * k) == ToInt32(x)
  {
    var y := x + 0x8000_0000;
    assert (y + MODULUS * k) % MODULUS == y % MODULUS;
  }

  /** Reducing a term beforehand changes nothing. */
  lemma ReduceTerm(factor: int, x: int, y: int)
    ensures ToInt32(factor * ToInt32(x) + y) == ToInt32(factor * x + y)
  {
    var k := ReduceOnce(x);
    assert factor * ToInt32(x) + y == factor * x + y + MODULUS * (-(factor * k)) by {
      assert factor * (x - MODULUS * k) == factor * x - MODULUS * (factor * k);
    }
    ReduceShifted(factor * x + y, -(factor * k));
  }

  /** The base-31 polynomial of the bytes, before any reduction. */
  function Polynomial(bytes: seq<Byte>): nat {
    if bytes == [] then 0 else 31 * Polynomial(bytes[..|bytes| - 1]) + bytes[|bytes| - 1]
  }

  /** The hash before the absolute value is taken. */
  function Hash(bytes: seq<Byte>): int { ToInt32(Polynomial(bytes)) }

  /** One round: shift left by five, subtract, add the byte, reduce. */
  lemma RoundIsPolynomial(h: int, b: int)
    ensures ToInt32(ToInt32(h * 32) - h + b) == ToInt32(31 * h + b)
  {
    ReduceTerm(1, h * 32, b - h);
  }

  method SimpleHash(bytes: seq<Byte>) returns (hash: int, hex: string)
    ensures hash == Hash(bytes) && hex == Numeral(Abs(hash), 16)
  {
    hash := 0;
    for i := 0 to |bytes|
      invariant hash == Hash(bytes[..i])
    {
      assert bytes[..i + 1][..i] == bytes[..i];
      RoundIsPolynomial(hash, bytes[i]);
      ReduceTerm(31, Polynomial(bytes[..i]), bytes[i]);
      hash := ToInt32(hash * 32) - hash + bytes[i];
      hash := ToInt32(hash);
    }
    assert bytes[..|bytes|] == bytes;
    hex := Numeral(Abs(hash), 16);
  }

  function Abs(x: int): nat { if x < 0 then -x else x }

  lemma {:induction false} PolynomialConcat(a: seq<Byte>, b: seq<Byte>)
    ensures Polynomial(a + b) == Polynomial(a) * Power(31, |b|) + Polynomial(b)
    decreases |b|
  {
    if b == [] {
      assert a + b == a;
    } else {
      var n := |b| - 1;
      assert (a + b)[..|a + b| - 1] == a + b[..n];
      PolynomialConcat(a, b[..n]);
      ShiftPolynomial(Polynomial(a), Power(31, n), Polynomial(b[..n]));
    }
  }

  lemma ShiftPolynomial(x: int, p: int, q: int)
    ensures 31 * (x * p + q) == x * (31 * p) + 31 * q
  {}

  /** The hash of a text whose second part hashes to `g` and multiplies the first by `p`. */
  function Combine(h: int, p: int, g: int): int { ToInt32(h * p + g) }

  /** The hash of a concatenation is determined by the two hashes and the length of the second part. */
  lemma HashConcat(a: seq<Byte>, b: seq<Byte>)
    ensures Hash(a + b) == Combine(Hash(a), Power(31, |b|), Hash(b))
  {
    PolynomialConcat(a, b);
    ReduceBoth(Polynomial(a + b), Power(31, |b|), Polynomial(a), Polynomial(b));
  }

  lemma ReduceBoth(z: int, p: int, x: int, y: int)
    requires z == x * p + y
    ensures ToInt32(z) == Combine(ToInt32(x), p, ToInt32(y))
  {
    ReduceTerm(p, x, y);
    assert ToInt32(x) * p + y == p * ToInt32(x) + y && x * p + y == p * x + y;
    ReduceTerm(1, y, ToInt32(x) * p);
  }

  /** `hash.substring(0, 16)` */
  function FirstSixteen(s: string): string { if |s| <= 16 then s else s[..16] }

  function Fingerprint(bytes: seq<Byte>): string { FirstSixteen(Numeral(Abs(Hash(bytes)), 16)) }

  lemma EightHexDigits()
    ensures Power(16, 8) == 0x1_0000_0000
  {
    assert Power(16, 2) == 256;
    assert Power(16, 4) == 0x1_0000;
    assert Power(16, 6) == 0x100_0000;
  }

  /** A fingerprint has at most eight digits, so it is never cut; equal fingerprints mean hashes equal up to sign. */
  lemma FingerprintIsWhole(a: seq<Byte>, b: seq<Byte>)
    ensures |Fingerprint(a)| <= 8 && Fingerprint(a) == Numeral(Abs(Hash(a)), 16)
    ensures Fingerprint(a) == Fingerprint(b) <==> Abs(Hash(a)) == Abs(Hash(b))
  {
    EightHexDigits();
    NumeralLength(Abs(Hash(a)), 16, 8);
    NumeralLength(Abs(Hash(b)), 16, 8);
    if Fingerprint(a) == Fingerprint(b) {
      NumeralInjective(Abs(Hash(a)), Abs(Hash(b)), 16);
    }
  }

  lemma PolynomialStep(bytes: seq<Byte>, b: Byte)
    ensures Polynomial(bytes + [b]) == 31 * Polynomial(bytes) + b
  {
    assert (bytes + [b])[..|bytes|] == bytes;
  }

  /** The bytes of `abc`, and six bytes of ones, whose polynomial overflows to a negative number. */
  lemma HashExamples()
    ensures Hash([97, 98, 99]) == 96354
    ensures Hash([255, 255, 255, 255, 255, 255]) == -1046153312
  {
    ThreeBytes(97, 98, 99);
    ThreeBytes(255, 255, 255);
    PolynomialConcat([255, 255, 255], [255, 255, 255]);
    assert [255, 255, 255] + [255, 255, 255] == [255, 255, 255, 255, 255, 255];
    assert Power(31, 3) == 29791 by { assert Power(31, 1) == 31; }
  }

  lemma ThreeBytes(a: Byte, b: Byte, c: Byte)
    ensures Polynomial([a, b, c]) == 961 * a as int + 31 * b as int + c as int
  {
    assert [a, b, c] == [] + [a] + [b] + [c];
    PolynomialStep([], a);
    PolynomialStep([] + [a], b);
    PolynomialStep([] + [a] + [b], c);
  }
}
