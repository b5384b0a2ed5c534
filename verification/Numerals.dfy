/** Numbers written in a base up to 16, as string templates and `toString(16)` do. */
module Numerals {

  const DIGITS := "0123456789abcdef"

  /** The digits of `n`, most significant first. */
  function Numeral(n: nat, base: nat): (s: string)
    requires 2 <= base <= 16
    ensures s != [] && forall i :: 0 <= i < |s| ==> s[i] in DIGITS
  {
    if n < base then [DIGITS[n]]
    else
      QuotientShrinks(n, base);
      Numeral(n / base, base) + [DIGITS[n % base]]
  }

  lemma QuotientShrinks(n: nat, base: nat)
    requires 2 <= base <= n
    ensures 0 <= n / base < n && n == base * (n / base) + n % base && 0 <= n % base < base
  {
    var q := n / base;
    assert n == base * q + n % base;
    if q >= n { assert base * q >= 2 * n by { MulGrows(base, q, 2, n); } }
  }

  lemma MulGrows(a: nat, b: nat, c: nat, d: nat)
    requires a >= c && b >= d
    ensures a * b >= c * d
  {
    assert a * b >= c * b;
    assert c * b >= c * d;
  }

  /** Different numbers have different numerals. */
  lemma {:induction false} NumeralInjective(m: nat, n: nat, base: nat)
    requires 2 <= base <= 16 && Numeral(m, base) == Numeral(n, base)
    ensures m == n
    decreases m
  {
    DigitsDiffer();
    if m >= base && n >= base {
      QuotientShrinks(m, base);
      QuotientShrinks(n, base);
      var a, b := Numeral(m / base, base), Numeral(n / base, base);
      assert (a + [DIGITS[m % base]])[|a|] == (b + [DIGITS[n % base]])[|b|];
      assert a == (a + [DIGITS[m % base]])[..|a|] == (b + [DIGITS[n % base]])[..|b|] == b;
      NumeralInjective(m / base, n / base, base);
    }
  }

  lemma DigitsDiffer()
    ensures forall i, j :: 0 <= i < j < 16 ==> DIGITS[i] != DIGITS[j]
  {}

  function Power(base: nat, k: nat): nat { if k == 0 then 1 else base * Power(base, k - 1) }

  /** A number below `base` to the `k` has at most `k` digits. */
  lemma {:induction false} NumeralLength(n: nat, base: nat, k: nat)
    requires 2 <= base <= 16 && k > 0 && n < Power(base, k)
    ensures |Numeral(n, base)| <= k
    decreases k
  {
    if n >= base {
      QuotientShrinks(n, base);
      assert k > 1 by { assert Power(base, 1) == base; }
      if n / base >= Power(base, k - 1) { MulGrows(base, n / base, base, Power(base, k - 1)); }
      NumeralLength(n / base, base, k - 1);
    }
  }

  // ----- Reading numerals -----

  /** What a digit stands for: `0` to `9`, then `a` to `f`. */
  function DigitValue(c: char): int {
    if '0' <= c <= '9' then c as int - '0' as int else c as int - 'a' as int + 10
  }

  function Value(s: string, base: nat): int {
    if s == "" then 0 else base * Value(s[..|s| - 1], base) + DigitValue(s[|s| - 1])
  }

  lemma DigitStandsFor(d: nat)
    requires d < 16
    ensures DigitValue(DIGITS[d]) == d && (DIGITS[d] == '0' <==> d == 0)
    ensures '0' <= DIGITS[d] <= '9' || 'a' <= DIGITS[d] <= 'f'
  {}

  /** Reading a numeral gives the number back; its digits are below the base, and it has no leading zero. */
  lemma {:induction false} NumeralReadsBack(n: nat, base: nat)
    requires 2 <= base <= 16
    ensures Value(Numeral(n, base), base) == n
    ensures forall i :: 0 <= i < |Numeral(n, base)| ==> 0 <= DigitValue(Numeral(n, base)[i]) < base
    ensures Numeral(n, base)[0] == '0' <==> n == 0
  {
    DigitStandsFor(n % base);
    if n >= base {
      QuotientShrinks(n, base);
      NumeralReadsBack(n / base, base);
      assert Numeral(n, base)[..|Numeral(n, base)| - 1] == Numeral(n / base, base);
    } else {
      assert Numeral(n, base)[..0] == "";
    }
  }
}
