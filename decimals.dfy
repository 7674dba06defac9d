/**
 * Exact decimals as Python's `decimal.Decimal` holds them: a signed integer
 * coefficient and a power-of-ten exponent.  Only the operations the number
 * parser uses are modelled: construction from a string, `int()`, comparison,
 * and multiplication in the default context (28 significant digits).
 */
module Decimals {
  import opened Wrappers
  import opened Text

  function Pow10(n: nat): (p: nat)
    ensures p >= 1
  {
    if n == 0 then 1 else 10 * Pow10(n - 1)
  }

  lemma Pow10Add(m: nat, n: nat)
    ensures Pow10(m + n) == Pow10(m) * Pow10(n)
  {
    if n > 0 {
      Pow10Add(m, n - 1);
      assert Pow10(m + n) == 10 * Pow10(m + n - 1);
    }
  }

  lemma Pow10Monotone(m: nat, n: nat)
    requires m <= n
    ensures Pow10(m) <= Pow10(n)
  {
    if m < n {
      Pow10Monotone(m, n - 1);
    }
  }

  function DigitValue(c: char): nat {
    if IsDigit(c) then (c as int - '0' as int) else 0
  }

  function DigitChar(n: nat): (c: char)
    requires n < 10
    ensures IsDigit(c) && DigitValue(c) == n
  {
    ('0' as int + n) as char
  }

  predicate AllDigits(s: string) {
    forall k :: 0 <= k < |s| ==> IsDigit(s[k])
  }

  /** The number a run of decimal digits denotes (leading zeros allowed, as `int()` allows them). */
  function NatOf(ds: string): nat {
    if ds == [] then 0 else NatOf(ds[..|ds| - 1]) * 10 + DigitValue(ds[|ds| - 1])
  }

  lemma {:induction false} NatOfAppend(a: string, b: string)
    ensures NatOf(a + b) == NatOf(a) * Pow10(|b|) + NatOf(b)
    decreases |b|
  {
    if b == [] {
      assert a + b == a;
    } else {
      var b' := b[..|b| - 1];
      var d := DigitValue(b[|b| - 1]);
      assert (a + b)[..|a + b| - 1] == a + b';
      NatOfAppend(a, b');
      assert NatOf(a + b) == NatOf(a + b') * 10 + d;
      assert NatOf(b) == NatOf(b') * 10 + d;
      assert Pow10(|b|) == 10 * Pow10(|b'|);
      ShiftDigit(NatOf(a), Pow10(|b'|), NatOf(b'), d);
    }
  }

  lemma ShiftDigit(x: int, p: int, y: int, d: int)
    ensures (x * p + y) * 10 + d == x * (10 * p) + (y * 10 + d)
  {
  }

  lemma {:induction false} NatOfBound(ds: string)
    ensures NatOf(ds) < Pow10(|ds|)
  {
    if ds != [] {
      NatOfBound(ds[..|ds| - 1]);
    }
  }

  /** The canonical digits of `n`: no leading zero, "0" for zero (`str(n)` for n >= 0). */
  function NatToDigits(n: nat): (ds: string)
    ensures ds != [] && AllDigits(ds)
    ensures |ds| > 1 ==> ds[0] != '0'
  {
    if n < 10 then [DigitChar(n)] else NatToDigits(n / 10) + [DigitChar(n % 10)]
  }

  lemma {:induction false} NatOfNatToDigits(n: nat)
    ensures NatOf(NatToDigits(n)) == n
  {
    if n >= 10 {
      NatOfNatToDigits(n / 10);
      var ds := NatToDigits(n);
      assert ds[..|ds| - 1] == NatToDigits(n / 10);
    }
  }

  function Zeros(n: nat): (z: string)
    ensures |z| == n && AllDigits(z)
    ensures forall k :: 0 <= k < n ==> z[k] == '0'
  {
    seq(n, _ => '0')
  }

  lemma {:induction false} NatOfZeros(n: nat)
    ensures NatOf(Zeros(n)) == 0
  {
    if n > 0 {
      assert Zeros(n)[..n - 1] == Zeros(n - 1);
      NatOfZeros(n - 1);
    }
  }

  /** A decimal number `coef * 10^exp`, as `Decimal` keeps it (the exponent is not normalised). */
  datatype Dec = Dec(coef: int, exp: int)

  function Abs(x: int): nat {
    if x < 0 then -x else x
  }

  /** The exact value of a decimal, the one every comparison uses. */
  function Value(d: Dec): real {
    if d.exp >= 0 then (d.coef * Pow10(d.exp)) as real
    else d.coef as real / Pow10(-d.exp) as real
  }

  /** `int(d)`: truncation towards zero. */
  function Trunc(d: Dec): int {
    if d.exp >= 0 then d.coef * Pow10(d.exp)
    else if d.coef >= 0 then d.coef / Pow10(-d.exp)
    else -((-d.coef) / Pow10(-d.exp))
  }

  lemma TruncOfInteger(c: int)
    ensures Trunc(Dec(c, 0)) == c
  {
  }

  function Signed(negative: bool, n: nat): int {
    if negative then -(n as int) else n as int
  }

  /** Length of the leading run of digits; its ensures determine it. */
  function DigitPrefix(s: string): (n: nat)
    ensures n <= |s|
    ensures forall k :: 0 <= k < n ==> IsDigit(s[k])
    ensures n == |s| || !IsDigit(s[n])
  {
    DigitRun(s, 0)
  }

  /**
   * The unsigned part of a decimal literal: `digits`, `digits.`, `.digits` or
   * `digits.digits`, giving the value of all its digits and how many follow the point.
   */
  function ParseMantissa(u: string): Option<(nat, nat)> {
    var i := DigitPrefix(u);
    if i == |u| then
      if i == 0 then None else Some((NatOf(u), 0))
    else if u[i] == '.' && (forall k :: i < k < |u| ==> IsDigit(u[k])) && |u| > 1 then
      Some((NatOf(u[..i] + u[i + 1..]), |u| - i - 1))
    else None
  }

  /**
   * `Decimal(s)` for the finite forms without exponent: surrounding whitespace,
   * an optional sign, then a mantissa.  `None` stands for the `InvalidOperation`
   * the constructor raises.
   */
  function DecimalParse(s: string): Option<Dec> {
    var t := Strip(s);
    if t != [] && (t[0] == '-' || t[0] == '+') then WithSign(t[0] == '-', ParseMantissa(t[1..]))
    else WithSign(false, ParseMantissa(t))
  }

  function WithSign(negative: bool, m: Option<(nat, nat)>): Option<Dec> {
    match m
    case None => None
    case Some((n, f)) => Some(Dec(Signed(negative, n), -(f as int)))
  }

  /** `.b` when there are fraction digits `b`, nothing otherwise. */
  function Frac(b: string): string {
    if b == [] then "" else "." + b
  }

  /** A numeral: the integer digits `a`, then the fraction digits `b`, if any. */
  function Numeral(a: string, b: string): string {
    a + Frac(b)
  }

  function SignText(negative: bool): string {
    if negative then "-" else ""
  }

  /** Where the pieces of a numeral sit in it. */
  lemma NumeralPieces(a: string, b: string)
    requires a != [] && AllDigits(a) && AllDigits(b)
    ensures var u := Numeral(a, b);
      && DigitPrefix(u) == |a|
      && (b == [] ==> u == a + b)
      && (b != [] ==> |u| == |a| + 1 + |b| && u[|a|] == '.' && u[|a| + 1..] == b && u[..|a|] + u[|a| + 1..] == a + b)
  {
    var u := Numeral(a, b);
    DigitPrefixOf(a, Frac(b));
    if b != [] {
      assert u[|a| + 1..] == b;
      assert u[..|a|] == a;
    } else {
      assert u == a + b;
    }
  }

  /** A numeral starts and ends with a digit. */
  lemma NumeralEnds(a: string, b: string)
    requires a != [] && AllDigits(a) && AllDigits(b)
    ensures var u := Numeral(a, b); u != [] && IsDigit(u[0]) && IsDigit(u[|u| - 1])
  {
    var u := Numeral(a, b);
    assert u[0] == a[0];
    if b != [] {
      assert u[|u| - 1] == b[|b| - 1];
    }
  }

  lemma ParseMantissaOf(a: string, b: string)
    requires a != [] && AllDigits(a) && AllDigits(b)
    ensures ParseMantissa(Numeral(a, b)) == Some((NatOf(a + b), |b|))
  {
    NumeralPieces(a, b);
    if b == [] {
      ParseMantissaWhole(Numeral(a, b), a, b);
    } else {
      ParseMantissaPoint(Numeral(a, b), a, b);
    }
  }

  lemma ParseMantissaWhole(u: string, a: string, b: string)
    requires u != [] && DigitPrefix(u) == |u| && b == [] && u == a + b
    ensures ParseMantissa(u) == Some((NatOf(a + b), |b|))
  {
  }

  lemma ParseMantissaPoint(u: string, a: string, b: string)
    requires DigitPrefix(u) == |a| && b != [] && AllDigits(b)
    requires |u| == |a| + 1 + |b| && u[|a|] == '.' && u[|a| + 1..] == b && u[..|a|] + u[|a| + 1..] == a + b
    ensures ParseMantissa(u) == Some((NatOf(a + b), |b|))
  {
  }

  /** A sign in front of a mantissa that starts with a digit and ends without space. */
  lemma SignedPieces(negative: bool, u: string)
    requires u != [] && IsDigit(u[0]) && IsDigit(u[|u| - 1])
    ensures var t := SignText(negative) + u;
      && Strip(t) == t
      && (negative ==> t != [] && t[0] == '-' && t[1..] == u)
      && (!negative ==> t == u)
  {
    var t := SignText(negative) + u;
    assert t[|t| - 1] == u[|u| - 1];
    StripNoop(t);
    if negative {
      assert t[1..] == u;
    } else {
      assert t == u;
    }
  }

  /** `Decimal` of a sign and an unsigned mantissa that starts with a digit and ends without space. */
  lemma DecimalParseSigned(negative: bool, u: string)
    requires u != [] && IsDigit(u[0]) && IsDigit(u[|u| - 1])
    ensures DecimalParse(SignText(negative) + u) == WithSign(negative, ParseMantissa(u))
  {
    if negative {
      DecimalParseMinus(u);
    } else {
      SignedPieces(false, u);
      DecimalParseUnsigned(u);
    }
  }

  lemma DecimalParseMinus(u: string)
    requires u != [] && IsDigit(u[0]) && IsDigit(u[|u| - 1])
    ensures DecimalParse("-" + u) == WithSign(true, ParseMantissa(u))
  {
    var t := "-" + u;
    SignedPieces(true, u);
    DecimalParseNegative(t);
  }

  /** `Decimal` of a stripped text with a leading minus sign. */
  lemma DecimalParseNegative(t: string)
    requires Strip(t) == t && t != [] && t[0] == '-'
    ensures DecimalParse(t) == WithSign(true, ParseMantissa(t[1..]))
  {
  }

  /** `Decimal` of a stripped text without a sign. */
  lemma DecimalParseUnsigned(t: string)
    requires Strip(t) == t && (t == [] || (t[0] != '-' && t[0] != '+'))
    ensures DecimalParse(t) == WithSign(false, ParseMantissa(t))
  {
  }

  /** A parsed decimal holds the digits it read: a numeral `[-]A[.B]` denotes `A.B`. */
  lemma DecimalParseNumeral(negative: bool, a: string, b: string)
    requires a != [] && AllDigits(a) && AllDigits(b)
    ensures DecimalParse(SignText(negative) + Numeral(a, b)) == Some(Dec(Signed(negative, NatOf(a + b)), -|b|))
  {
    NumeralEnds(a, b);
    ParseMantissaOf(a, b);
    DecimalParseSigned(negative, Numeral(a, b));
    WithSignSome(negative, (NatOf(a + b), |b|));
  }

  lemma WithSignSome(negative: bool, m: (nat, nat))
    ensures WithSign(negative, Some(m)) == Some(Dec(Signed(negative, m.0), -(m.1 as int)))
  {
  }

  /** Removing the commas of a signed numeral removes those of its integer digits only. */
  lemma RemoveCommas(negative: bool, a: string, b: string)
    requires AllDigits(b)
    ensures RemoveChar(SignText(negative) + Numeral(a, b), ',') == SignText(negative) + Numeral(RemoveChar(a, ','), b)
  {
    RemoveCharAppend(SignText(negative), Numeral(a, b), ',');
    RemoveCharAppend(a, Frac(b), ',');
    assert ',' !in SignText(negative);
    assert ',' !in Frac(b) by {
      if b != [] {
        assert forall k :: 0 <= k < |Frac(b)| ==> Frac(b)[k] == '.' || Frac(b)[k] == b[k - 1];
      }
    }
  }

  lemma DigitPrefixOf(a: string, rest: string)
    requires AllDigits(a)
    requires rest == [] || !IsDigit(rest[0])
    ensures DigitPrefix(a + rest) == |a|
  {
    if a != [] {
      assert (a + rest)[1..] == a[1..] + rest;
      DigitPrefixOf(a[1..], rest);
    } else {
      assert a + rest == rest;
    }
  }

  /** A mantissa `ParseMantissa` accepts is made of digits and one point. */
  lemma ParseMantissaChars(u: string)
    ensures ParseMantissa(u).Some? ==> forall m :: 0 <= m < |u| ==> IsDigit(u[m]) || u[m] == '.'
  {
    var i := DigitPrefix(u);
    if ParseMantissa(u).Some? {
      forall m | 0 <= m < |u| ensures IsDigit(u[m]) || u[m] == '.' {
        if m < i {
          assert u[m] == u[..i][m];
        } else if m > i {
          assert u[m] == u[i + 1..][m - i - 1];
        }
      }
    }
  }

  /** Every character is a sign, a digit or the point. */
  predicate DecimalChars(t: string) {
    forall m :: 0 <= m < |t| ==> IsDigit(t[m]) || t[m] == '+' || t[m] == '-' || t[m] == '.'
  }

  /** Every character `Decimal` accepts after stripping is a sign, a digit or the point. */
  lemma DecimalParseChars(s: string)
    ensures !DecimalChars(Strip(s)) ==> DecimalParse(s) == None
  {
    var t := Strip(s);
    var signed := t != [] && (t[0] == '-' || t[0] == '+');
    var u := if signed then t[1..] else t;
    assert DecimalParse(s) == WithSign(signed && t[0] == '-', ParseMantissa(u));
    ParseMantissaChars(u);
    if ParseMantissa(u).Some? {
      forall m | 0 <= m < |t| ensures IsDigit(t[m]) || t[m] == '+' || t[m] == '-' || t[m] == '.' {
        if signed && m > 0 {
          assert t[m] == u[m - 1];
        } else if !signed {
          assert t[m] == u[m];
        }
      }
    }
  }

  lemma LetterInStrip(s: string, k: nat)
    requires k < |s| && IsLetter(s[k])
    ensures !DecimalChars(Strip(s))
  {
    StripKeeps(s, k);
    var m :| 0 <= m < |Strip(s)| && Strip(s)[m] == s[k];
    assert !(IsDigit(Strip(s)[m]) || Strip(s)[m] == '+' || Strip(s)[m] == '-' || Strip(s)[m] == '.');
  }

  /** `Decimal` refuses any text holding a letter (no exponents or specials here). */
  lemma DecimalParseRejectsLetter(s: string, k: nat)
    requires k < |s| && IsLetter(s[k])
    ensures DecimalParse(s) == None
  {
    LetterInStrip(s, k);
    DecimalParseChars(s);
  }

  /** `Decimal` refuses a text without a digit (there are no special values here). */
  lemma DecimalParseNeedsDigit(s: string)
    ensures DecimalParse(s).Some? ==> HasDigit(s)
  {
    var t := Strip(s);
    var signed := t != [] && (t[0] == '-' || t[0] == '+');
    var u := if signed then t[1..] else t;
    if ParseMantissa(u).Some? {
      var i := DigitPrefix(u);
      var k := if i > 0 then 0 else 1;
      assert i > 0 ==> u[..i][0] == u[0];
      assert i == 0 ==> u[i + 1..][0] == u[1];
      assert IsDigit(u[k]);
      assert u[k] == t[if signed then k + 1 else k];
      StripFrom(s, u[k]);
    }
  }

  /** Significant digits kept by arithmetic in Python's default decimal context. */
  const Precision: nat := 28

  /** 10^28: the first coefficient too wide for `Precision` digits. */
  const PrecisionLimit: nat := 10000000000000000000000000000

  lemma PrecisionLimitIsPower()
    ensures Pow10(Precision) == PrecisionLimit
  {
    assert Pow10(7) == 10000000;
    Pow10Add(7, 7);
    Pow10Add(14, 14);
  }

  /** `n // 10**k`: `n` with its `k` lowest digits dropped. */
  function DropDigits(n: nat, k: nat): nat {
    if k == 0 then n else DropDigits(n / 10, k - 1)
  }

  /** Some digit among the `k` lowest digits of `n` is not zero. */
  predicate LowDigitsNonzero(n: nat, k: nat) {
    k > 0 && (n % 10 != 0 || LowDigitsNonzero(n / 10, k - 1))
  }

  /**
   * `n / 10^k` rounded half-even to a whole number, decided on the digits as
   * `Decimal` does: the first dropped digit, whether any later dropped digit
   * is nonzero, and the parity of the last kept digit.
   */
  function RoundedQuotient(n: nat, k: nat): nat
    requires k >= 1
  {
    var q := DropDigits(n, k);
    var d := DropDigits(n, k - 1) % 10;
    if d > 5 || (d == 5 && (LowDigitsNonzero(n, k - 1) || q % 2 == 1)) then q + 1 else q
  }

  /**
   * The result `coef * 10^exp` of an operation, rounded to `Precision`
   * significant digits with ROUND_HALF_EVEN, as `Decimal._fix` does.
   */
  function Round(coef: int, exp: int): Dec {
    var n := Abs(coef);
    var k := Digits(n) - Precision;
    if k <= 0 then Dec(coef, exp)
    else
      var q1 := RoundedQuotient(n, k);
      if q1 == PrecisionLimit then Dec(Signed(coef < 0, q1 / 10), exp + k + 1)
      else Dec(Signed(coef < 0, q1), exp + k)
  }

  /** Number of significant digits of `n` (1 for zero). */
  function Digits(n: nat): (d: nat)
    ensures d >= 1
  {
    if n < 10 then 1 else 1 + Digits(n / 10)
  }

  lemma {:induction false} DigitsBound(n: nat, k: nat)
    requires n < Pow10(k)
    ensures Digits(n) <= k || (n == 0 && k == 0)
  {
    if n >= 10 {
      assert k >= 1;
      assert n / 10 < Pow10(k - 1);
      DigitsBound(n / 10, k - 1);
    }
  }

  /** `a * b` in the default context. */
  function Mul(a: Dec, b: Dec): Dec {
    Round(a.coef * b.coef, a.exp + b.exp)
  }

  /** A product with at most 28 significant digits is exact. */
  lemma MulExact(a: Dec, b: Dec)
    requires Abs(a.coef * b.coef) < PrecisionLimit
    ensures Mul(a, b) == Dec(a.coef * b.coef, a.exp + b.exp)
  {
    PrecisionLimitIsPower();
    DigitsBound(Abs(a.coef * b.coef), Precision);
  }

  /** Multiplying by a whole number `m` (exponent 0) scales the value by `m`. */
  lemma ValueScale(c: int, e: int, m: nat)
    ensures Value(Dec(c * m, e)) == Value(Dec(c, e)) * m as real
  {
    if e >= 0 {
      assert c * m * Pow10(e) == (c * Pow10(e)) * m;
    } else {
      var p := Pow10(-e) as real;
      assert (c * m) as real == c as real * m as real;
      assert (c as real * m as real) / p == (c as real / p) * m as real;
    }
  }
}
