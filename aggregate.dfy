/**
 * The two reductions at the end of the number finder's processing: the largest value of a list
 * (`find_max_number`) and its rendering with thousands separators
 * (`format_number`).
 */
module Aggregate {
  import opened Text
  import opened Wrappers
  import opened Decimals

  // ---------------------------------------------------------------------------
  // find_max_number

  /**
   * `max(ns)`: the values are compared left to right and a later one replaces
   * the current maximum only when it is strictly larger, so of several equal
   * maxima the first is returned.
   */
  function MaxOf(ns: seq<Dec>): (m: Dec)
    requires ns != []
    ensures m in ns
    ensures forall k :: 0 <= k < |ns| ==> Value(ns[k]) <= Value(m)
    ensures exists i :: 0 <= i < |ns| && ns[i] == m && forall j :: 0 <= j < i ==> Value(ns[j]) < Value(m)
  {
    if |ns| == 1 then ns[0]
    else
      var init := ns[..|ns| - 1];
      var m := MaxOf(init);
      var last := ns[|ns| - 1];
      assert forall k :: 0 <= k < |init| ==> ns[k] == init[k];
      if Value(last) > Value(m) then
        assert forall j :: 0 <= j < |ns| - 1 ==> Value(ns[j]) < Value(last);
        last
      else m
  }

  /** `find_max_number(ns)`: 0 for an empty list, otherwise the largest element. */
  function FindMaxNumber(ns: seq<Dec>): (m: Dec)
    ensures ns == [] ==> m == Dec(0, 0)
    ensures ns != [] ==> m in ns && forall k :: 0 <= k < |ns| ==> Value(ns[k]) <= Value(m)
  {
    if ns == [] then Dec(0, 0) else MaxOf(ns)
  }

  /** The value of the maximum does not depend on the order of the list. */
  lemma FindMaxOrderFree(a: seq<Dec>, b: seq<Dec>)
    requires multiset(a) == multiset(b)
    ensures Value(FindMaxNumber(a)) == Value(FindMaxNumber(b))
  {
    assert |a| == |multiset(a)| == |multiset(b)| == |b|;
    if a != [] {
      var ma := FindMaxNumber(a);
      var mb := FindMaxNumber(b);
      assert ma in multiset(b);
      assert mb in multiset(a);
      var i :| 0 <= i < |b| && b[i] == ma;
      var j :| 0 <= j < |a| && a[j] == mb;
    }
  }

  // ---------------------------------------------------------------------------
  // format_number

  /** Three digits with leading zeros, for a group after a separator. */
  function Pad3(r: nat): (p: string)
    requires r < 1000
    ensures |p| == 3 && AllDigits(p) && NatOf(p) == r
  {
    var p := [DigitChar(r / 100), DigitChar(r / 10 % 10), DigitChar(r % 10)];
    NatOfThree(p);
    p
  }

  lemma NatOfThree(p: string)
    requires |p| == 3
    ensures NatOf(p) == (NatOf([]) * 10 + DigitValue(p[0])) * 100 + DigitValue(p[1]) * 10 + DigitValue(p[2])
  {
    assert p[..2][..1] == [p[0]];
    assert [p[0]][..0] == [];
    assert NatOf(p[..2]) == NatOf([p[0]]) * 10 + DigitValue(p[1]);
  }

  /** `f"{n:,}"` for `n >= 0`: the digits of `n` with a comma before every group of three from the right. */
  function Group(n: nat): string
    decreases n
  {
    if n < 1000 then NatToDigits(n) else Group(n / 1000) + "," + Pad3(n % 1000)
  }

  /** Without its commas, the grouped text is the plain digits of `n`. */
  lemma {:induction false} GroupValue(n: nat)
    ensures RemoveChar(Group(n), ',') != [] && AllDigits(RemoveChar(Group(n), ','))
    ensures NatOf(RemoveChar(Group(n), ',')) == n
    decreases n
  {
    if n < 1000 {
      var ds := NatToDigits(n);
      assert ',' !in ds by {
        assert forall k :: 0 <= k < |ds| ==> IsDigit(ds[k]);
      }
      NatOfNatToDigits(n);
    } else {
      GroupValue(n / 1000);
      var g := RemoveChar(Group(n / 1000), ',');
      var p := Pad3(n % 1000);
      assert ',' !in p by {
        assert forall k :: 0 <= k < |p| ==> IsDigit(p[k]);
      }
      RemoveCharAppend(Group(n / 1000) + ",", p, ',');
      RemoveCharAppend(Group(n / 1000), ",", ',');
      assert RemoveChar(",", ',') == [];
      assert RemoveChar(Group(n), ',') == g + p;
      NatOfAppend(g, p);
      assert Pow10(3) == 1000;
    }
  }

  /** `f"{d:f}"` taken apart: the sign, the digits before the point and those after it. */
  datatype Plain = Plain(negative: bool, whole: string, fraction: string)

  /** The parts of `f"{d:f}"`: the exponent decides where the point goes; no exponent notation. */
  function PlainParts(d: Dec): (p: Plain)
    ensures p.negative == (d.coef < 0)
    ensures p.whole != [] && AllDigits(p.whole) && AllDigits(p.fraction)
    ensures d.exp >= 0 ==> p.fraction == []
    ensures d.exp < 0 ==> |p.fraction| == -d.exp
  {
    var ds := NatToDigits(Abs(d.coef));
    if d.exp >= 0 then Plain(d.coef < 0, ds + Zeros(d.exp), [])
    else
      var k := -d.exp;
      if |ds| > k then Plain(d.coef < 0, ds[..|ds| - k], ds[|ds| - k..])
      else Plain(d.coef < 0, "0", Zeros(k - |ds|) + ds)
  }

  /** The digits of `f"{d:f}"` spell the coefficient, scaled by the exponent when that is positive. */
  lemma PlainValue(d: Dec)
    ensures NatOf(PlainParts(d).whole) * Pow10(|PlainParts(d).fraction|) + NatOf(PlainParts(d).fraction)
      == Abs(d.coef) * (if d.exp >= 0 then Pow10(d.exp) else 1)
  {
    var ds := NatToDigits(Abs(d.coef));
    NatOfNatToDigits(Abs(d.coef));
    if d.exp >= 0 {
      PlainValueWhole(ds, d.exp);
    } else if |ds| > -d.exp {
      PlainValueSplit(ds, -d.exp);
    } else {
      PlainValueSmall(ds, -d.exp);
    }
  }

  lemma PlainValueWhole(ds: string, e: nat)
    ensures NatOf(ds + Zeros(e)) * Pow10(0) + NatOf([]) == NatOf(ds) * Pow10(e)
  {
    NatOfAppend(ds, Zeros(e));
    NatOfZeros(e);
  }

  lemma PlainValueSplit(ds: string, k: nat)
    requires |ds| > k
    ensures NatOf(ds[..|ds| - k]) * Pow10(|ds[|ds| - k..]|) + NatOf(ds[|ds| - k..]) == NatOf(ds)
  {
    assert ds == ds[..|ds| - k] + ds[|ds| - k..];
    NatOfAppend(ds[..|ds| - k], ds[|ds| - k..]);
  }

  lemma PlainValueSmall(ds: string, k: nat)
    requires |ds| <= k
    ensures NatOf("0") * Pow10(|Zeros(k - |ds|) + ds|) + NatOf(Zeros(k - |ds|) + ds) == NatOf(ds)
  {
    var z := Zeros(k - |ds|);
    NatOfAppend(z, ds);
    NatOfZeros(k - |ds|);
    NatOfZeroDigit();
    ZeroTimes(NatOf(z), Pow10(|ds|));
    ZeroTimes(NatOf("0"), Pow10(|z + ds|));
  }

  lemma ZeroTimes(x: nat, y: nat)
    requires x == 0
    ensures x * y == 0
  {
  }

  lemma NatOfZeroDigit()
    ensures NatOf("0") == 0
  {
    assert "0"[..0] == [];
  }

  /** `f"{d:f}"`. */
  function PlainString(d: Dec): string {
    var p := PlainParts(d);
    SignText(p.negative) + p.whole + Frac(p.fraction)
  }

  /** Step 2 of `format_number`: `s.rstrip('0').rstrip('.')` when `s` holds a point. */
  function TrimFraction(s: string): string {
    if '.' in s then RStripChar(RStripChar(s, '0'), '.') else s
  }

  /** `int(p)` for an optional minus sign followed by digits. */
  function IntOf(p: string): int {
    if p != [] && p[0] == '-' then -(NatOf(p[1..]) as int) else NatOf(p)
  }

  /** `f"{v:,}"` for an integer `v`. */
  function GroupInt(v: int): string {
    if v < 0 then "-" + Group(-v) else Group(v)
  }

  /** Steps 2 to 4 of `format_number`, as written, on the text `f"{d:f}"`. */
  function FormatPlainAsWritten(s: string): string {
    var parts := SplitOn(TrimFraction(s), '.');
    JoinWith('.', [GroupInt(IntOf(parts[0]))] + parts[1..])
  }

  /**
   * `format_number(d)` as written: the part before the point goes through
   * `int()`, which turns "-0" into 0 and so loses the sign of every value
   * strictly between -1 and 0.
   */
  function FormatAsWritten(d: Dec): string {
    FormatPlainAsWritten(PlainString(d))
  }

  /** The integer part grouped with its sign kept, also when its digits are all zero. */
  function GroupSigned(p: string): string {
    if p != [] && p[0] == '-' then "-" + Group(NatOf(p[1..])) else Group(NatOf(p))
  }

  /** Steps 2 to 4 of `format_number` with the sign of the integer part kept. */
  function FormatPlain(s: string): string {
    var parts := SplitOn(TrimFraction(s), '.');
    JoinWith('.', [GroupSigned(parts[0])] + parts[1..])
  }

  /** `format_number(d)`, corrected so that the sign of a value between -1 and 0 is kept. */
  function FormatNumber(d: Dec): string {
    FormatPlain(PlainString(d))
  }

  /** The fraction digits a rendering keeps: those of `f"{d:f}"` less their trailing zeros. */
  function KeptFraction(d: Dec): string {
    RStripChar(PlainParts(d).fraction, '0')
  }

  /** The integer digits of a rendering with the commas taken out. */
  function WholeDigits(d: Dec): string {
    RemoveChar(Group(NatOf(PlainParts(d).whole)), ',')
  }

  /** The decimal spelled by the grouped digits of `w`, commas removed, followed by the fraction digits `t`. */
  function GroupedDec(negative: bool, w: nat, t: string): Dec {
    Dec(Signed(negative, NatOf(RemoveChar(Group(w), ',') + t)), -(|t| as int))
  }

  /** The decimal that the digits of a rendering spell, with the sign given. */
  function Spelled(negative: bool, d: Dec): Dec {
    GroupedDec(negative, NatOf(PlainParts(d).whole), KeptFraction(d))
  }

  /** A rendering read back by `Decimal` once its commas are removed. */
  function Reparse(s: string): Option<Dec> {
    DecimalParse(RemoveChar(s, ','))
  }

  lemma {:induction false} RStripCharAppend(a: string, b: string, c: char)
    ensures RStripChar(a + b, c) == if RStripChar(b, c) == [] then RStripChar(a, c) else a + RStripChar(b, c)
    decreases |b|
  {
    if b == [] {
      assert a + b == a;
    } else if b[|b| - 1] == c {
      assert (a + b)[..|a + b| - 1] == a + b[..|b| - 1];
      RStripCharAppend(a, b[..|b| - 1], c);
    }
  }

  /** What `rstrip('0')` leaves of a run of digits is digits, and the zeros it took make up the rest. */
  lemma StripZerosShape(f: string)
    requires AllDigits(f)
    ensures AllDigits(RStripChar(f, '0'))
    ensures f == RStripChar(f, '0') + Zeros(|f| - |RStripChar(f, '0')|)
    ensures RStripChar(f, '0') == [] || RStripChar(f, '0')[|RStripChar(f, '0')| - 1] != '0'
  {
    var t := RStripChar(f, '0');
    assert forall k :: 0 <= k < |t| ==> t[k] == f[k];
    assert f == t + Zeros(|f| - |t|);
  }

  lemma RStripAfterPoint(h: string, c: char)
    requires c != '.'
    ensures RStripChar(h + ".", c) == h + "."
  {
  }

  /** `rstrip('0')` on a text that ends with a point and a digit run only touches the run. */
  lemma StripZerosAfterPoint(h: string, f: string)
    ensures RStripChar((h + ".") + f, '0') == (h + ".") + RStripChar(f, '0')
  {
    RStripCharAppend(h + ".", f, '0');
    RStripAfterPoint(h, '0');
    if RStripChar(f, '0') == [] {
      assert (h + ".") + RStripChar(f, '0') == h + ".";
    }
  }

  lemma RStripPoint(h: string)
    requires '.' !in h
    ensures RStripChar(h + ".", '.') == h
  {
    assert (h + ".")[..|h|] == h;
  }

  lemma RStripKept(u: string, c: char)
    requires u != [] && u[|u| - 1] != c
    ensures RStripChar(u, c) == u
  {
  }

  /** `rstrip('.')` after the zeros are gone: only a bare trailing point is removed. */
  lemma StripPointAfter(h: string, t: string)
    requires '.' !in h && (t == [] || t[|t| - 1] != '.')
    ensures RStripChar((h + ".") + t, '.') == h + Frac(t)
  {
    if t == [] {
      StripBarePoint(h);
    } else {
      StripPointKept(h, t);
    }
  }

  lemma StripBarePoint(h: string)
    requires '.' !in h
    ensures RStripChar((h + ".") + [], '.') == h + Frac([])
  {
    assert (h + ".") + [] == h + ".";
    RStripPoint(h);
  }

  lemma StripPointKept(h: string, t: string)
    requires t != [] && t[|t| - 1] != '.'
    ensures RStripChar((h + ".") + t, '.') == h + Frac(t)
  {
    PointThenFraction(h, t);
    RStripKept((h + ".") + t, '.');
  }

  /** A point and a non-empty fraction after `h`: the text ends with the fraction's last character. */
  lemma PointThenFraction(h: string, t: string)
    requires t != []
    ensures h + Frac(t) == (h + ".") + t
    ensures ((h + ".") + t)[|(h + ".") + t| - 1] == t[|t| - 1]
  {
    assert h + ("." + t) == (h + ".") + t;
  }

  lemma TrimWithPoint(s: string, i: nat)
    requires i < |s| && s[i] == '.'
    ensures TrimFraction(s) == RStripChar(RStripChar(s, '0'), '.')
  {
  }

  /** Trimming a text with a fraction removes the fraction's trailing zeros, and the point when nothing is left. */
  lemma TrimPoint(h: string, f: string)
    requires '.' !in h && f != [] && AllDigits(f)
    ensures TrimFraction(h + Frac(f)) == h + Frac(RStripChar(f, '0'))
  {
    var t := RStripChar(f, '0');
    assert h + Frac(f) == (h + ".") + f;
    assert ((h + ".") + f)[|h|] == '.';
    TrimWithPoint((h + ".") + f, |h|);
    StripZerosAfterPoint(h, f);
    StripZerosShape(f);
    StripPointAfter(h, t);
  }

  /** Splitting the trimmed text at the point gives the integer part and, when there is one, the fraction. */
  lemma SplitShape(h: string, t: string)
    requires '.' !in h && '.' !in t
    ensures SplitOn(h + Frac(t), '.') == if t == [] then [h] else [h, t]
  {
    if t == [] {
      assert h + Frac(t) == h;
    } else {
      assert h + Frac(t) == h + ['.'] + t;
      SplitOnOnce(h, t, '.');
    }
  }

  lemma NoPointInDigits(s: string)
    requires AllDigits(s)
    ensures '.' !in s
  {
    assert forall k :: 0 <= k < |s| ==> IsDigit(s[k]);
  }

  /** Step 2 on a text whose point, if any, comes before the digits `f`. */
  lemma TrimShape(h: string, f: string)
    requires '.' !in h && AllDigits(f)
    ensures TrimFraction(h + Frac(f)) == h + Frac(RStripChar(f, '0'))
    ensures '.' !in RStripChar(f, '0')
  {
    StripZerosShape(f);
    NoPointInDigits(RStripChar(f, '0'));
    if f == [] {
      assert h + Frac(f) == h;
    } else {
      TrimPoint(h, f);
    }
  }

  /** Joining the head with the rest of the split text puts the point back. */
  lemma JoinShape(g: string, t: string)
    ensures JoinWith('.', [g] + (if t == [] then [] else [t])) == g + Frac(t)
  {
    if t != [] {
      assert [g] + [t] == [g, t];
      assert JoinWith('.', [t]) == t;
    } else {
      assert [g] + [] == [g];
    }
  }

  /** Steps 2 to 4 on a text whose point, if any, comes before the digits `f`. */
  lemma FormatPlainShape(h: string, f: string)
    requires '.' !in h && AllDigits(f)
    ensures FormatPlain(h + Frac(f)) == GroupSigned(h) + Frac(RStripChar(f, '0'))
    ensures FormatPlainAsWritten(h + Frac(f)) == GroupInt(IntOf(h)) + Frac(RStripChar(f, '0'))
  {
    var t := RStripChar(f, '0');
    TrimShape(h, f);
    SplitShape(h, t);
    var parts := SplitOn(h + Frac(t), '.');
    assert parts[0] == h;
    assert parts[1..] == if t == [] then [] else [t];
    JoinShape(GroupSigned(h), t);
    JoinShape(GroupInt(IntOf(h)), t);
  }

  /** The sign and the integer digits of `f"{d:f}"`. */
  lemma HeadShape(negative: bool, w: string)
    requires w != [] && AllDigits(w)
    ensures '.' !in SignText(negative) + w
    ensures GroupSigned(SignText(negative) + w) == SignText(negative) + Group(NatOf(w))
    ensures IntOf(SignText(negative) + w) == Signed(negative, NatOf(w))
  {
    var h := SignText(negative) + w;
    NoPointInDigits(w);
    if negative {
      assert h[0] == '-' && h[1..] == w;
    } else {
      assert h == w;
    }
  }

  /** `format_number`, corrected: the sign, the grouped integer part, and the fraction without trailing zeros. */
  lemma FormatShape(d: Dec)
    ensures FormatNumber(d) == SignText(PlainParts(d).negative) + Group(NatOf(PlainParts(d).whole)) + Frac(KeptFraction(d))
  {
    var p := PlainParts(d);
    HeadShape(p.negative, p.whole);
    FormatPlainShape(SignText(p.negative) + p.whole, p.fraction);
  }

  /** `format_number` as written: the integer part goes through `int()` before it is grouped. */
  lemma FormatAsWrittenShape(d: Dec)
    ensures FormatAsWritten(d) == GroupInt(Signed(PlainParts(d).negative, NatOf(PlainParts(d).whole))) + Frac(KeptFraction(d))
  {
    var p := PlainParts(d);
    HeadShape(p.negative, p.whole);
    FormatPlainShape(SignText(p.negative) + p.whole, p.fraction);
  }

  /** Without its commas, the corrected rendering is a plain signed numeral. */
  lemma FormatText(d: Dec)
    ensures RemoveChar(FormatNumber(d), ',') == SignText(PlainParts(d).negative) + Numeral(WholeDigits(d), KeptFraction(d))
  {
    var p := PlainParts(d);
    FormatShape(d);
    StripZerosShape(p.fraction);
    CommaFreeNumeral(FormatNumber(d), p.negative, Group(NatOf(p.whole)), RStripChar(p.fraction, '0'));
  }

  lemma CommaFreeNumeral(x: string, negative: bool, g: string, t: string)
    requires AllDigits(t) && x == SignText(negative) + g + Frac(t)
    ensures RemoveChar(x, ',') == SignText(negative) + Numeral(RemoveChar(g, ','), t)
  {
    assert x == SignText(negative) + Numeral(g, t);
    RemoveCommas(negative, g, t);
  }

  /** A decimal with a non-positive exponent is its coefficient over a power of ten. */
  lemma ValueBelowPoint(c: int, e: nat)
    ensures Value(Dec(c, -(e as int))) == c as real / Pow10(e) as real
  {
  }

  /** `(c * q) / (p * q) == c / p` over the reals. */
  lemma CancelScale(c: int, p: nat, q: nat)
    requires p > 0 && q > 0
    ensures (c * q) as real / (p * q) as real == c as real / p as real
  {
    var x := c as real / p as real;
    assert x * p as real == c as real;
    assert (c * q) as real == c as real * q as real;
    assert (p * q) as real == p as real * q as real;
    assert x * (p as real * q as real) == c as real * q as real;
  }

  /** A fraction `n / 10^l` keeps its value when both sides are scaled by `10^z`. */
  lemma ScaleValue(negative: bool, coef: int, n: nat, l: nat, z: nat)
    requires negative == (coef < 0) && n * Pow10(z) == Abs(coef)
    ensures Value(Dec(Signed(negative, n), -(l as int))) == Value(Dec(coef, -((l + z) as int)))
  {
    Pow10Add(l, z);
    var c := Signed(negative, n);
    SignedScale(negative, coef, n, Pow10(z));
    ValueBelowPoint(c, l);
    ValueBelowPoint(coef, l + z);
    CancelScale(c, Pow10(l), Pow10(z));
  }

  lemma SignedScale(negative: bool, coef: int, n: nat, q: nat)
    requires negative == (coef < 0) && n * q == Abs(coef)
    ensures Signed(negative, n) * q == coef
  {
  }

  /** The digits after the point, with the stripped zeros put back, scale the shortened numeral. */
  lemma FractionScale(w: nat, f: string)
    requires AllDigits(f)
    ensures w * Pow10(|f|) + NatOf(f)
      == (w * Pow10(|RStripChar(f, '0')|) + NatOf(RStripChar(f, '0'))) * Pow10(|f| - |RStripChar(f, '0')|)
  {
    var t := RStripChar(f, '0');
    var z := |f| - |t|;
    StripZerosShape(f);
    assert NatOf(f) == NatOf(t) * Pow10(z) by {
      NatOfAppend(t, Zeros(z));
      NatOfZeros(z);
    }
    assert Pow10(|f|) == Pow10(|t|) * Pow10(z) by {
      Pow10Add(|t|, z);
    }
    FactorScale(w, Pow10(|t|), NatOf(t), Pow10(z), Pow10(|f|), NatOf(f));
  }

  lemma FactorScale(w: nat, a: nat, b: nat, q: nat, wide: nat, n: nat)
    requires wide == a * q && n == b * q
    ensures w * wide + n == (w * a + b) * q
  {
  }

  /** A signed numeral with integer digits `g` and fraction digits `t` parses to the digits of `g + t`. */
  lemma ParsedNumeral(x: string, negative: bool, g: string, t: string)
    requires g != [] && AllDigits(g) && AllDigits(t)
    requires x == SignText(negative) + Numeral(g, t)
    ensures DecimalParse(x) == Some(Dec(Signed(negative, NatOf(g + t)), -(|t| as int)))
  {
    DecimalParseNumeral(negative, g, t);
  }

  /** The corrected rendering without its commas parses to the numeral of its digits. */
  lemma FormatParsed(d: Dec)
    ensures Reparse(FormatNumber(d)) == Some(Spelled(PlainParts(d).negative, d))
  {
    FormatText(d);
    SpelledParse(RemoveChar(FormatNumber(d), ','), PlainParts(d).negative, d);
  }

  /** A signed numeral made of the digits of a rendering parses to the decimal they spell. */
  lemma SpelledParse(x: string, negative: bool, d: Dec)
    requires x == SignText(negative) + Numeral(WholeDigits(d), KeptFraction(d))
    ensures DecimalParse(x) == Some(Spelled(negative, d))
  {
    StripZerosShape(PlainParts(d).fraction);
    ParsedGroups(x, negative, NatOf(PlainParts(d).whole), KeptFraction(d));
  }

  lemma ParsedGroups(x: string, negative: bool, w: nat, t: string)
    requires AllDigits(t) && x == SignText(negative) + Numeral(RemoveChar(Group(w), ','), t)
    ensures DecimalParse(x) == Some(GroupedDec(negative, w, t))
  {
    GroupValue(w);
    ParsedNumeral(x, negative, RemoveChar(Group(w), ','), t);
  }

  /** The digits of the rendering spell `w` followed by the fraction `t`. */
  lemma GroupedWorth(w: nat, t: string)
    ensures NatOf(RemoveChar(Group(w), ',') + t) == w * Pow10(|t|) + NatOf(t)
  {
    GroupValue(w);
    NatOfAppend(RemoveChar(Group(w), ','), t);
  }

  /** The numeral of the rendered digits is worth exactly `d`. */
  lemma FormatValue(d: Dec)
    ensures Value(Spelled(PlainParts(d).negative, d)) == Value(d)
  {
    var p := PlainParts(d);
    PlainValue(d);
    DigitsValue(d, p.negative, NatOf(p.whole), p.fraction);
  }

  /** The same, for any sign, integer part `w` and fraction digits `f` that spell `d`. */
  lemma DigitsValue(d: Dec, negative: bool, w: nat, f: string)
    requires negative == (d.coef < 0) && AllDigits(f)
    requires d.exp >= 0 ==> f == []
    requires d.exp < 0 ==> |f| == -d.exp
    requires w * Pow10(|f|) + NatOf(f) == Abs(d.coef) * (if d.exp >= 0 then Pow10(d.exp) else 1)
    ensures Value(GroupedDec(negative, w, RStripChar(f, '0'))) == Value(d)
  {
    var t := RStripChar(f, '0');
    var n: nat := NatOf(RemoveChar(Group(w), ',') + t);
    GroupedWorth(w, t);
    ScaledValue(d, negative, w, f, n);
  }

  /** The integer part followed by the fraction without its trailing zeros, as one numeral `n`, is worth `d`. */
  lemma ScaledValue(d: Dec, negative: bool, w: nat, f: string, n: nat)
    requires negative == (d.coef < 0) && AllDigits(f)
    requires d.exp >= 0 ==> f == []
    requires d.exp < 0 ==> |f| == -d.exp
    requires w * Pow10(|f|) + NatOf(f) == Abs(d.coef) * (if d.exp >= 0 then Pow10(d.exp) else 1)
    requires n == w * Pow10(|RStripChar(f, '0')|) + NatOf(RStripChar(f, '0'))
    ensures Value(Dec(Signed(negative, n), -(|RStripChar(f, '0')| as int))) == Value(d)
  {
    var t := RStripChar(f, '0');
    FractionScale(w, f);
    if d.exp >= 0 {
      assert t == [] && n == w;
      WholeValue(d.coef, d.exp, n);
    } else {
      ScaleValue(negative, d.coef, n, |t|, |f| - |t|);
    }
  }

  lemma WholeValue(coef: int, exp: int, n: nat)
    requires exp >= 0 && n == Abs(coef) * Pow10(exp)
    ensures Value(Dec(Signed(coef < 0, n), 0)) == Value(Dec(coef, exp))
  {
    var q := Pow10(exp);
    SignedProduct(coef, q);
    assert Pow10(0) == 1;
  }

  /** Giving the magnitude of a product back the sign of `c`. */
  lemma SignedProduct(c: int, q: nat)
    ensures Signed(c < 0, Abs(c) * q) == c * q
  {
    if c < 0 {
      assert Abs(c) * q == -(c * q);
    }
  }

  /**
   * Round trip: the corrected rendering, with its commas removed, parses back
   * to a decimal of the same value.
   */
  lemma FormatRoundTrip(d: Dec)
    ensures Reparse(FormatNumber(d)).Some? && Value(Reparse(FormatNumber(d)).value) == Value(d)
  {
    FormatParsed(d);
    FormatValue(d);
  }

  // ---------------------------------------------------------------------------
  // The sign lost by int()

  /** A decimal is negative exactly when its coefficient is. */
  lemma ValueSign(d: Dec)
    ensures (Value(d) < 0.0) == (d.coef < 0)
  {
    var q := Pow10(if d.exp >= 0 then d.exp else -d.exp);
    if d.exp >= 0 {
      SignOfProduct(d.coef, q);
    } else {
      SignOfRatio(d.coef, q);
    }
  }

  lemma SignOfProduct(c: int, q: nat)
    requires q >= 1
    ensures (c * q < 0) == (c < 0) && (c < 0 ==> c * q <= -1)
  {
  }

  lemma SignOfRatio(c: int, q: nat)
    requires q >= 1
    ensures (c as real / q as real < 0.0) == (c < 0)
    ensures (-1.0 < c as real / q as real) == (-(q as int) < c)
  {
    var x := c as real / q as real;
    assert x * q as real == c as real;
  }

  /** Of a negative decimal, the integer digits of `f"{d:f}"` are all zero exactly when it lies above -1. */
  lemma WholeZero(d: Dec)
    requires d.coef < 0
    ensures (NatOf(PlainParts(d).whole) == 0) == (-1.0 < Value(d))
  {
    var p := PlainParts(d);
    PlainValue(d);
    NatOfBound(p.fraction);
    WholeZeroOf(d, NatOf(p.whole), NatOf(p.fraction), |p.fraction|);
  }

  lemma WholeZeroOf(d: Dec, w: nat, fv: nat, k: nat)
    requires d.coef < 0 && fv < Pow10(k)
    requires d.exp >= 0 ==> k == 0 && fv == 0
    requires d.exp < 0 ==> k == -d.exp
    requires w * Pow10(k) + fv == Abs(d.coef) * (if d.exp >= 0 then Pow10(d.exp) else 1)
    ensures (w == 0) == (-1.0 < Value(d))
  {
    if d.exp >= 0 {
      SignOfProduct(d.coef, Pow10(d.exp));
      assert w == Abs(d.coef) * Pow10(d.exp);
    } else {
      ValueBelowPoint(d.coef, k);
      SignOfRatio(d.coef, Pow10(k));
      WholeZeroBelow(d.coef, w, fv, Pow10(k));
    }
  }

  lemma WholeZeroBelow(c: int, w: nat, fv: nat, q: nat)
    requires c < 0 && 1 <= q && fv < q && w * q + fv == -c
    ensures (w == 0) == (-(q as int) < c)
  {
    if w > 0 {
      assert w * q >= q;
    }
  }

  /** `int()` of the integer part of `f"{d:f}"` drops a minus sign: the value is negative and its integer digits are zero. */
  predicate SignLost(d: Dec) {
    d.coef < 0 && NatOf(PlainParts(d).whole) == 0
  }

  /** The sign is lost exactly for the values strictly between -1 and 0. */
  lemma SignLostMeaning(d: Dec)
    ensures SignLost(d) == (-1.0 < Value(d) < 0.0)
  {
    ValueSign(d);
    if d.coef < 0 {
      WholeZero(d);
    }
  }

  /** The two renderings agree unless the sign is lost, and then differ by the minus sign only. */
  lemma AgreementByWhole(d: Dec)
    ensures !SignLost(d) ==> FormatAsWritten(d) == FormatNumber(d)
    ensures SignLost(d) ==> FormatNumber(d) == "-" + FormatAsWritten(d)
  {
    var p := PlainParts(d);
    FormatShape(d);
    FormatAsWrittenShape(d);
    HeadAgreement(p.negative, NatOf(p.whole), Frac(RStripChar(p.fraction, '0')));
  }

  /**
   * `format_number` as written agrees with the corrected rendering except on
   * the values strictly between -1 and 0, where it drops the minus sign.
   */
  lemma FormatAgreement(d: Dec)
    ensures !(-1.0 < Value(d) < 0.0) ==> FormatAsWritten(d) == FormatNumber(d)
    ensures -1.0 < Value(d) < 0.0 ==> FormatNumber(d) == "-" + FormatAsWritten(d)
  {
    SignLostMeaning(d);
    AgreementByWhole(d);
  }

  lemma HeadAgreement(negative: bool, w: nat, tail: string)
    ensures !negative || w > 0 ==> GroupInt(Signed(negative, w)) + tail == SignText(negative) + Group(w) + tail
    ensures negative && w == 0 ==> SignText(negative) + Group(w) + tail == "-" + (GroupInt(Signed(negative, w)) + tail)
  {
  }

  /**
   * The finding: for a value strictly between -1 and 0, `format_number` as
   * written renders the magnitude only — its text starts with the digit 0
   * and parses back to the opposite value.
   */
  lemma FormatDropsSign(d: Dec)
    requires -1.0 < Value(d) < 0.0
    ensures FormatAsWritten(d) != [] && FormatAsWritten(d)[0] == '0'
    ensures FormatNumber(d) == "-" + FormatAsWritten(d)
    ensures Reparse(FormatAsWritten(d)).Some? && Value(Reparse(FormatAsWritten(d)).value) == -Value(d)
  {
    SignLostMeaning(d);
    AgreementByWhole(d);
    AsWrittenStart(d);
    AsWrittenRoundTrip(d);
  }

  /** When the sign is lost, the as-written rendering starts with the digit 0. */
  lemma AsWrittenStart(d: Dec)
    requires SignLost(d)
    ensures FormatAsWritten(d) != [] && FormatAsWritten(d)[0] == '0'
  {
    var p := PlainParts(d);
    FormatAsWrittenShape(d);
    AsWrittenHead(NatOf(p.whole), Frac(RStripChar(p.fraction, '0')));
  }

  /** When the sign is lost, the as-written rendering without commas parses back to the opposite value. */
  lemma AsWrittenRoundTrip(d: Dec)
    requires SignLost(d)
    ensures Reparse(FormatAsWritten(d)).Some? && Value(Reparse(FormatAsWritten(d)).value) == -Value(d)
  {
    AsWrittenText(d);
    AsWrittenValue(d);
  }

  /** The unsigned numeral of a negative decimal's digits is worth its opposite. */
  lemma AsWrittenValue(d: Dec)
    requires d.coef < 0
    ensures Value(Spelled(false, d)) == -Value(d)
  {
    var p := PlainParts(d);
    var t := RStripChar(p.fraction, '0');
    var g := RemoveChar(Group(NatOf(p.whole)), ',');
    FormatValue(d);
    NegatedValue(d, p.negative, NatOf(g + t), -(|t| as int));
  }

  lemma NegatedValue(d: Dec, negative: bool, n: nat, e: int)
    requires negative && Value(Dec(Signed(negative, n), e)) == Value(d)
    ensures Value(Dec(Signed(false, n), e)) == -Value(d)
  {
    ValueNegate(n, e);
  }

  lemma AsWrittenHead(w: nat, tail: string)
    requires w == 0
    ensures (GroupInt(Signed(true, w)) + tail)[0] == '0'
  {
    assert Group(0) == "0";
  }

  /** Without its commas, the as-written rendering of a value in (-1, 0) is the unsigned numeral. */
  lemma AsWrittenText(d: Dec)
    requires SignLost(d)
    ensures Reparse(FormatAsWritten(d)) == Some(Spelled(false, d))
  {
    var p := PlainParts(d);
    AgreementByWhole(d);
    FormatText(d);
    StripZerosShape(p.fraction);
    UnsignedParse(FormatAsWritten(d), FormatNumber(d), NatOf(p.whole), RStripChar(p.fraction, '0'));
  }

  lemma UnsignedParse(x: string, y: string, w: nat, t: string)
    requires AllDigits(t) && y == "-" + x
    requires RemoveChar(y, ',') == SignText(true) + Numeral(RemoveChar(Group(w), ','), t)
    ensures DecimalParse(RemoveChar(x, ',')) == Some(GroupedDec(false, w, t))
  {
    DropMinus(x, Group(w), t);
    ParsedGroups(RemoveChar(x, ','), false, w, t);
  }

  lemma DropMinus(x: string, gr: string, t: string)
    requires RemoveChar("-" + x, ',') == SignText(true) + Numeral(RemoveChar(gr, ','), t)
    ensures RemoveChar(x, ',') == SignText(false) + Numeral(RemoveChar(gr, ','), t)
  {
    RemoveCharAppend("-", x, ',');
    assert RemoveChar("-", ',') == "-";
    var y := Numeral(RemoveChar(gr, ','), t);
    assert "-" + RemoveChar(x, ',') == "-" + y;
    assert RemoveChar(x, ',') == ("-" + y)[1..];
  }

  /** Negating the coefficient negates the value. */
  lemma ValueNegate(c: int, e: int)
    ensures Value(Dec(-c, e)) == -Value(Dec(c, e))
  {
    if e >= 0 {
      assert (-c) * Pow10(e) == -(c * Pow10(e));
    } else {
      var q := Pow10(-e) as real;
      assert (-c) as real / q == -(c as real / q);
    }
  }

  // ---------------------------------------------------------------------------
  // The rendering depends on the value only

  /** Quotient and remainder by `m` are unique. */
  lemma DivModUnique(q1: nat, r1: nat, q2: nat, r2: nat, m: nat)
    requires r1 < m && r2 < m && q1 * m + r1 == q2 * m + r2
    ensures q1 == q2 && r1 == r2
  {
    if q1 < q2 {
      QuotientGap(q1, q2, m);
    } else if q2 < q1 {
      QuotientGap(q2, q1, m);
    }
  }

  /** A larger quotient adds at least one whole `m`. */
  lemma QuotientGap(q1: nat, q2: nat, m: nat)
    requires q1 < q2
    ensures q2 * m >= q1 * m + m
  {
    var d: nat := q2 - q1 - 1;
    MulDistrib(q1 + 1, d, m);
    MulDistrib(q1, 1, m);
    MulNonnegative(d, m);
  }

  lemma MulDistrib(a: int, b: int, m: int)
    ensures (a + b) * m == a * m + b * m
  {
  }

  lemma MulNonnegative(a: nat, m: nat)
    ensures a * m >= 0
  {
  }

  /** Two digit strings of one length that denote the same number are the same string. */
  lemma {:induction false} DigitsUnique(a: string, b: string)
    requires AllDigits(a) && AllDigits(b) && |a| == |b| && NatOf(a) == NatOf(b)
    ensures a == b
    decreases |a|
  {
    if a != [] {
      var n := |a| - 1;
      DivModUnique(NatOf(a[..n]), DigitValue(a[n]), NatOf(b[..n]), DigitValue(b[n]), 10);
      DigitsUnique(a[..n], b[..n]);
      assert a == a[..n] + [a[n]] && b == b[..n] + [b[n]];
    }
  }

  /**
   * Digits that spell `x` with the fraction `fd`, against digits that spell
   * `10 x` with one more fraction digit: the whole parts agree and the longer
   * fraction is the shorter one with a zero appended.
   */
  lemma ShiftDigits(wd: string, fd: string, wD: string, fD: string, x: nat)
    requires AllDigits(fd) && AllDigits(fD) && |fD| == |fd| + 1
    requires NatOf(wd) * Pow10(|fd|) + NatOf(fd) == x
    requires NatOf(wD) * Pow10(|fD|) + NatOf(fD) == x * 10
    ensures NatOf(wD) == NatOf(wd) && fD == fd + "0"
  {
    var q := Pow10(|fd|);
    var a, b, a', b' := NatOf(wd), NatOf(fd), NatOf(wD), NatOf(fD);
    assert Pow10(|fD|) == 10 * q;
    AppendZero(fd);
    NatOfBound(fd);
    NatOfBound(fD);
    TenfoldSplit(a, q, b, x);
    DivModUnique(a', b', a, b * 10, 10 * q);
    DigitsUnique(fD, fd + "0");
  }

  /** Appending a zero digit multiplies by ten. */
  lemma AppendZero(f: string)
    requires AllDigits(f)
    ensures AllDigits(f + "0") && NatOf(f + "0") == NatOf(f) * 10
  {
    NatOfAppend(f, "0");
    NatOfZeroDigit();
    assert Pow10(1) == 10;
  }

  lemma TenfoldSplit(a: nat, q: nat, b: nat, x: nat)
    requires a * q + b == x && b < q
    ensures x * 10 == a * (10 * q) + b * 10 && b * 10 < 10 * q
  {
  }

  /** A coefficient ten times larger with the exponent one lower: same whole digits, same kept fraction. */
  lemma ShiftParts(c: int, e: int)
    ensures NatOf(PlainParts(Dec(c * 10, e - 1)).whole) == NatOf(PlainParts(Dec(c, e)).whole)
    ensures KeptFraction(Dec(c * 10, e - 1)) == KeptFraction(Dec(c, e))
  {
    if e >= 1 {
      ShiftWhole(c, e);
    } else {
      ShiftFraction(c, e);
    }
  }

  lemma ShiftWhole(c: int, e: int)
    requires e >= 1
    ensures NatOf(PlainParts(Dec(c * 10, e - 1)).whole) == NatOf(PlainParts(Dec(c, e)).whole)
    ensures KeptFraction(Dec(c * 10, e - 1)) == KeptFraction(Dec(c, e))
  {
    var pD := PlainParts(Dec(c * 10, e - 1));
    var pd := PlainParts(Dec(c, e));
    PlainValue(Dec(c * 10, e - 1));
    PlainValue(Dec(c, e));
    WholeOnly(pD.whole, pD.fraction, Abs(c * 10) * Pow10(e - 1));
    WholeOnly(pd.whole, pd.fraction, Abs(c) * Pow10(e));
    TenfoldPow(c, e);
  }

  /** Without fraction digits the whole part alone spells the number. */
  lemma WholeOnly(w: string, f: string, x: int)
    requires f == [] && NatOf(w) * Pow10(|f|) + NatOf(f) == x
    ensures NatOf(w) == x
  {
  }

  lemma TenfoldPow(c: int, e: int)
    requires e >= 1
    ensures Abs(c * 10) * Pow10(e - 1) == Abs(c) * Pow10(e)
  {
    var q := Pow10(e - 1);
    assert Pow10(e) == 10 * q;
    TenfoldAbs(c);
    assert Abs(c) * 10 * q == Abs(c) * (10 * q);
  }

  lemma ShiftFraction(c: int, e: int)
    requires e <= 0
    ensures NatOf(PlainParts(Dec(c * 10, e - 1)).whole) == NatOf(PlainParts(Dec(c, e)).whole)
    ensures KeptFraction(Dec(c * 10, e - 1)) == KeptFraction(Dec(c, e))
  {
    var pD := PlainParts(Dec(c * 10, e - 1));
    var pd := PlainParts(Dec(c, e));
    PlainValue(Dec(c * 10, e - 1));
    PlainValue(Dec(c, e));
    TenfoldAbs(c);
    FractionStep(pd.whole, pd.fraction, pD.whole, pD.fraction, Abs(c));
  }

  /** One more fraction digit for a tenfold number: same whole part, same fraction once trailing zeros go. */
  lemma FractionStep(wd: string, fd: string, wD: string, fD: string, x: nat)
    requires AllDigits(fd) && AllDigits(fD) && |fD| == |fd| + 1
    requires NatOf(wd) * Pow10(|fd|) + NatOf(fd) == x
    requires NatOf(wD) * Pow10(|fD|) + NatOf(fD) == x * 10
    ensures NatOf(wD) == NatOf(wd) && RStripChar(fD, '0') == RStripChar(fd, '0')
  {
    ShiftDigits(wd, fd, wD, fD, x);
    RStripCharAppend(fd, "0", '0');
    assert RStripChar("0", '0') == [];
  }

  lemma TenfoldAbs(c: int)
    ensures Abs(c * 10) == Abs(c) * 10
  {
  }

  /** `a` is `b` with its coefficient scaled by `10^k` and its exponent lowered by `k`. */
  predicate ShiftedBy(a: Dec, b: Dec, k: nat) {
    a.coef == b.coef * Pow10(k) && a.exp == b.exp - k
  }

  /** The parts a rendering is made of: the whole number before the point and the kept fraction digits. */
  predicate SameDigits(a: Dec, b: Dec) {
    NatOf(PlainParts(a).whole) == NatOf(PlainParts(b).whole) && KeptFraction(a) == KeptFraction(b)
  }

  lemma {:induction false} DigitsShift(a: Dec, b: Dec, k: nat)
    requires ShiftedBy(a, b, k)
    ensures SameDigits(a, b)
    decreases k, 1
  {
    if k == 0 {
      assert a == b;
    } else {
      DigitsShiftMore(a, b, k);
    }
  }

  lemma {:induction false} DigitsShiftMore(a: Dec, b: Dec, k: nat)
    requires k >= 1 && ShiftedBy(a, b, k)
    ensures SameDigits(a, b)
    decreases k, 0
  {
    var m := Dec(b.coef * Pow10(k - 1), b.exp - (k - 1));
    PowStep(b.coef, k);
    DigitsStep(a, m);
    DigitsShift(m, b, k - 1);
  }

  lemma DigitsStep(a: Dec, m: Dec)
    requires a.coef == m.coef * 10 && a.exp == m.exp - 1
    ensures SameDigits(a, m)
  {
    ShiftParts(m.coef, m.exp);
    assert a == Dec(m.coef * 10, m.exp - 1);
  }

  /** Equal sign and digits give equal renderings. */
  lemma FormatByDigits(a: Dec, b: Dec)
    requires (a.coef < 0) == (b.coef < 0) && SameDigits(a, b)
    ensures FormatNumber(a) == FormatNumber(b)
  {
    FormatShape(a);
    FormatShape(b);
  }

  lemma {:induction false} ValueShift(c: int, e: int, k: nat)
    ensures Value(Dec(c * Pow10(k), e - k)) == Value(Dec(c, e))
  {
    if k > 0 {
      var c' := c * Pow10(k - 1);
      ValueShift(c, e, k - 1);
      ValueStep(c', e - (k - 1));
      PowStep(c, k);
    }
  }

  lemma PowStep(c: int, k: nat)
    requires k >= 1
    ensures c * Pow10(k) == c * Pow10(k - 1) * 10
  {
    var q := Pow10(k - 1);
    assert Pow10(k) == 10 * q;
    assert c * (10 * q) == c * q * 10;
  }

  lemma ValueStep(c: int, e: int)
    ensures Value(Dec(c * 10, e - 1)) == Value(Dec(c, e))
  {
    if e >= 1 {
      assert Pow10(e) == 10 * Pow10(e - 1);
      assert c * 10 * Pow10(e - 1) == c * Pow10(e);
    } else {
      var q := Pow10(-e);
      assert Pow10(1 - e) == 10 * q;
      assert (c * 10) as real / (10 * q) as real == c as real / q as real;
    }
  }

  /** Decimals with one exponent and one value have one coefficient. */
  lemma SameExponentCoef(c1: int, c2: int, e: int)
    requires Value(Dec(c1, e)) == Value(Dec(c2, e))
    ensures c1 == c2
  {
    if e >= 0 {
      var q := Pow10(e);
      assert (c1 - c2) * q == c1 * q - c2 * q == 0;
    } else {
      var q := Pow10(-e) as real;
      assert c1 as real == (c1 as real / q) * q;
      assert c2 as real == (c2 as real / q) * q;
    }
  }

  lemma FormatByValueOrdered(a: Dec, b: Dec)
    requires Value(a) == Value(b) && a.exp <= b.exp
    ensures FormatNumber(a) == FormatNumber(b)
  {
    var k: nat := b.exp - a.exp;
    ValueShift(b.coef, b.exp, k);
    SameExponentCoef(a.coef, b.coef * Pow10(k), a.exp);
    DigitsShift(a, b, k);
    SignOfProduct(b.coef, Pow10(k));
    FormatByDigits(a, b);
  }

  /**
   * Decimals of equal value render alike: the trailing zeros of `f"{d:f}"`
   * are stripped and `int()` drops leading zeros, so neither the exponent nor
   * the coefficient of the representation shows through.
   */
  lemma FormatByValue(a: Dec, b: Dec)
    requires Value(a) == Value(b)
    ensures FormatNumber(a) == FormatNumber(b)
  {
    if a.exp <= b.exp {
      FormatByValueOrdered(a, b);
    } else {
      FormatByValueOrdered(b, a);
    }
  }

  /** Rendering what a rendering reads back as gives the same text. */
  lemma FormatIdempotent(d: Dec)
    ensures Reparse(FormatNumber(d)).Some?
    ensures FormatNumber(Reparse(FormatNumber(d)).value) == FormatNumber(d)
  {
    FormatRoundTrip(d);
    FormatByValue(Reparse(FormatNumber(d)).value, d);
  }

  /** Negating a negative decimal takes the leading minus off its rendering and changes nothing else. */
  lemma FormatNegate(c: int, e: int)
    requires c < 0
    ensures FormatNumber(Dec(c, e)) == "-" + FormatNumber(Dec(-c, e))
  {
    PlainNegate(c, e);
    FormatShape(Dec(c, e));
    FormatShape(Dec(-c, e));
    SignedText(NatOf(PlainParts(Dec(c, e)).whole), KeptFraction(Dec(c, e)), FormatNumber(Dec(c, e)), FormatNumber(Dec(-c, e)));
  }

  /** `f"{d:f}"` of a negative decimal and of its opposite differ in the sign only. */
  lemma PlainNegate(c: int, e: int)
    requires c < 0
    ensures PlainParts(Dec(c, e)).negative && !PlainParts(Dec(-c, e)).negative
    ensures PlainParts(Dec(-c, e)).whole == PlainParts(Dec(c, e)).whole
    ensures KeptFraction(Dec(-c, e)) == KeptFraction(Dec(c, e))
  {
    assert Abs(-c) == Abs(c);
  }

  lemma SignedText(w: nat, f: string, x: string, y: string)
    requires x == SignText(true) + Group(w) + Frac(f) && y == SignText(false) + Group(w) + Frac(f)
    ensures x == "-" + y
  {
  }

  /**
   * `format_number` as written is idempotent too: on (-1, 0) it drops the
   * sign, but what it prints is then the rendering of the opposite value,
   * which renders the same once read back.
   */
  lemma FormatAsWrittenIdempotent(d: Dec)
    ensures Reparse(FormatAsWritten(d)).Some?
    ensures FormatAsWritten(Reparse(FormatAsWritten(d)).value) == FormatAsWritten(d)
  {
    FormatAgreement(d);
    if -1.0 < Value(d) < 0.0 {
      FormatDropsSign(d);
      AsWrittenIdempotentLost(d, Reparse(FormatAsWritten(d)).value);
    } else {
      FormatIdempotent(d);
      FormatRoundTrip(d);
      FormatAgreement(Reparse(FormatAsWritten(d)).value);
    }
  }

  lemma AsWrittenIdempotentLost(d: Dec, r: Dec)
    requires -1.0 < Value(d) < 0.0 && Value(r) == -Value(d)
    requires FormatNumber(d) == "-" + FormatAsWritten(d)
    ensures FormatAsWritten(r) == FormatAsWritten(d)
  {
    var n := Dec(-d.coef, d.exp);
    OppositeOfLost(d, r);
    FormatByValue(r, n);
    FormatNegate(d.coef, d.exp);
    FormatAgreement(r);
    CancelMinus(FormatAsWritten(d), FormatNumber(d), FormatNumber(n), FormatNumber(r), FormatAsWritten(r));
  }

  /** The value read back from a sign-dropping rendering is that of the negated decimal, and it is positive. */
  lemma OppositeOfLost(d: Dec, r: Dec)
    requires -1.0 < Value(d) < 0.0 && Value(r) == -Value(d)
    ensures d.coef < 0 && Value(r) == Value(Dec(-d.coef, d.exp)) && !(-1.0 < Value(r) < 0.0)
  {
    ValueSign(d);
    ValueNegate(d.coef, d.exp);
  }

  lemma CancelMinus(a: string, fd: string, fn: string, fr: string, ar: string)
    requires fd == "-" + a && fd == "-" + fn && fr == fn && ar == fr
    ensures ar == a
  {
    assert a == fd[1..] && fn == fd[1..];
  }
}
