/**
 * `parse_number`: turns one NUMBER_PATTERN match into a decimal and the
 * multiplier of an inline unit word ("5 million").
 */
module NumberParsing {
  import opened Wrappers
  import opened Text
  import opened Decimals
  import opened Scanning

  /** The unit words `parse_number` looks for, in the order its dictionary lists them. */
  const UnitWords: seq<string> := ["billion", "million", "thousand"]

  /** The multiplier of each of `UnitWords`. */
  const UnitMultipliers: seq<nat> := [1000000000, 1000000, 1000]

  /** `\b` after a word character ending at `e` of `l`: the text ends or a non-word character follows. */
  predicate BoundaryAt(l: string, e: nat) {
    e >= |l| || !IsWordChar(l[e])
  }

  /** The (lower-case) unit word `w` stands at `j` of the lower-cased text `l`, closed by `\b`. */
  predicate UnitAt(l: string, w: string, j: nat) {
    OccursAt(l, w, j) && BoundaryAt(l, j + |w|)
  }

  /** `\d+\s*w\b` matches in `l` with its last digit at `i`. */
  predicate UnitAfterDigit(l: string, w: string, i: nat) {
    i < |l| && IsDigit(l[i]) && UnitAt(l, w, i + 1 + SpaceRun(l, i + 1))
  }

  /** `re.search(rf'\d+\s*{w}\b', s, re.IGNORECASE)` succeeds, for a lower-case word `w`. */
  predicate HasUnit(s: string, w: string) {
    exists i :: 0 <= i < |s| && UnitAfterDigit(Lower(s), w, i)
  }

  /**
   * `re.sub(rf'\s*{w}\b', '', s[p..], flags=re.IGNORECASE)` where `l` is `s`
   * lower-cased: every occurrence of the word, with the whitespace before it, is deleted.
   */
  function Strike(s: string, l: string, w: string, p: nat): (r: string)
    requires |l| == |s| && p <= |s| && w != []
    ensures |r| <= |s| - p
    decreases |s| - p
  {
    if p == |s| then []
    else
      var j := p + SpaceRun(l, p);
      if UnitAt(l, w, j) then Strike(s, l, w, j + |w|)
      else [s[p]] + Strike(s, l, w, p + 1)
  }

  /**
   * The unit loop of `parse_number` from entry `k` of the dictionary on: the
   * first unit word that follows a digit is removed and gives the multiplier;
   * with none, the text is kept and the multiplier is 1.
   */
  function UnitSplit(s: string, k: nat): (string, nat)
    requires k <= |UnitWords|
    decreases |UnitWords| - k
  {
    if k == |UnitWords| then (s, 1)
    else if HasUnit(s, UnitWords[k]) then (Strip(Strike(s, Lower(s), UnitWords[k], 0)), UnitMultipliers[k])
    else UnitSplit(s, k + 1)
  }

  /** Accounting negatives: `(x)` becomes `-x`; a lone closing parenthesis is dropped. */
  function Unparenthesize(t: string): string {
    if t != [] && t[0] == '(' && t[|t| - 1] == ')' then "-" + t[1..|t| - 1]
    else if t != [] && t[|t| - 1] == ')' then t[..|t| - 1]
    else t
  }

  /** What `parse_number` returns, or the `ValueError` it raises. */
  datatype Parse = Parsed(number: Dec, unitMult: nat) | MalformedNumber

  /**
   * `Decimal` of the text without commas; when that raises, `Decimal` of the
   * first `[-]?\d+(?:,\d{3})*(?:\.\d+)?` in it; when there is none, the error.
   */
  function ParseText(t: string, m: nat): Parse {
    match DecimalParse(RemoveChar(t, ','))
    case Some(d) => Parsed(d, m)
    case None =>
      match SearchNumeral(t, 0)
      case None => MalformedNumber
      case Some((a, b)) =>
        match DecimalParse(RemoveChar(t[a..b], ','))
        case Some(d) => Parsed(d, m)
        case None => MalformedNumber
  }

  /** The text `parse_number` hands to `Decimal` after its unit loop: no dollar signs, stripped, unwrapped. */
  function Prepare(u: string): string {
    Unparenthesize(Strip(RemoveChar(u, '$')))
  }

  /** `parse_number` after its unit loop. */
  function ParseBody(u: string, m: nat): Parse {
    ParseText(Prepare(u), m)
  }

  /** `parse_number(s)`. */
  function ParseNumberSpec(s: string): Parse {
    var (u, m) := UnitSplit(s, 0);
    ParseBody(u, m)
  }

  /**
   * The unit loop of `parse_number`: the dictionary is walked in order and the
   * walk stops at the first unit word found after a digit.
   */
  method StripUnit(numberStr: string) returns (s: string, unitMultiplier: nat)
    ensures (s, unitMultiplier) == UnitSplit(numberStr, 0)
  {
    s := numberStr;
    unitMultiplier := 1;
    var k := 0;
    while k < |UnitWords|
      invariant k <= |UnitWords|
      invariant UnitSplit(numberStr, k) == UnitSplit(numberStr, 0)
      invariant s == numberStr && unitMultiplier == 1
    {
      if HasUnit(s, UnitWords[k]) {
        unitMultiplier := UnitMultipliers[k];
        s := Strip(Strike(s, Lower(s), UnitWords[k], 0));
        break;
      }
      k := k + 1;
    }
  }

  /** `parse_number`: the unit loop, then dollar signs, parentheses and `Decimal`. */
  method ParseNumber(numberStr: string) returns (r: Parse)
    ensures r == ParseNumberSpec(numberStr)
  {
    var s, unitMultiplier := StripUnit(numberStr);
    r := ParseBody(s, unitMultiplier);
  }

  // ---------------------------------------------------------------------------
  // The unit multiplier

  /**
   * The inline multiplier is that of the first of billion, million, thousand
   * that follows a digit, and 1 when none does.
   */
  lemma UnitPriority(s: string)
    ensures var m := UnitSplit(s, 0).1;
      && (m == 1000000000 <==> HasUnit(s, "billion"))
      && (m == 1000000 <==> !HasUnit(s, "billion") && HasUnit(s, "million"))
      && (m == 1000 <==> !HasUnit(s, "billion") && !HasUnit(s, "million") && HasUnit(s, "thousand"))
      && (m == 1 <==> !HasUnit(s, "billion") && !HasUnit(s, "million") && !HasUnit(s, "thousand"))
  {
    assert UnitSplit(s, 0).1 == if HasUnit(s, UnitWords[0]) then UnitMultipliers[0] else UnitSplit(s, 1).1;
    assert UnitSplit(s, 1).1 == if HasUnit(s, UnitWords[1]) then UnitMultipliers[1] else UnitSplit(s, 2).1;
    assert UnitSplit(s, 2).1 == if HasUnit(s, UnitWords[2]) then UnitMultipliers[2] else UnitSplit(s, 3).1;
  }

  /** No unit word can follow a digit in a text without letters. */
  lemma NoUnitWithoutLetters(s: string, w: string)
    requires w != [] && IsLetter(w[0])
    requires forall k :: 0 <= k < |s| ==> !IsLetter(s[k])
    ensures !HasUnit(s, w)
  {
    var l := Lower(s);
    forall i | 0 <= i < |s| ensures !UnitAfterDigit(l, w, i) {
      var j := i + 1 + SpaceRun(l, i + 1);
      assert j < |l| ==> !IsLetter(l[j]);
    }
  }

  // ---------------------------------------------------------------------------
  // Numerals

  /** Digits with thousands separators: a digit first, then digits and commas. */
  predicate Grouped(a: string) {
    a != [] && IsDigit(a[0]) && forall k :: 0 <= k < |a| ==> IsDigit(a[k]) || a[k] == ','
  }

  lemma GroupedDigits(a: string)
    requires Grouped(a)
    ensures RemoveChar(a, ',') != [] && AllDigits(RemoveChar(a, ','))
  {
    assert RemoveChar(a, ',') == [a[0]] + RemoveChar(a[1..], ',');
    forall x | x in RemoveChar(a, ',') ensures IsDigit(x) {
      RemoveCharFrom(a, ',', x);
    }
  }

  /** A numeral begins with a digit and is made of digits, commas and a point. */
  lemma NumeralShape(a: string, b: string)
    requires Grouped(a) && AllDigits(b)
    ensures var v := Numeral(a, b);
      && v != [] && IsDigit(v[0]) && (IsDigit(v[|v| - 1]) || v[|v| - 1] == ',')
      && forall k :: 0 <= k < |v| ==> IsDigit(v[k]) || v[k] == ',' || v[k] == '.'
  {
    var v := Numeral(a, b);
    forall k | 0 <= k < |v| ensures IsDigit(v[k]) || v[k] == ',' || v[k] == '.' {
      if k < |a| {
        assert v[k] == a[k];
      } else if k > |a| {
        assert v[k] == b[k - |a| - 1];
      }
    }
    if b != [] {
      assert v[|v| - 1] == b[|b| - 1];
    } else {
      assert v[|v| - 1] == a[|a| - 1];
    }
  }

  /** A signed numeral with its commas removed is the decimal its digits spell. */
  lemma DecimalOfGrouped(negative: bool, a: string, b: string)
    requires Grouped(a) && AllDigits(b)
    ensures DecimalParse(RemoveChar(SignText(negative) + Numeral(a, b), ','))
         == Some(Dec(Signed(negative, NatOf(RemoveChar(a, ',') + b)), -|b|))
  {
    GroupedDigits(a);
    RemoveCommas(negative, a, b);
    DecimalParseNumeral(negative, RemoveChar(a, ','), b);
  }

  /** The decimal read from a signed numeral once `$`, parentheses and the unit are gone. */
  lemma ParseTextNumeral(negative: bool, a: string, b: string, m: nat)
    requires Grouped(a) && AllDigits(b)
    ensures ParseText(SignText(negative) + Numeral(a, b), m)
         == Parsed(Dec(Signed(negative, NatOf(RemoveChar(a, ',') + b)), -|b|), m)
  {
    DecimalOfGrouped(negative, a, b);
  }

  /** A text without letters names no unit: the unit loop leaves it as it is. */
  lemma UnitSplitNoLetters(s: string)
    requires forall k :: 0 <= k < |s| ==> !IsLetter(s[k])
    ensures UnitSplit(s, 0) == (s, 1)
  {
    NoUnitWithoutLetters(s, UnitWords[0]);
    NoUnitWithoutLetters(s, UnitWords[1]);
    NoUnitWithoutLetters(s, UnitWords[2]);
  }

  /** Without letters, `parse_number` is its second half with multiplier 1. */
  lemma ParseWithoutLetters(s: string)
    requires forall k :: 0 <= k < |s| ==> !IsLetter(s[k])
    ensures ParseNumberSpec(s) == ParseBody(s, 1)
  {
    UnitSplitNoLetters(s);
  }

  /** Dropping the dollar signs of a text that has one only in front. */
  lemma RemoveDollar(dollar: bool, v: string)
    requires '$' !in v
    ensures RemoveChar((if dollar then "$" else "") + v, '$') == v
  {
    RemoveCharAppend(if dollar then "$" else "", v, '$');
  }

  /** A leading dollar sign is dropped; a text with nothing to strip or unwrap goes on unchanged. */
  lemma PreparePlain(dollar: bool, v: string)
    requires v != [] && '$' !in v
    requires !IsSpace(v[0]) && v[0] != '(' && !IsSpace(v[|v| - 1]) && v[|v| - 1] != ')'
    ensures Prepare((if dollar then "$" else "") + v) == v
  {
    RemoveDollar(dollar, v);
    StripNoop(v);
  }

  /** A leading dollar sign is dropped and the parentheses around `core` become a minus sign. */
  lemma PrepareParens(dollar: bool, core: string)
    requires '$' !in core
    ensures Prepare((if dollar then "$" else "") + ("(" + core + ")")) == "-" + core
  {
    var p := "(" + core + ")";
    assert p == ['('] + core + [')'];
    RemoveDollar(dollar, p);
    StripNoop(p);
    assert p[1..|p| - 1] == core;
  }

  /** A signed numeral with or without a dollar sign holds no letter and keeps its multiplier 1. */
  lemma PlainWithoutUnit(dollar: bool, negative: bool, a: string, b: string)
    requires Grouped(a) && AllDigits(b)
    ensures var s := (if dollar then "$" else "") + (SignText(negative) + Numeral(a, b));
      ParseNumberSpec(s) == ParseBody(s, 1)
  {
    var v := SignText(negative) + Numeral(a, b);
    var s := (if dollar then "$" else "") + v;
    var n := |SignText(negative)|;
    NumeralShape(a, b);
    forall k | 0 <= k < |s| ensures !IsLetter(s[k]) {
      var q := if dollar then k - 1 else k;
      if q >= n {
        assert s[k] == v[q] == Numeral(a, b)[q - n];
      }
    }
    ParseWithoutLetters(s);
  }

  /** The same for a numeral in parentheses. */
  lemma ParenWithoutUnit(dollar: bool, a: string, b: string)
    requires Grouped(a) && AllDigits(b)
    ensures var s := (if dollar then "$" else "") + ("(" + Numeral(a, b) + ")");
      ParseNumberSpec(s) == ParseBody(s, 1)
  {
    var p := "(" + Numeral(a, b) + ")";
    var s := (if dollar then "$" else "") + p;
    NumeralShape(a, b);
    forall k | 0 <= k < |s| ensures !IsLetter(s[k]) {
      var q := if dollar then k - 1 else k;
      if 0 < q < |p| - 1 {
        assert s[k] == p[q] == Numeral(a, b)[q - 1];
      }
    }
    ParseWithoutLetters(s);
  }

  lemma PlainPrepared(dollar: bool, negative: bool, a: string, b: string)
    requires Grouped(a) && AllDigits(b)
    ensures var v := SignText(negative) + Numeral(a, b);
      Prepare((if dollar then "$" else "") + v) == v
  {
    var v := SignText(negative) + Numeral(a, b);
    var n := |SignText(negative)|;
    NumeralShape(a, b);
    forall k | 0 <= k < |v| ensures v[k] != '$' {
      if k >= n {
        assert v[k] == Numeral(a, b)[k - n];
      }
    }
    assert v[|v| - 1] == Numeral(a, b)[|Numeral(a, b)| - 1];
    PreparePlain(dollar, v);
  }

  lemma ParenPrepared(dollar: bool, a: string, b: string)
    requires Grouped(a) && AllDigits(b)
    ensures Prepare((if dollar then "$" else "") + ("(" + Numeral(a, b) + ")")) == SignText(true) + Numeral(a, b)
  {
    NumeralShape(a, b);
    PrepareParens(dollar, Numeral(a, b));
  }

  /**
   * A plain amount, with or without a dollar sign and a minus sign, parses to
   * the value of its digits, commas ignored, with multiplier 1:
   * `parse_number("$-1,234.5") == (Decimal("-1234.5"), 1)`.
   */
  lemma ParsePlain(dollar: bool, negative: bool, a: string, b: string)
    requires Grouped(a) && AllDigits(b)
    ensures ParseNumberSpec((if dollar then "$" else "") + (SignText(negative) + Numeral(a, b)))
         == Parsed(Dec(Signed(negative, NatOf(RemoveChar(a, ',') + b)), -|b|), 1)
  {
    PlainWithoutUnit(dollar, negative, a, b);
    PlainPrepared(dollar, negative, a, b);
    ParseTextNumeral(negative, a, b, 1);
  }

  /**
   * An amount in accounting parentheses is negative:
   * `parse_number("$(1,234.5)") == (Decimal("-1234.5"), 1)`.
   */
  lemma ParseParenthesized(dollar: bool, a: string, b: string)
    requires Grouped(a) && AllDigits(b)
    ensures ParseNumberSpec((if dollar then "$" else "") + ("(" + Numeral(a, b) + ")"))
         == Parsed(Dec(Signed(true, NatOf(RemoveChar(a, ',') + b)), -|b|), 1)
  {
    ParenWithoutUnit(dollar, a, b);
    ParenPrepared(dollar, a, b);
    ParseTextNumeral(true, a, b, 1);
  }

  // ---------------------------------------------------------------------------
  // The multiplier set and the `M` / `K` suffixes

  /** The inline multiplier is one of 1, a thousand, a million and a billion. */
  lemma UnitMultiplierSet(s: string)
    ensures UnitSplit(s, 0).1 in {1, 1000, 1000000, 1000000000}
    ensures ParseNumberSpec(s).Parsed? ==> ParseNumberSpec(s).unitMult == UnitSplit(s, 0).1
  {
    UnitPriority(s);
    var (u, m) := UnitSplit(s, 0);
    ParseTextMultiplier(Prepare(u), m);
  }

  lemma ParseTextMultiplier(t: string, m: nat)
    ensures ParseText(t, m).Parsed? ==> ParseText(t, m).unitMult == m
  {
  }

  /** Every unit word holds the letter `n`. */
  lemma UnitWordHasN(k: nat)
    requires k < |UnitWords|
    ensures 'n' in UnitWords[k]
  {
    var w := UnitWords[k];
    assert w[6] == 'n';
  }

  /** A text without the letter `n`, in either case, names no unit word. */
  lemma NoUnitWithoutN(s: string, k: nat)
    requires k < |UnitWords|
    requires forall i :: 0 <= i < |s| ==> s[i] != 'n' && s[i] != 'N'
    ensures !HasUnit(s, UnitWords[k])
  {
    var l := Lower(s);
    var w := UnitWords[k];
    assert forall i :: 0 <= i < |l| ==> l[i] == LowerChar(s[i]) != 'n';
    UnitWordHasN(k);
    NotContainsWithout(l, w, 'n');
    forall i | 0 <= i < |l| ensures !UnitAfterDigit(l, w, i) {
      var j := i + 1 + SpaceRun(l, i + 1);
      assert !OccursAt(l, w, j);
    }
  }

  /**
   * The `M` and `K` suffixes that NUMBER_PATTERN accepts never give a
   * multiplier: a text whose only letters are `M` and `K` goes through the
   * unit loop unchanged, with multiplier 1.
   */
  lemma MKSuffixNoMultiplier(s: string)
    requires forall i :: 0 <= i < |s| && IsLetter(s[i]) ==> s[i] == 'M' || s[i] == 'K'
    ensures UnitSplit(s, 0) == (s, 1)
    ensures ParseNumberSpec(s) == ParseBody(s, 1)
  {
    NoUnitWithoutN(s, 0);
    NoUnitWithoutN(s, 1);
    NoUnitWithoutN(s, 2);
  }

  // ---------------------------------------------------------------------------
  // Every text with a digit parses

  /** Every character of `w` is a letter. */
  predicate Letters(w: string) {
    w == [] || (IsLetter(w[0]) && Letters(w[1..]))
  }

  /** A word of letters has a letter at each position. */
  lemma {:induction false} LetterAt(w: string, i: nat)
    requires Letters(w) && i < |w|
    ensures IsLetter(w[i])
  {
    if i > 0 {
      LetterAt(w[1..], i - 1);
    }
  }

  /** The unit words are made of letters. */
  lemma UnitWordLetters(k: nat)
    requires k < |UnitWords|
    ensures UnitWords[k] != [] && Letters(UnitWords[k])
  {
  }

  /** Striking a word of letters, with the whitespace before it, never removes a digit. */
  lemma {:induction false} StrikeKeepsDigit(s: string, l: string, w: string, p: nat, x: nat)
    requires w != [] && Letters(w)
    requires |l| == |s| && p <= x < |s| && IsDigit(s[x]) && l[x] == s[x]
    ensures s[x] in Strike(s, l, w, p)
    decreases |s| - p, 1
  {
    if UnitAt(l, w, p + SpaceRun(l, p)) {
      SkipKeepsDigit(s, l, w, p, x);
      StrikeSkip(s, l, w, p);
    } else {
      KeepKeepsDigit(s, l, w, p, x);
    }
  }

  /** The digit lies past the word that stands after the whitespace, and is kept from there on. */
  lemma {:induction false} SkipKeepsDigit(s: string, l: string, w: string, p: nat, x: nat)
    requires w != [] && Letters(w)
    requires |l| == |s| && p <= x < |s| && IsDigit(s[x]) && l[x] == s[x]
    requires UnitAt(l, w, p + SpaceRun(l, p))
    ensures p + SpaceRun(l, p) + |w| <= x
    ensures s[x] in Strike(s, l, w, p + SpaceRun(l, p) + |w|)
    decreases |s| - p, 0
  {
    var j := p + SpaceRun(l, p);
    SkipsNoDigit(l, w, p, j, x);
    StrikeKeepsDigit(s, l, w, j + |w|, x);
  }

  /** Where the word stands after the whitespace, `Strike` goes on after the word. */
  lemma StrikeSkip(s: string, l: string, w: string, p: nat)
    requires |l| == |s| && p < |s| && w != []
    requires UnitAt(l, w, p + SpaceRun(l, p))
    ensures Strike(s, l, w, p) == Strike(s, l, w, p + SpaceRun(l, p) + |w|)
  {
  }

  /** Otherwise it keeps the character and goes on with the next one. */
  lemma {:induction false} KeepKeepsDigit(s: string, l: string, w: string, p: nat, x: nat)
    requires w != [] && Letters(w)
    requires |l| == |s| && p <= x < |s| && IsDigit(s[x]) && l[x] == s[x]
    requires !UnitAt(l, w, p + SpaceRun(l, p))
    ensures s[x] in Strike(s, l, w, p)
    decreases |s| - p, 0
  {
    if x > p {
      StrikeKeepsDigit(s, l, w, p + 1, x);
    }
  }

  /** A digit lies neither in the whitespace before a word of letters nor in the word. */
  lemma SkipsNoDigit(l: string, w: string, p: nat, j: nat, x: nat)
    requires Letters(w)
    requires p <= j <= |l| && (forall k :: p <= k < j ==> IsSpace(l[k]))
    requires OccursAt(l, w, j) && p <= x < |l| && IsDigit(l[x])
    ensures x >= j + |w|
  {
    assert x >= j by {
      assert !IsSpace(l[x]);
    }
    if x < j + |w| {
      assert l[j..j + |w|][x - j] == l[x];
      LetterAt(w, x - j);
    }
  }

  /** Stripping keeps every character that is not whitespace. */
  lemma StripKeepsChar(s: string, x: char)
    requires x in s && !IsSpace(x)
    ensures x in Strip(s)
  {
    var k :| 0 <= k < |s| && s[k] == x;
    StripKeeps(s, k);
  }

  /** The unit loop keeps every digit of the text. */
  lemma {:induction false} UnitSplitKeepsDigit(s: string, k: nat, x: char)
    requires k <= |UnitWords| && x in s && IsDigit(x)
    ensures x in UnitSplit(s, k).0
    decreases |UnitWords| - k
  {
    if k < |UnitWords| {
      if HasUnit(s, UnitWords[k]) {
        UnitWordLetters(k);
        var i :| 0 <= i < |s| && s[i] == x;
        StrikeKeepsDigit(s, Lower(s), UnitWords[k], 0, i);
        StripKeepsChar(Strike(s, Lower(s), UnitWords[k], 0), x);
      } else {
        UnitSplitKeepsDigit(s, k + 1, x);
      }
    }
  }

  /** Unwrapping parentheses removes only the parentheses. */
  lemma UnparenthesizeKeeps(t: string, x: char)
    requires x in t && x != '(' && x != ')'
    ensures x in Unparenthesize(t)
  {
    var i :| 0 <= i < |t| && t[i] == x;
    if t[0] == '(' && t[|t| - 1] == ')' {
      assert ("-" + t[1..|t| - 1])[i] == x;
    } else if t[|t| - 1] == ')' {
      assert t[..|t| - 1][i] == x;
    }
  }

  /** Removing dollar signs, stripping and unwrapping keep every digit. */
  lemma PrepareKeepsDigit(u: string, x: char)
    requires x in u && IsDigit(x)
    ensures x in Prepare(u)
  {
    RemoveCharKeeps(u, '$', x);
    StripKeepsChar(RemoveChar(u, '$'), x);
    UnparenthesizeKeeps(Strip(RemoveChar(u, '$')), x);
  }

  /** A digit starts a numeral, so the search for one succeeds. */
  lemma SearchFindsNumeral(t: string, x: char)
    requires x in t && IsDigit(x)
    ensures SearchNumeral(t, 0).Some?
  {
    var k :| 0 <= k < |t| && t[k] == x;
    assert NumeralAt(t, k).Some?;
  }

  /** The text of a numeral match is a sign, grouped digits and an optional fraction. */
  lemma NumeralPiecesAt(t: string, a: nat) returns (negative: bool, g: string, f: string)
    requires NumeralAt(t, a).Some?
    ensures Grouped(g) && AllDigits(f)
    ensures t[a..NumeralAt(t, a).value] == SignText(negative) + Numeral(g, f)
  {
    negative := !IsDigit(t[a]);
    var c := if negative then a + 1 else a;
    var d1 := DigitRun(t, c);
    var d2 := CommaGroups(t, d1);
    var e := Fraction(t, d2);
    assert NumeralAt(t, a).value == e;
    GroupedSlice(t, c, d1, d2);
    g := t[c..d2];
    f := FractionPiece(t, d2, e);
    SignPiece(t, a, c, negative);
    NumeralSlice(t, a, c, d2, e, negative, g, f);
  }

  lemma NumeralSlice(t: string, a: nat, c: nat, d: nat, e: nat, negative: bool, g: string, f: string)
    requires a <= c <= d <= e <= |t|
    requires t[a..c] == SignText(negative) && t[c..d] == g && t[d..e] == Frac(f)
    ensures t[a..e] == SignText(negative) + Numeral(g, f)
  {
    SliceThree(t, a, c, d, e);
  }

  lemma GroupedSlice(t: string, c: nat, d1: nat, d2: nat)
    requires c < d1 <= d2 <= |t|
    requires forall k :: c <= k < d1 ==> IsDigit(t[k])
    requires forall k :: d1 <= k < d2 ==> IsDigit(t[k]) || t[k] == ','
    ensures Grouped(t[c..d2])
  {
    var g := t[c..d2];
    assert forall k :: 0 <= k < |g| ==> g[k] == t[c + k];
  }

  lemma FractionPiece(t: string, d: nat, e: nat) returns (f: string)
    requires d <= e <= |t|
    requires e > d ==> t[d] == '.' && d + 1 < e && forall k :: d < k < e ==> IsDigit(t[k])
    ensures AllDigits(f) && t[d..e] == Frac(f)
  {
    if e > d {
      f := t[d + 1..e];
      assert forall k :: 0 <= k < |f| ==> f[k] == t[d + 1 + k];
      assert t[d..e] == [t[d]] + f;
    } else {
      f := [];
    }
  }

  lemma SignPiece(t: string, a: nat, c: nat, negative: bool)
    requires c == (if negative then a + 1 else a) && c <= |t|
    requires negative ==> t[a] == '-'
    ensures t[a..c] == SignText(negative)
  {
  }

  lemma SliceThree(t: string, a: nat, c: nat, d: nat, e: nat)
    requires a <= c <= d <= e <= |t|
    ensures t[a..e] == t[a..c] + t[c..d] + t[d..e]
  {
  }

  /** The text of a numeral match, without its commas, is a decimal. */
  lemma NumeralMatchParses(t: string, a: nat)
    requires NumeralAt(t, a).Some?
    ensures DecimalParse(RemoveChar(t[a..NumeralAt(t, a).value], ',')).Some?
  {
    var negative, g, f := NumeralPiecesAt(t, a);
    DecimalOfGrouped(negative, g, f);
  }

  /** The last stage of `parse_number` succeeds on a text with a digit: directly or through the fallback. */
  lemma ParseTextWithDigit(t: string, m: nat, x: char)
    requires x in t && IsDigit(x)
    ensures ParseText(t, m).Parsed?
  {
    if DecimalParse(RemoveChar(t, ',')).None? {
      SearchFindsNumeral(t, x);
      var r := SearchNumeral(t, 0).value;
      NumeralMatchParses(t, r.0);
    }
  }

  /**
   * `parse_number` raises its `ValueError` only for a text without a digit:
   * every digit survives the unit loop and the clean-up, and a digit always
   * starts a numeral the fallback search can read.
   */
  lemma ParseSucceedsWithDigit(s: string)
    requires HasDigit(s)
    ensures ParseNumberSpec(s).Parsed?
  {
    var x :| x in s && IsDigit(x);
    UnitSplitKeepsDigit(s, 0, x);
    PrepareKeepsDigit(UnitSplit(s, 0).0, x);
    ParseTextWithDigit(Prepare(UnitSplit(s, 0).0), UnitSplit(s, 0).1, x);
  }

  /** Every NUMBER_PATTERN match holds the digit its pattern requires. */
  lemma TokenHasDigit(s: string, p: nat)
    requires p <= |s| && NumberAt(s, p).Some?
    ensures HasDigit(s[p..NumberAt(s, p).value])
  {
    var c := PrefixEnd(s, p);
    var e := NumberAt(s, p).value;
    assert c < DigitsEnd(s, c) <= e;
    assert s[p..e][c - p] == s[c];
  }

  /** So every token `extract_numbers_with_local_units` sees parses. */
  lemma TokenParses(s: string, t: Token)
    requires t.start < t.end <= |s| && NumberAt(s, t.start) == Some(t.end)
    ensures ParseNumberSpec(s[t.start..t.end]).Parsed?
  {
    TokenHasDigit(s, t.start);
    ParseSucceedsWithDigit(s[t.start..t.end]);
  }
}
