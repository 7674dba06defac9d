/**
 * `extract_numbers_with_local_units`: every number of a page, scaled by its
 * inline unit word or by the unit hint of its table, with years left out
 * (`is_year`).
 */
module Extraction {
  import opened Wrappers
  import opened Text
  import opened Decimals
  import opened Scanning
  import opened NumberParsing
  import opened Context
  import opened UnitHints

  // ---------------------------------------------------------------------------
  // is_year

  /** `is_year(n)`: `1900 <= n <= 2100`. */
  predicate IsYear(n: int) {
    1900 <= n <= 2100
  }

  /**
   * A decimal is taken for a year exactly when its value lies in
   * [1900, 2101): `int()` truncates, so 2100.99 is a year and 1899.99 is not.
   */
  lemma YearByValue(d: Dec)
    ensures IsYear(Trunc(d)) <==> 1900.0 <= Value(d) < 2101.0
  {
    if d.exp >= 0 {
      assert Value(d) == Trunc(d) as real;
    } else if d.coef >= 0 {
      FloorOfRatio(d.coef, Pow10(-d.exp));
      YearOfFloor(Trunc(d), Value(d));
    } else {
      NegativeRatio(d.coef, Pow10(-d.exp));
      QuotientNonNegative(-d.coef, Pow10(-d.exp));
      YearOfNegative(Trunc(d), Value(d));
    }
  }

  /** A whole part `n` of `x` is a year exactly when `x` lies in [1900, 2101). */
  lemma YearOfFloor(n: int, x: real)
    requires n as real <= x < (n + 1) as real
    ensures IsYear(n) <==> 1900.0 <= x < 2101.0
  {
  }

  /** Neither a non-positive truncation nor a negative value is a year. */
  lemma YearOfNegative(n: int, x: real)
    requires n <= 0 && x < 0.0
    ensures IsYear(n) <==> 1900.0 <= x < 2101.0
  {
  }

  /** `c / p` is the whole part of the real ratio. */
  lemma FloorOfRatio(c: nat, p: nat)
    requires p > 0
    ensures (c / p) as real <= c as real / p as real < (c / p + 1) as real
  {
    var q := c / p;
    var r := c % p;
    assert c == q * p + r;
    assert c as real == q as real * p as real + r as real;
    assert c as real / p as real == q as real + r as real / p as real;
    assert 0.0 <= r as real / p as real < 1.0;
  }

  lemma QuotientNonNegative(a: nat, p: nat)
    requires p > 0
    ensures a / p >= 0
  {
  }

  lemma NegativeRatio(c: int, p: nat)
    requires c < 0 && p > 0
    ensures c as real / p as real < 0.0
  {
  }

  // ---------------------------------------------------------------------------
  // One token

  /** Words near a number that mark money; "Cost" is compared with lower-cased text too. */
  const DollarIndicators: seq<string> := [
    "$", "dollars", "funding", "budget", "cost", "Cost", "expense", "revenue",
    "appropriation", "allocation", "expenditure", "investment",
    "million", "billion", "thousand",
    "total", "sum", "amount",
    "program", "project", "initiative"
  ]

  /** The hint `h` applies to a number at `start` with window `ctx`. */
  predicate Applies(h: Hint, start: nat, ctx: string) {
    h.pos <= start && ContextsOverlap(ctx, h.context)
  }

  /** The multiplier of the first hint that applies; 1 when none does. */
  function ContextMultiplier(hints: seq<Hint>, start: nat, ctx: string): nat {
    if hints == [] then 1
    else if Applies(hints[0], start, ctx) then hints[0].mult
    else ContextMultiplier(hints[1..], start, ctx)
  }

  /**
   * What one match of NUMBER_PATTERN contributes: nothing when it does not
   * parse or looks like a year; the raw value in a count context; otherwise
   * the value times the inline unit or the hint multiplier when the match or
   * its window looks like money or it has a unit word; else the raw value.
   */
  function Outcome(text: string, hints: seq<Hint>, t: Token): Option<Dec>
    requires t.start <= t.end <= |text|
  {
    var s := text[t.start..t.end];
    match ParseNumberSpec(s)
    case MalformedNumber => None
    case Parsed(number, unit) =>
      if IsYear(Trunc(number)) then None
      else
        var ctx := NumberContext(text, t.start);
        if ContainsAny(Lower(ctx), CountIndicators) then Some(number)
        else if '$' in s || ContainsAny(Lower(ctx), DollarIndicators) || unit > 1 then
          var m := if unit > 1 then unit else ContextMultiplier(hints, t.start, ctx);
          Some(Mul(number, Dec(m, 0)))
        else Some(number)
  }

  // ---------------------------------------------------------------------------
  // The whole page

  predicate InPage(text: string, ts: seq<Token>) {
    forall k :: 0 <= k < |ts| ==> ts[k].start <= ts[k].end <= |text|
  }

  /** The outcome of each token of `ts`. */
  function Outcomes(text: string, hints: seq<Hint>, ts: seq<Token>): (outs: seq<Option<Dec>>)
    requires InPage(text, ts)
    ensures |outs| == |ts|
  {
    seq(|ts|, k requires 0 <= k < |ts| => Outcome(text, hints, ts[k]))
  }

  /**
   * The values that tokens `ts` with outcomes `outs` emit, each with the start
   * of its token, when the starts in `processed` have been emitted already.
   */
  function EmitFrom(ts: seq<Token>, outs: seq<Option<Dec>>, processed: set<nat>): seq<(nat, Dec)>
    requires |outs| == |ts|
  {
    if ts == [] then []
    else if ts[0].start in processed then EmitFrom(ts[1..], outs[1..], processed)
    else match outs[0]
      case None => EmitFrom(ts[1..], outs[1..], processed)
      case Some(v) => [(ts[0].start, v)] + EmitFrom(ts[1..], outs[1..], processed + {ts[0].start})
  }

  function Values(e: seq<(nat, Dec)>): seq<Dec> {
    seq(|e|, k requires 0 <= k < |e| => e[k].1)
  }

  /** Emitting one more value appends it to the list. */
  lemma ValuesCons(numbers: seq<Dec>, x: (nat, Dec), rest: seq<(nat, Dec)>)
    ensures numbers + [x.1] + Values(rest) == numbers + Values([x] + rest)
  {
    assert Values([x] + rest) == [x.1] + Values(rest);
  }

  lemma TokensInPage(text: string)
    ensures InPage(text, Tokens(text))
  {
  }

  /** Each number of the page, paired with the start of its token, under the hints `hints`. */
  function EmittedWith(text: string, hints: seq<Hint>): seq<(nat, Dec)> {
    TokensInPage(text);
    EmitFrom(Tokens(text), Outcomes(text, hints, Tokens(text)), {})
  }

  /** Each number of the page, paired with the start of its token. */
  function Emitted(text: string): seq<(nat, Dec)> {
    EmittedWith(text, FindUnitHintsSpec(text))
  }

  /** `extract_numbers_with_local_units(text)`. */
  function ExtractSpec(text: string): seq<Dec> {
    Values(Emitted(text))
  }

  // ---------------------------------------------------------------------------
  // The procedure

  /** `extract_numbers_with_local_units(text)`: the hints of the page, then the loop over its matches. */
  method ExtractNumbers(text: string) returns (numbers: seq<Dec>)
    ensures numbers == ExtractSpec(text)
  {
    var hints := FindUnitHints(text);
    numbers := NumberLoop(text, hints);
  }

  /**
   * The loop over the matches of NUMBER_PATTERN: a start seen before is
   * skipped, and each emitted value's start is recorded.
   */
  method NumberLoop(text: string, hints: seq<Hint>) returns (numbers: seq<Dec>)
    ensures numbers == Values(EmittedWith(text, hints))
  {
    var tokens := Tokens(text);
    TokensInPage(text);
    ghost var outs := Outcomes(text, hints, tokens);
    numbers := [];
    var processed: set<nat> := {};
    var i := 0;
    while i < |tokens|
      invariant i <= |tokens|
      invariant numbers + Values(EmitFrom(tokens[i..], outs[i..], processed)) == Values(EmittedWith(text, hints))
    {
      numbers, processed := EmitToken(text, hints, tokens, outs, i, numbers, processed);
      i := i + 1;
    }
  }

  /**
   * One pass of the loop body on the `i`-th match: a start seen before is
   * skipped; otherwise the match's number, if it gives one, is appended and
   * its start recorded.
   */
  method EmitToken(text: string, hints: seq<Hint>, tokens: seq<Token>, ghost outs: seq<Option<Dec>>, i: nat,
                   numbers: seq<Dec>, processed: set<nat>)
    returns (numbers': seq<Dec>, processed': set<nat>)
    requires InPage(text, tokens) && outs == Outcomes(text, hints, tokens) && i < |tokens|
    ensures numbers' + Values(EmitFrom(tokens[i + 1..], outs[i + 1..], processed'))
      == numbers + Values(EmitFrom(tokens[i..], outs[i..], processed))
  {
    var t := tokens[i];
    EmitStep(tokens, outs, i, processed);
    numbers', processed' := numbers, processed;
    if t.start !in processed {
      var out := ProcessToken(text, hints, t);
      assert out == outs[i];
      if out.Some? {
        ValuesCons(numbers, (t.start, out.value), EmitFrom(tokens[i + 1..], outs[i + 1..], processed + {t.start}));
        numbers' := numbers + [out.value];
        processed' := processed + {t.start};
      }
    }
  }

  lemma EmitStep(ts: seq<Token>, outs: seq<Option<Dec>>, i: nat, processed: set<nat>)
    requires |outs| == |ts| && i < |ts|
    ensures EmitFrom(ts[i..], outs[i..], processed) ==
      if ts[i].start in processed then EmitFrom(ts[i + 1..], outs[i + 1..], processed)
      else match outs[i]
        case None => EmitFrom(ts[i + 1..], outs[i + 1..], processed)
        case Some(v) => [(ts[i].start, v)] + EmitFrom(ts[i + 1..], outs[i + 1..], processed + {ts[i].start})
  {
    assert ts[i..][0] == ts[i] && outs[i..][0] == outs[i];
    assert ts[i..][1..] == ts[i + 1..] && outs[i..][1..] == outs[i + 1..];
  }

  /**
   * The body of the token loop, from `parse_number` on: `None` where the loop
   * goes on to the next match without emitting.
   */
  method ProcessToken(text: string, hints: seq<Hint>, t: Token) returns (out: Option<Dec>)
    requires t.start <= t.end <= |text|
    ensures out == Outcome(text, hints, t)
  {
    var numberStr := text[t.start..t.end];
    var r := ParseNumber(numberStr);
    if r.MalformedNumber? {
      return None;
    }
    var number, unitMultiplier := r.number, r.unitMult;
    if IsYear(Trunc(number)) {
      return None;
    }
    var numberContext := NumberContext(text, t.start);
    if ContainsAny(Lower(numberContext), CountIndicators) {
      return Some(number);
    }
    var finalNumber;
    if '$' in numberStr || ContainsAny(Lower(numberContext), DollarIndicators) || unitMultiplier > 1 {
      var contextMultiplier := FirstHintMultiplier(hints, t.start, numberContext);
      var multiplier := if unitMultiplier > 1 then unitMultiplier else contextMultiplier;
      finalNumber := Mul(number, Dec(multiplier, 0));
    } else {
      finalNumber := number;
    }
    return Some(finalNumber);
  }

  /** The inner loop: the first hint at or before the number whose context overlaps its window. */
  method FirstHintMultiplier(hints: seq<Hint>, start: nat, numberContext: string) returns (m: nat)
    ensures m == ContextMultiplier(hints, start, numberContext)
  {
    m := 1;
    var k := 0;
    while k < |hints|
      invariant k <= |hints|
      invariant ContextMultiplier(hints[k..], start, numberContext) == ContextMultiplier(hints, start, numberContext)
    {
      assert hints[k..][1..] == hints[k + 1..];
      if hints[k].pos <= start && ContextsOverlap(numberContext, hints[k].context) {
        m := hints[k].mult;
        return;
      }
      k := k + 1;
    }
  }

  // ---------------------------------------------------------------------------
  // Properties

  /** When hint `j` is the first that applies, the hint multiplier is its multiplier. */
  lemma {:induction false} ContextMultiplierFirst(hints: seq<Hint>, start: nat, ctx: string, j: nat)
    requires j < |hints| && Applies(hints[j], start, ctx)
    requires forall i :: 0 <= i < j ==> !Applies(hints[i], start, ctx)
    ensures ContextMultiplier(hints, start, ctx) == hints[j].mult
  {
    if j > 0 {
      var tail := hints[1..];
      assert !Applies(hints[0], start, ctx);
      forall i | 0 <= i < j - 1 ensures !Applies(tail[i], start, ctx) {
        assert tail[i] == hints[i + 1];
      }
      ContextMultiplierFirst(tail, start, ctx, j - 1);
    }
  }

  /** When no hint applies, the hint multiplier is 1. */
  lemma {:induction false} ContextMultiplierNone(hints: seq<Hint>, start: nat, ctx: string)
    requires forall i :: 0 <= i < |hints| ==> !Applies(hints[i], start, ctx)
    ensures ContextMultiplier(hints, start, ctx) == 1
  {
    if hints != [] {
      var tail := hints[1..];
      assert !Applies(hints[0], start, ctx);
      forall i | 0 <= i < |tail| ensures !Applies(tail[i], start, ctx) {
        assert tail[i] == hints[i + 1];
      }
      ContextMultiplierNone(tail, start, ctx);
    }
  }

  /** The hint multiplier is 1 or the multiplier of one of the hints. */
  lemma {:induction false} ContextMultiplierFrom(hints: seq<Hint>, start: nat, ctx: string)
    ensures ContextMultiplier(hints, start, ctx) == 1
      || exists j :: 0 <= j < |hints| && ContextMultiplier(hints, start, ctx) == hints[j].mult
  {
    if hints != [] && !Applies(hints[0], start, ctx) {
      var tail := hints[1..];
      ContextMultiplierFrom(tail, start, ctx);
      if ContextMultiplier(tail, start, ctx) != 1 {
        var j :| 0 <= j < |tail| && ContextMultiplier(tail, start, ctx) == tail[j].mult;
        assert tail[j] == hints[j + 1];
      }
    }
  }

  /** Every multiplier `find_unit_hints` hands out is 10^3, 10^6 or 10^9. */
  lemma HintMultipliers(text: string)
    ensures forall h :: h in FindUnitHintsSpec(text) ==> IsScale(h.mult)
  {
    if PageHeader(Lower(text), 0).None? {
      HintsQualify(text);
    } else {
      assert PageHeader(Lower(text), 0).value in {1000000, 1000} by {
        assert PageHeader(Lower(text), 1) == if Found(MainHeaders[1].0, Lower(text)) then Some(1000) else PageHeader(Lower(text), 2);
      }
    }
  }

  /** So the hint multiplier is 1, 10^3, 10^6 or 10^9. */
  lemma ContextMultiplierSet(hints: seq<Hint>, start: nat, ctx: string)
    requires forall h :: h in hints ==> IsScale(h.mult)
    ensures var m := ContextMultiplier(hints, start, ctx); m == 1 || IsScale(m)
  {
    ContextMultiplierFrom(hints, start, ctx);
    if ContextMultiplier(hints, start, ctx) != 1 {
      var j :| 0 <= j < |hints| && ContextMultiplier(hints, start, ctx) == hints[j].mult;
      assert hints[j] in hints;
    }
  }

  /** A match of NUMBER_PATTERN in the page. */
  predicate IsMatch(text: string, t: Token) {
    t.start < t.end <= |text| && NumberAt(text, t.start) == Some(t.end)
  }

  lemma TokensAreMatches(text: string)
    ensures forall k :: 0 <= k < |Tokens(text)| ==> IsMatch(text, Tokens(text)[k])
  {
  }

  /**
   * A match of the page emits nothing exactly when its value truncates to a
   * year, whatever its dollar sign, unit word or window hold: it always
   * parses, so the `except ValueError` branch never runs.
   */
  lemma YearSkipped(text: string, hints: seq<Hint>, t: Token)
    requires IsMatch(text, t)
    ensures ParseNumberSpec(text[t.start..t.end]).Parsed?
    ensures Outcome(text, hints, t).None? <==> IsYear(Trunc(ParseNumberSpec(text[t.start..t.end]).number))
  {
    TokenParses(text, t);
  }

  /** A number whose window names a count is emitted as parsed, without any multiplier. */
  lemma CountUnscaled(text: string, hints: seq<Hint>, t: Token)
    requires t.start <= t.end <= |text|
    requires ParseNumberSpec(text[t.start..t.end]).Parsed?
    requires !IsYear(Trunc(ParseNumberSpec(text[t.start..t.end]).number))
    requires ContainsAny(Lower(NumberContext(text, t.start)), CountIndicators)
    ensures Outcome(text, hints, t) == Some(ParseNumberSpec(text[t.start..t.end]).number)
  {
  }

  /** The match itself or its window marks money, or the match carries a unit word. */
  predicate LooksLikeMoney(s: string, ctx: string, unit: nat) {
    '$' in s || ContainsAny(Lower(ctx), DollarIndicators) || unit > 1
  }

  /**
   * The multiplier rule for a parsed match that is neither a year nor in a
   * count window: when it looks like money its number is multiplied by the
   * inline unit if that exceeds 1, else by the first hint that applies, else
   * by 1; otherwise the raw number is emitted.  The multiplier is 1, 10^3,
   * 10^6 or 10^9.
   */
  lemma MultiplierRule(text: string, t: Token)
    requires t.start <= t.end <= |text|
    requires ParseNumberSpec(text[t.start..t.end]).Parsed?
    requires !IsYear(Trunc(ParseNumberSpec(text[t.start..t.end]).number))
    requires !ContainsAny(Lower(NumberContext(text, t.start)), CountIndicators)
    ensures var s := text[t.start..t.end];
      var p := ParseNumberSpec(s);
      var hints := FindUnitHintsSpec(text);
      var ctx := NumberContext(text, t.start);
      var m := if p.unitMult > 1 then p.unitMult else ContextMultiplier(hints, t.start, ctx);
      && (m == 1 || IsScale(m))
      && (LooksLikeMoney(s, ctx, p.unitMult) ==> Outcome(text, hints, t) == Some(Mul(p.number, Dec(m, 0))))
      && (!LooksLikeMoney(s, ctx, p.unitMult) ==> Outcome(text, hints, t) == Some(p.number))
  {
    var s := text[t.start..t.end];
    UnitMultiplierSet(s);
    HintMultipliers(text);
    ContextMultiplierSet(FindUnitHintsSpec(text), t.start, NumberContext(text, t.start));
  }

  /** Scaling is exact while the product keeps to 28 digits: the value is multiplied by `m`. */
  lemma ExactScaling(d: Dec, m: nat)
    requires Abs(d.coef * m) < PrecisionLimit
    ensures Value(Mul(d, Dec(m, 0))) == Value(d) * m as real
  {
    MulExact(d, Dec(m, 0));
    assert Mul(d, Dec(m, 0)) == Dec(d.coef * m, d.exp);
    ValueScale(d.coef, d.exp, m);
  }

  /**
   * With a page-wide header, a number whose window holds a break marker gets
   * no hint multiplier: the window and the whole page share that marker.
   */
  lemma PageHeaderNeedsNoBreak(text: string, pos: nat, k: nat)
    requires PageHeader(Lower(text), 0).Some?
    requires k < |BreakMarkers| && Contains(Lower(NumberContext(text, pos)), BreakMarkers[k])
    ensures ContextMultiplier(FindUnitHintsSpec(text), pos, NumberContext(text, pos)) == 1
  {
    WindowWithBreakMissesText(text, pos, k);
  }

  /** "Cost" never occurs in lower-cased text, so that indicator adds nothing to "cost". */
  lemma CapitalCostNeverMatches(c: string)
    ensures !Contains(Lower(c), "Cost")
  {
    forall i: nat | i <= |c| ensures !OccursAt(Lower(c), "Cost", i) {
      if i + 4 <= |c| {
        assert Lower(c)[i..i + 4][0] == LowerChar(c[i]);
      }
    }
  }

  /** Starts of tokens that strictly increase, as `re.finditer` yields them. */
  predicate Increasing(ts: seq<Token>) {
    forall i, j :: 0 <= i < j < |ts| ==> ts[i].start < ts[j].start
  }

  /** Every start in `e` is the start of a token of `ts`. */
  predicate StartsFrom(e: seq<(nat, Dec)>, ts: seq<Token>) {
    forall k :: 0 <= k < |e| ==> exists j :: 0 <= j < |ts| && e[k].0 == ts[j].start
  }

  predicate StartsIncrease(e: seq<(nat, Dec)>) {
    forall i, j :: 0 <= i < j < |e| ==> e[i].0 < e[j].0
  }

  lemma {:induction false} EmitFromStarts(ts: seq<Token>, outs: seq<Option<Dec>>, processed: set<nat>)
    requires |outs| == |ts| && Increasing(ts)
    ensures StartsFrom(EmitFrom(ts, outs, processed), ts)
    ensures StartsIncrease(EmitFrom(ts, outs, processed))
  {
    if ts != [] {
      var tail := ts[1..];
      IncreasingTail(ts);
      var q := if ts[0].start in processed || outs[0].None? then processed else processed + {ts[0].start};
      EmitFromStarts(tail, outs[1..], q);
      var rest := EmitFrom(tail, outs[1..], q);
      StartsAfterFirst(rest, ts);
      if !(ts[0].start in processed) && outs[0].Some? {
        ConsStarts((ts[0].start, outs[0].value), rest, ts);
      }
    }
  }

  lemma IncreasingTail(ts: seq<Token>)
    requires ts != [] && Increasing(ts)
    ensures Increasing(ts[1..])
  {
    var tail := ts[1..];
    forall i, j | 0 <= i < j < |tail| ensures tail[i].start < tail[j].start {
      assert tail[i] == ts[i + 1] && tail[j] == ts[j + 1];
    }
  }

  /** Starts taken from the later tokens come after the first token and are starts of `ts`. */
  lemma StartsAfterFirst(rest: seq<(nat, Dec)>, ts: seq<Token>)
    requires ts != [] && Increasing(ts) && StartsFrom(rest, ts[1..])
    ensures StartsFrom(rest, ts)
    ensures forall k :: 0 <= k < |rest| ==> ts[0].start < rest[k].0
  {
    var tail := ts[1..];
    forall k | 0 <= k < |rest| ensures ts[0].start < rest[k].0 && exists j :: 0 <= j < |ts| && rest[k].0 == ts[j].start {
      var j :| 0 <= j < |tail| && rest[k].0 == tail[j].start;
      assert tail[j] == ts[j + 1];
    }
  }

  lemma ConsStarts(x: (nat, Dec), rest: seq<(nat, Dec)>, ts: seq<Token>)
    requires ts != [] && x.0 == ts[0].start
    requires StartsFrom(rest, ts) && StartsIncrease(rest)
    requires forall k :: 0 <= k < |rest| ==> x.0 < rest[k].0
    ensures StartsFrom([x] + rest, ts) && StartsIncrease([x] + rest)
  {
    var e := [x] + rest;
    forall i, j | 0 <= i < j < |e| ensures e[i].0 < e[j].0 {
      assert e[j] == rest[j - 1];
      if i > 0 {
        assert e[i] == rest[i - 1];
      }
    }
    forall k | 0 <= k < |e| ensures exists j :: 0 <= j < |ts| && e[k].0 == ts[j].start {
      if k == 0 {
        assert e[0].0 == ts[0].start;
      } else {
        assert e[k] == rest[k - 1];
      }
    }
  }

  /** The values of the outcomes that are present, in order. */
  function Somes(outs: seq<Option<Dec>>): seq<Dec> {
    if outs == [] then []
    else match outs[0]
      case None => Somes(outs[1..])
      case Some(v) => [v] + Somes(outs[1..])
  }

  /** With strictly increasing starts, none of them processed yet, the check on processed starts never skips a token. */
  lemma {:induction false} EmitNoSkip(ts: seq<Token>, outs: seq<Option<Dec>>, processed: set<nat>)
    requires |outs| == |ts| && Increasing(ts)
    requires forall k :: 0 <= k < |ts| ==> ts[k].start !in processed
    ensures Values(EmitFrom(ts, outs, processed)) == Somes(outs)
  {
    if ts != [] {
      var tail := ts[1..];
      IncreasingTail(ts);
      var q := if outs[0].Some? then processed + {ts[0].start} else processed;
      forall k | 0 <= k < |tail| ensures tail[k].start !in q {
        assert tail[k] == ts[k + 1];
      }
      EmitNoSkip(tail, outs[1..], q);
      var rest := EmitFrom(tail, outs[1..], q);
      if outs[0].Some? {
        assert Values([(ts[0].start, outs[0].value)] + rest) == [outs[0].value] + Values(rest);
      }
    }
  }

  /**
   * The numbers of a page are exactly the outcomes of its matches that are
   * present, in the order of the matches: `processed_positions` never drops one.
   */
  lemma ExtractComplete(text: string)
    ensures ExtractSpec(text) == Somes(Outcomes(text, FindUnitHintsSpec(text), Tokens(text)))
  {
    TokensInPage(text);
    TokensOrdered(text);
    EmitNoSkip(Tokens(text), Outcomes(text, FindUnitHintsSpec(text), Tokens(text)), {});
  }

  lemma {:induction false} SomesHas(outs: seq<Option<Dec>>, k: nat)
    requires k < |outs| && outs[k].Some?
    ensures outs[k].value in Somes(outs)
  {
    if k > 0 {
      SomesHas(outs[1..], k - 1);
    }
  }

  /** Every match with an outcome has its value among the page's numbers. */
  lemma OutcomeExtracted(text: string, k: nat)
    requires k < |Tokens(text)|
    requires Outcome(text, FindUnitHintsSpec(text), Tokens(text)[k]).Some?
    ensures Outcome(text, FindUnitHintsSpec(text), Tokens(text)[k]).value in ExtractSpec(text)
  {
    ExtractComplete(text);
    SomesHas(Outcomes(text, FindUnitHintsSpec(text), Tokens(text)), k);
  }

  /**
   * At most one value is emitted per token start: the emitted numbers come
   * with strictly increasing starts, each the start of a match.
   */
  lemma OneValuePerStart(text: string)
    ensures |ExtractSpec(text)| == |Emitted(text)|
    ensures forall i, j :: 0 <= i < j < |Emitted(text)| ==> Emitted(text)[i].0 < Emitted(text)[j].0
    ensures forall k :: 0 <= k < |Emitted(text)| ==>
      ExtractSpec(text)[k] == Emitted(text)[k].1
      && exists j :: 0 <= j < |Tokens(text)| && Emitted(text)[k].0 == Tokens(text)[j].start
  {
    TokensInPage(text);
    TokensOrdered(text);
    EmitFromStarts(Tokens(text), Outcomes(text, FindUnitHintsSpec(text), Tokens(text)), {});
  }
}
