/**
 * `find_unit_hints`: the places in a page that declare the scale of its
 * figures ("(in millions)", "$K"), each with its multiplier and the text
 * around it.
 */
module UnitHints {
  import opened Wrappers
  import opened Text
  import opened Scanning

  /** One hint: `(position, multiplier, context)`. */
  datatype Hint = Hint(pos: nat, mult: nat, context: string)

  // ---------------------------------------------------------------------------
  // The patterns, over lower-cased text (every pattern is searched with re.IGNORECASE)

  /** `w\s+in\s+u`, with an optional `s` after `w`. */
  function PhraseIn(w: string, u: string): Pattern {
    Lits(w) + [Opt('s'), Spaces(true)] + Lits("in") + [Spaces(true)] + Lits(u)
  }

  /** `\(\$?\s*u\)`. */
  function DollarParen(u: string): Pattern {
    [Lit('('), Opt('$'), Spaces(false)] + Lits(u) + [Lit(')')]
  }

  /** `in\s+u`. */
  function InUnits(u: string): Pattern {
    Lits("in") + [Spaces(true)] + Lits(u)
  }

  /** The page-wide headers, in the order they are tried, with their multipliers. */
  const MainHeaders: seq<(Pattern, nat)> := [
    (PhraseIn("(dollar", "millions)"), 1000000),
    (PhraseIn("(dollar", "thousands)"), 1000)
  ]

  /** The table headers, in the order of their dictionary. */
  const HeaderPatterns: seq<(Pattern, nat)> := [
    (Lits("(thousands)"), 1000),
    (PhraseIn("(hour", "thousands)"), 1000),
    (PhraseIn("(unit", "thousands)"), 1000),
    (Lits("(millions)"), 1000000),
    (DollarParen("millions"), 1000000),
    (DollarParen("m"), 1000000),
    (Lits("(billions)"), 1000000000),
    (DollarParen("billions"), 1000000000),
    (DollarParen("b"), 1000000000)
  ]

  /** The bare phrases and currency suffixes, looked for after the headers. */
  const OtherPatterns: seq<(Pattern, nat)> := [
    (InUnits("thousands"), 1000),
    (InUnits("millions"), 1000000),
    (InUnits("billions"), 1000000000),
    (Lits("$k"), 1000),
    (Lits("$m"), 1000000),
    (Lits("$b"), 1000000000)
  ]

  /** Phrases that mark a count or a quantity rather than money. */
  const CountIndicators: seq<string> := [
    "number of issues", "number of receipts", "number of requisitions", "items managed",
    "contracts executed", "purchase inflation", "supply item quantity requirements"
  ]

  /** Phrases that mark money. */
  const FinancialIndicators: seq<string> := ["dollars", "$", "funding", "budget", "cost", "expense", "revenue"]

  /** The multipliers a hint can carry. */
  predicate IsScale(m: nat) {
    m == 1000 || m == 1000000 || m == 1000000000
  }

  lemma PatternScales()
    ensures forall k :: 0 <= k < |HeaderPatterns| ==> IsScale(HeaderPatterns[k].1)
    ensures forall k :: 0 <= k < |OtherPatterns| ==> IsScale(OtherPatterns[k].1)
  {
  }

  // ---------------------------------------------------------------------------
  // Specification

  /** Characters kept on each side of a hint match. */
  const HintRadius: nat := 200

  /** `text[max(0, ms - 200):min(len(text), me + 200)]` for a match from `ms` to `me`. */
  function HintContext(text: string, ms: nat, me: nat): string
    requires ms <= me <= |text|
  {
    var start := if ms >= HintRadius then ms - HintRadius else 0;
    var end := if me + HintRadius <= |text| then me + HintRadius else |text|;
    text[start..end]
  }

  /** The hint one match gives: none when a count indicator or no financial indicator is near. */
  function MatchHint(text: string, m: (nat, nat), mult: nat): seq<Hint>
    requires m.0 <= m.1 <= |text|
  {
    var c := HintContext(text, m.0, m.1);
    if ContainsAny(Lower(c), CountIndicators) then []
    else if ContainsAny(Lower(c), FinancialIndicators) then [Hint(m.0, mult, c)]
    else []
  }

  predicate InText(text: string, ms: seq<(nat, nat)>) {
    forall k :: 0 <= k < |ms| ==> ms[k].0 <= ms[k].1 <= |text|
  }

  /** The hints of the matches `ms` of one pattern, in match order. */
  function MatchHints(text: string, ms: seq<(nat, nat)>, mult: nat): seq<Hint>
    requires InText(text, ms)
  {
    if ms == [] then []
    else MatchHints(text, ms[..|ms| - 1], mult) + MatchHint(text, ms[|ms| - 1], mult)
  }

  /** The hints of the patterns `pats`, pattern after pattern. */
  function PatternHints(text: string, pats: seq<(Pattern, nat)>): seq<Hint> {
    if pats == [] then []
    else
      var (pat, mult) := pats[|pats| - 1];
      PatternHints(text, pats[..|pats| - 1]) + MatchHints(text, FindAll(pat, Lower(text), 0), mult)
  }

  /** Every hint found before sorting: the headers first, then the other patterns. */
  function RawHints(text: string): seq<Hint> {
    PatternHints(text, HeaderPatterns) + PatternHints(text, OtherPatterns)
  }

  predicate SortedByPos(hs: seq<Hint>) {
    forall i, j :: 0 <= i < j < |hs| ==> hs[i].pos <= hs[j].pos
  }

  /** `h` placed before the first hint at or after its position. */
  function InsertByPos(h: Hint, hs: seq<Hint>): (r: seq<Hint>)
    ensures multiset(r) == multiset([h] + hs)
  {
    if hs == [] || h.pos <= hs[0].pos then [h] + hs
    else
      assert hs == [hs[0]] + hs[1..];
      [hs[0]] + InsertByPos(h, hs[1..])
  }

  lemma {:induction false} InsertSorted(h: Hint, hs: seq<Hint>)
    requires SortedByPos(hs)
    ensures SortedByPos(InsertByPos(h, hs))
  {
    if hs != [] && h.pos > hs[0].pos {
      var tail := hs[1..];
      InsertSorted(h, tail);
      var rest := InsertByPos(h, tail);
      InsertAbove(h, tail, hs[0].pos);
      var r := [hs[0]] + rest;
      forall i, j | 0 <= i < j < |r| ensures r[i].pos <= r[j].pos {
        assert r[j] == rest[j - 1];
        if i > 0 {
          assert r[i] == rest[i - 1];
        }
      }
    }
  }

  /** Inserting keeps a lower bound on the positions. */
  lemma {:induction false} InsertAbove(h: Hint, hs: seq<Hint>, b: nat)
    requires h.pos >= b && forall k :: 0 <= k < |hs| ==> hs[k].pos >= b
    ensures forall k :: 0 <= k < |InsertByPos(h, hs)| ==> InsertByPos(h, hs)[k].pos >= b
  {
    if hs != [] && h.pos > hs[0].pos {
      InsertAbove(h, hs[1..], b);
    }
  }

  /** What one permutation holds, the other holds. */
  lemma SameMembers(a: seq<Hint>, b: seq<Hint>, x: Hint)
    requires multiset(a) == multiset(b) && x in a
    ensures x in b
  {
    assert x in multiset(a);
  }

  /**
   * `sorted(hints, key=lambda x: x[0])`: a stable sort by position (of hints
   * at one position the one found first stays first).
   */
  function SortByPos(hs: seq<Hint>): (r: seq<Hint>)
    ensures multiset(r) == multiset(hs)
    ensures SortedByPos(r)
  {
    if hs == [] then []
    else
      assert hs == [hs[0]] + hs[1..];
      var rest := SortByPos(hs[1..]);
      InsertSorted(hs[0], rest);
      InsertByPos(hs[0], rest)
  }

  /** The greedy filter: a hint is kept when it starts after the end of the last kept context. */
  function KeepSpaced(hs: seq<Hint>, lastEnd: int): seq<Hint> {
    if hs == [] then []
    else if hs[0].pos > lastEnd then [hs[0]] + KeepSpaced(hs[1..], hs[0].pos + |hs[0].context|)
    else KeepSpaced(hs[1..], lastEnd)
  }

  /** The first page-wide header found, from entry `k` of `MainHeaders` on. */
  function PageHeader(l: string, k: nat): Option<nat>
    requires k <= |MainHeaders|
    decreases |MainHeaders| - k
  {
    if k == |MainHeaders| then None
    else if Found(MainHeaders[k].0, l) then Some(MainHeaders[k].1)
    else PageHeader(l, k + 1)
  }

  /** `find_unit_hints(text)`. */
  function FindUnitHintsSpec(text: string): seq<Hint> {
    match PageHeader(Lower(text), 0)
    case Some(m) => [Hint(0, m, text)]
    case None => KeepSpaced(SortByPos(RawHints(text)), -1)
  }

  // ---------------------------------------------------------------------------
  // The procedure

  /** The loop over the patterns of one dictionary. */
  method CollectHints(text: string, pats: seq<(Pattern, nat)>) returns (hints: seq<Hint>)
    ensures hints == PatternHints(text, pats)
  {
    var l := Lower(text);
    hints := [];
    var i := 0;
    while i < |pats|
      invariant i <= |pats|
      invariant hints == PatternHints(text, pats[..i])
    {
      var matches := FindAll(pats[i].0, l, 0);
      var found := MatchLoop(text, matches, pats[i].1);
      assert pats[..i + 1][..i] == pats[..i];
      hints := hints + found;
      i := i + 1;
    }
    assert pats[..i] == pats;
  }

  /**
   * The loop over the matches of one pattern: a match whose window names a
   * count is skipped, one whose window names money gives a hint.
   */
  method MatchLoop(text: string, matches: seq<(nat, nat)>, mult: nat) returns (hints: seq<Hint>)
    requires InText(text, matches)
    ensures hints == MatchHints(text, matches, mult)
  {
    hints := [];
    var j := 0;
    while j < |matches|
      invariant j <= |matches|
      invariant hints == MatchHints(text, matches[..j], mult)
    {
      var (ms, me) := matches[j];
      var context := HintContext(text, ms, me);
      assert matches[..j + 1][..j] == matches[..j];
      if ContainsAny(Lower(context), CountIndicators) {
        j := j + 1;
        continue;
      }
      if ContainsAny(Lower(context), FinancialIndicators) {
        hints := hints + [Hint(ms, mult, context)];
      }
      j := j + 1;
    }
    assert matches[..j] == matches;
  }

  /** `find_unit_hints(text)`. */
  method FindUnitHints(text: string) returns (hints: seq<Hint>)
    ensures hints == FindUnitHintsSpec(text)
  {
    var l := Lower(text);
    var k := 0;
    while k < |MainHeaders|
      invariant k <= |MainHeaders|
      invariant PageHeader(l, k) == PageHeader(l, 0)
    {
      if Found(MainHeaders[k].0, l) {
        return [Hint(0, MainHeaders[k].1, text)];
      }
      k := k + 1;
    }
    var headers := CollectHints(text, HeaderPatterns);
    var others := CollectHints(text, OtherPatterns);
    var sorted := SortByPos(headers + others);
    hints := DropOverlaps(sorted);
  }

  /** The filter loop: `last_end` starts at -1 and moves to the end of each kept context. */
  method DropOverlaps(sorted: seq<Hint>) returns (hints: seq<Hint>)
    ensures hints == KeepSpaced(sorted, -1)
  {
    hints := [];
    var lastEnd: int := -1;
    var i := 0;
    while i < |sorted|
      invariant i <= |sorted|
      invariant hints + KeepSpaced(sorted[i..], lastEnd) == KeepSpaced(sorted, -1)
    {
      var h := sorted[i];
      KeepSpacedStep(sorted, i, lastEnd);
      if h.pos > lastEnd {
        hints := hints + [h];
        lastEnd := h.pos + |h.context|;
      }
      i := i + 1;
    }
  }

  lemma KeepSpacedStep(hs: seq<Hint>, i: nat, lastEnd: int)
    requires i < |hs|
    ensures KeepSpaced(hs[i..], lastEnd) ==
      if hs[i].pos > lastEnd then [hs[i]] + KeepSpaced(hs[i + 1..], hs[i].pos + |hs[i].context|)
      else KeepSpaced(hs[i + 1..], lastEnd)
  {
    assert hs[i..][1..] == hs[i + 1..];
  }

  // ---------------------------------------------------------------------------
  // Properties

  /**
   * A page-wide "(dollars in millions)" header wins over everything, then a
   * "(dollars in thousands)" one: the page gets one hint, at position 0, whose
   * context is the whole page.
   */
  lemma PageHeaderWins(text: string)
    ensures Found(MainHeaders[0].0, Lower(text)) ==> FindUnitHintsSpec(text) == [Hint(0, 1000000, text)]
    ensures !Found(MainHeaders[0].0, Lower(text)) && Found(MainHeaders[1].0, Lower(text)) ==>
      FindUnitHintsSpec(text) == [Hint(0, 1000, text)]
    ensures !Found(MainHeaders[0].0, Lower(text)) && !Found(MainHeaders[1].0, Lower(text)) ==>
      FindUnitHintsSpec(text) == KeepSpaced(SortByPos(RawHints(text)), -1)
  {
    assert PageHeader(Lower(text), 1) == if Found(MainHeaders[1].0, Lower(text)) then Some(1000) else PageHeader(Lower(text), 2);
  }

  /**
   * What a hint found by the patterns is: a match of one of them starts at its
   * position, its multiplier is that pattern's, its context is the text from
   * 200 characters before the match to 200 after, and that context names no
   * count but does name money.
   */
  predicate Qualifies(text: string, h: Hint) {
    && IsScale(h.mult)
    && !ContainsAny(Lower(h.context), CountIndicators)
    && ContainsAny(Lower(h.context), FinancialIndicators)
    && (exists pm :: pm in HeaderPatterns + OtherPatterns && pm.1 == h.mult
          && h.pos <= |text| && MatchFrom(pm.0, Lower(text), h.pos).Some?
          && h.context == HintContext(text, h.pos, MatchFrom(pm.0, Lower(text), h.pos).value))
  }

  lemma {:induction false} MatchHintsQualify(text: string, pm: (Pattern, nat), ms: seq<(nat, nat)>)
    requires pm in HeaderPatterns + OtherPatterns
    requires InText(text, ms)
    requires forall k :: 0 <= k < |ms| ==> MatchFrom(pm.0, Lower(text), ms[k].0) == Some(ms[k].1)
    ensures forall h :: h in MatchHints(text, ms, pm.1) ==> Qualifies(text, h)
  {
    PatternScales();
    if ms != [] {
      MatchHintsQualify(text, pm, ms[..|ms| - 1]);
      var m := ms[|ms| - 1];
      forall h | h in MatchHint(text, m, pm.1) ensures Qualifies(text, h) {
        assert MatchFrom(pm.0, Lower(text), h.pos) == Some(m.1);
      }
    }
  }

  lemma {:induction false} PatternHintsQualify(text: string, pats: seq<(Pattern, nat)>)
    requires forall k :: 0 <= k < |pats| ==> pats[k] in HeaderPatterns + OtherPatterns
    ensures forall h :: h in PatternHints(text, pats) ==> Qualifies(text, h)
  {
    if pats != [] {
      var pm := pats[|pats| - 1];
      PatternHintsQualify(text, pats[..|pats| - 1]);
      MatchHintsQualify(text, pm, FindAll(pm.0, Lower(text), 0));
    }
  }

  lemma {:induction false} KeepSpacedFrom(hs: seq<Hint>, lastEnd: int)
    ensures forall h :: h in KeepSpaced(hs, lastEnd) ==> h in hs
  {
    if hs != [] {
      KeepSpacedFrom(hs[1..], if hs[0].pos > lastEnd then hs[0].pos + |hs[0].context| else lastEnd);
    }
  }

  /**
   * Without a page-wide header, every hint returned was found by one of the
   * patterns and qualifies: a multiplier of 10^3, 10^6 or 10^9, no count
   * indicator near it, a financial indicator near it.
   */
  lemma HintsQualify(text: string)
    requires PageHeader(Lower(text), 0).None?
    ensures forall h :: h in FindUnitHintsSpec(text) ==> Qualifies(text, h)
  {
    PatternHintsQualify(text, HeaderPatterns);
    PatternHintsQualify(text, OtherPatterns);
    var raw := RawHints(text);
    KeepSpacedFrom(SortByPos(raw), -1);
    forall h | h in SortByPos(raw) ensures Qualifies(text, h) {
      SameMembers(SortByPos(raw), raw, h);
    }
  }

  /** Consecutive hints of `hs` do not overlap: each starts after the end of the context before it. */
  predicate Spaced(hs: seq<Hint>) {
    forall i :: 0 <= i < |hs| - 1 ==> hs[i].pos + |hs[i].context| < hs[i + 1].pos
  }

  lemma {:induction false} KeepSpacedSpaced(hs: seq<Hint>, lastEnd: int)
    ensures Spaced(KeepSpaced(hs, lastEnd))
    ensures forall h :: h in KeepSpaced(hs, lastEnd) ==> h.pos > lastEnd
  {
    if hs != [] {
      if hs[0].pos > lastEnd {
        var e := hs[0].pos + |hs[0].context|;
        KeepSpacedSpaced(hs[1..], e);
        var rest := KeepSpaced(hs[1..], e);
        assert rest != [] ==> rest[0] in rest;
      } else {
        KeepSpacedSpaced(hs[1..], lastEnd);
      }
    }
  }

  /**
   * The hints come out in increasing position, and each one starts after the
   * end of the context of the one before it.
   */
  lemma HintsSpaced(text: string)
    ensures Spaced(FindUnitHintsSpec(text))
    ensures forall i, j :: 0 <= i < j < |FindUnitHintsSpec(text)| ==>
      FindUnitHintsSpec(text)[i].pos < FindUnitHintsSpec(text)[j].pos
  {
    var r := FindUnitHintsSpec(text);
    if PageHeader(Lower(text), 0).None? {
      KeepSpacedSpaced(SortByPos(RawHints(text)), -1);
    }
    SpacedIncreasing(r);
  }

  lemma {:induction false} SpacedIncreasing(hs: seq<Hint>)
    requires Spaced(hs)
    ensures forall i, j :: 0 <= i < j < |hs| ==> hs[i].pos < hs[j].pos
  {
    if |hs| > 1 {
      var tail := hs[1..];
      assert Spaced(tail) by {
        forall i | 0 <= i < |tail| - 1 ensures tail[i].pos + |tail[i].context| < tail[i + 1].pos {
          assert tail[i] == hs[i + 1] && tail[i + 1] == hs[i + 2];
        }
      }
      SpacedIncreasing(tail);
      forall i, j | 0 <= i < j < |hs| ensures hs[i].pos < hs[j].pos {
        assert hs[j] == tail[j - 1];
        if i > 0 {
          assert hs[i] == tail[i - 1];
        } else if j > 1 {
          assert hs[1] == tail[0];
        }
      }
    }
  }

  /** Hint `h` lies within the span of a kept hint: from its position to the end of its context. */
  predicate CoveredBy(kept: seq<Hint>, h: Hint) {
    exists j :: 0 <= j < |kept| && kept[j].pos <= h.pos <= kept[j].pos + |kept[j].context|
  }

  lemma {:induction false} KeepSpacedCovers(hs: seq<Hint>, lastEnd: int)
    requires SortedByPos(hs)
    ensures forall i :: 0 <= i < |hs| ==>
      hs[i] in KeepSpaced(hs, lastEnd) || hs[i].pos <= lastEnd || CoveredBy(KeepSpaced(hs, lastEnd), hs[i])
  {
    if hs != [] {
      var tail := hs[1..];
      if hs[0].pos > lastEnd {
        var e := hs[0].pos + |hs[0].context|;
        KeepSpacedCovers(tail, e);
        var r := KeepSpaced(hs, lastEnd);
        assert r == [hs[0]] + KeepSpaced(tail, e);
        forall i | 0 < i < |hs| ensures hs[i] in r || hs[i].pos <= lastEnd || CoveredBy(r, hs[i]) {
          assert hs[i] == tail[i - 1];
          if hs[i] in KeepSpaced(tail, e) {
          } else if hs[i].pos <= e {
            assert r[0].pos <= hs[i].pos <= r[0].pos + |r[0].context|;
          } else {
            var j :| 0 <= j < |KeepSpaced(tail, e)| && KeepSpaced(tail, e)[j].pos <= hs[i].pos <= KeepSpaced(tail, e)[j].pos + |KeepSpaced(tail, e)[j].context|;
            assert r[j + 1] == KeepSpaced(tail, e)[j];
          }
        }
      } else {
        KeepSpacedCovers(tail, lastEnd);
        forall i | 0 < i < |hs| ensures hs[i] == tail[i - 1] {
        }
      }
    }
  }

  /**
   * The filter is greedy: a hint found by the patterns is dropped only when
   * it falls within the span of a hint that was kept.
   */
  lemma DroppedHintsCovered(text: string)
    requires PageHeader(Lower(text), 0).None?
    ensures forall h :: h in RawHints(text) ==> h in FindUnitHintsSpec(text) || CoveredBy(FindUnitHintsSpec(text), h)
  {
    var sorted := SortByPos(RawHints(text));
    KeepSpacedCovers(sorted, -1);
    forall h | h in RawHints(text) ensures h in FindUnitHintsSpec(text) || CoveredBy(FindUnitHintsSpec(text), h) {
      SameMembers(RawHints(text), sorted, h);
      var i :| 0 <= i < |sorted| && sorted[i] == h;
    }
  }
}
