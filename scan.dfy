/**
 * Hand-written scanners for the regular expressions of utils/number_parser.py.
 *
 * Every optional piece of these patterns is followed by a piece that cannot
 * consume what the optional piece consumes, so leftmost-greedy matching never
 * needs to backtrack and a deterministic left-to-right scan gives the same
 * matches as Python's `re` engine.
 */
module Scanning {
  import opened Wrappers
  import opened Text

  /** `,\d{3}` at `i`. */
  predicate CommaGroupAt(s: string, i: nat) {
    i + 4 <= |s| && s[i] == ',' && IsDigit(s[i + 1]) && IsDigit(s[i + 2]) && IsDigit(s[i + 3])
  }

  /** End of `(?:,\d{3})*` from `i`. */
  function CommaGroups(s: string, i: nat): (e: nat)
    requires i <= |s|
    ensures i <= e <= |s|
    ensures !CommaGroupAt(s, e)
    ensures forall k :: i <= k < e ==> IsDigit(s[k]) || s[k] == ','
    decreases |s| - i
  {
    if CommaGroupAt(s, i) then CommaGroups(s, i + 4) else i
  }

  /** End of `(?:\.\d+)?` from `i`. */
  function Fraction(s: string, i: nat): (e: nat)
    requires i <= |s|
    ensures i <= e <= |s|
    ensures e > i ==> s[i] == '.' && i + 1 < e && forall k :: i < k < e ==> IsDigit(s[k])
  {
    if i + 1 < |s| && s[i] == '.' && IsDigit(s[i + 1]) then DigitRun(s, i + 1) else i
  }

  /** End of `\d+(?:,\d{3})*(?:\.\d+)?` from a digit at `i`. */
  function DigitsEnd(s: string, i: nat): (e: nat)
    requires i < |s| && IsDigit(s[i])
    ensures i < e <= |s|
  {
    Fraction(s, CommaGroups(s, DigitRun(s, i)))
  }

  /** The end of a match of `[-]?\d+(?:,\d{3})*(?:\.\d+)?` starting exactly at `i`. */
  function NumeralAt(s: string, i: nat): (r: Option<nat>)
    ensures r.Some? ==> i < r.value <= |s|
  {
    if i < |s| && IsDigit(s[i]) then Some(DigitsEnd(s, i))
    else if i + 1 < |s| && s[i] == '-' && IsDigit(s[i + 1]) then Some(DigitsEnd(s, i + 1))
    else None
  }

  /** `re.search` of that numeral from `i`: the leftmost match, as (start, end). */
  function SearchNumeral(s: string, i: nat): (r: Option<(nat, nat)>)
    ensures r.Some? ==> i <= r.value.0 < r.value.1 <= |s| && NumeralAt(s, r.value.0) == Some(r.value.1)
    ensures r.Some? ==> forall k :: i <= k < r.value.0 ==> NumeralAt(s, k).None?
    ensures r.None? ==> forall k :: i <= k < |s| ==> NumeralAt(s, k).None?
    decreases |s| - i
  {
    if i >= |s| then None
    else match NumeralAt(s, i)
      case Some(e) => Some((i, e))
      case None => SearchNumeral(s, i + 1)
  }

  /** The alternatives of the unit group of NUMBER_PATTERN, in the order `re` tries them. */
  const TokenUnits: seq<string> := ["billion", "million", "thousand", "M", "K"]

  /** End of the first of `TokenUnits[k..]` that occurs at `w`, if any. */
  function UnitWordEnd(s: string, w: nat, k: nat): (r: Option<nat>)
    ensures r.Some? ==> w < r.value <= |s|
    decreases |TokenUnits| - k
  {
    if k >= |TokenUnits| then None
    else if OccursAt(s, TokenUnits[k], w) then Some(w + |TokenUnits[k]|)
    else UnitWordEnd(s, w, k + 1)
  }

  /** End of `(?:\s*(?:billion|million|thousand|M|K))?` from `e`. */
  function UnitSuffix(s: string, e: nat): (r: nat)
    requires e <= |s|
    ensures e <= r <= |s|
  {
    match UnitWordEnd(s, e + SpaceRun(s, e), 0)
    case Some(end) => end
    case None => e
  }

  /**
   * The end of a match of NUMBER_PATTERN,
   * `[$]?[-]?\(?\d+(?:,\d{3})*(?:\.\d+)?\)?(?:\s*(?:billion|million|thousand|M|K))?`,
   * starting exactly at `p` (case-sensitive, as `finditer` is called without flags).
   */
  function NumberAt(s: string, p: nat): (r: Option<nat>)
    requires p <= |s|
    ensures r.Some? ==> p < r.value <= |s|
  {
    var c := PrefixEnd(s, p);
    if c < |s| && IsDigit(s[c]) then Some(UnitSuffix(s, CloseParen(s, DigitsEnd(s, c)))) else None
  }

  /** End of `[$]?[-]?\(?` from `p`. */
  function PrefixEnd(s: string, p: nat): (c: nat)
    requires p <= |s|
    ensures p <= c <= |s|
  {
    var a := if p < |s| && s[p] == '$' then p + 1 else p;
    var b := if a < |s| && s[a] == '-' then a + 1 else a;
    if b < |s| && s[b] == '(' then b + 1 else b
  }

  /** End of `\)?` from `d`. */
  function CloseParen(s: string, d: nat): (e: nat)
    requires d <= |s|
    ensures d <= e <= |s|
  {
    if d < |s| && s[d] == ')' then d + 1 else d
  }

  /** One match of NUMBER_PATTERN: `match.start()`, `match.end()`; `match.group()` is `s[start..end]`. */
  datatype Token = Token(start: nat, end: nat)

  /**
   * `re.finditer(NUMBER_PATTERN, s)` from position `p`: the matches, left to
   * right, each one starting at or after the end of the one before.
   */
  function TokensFrom(s: string, p: nat): (ts: seq<Token>)
    requires p <= |s|
    ensures forall k :: 0 <= k < |ts| ==> p <= ts[k].start < ts[k].end <= |s|
    ensures forall k :: 0 <= k < |ts| ==> NumberAt(s, ts[k].start) == Some(ts[k].end)
    ensures Ordered(ts)
    decreases |s| - p
  {
    if p >= |s| then []
    else
      var r := NumberAt(s, p);
      if r.None? then TokensFrom(s, p + 1)
      else
        var rest := TokensFrom(s, r.value);
        ConsOrdered(Token(p, r.value), rest);
        [Token(p, r.value)] + rest
  }

  /** No match of NUMBER_PATTERN starts at a position of `s` in `[lo, hi)`. */
  predicate NoNumberIn(s: string, lo: nat, hi: nat) {
    forall k :: lo <= k < hi && k < |s| ==> NumberAt(s, k).None?
  }

  /**
   * The tokens `ts` found from `p` leave out no match: none starts before the
   * first token, between one token's end and the next one's start, or after
   * the last token.
   */
  predicate TokenGaps(s: string, p: nat, ts: seq<Token>) {
    && (ts == [] ==> NoNumberIn(s, p, |s|))
    && (ts != [] ==> NoNumberIn(s, p, ts[0].start) && NoNumberIn(s, ts[|ts| - 1].end, |s|))
    && forall i :: 0 <= i < |ts| - 1 ==> NoNumberIn(s, ts[i].end, ts[i + 1].start)
  }

  /** `finditer` misses no match of NUMBER_PATTERN. */
  lemma {:induction false} TokensComplete(s: string, p: nat)
    requires p <= |s|
    ensures TokenGaps(s, p, TokensFrom(s, p))
    decreases |s| - p, 1
  {
    if p < |s| {
      if NumberAt(s, p).None? {
        TokensSkipComplete(s, p);
      } else {
        TokensMatchComplete(s, p, NumberAt(s, p).value);
      }
    }
  }

  lemma {:induction false} TokensSkipComplete(s: string, p: nat)
    requires p < |s| && NumberAt(s, p).None?
    ensures TokenGaps(s, p, TokensFrom(s, p))
    decreases |s| - p, 0
  {
    var rest := TokensFrom(s, p + 1);
    assert TokensFrom(s, p) == rest;
    TokensComplete(s, p + 1);
    TokenGapsBack(s, p, rest);
  }

  lemma {:induction false} TokensMatchComplete(s: string, p: nat, e: nat)
    requires p < |s| && NumberAt(s, p) == Some(e)
    ensures TokenGaps(s, p, TokensFrom(s, p))
    decreases |s| - p, 0
  {
    var rest := TokensFrom(s, e);
    assert TokensFrom(s, p) == [Token(p, e)] + rest;
    TokensComplete(s, e);
    TokenGapsCons(s, Token(p, e), rest);
  }

  /** A position where nothing matches widens the first gap by one. */
  lemma TokenGapsBack(s: string, p: nat, ts: seq<Token>)
    requires p < |s| && NumberAt(s, p).None? && TokenGaps(s, p + 1, ts)
    ensures TokenGaps(s, p, ts)
  {
  }

  /** A token in front of a gap-free list ending where that list's search began. */
  lemma TokenGapsCons(s: string, t: Token, rest: seq<Token>)
    requires TokenGaps(s, t.end, rest)
    ensures TokenGaps(s, t.start, [t] + rest)
  {
    var ts := [t] + rest;
    forall i | 0 <= i < |ts| - 1 ensures NoNumberIn(s, ts[i].end, ts[i + 1].start) {
      assert ts[i + 1] == rest[i];
      if i > 0 {
        assert ts[i] == rest[i - 1];
      }
    }
  }

  predicate Ordered(ts: seq<Token>) {
    forall i, j :: 0 <= i < j < |ts| ==> ts[i].end <= ts[j].start
  }

  lemma ConsOrdered(t: Token, rest: seq<Token>)
    requires Ordered(rest)
    requires forall k :: 0 <= k < |rest| ==> t.end <= rest[k].start
    ensures Ordered([t] + rest)
  {
    var ts := [t] + rest;
    forall i, j | 0 <= i < j < |ts| ensures ts[i].end <= ts[j].start {
      assert ts[j] == rest[j - 1];
      if i > 0 {
        assert ts[i] == rest[i - 1];
      }
    }
  }

  function Tokens(s: string): seq<Token> {
    TokensFrom(s, 0)
  }

  /** The starts of the tokens are strictly increasing, so no start is ever seen twice. */
  lemma TokensOrdered(s: string)
    ensures forall i, j :: 0 <= i < j < |Tokens(s)| ==> Tokens(s)[i].start < Tokens(s)[j].start
  {
  }

  /**
   * One piece of the unit-hint patterns: a literal character, an optional
   * character (`s?`, `\$?`), or a whitespace run (`\s+` or `\s*`).
   */
  datatype Piece = Lit(c: char) | Opt(c: char) | Spaces(atLeastOne: bool)

  type Pattern = seq<Piece>

  /** The pattern that matches exactly the characters of `s`. */
  function Lits(s: string): (p: Pattern)
    ensures |p| == |s|
    ensures forall k :: 0 <= k < |s| ==> p[k] == Lit(s[k])
  {
    seq(|s|, k requires 0 <= k < |s| => Lit(s[k]))
  }

  /** The end of a match of `pat` starting exactly at `i` in `s`. */
  function MatchFrom(pat: Pattern, s: string, i: nat): (r: Option<nat>)
    requires i <= |s|
    ensures r.Some? ==> i <= r.value <= |s|
    ensures r.Some? && pat != [] && pat[0].Lit? ==> i < r.value
    decreases pat
  {
    if pat == [] then Some(i)
    else match pat[0]
      case Lit(c) =>
        if i < |s| && s[i] == c then MatchFrom(pat[1..], s, i + 1) else None
      case Opt(c) =>
        if i < |s| && s[i] == c then MatchFrom(pat[1..], s, i + 1) else MatchFrom(pat[1..], s, i)
      case Spaces(atLeastOne) =>
        var n := SpaceRun(s, i);
        if atLeastOne && n == 0 then None else MatchFrom(pat[1..], s, i + n)
  }

  /** `re.search(pat, s)` succeeds. */
  predicate Found(pat: Pattern, s: string) {
    exists p :: 0 <= p <= |s| && MatchFrom(pat, s, p).Some?
  }

  /** Where the search resumes after the match `m`: its end, or one further for an empty match. */
  function After(m: (nat, nat)): nat {
    if m.1 > m.0 then m.1 else m.0 + 1
  }

  /** `pat` matches at no position of `s` in `[lo, hi)`. */
  predicate NoMatchIn(pat: Pattern, s: string, lo: nat, hi: nat) {
    forall k :: lo <= k < hi && k < |s| ==> MatchFrom(pat, s, k).None?
  }

  /**
   * The matches `ms` of `pat` found from `p` leave out none inside the text:
   * no match starts before the first, between one and the next, or after the
   * last.
   */
  predicate MatchGaps(pat: Pattern, s: string, p: nat, ms: seq<(nat, nat)>) {
    && (ms == [] ==> NoMatchIn(pat, s, p, |s|))
    && (ms != [] ==> NoMatchIn(pat, s, p, ms[0].0) && NoMatchIn(pat, s, After(ms[|ms| - 1]), |s|))
    && forall i :: 0 <= i < |ms| - 1 ==> NoMatchIn(pat, s, After(ms[i]), ms[i + 1].0)
  }

  /** `finditer` misses no match of a hint pattern. */
  lemma {:induction false} FindAllComplete(pat: Pattern, s: string, p: nat)
    requires p <= |s|
    ensures MatchGaps(pat, s, p, FindAll(pat, s, p))
    decreases |s| - p, 1
  {
    if p < |s| {
      match MatchFrom(pat, s, p)
      case None =>
        FindAllSkipComplete(pat, s, p);
      case Some(e) =>
        FindAllMatchComplete(pat, s, p, e);
    }
  }

  lemma {:induction false} FindAllSkipComplete(pat: Pattern, s: string, p: nat)
    requires p < |s| && MatchFrom(pat, s, p).None?
    ensures MatchGaps(pat, s, p, FindAll(pat, s, p))
    decreases |s| - p, 0
  {
    var rest := FindAll(pat, s, p + 1);
    FindAllSkip(pat, s, p, rest);
    FindAllComplete(pat, s, p + 1);
    MatchGapsBack(pat, s, p, rest);
  }

  lemma {:induction false} FindAllMatchComplete(pat: Pattern, s: string, p: nat, e: nat)
    requires p < |s| && MatchFrom(pat, s, p) == Some(e)
    ensures MatchGaps(pat, s, p, FindAll(pat, s, p))
    decreases |s| - p, 0
  {
    var q := After((p, e));
    var rest := FindAll(pat, s, q);
    FindAllMatch(pat, s, p, e, rest);
    FindAllComplete(pat, s, q);
    MatchGapsCons(pat, s, (p, e), rest);
  }

  lemma FindAllSkip(pat: Pattern, s: string, p: nat, rest: seq<(nat, nat)>)
    requires p < |s| && MatchFrom(pat, s, p).None? && rest == FindAll(pat, s, p + 1)
    ensures FindAll(pat, s, p) == rest
  {
  }

  lemma FindAllMatch(pat: Pattern, s: string, p: nat, e: nat, rest: seq<(nat, nat)>)
    requires p < |s| && MatchFrom(pat, s, p) == Some(e) && e <= |s| && rest == FindAll(pat, s, After((p, e)))
    ensures FindAll(pat, s, p) == [(p, e)] + rest
  {
  }

  lemma MatchGapsBack(pat: Pattern, s: string, p: nat, ms: seq<(nat, nat)>)
    requires p < |s| && MatchFrom(pat, s, p).None? && MatchGaps(pat, s, p + 1, ms)
    ensures MatchGaps(pat, s, p, ms)
  {
  }

  lemma MatchGapsCons(pat: Pattern, s: string, m: (nat, nat), rest: seq<(nat, nat)>)
    requires MatchGaps(pat, s, After(m), rest)
    ensures MatchGaps(pat, s, m.0, [m] + rest)
  {
    var ms := [m] + rest;
    forall i | 0 <= i < |ms| - 1 ensures NoMatchIn(pat, s, After(ms[i]), ms[i + 1].0) {
      assert ms[i + 1] == rest[i];
      if i > 0 {
        assert ms[i] == rest[i - 1];
      }
    }
  }

  /** `re.finditer(pat, s)` from `p`, as (start, end) pairs. */
  function FindAll(pat: Pattern, s: string, p: nat): (ms: seq<(nat, nat)>)
    requires p <= |s|
    ensures forall k :: 0 <= k < |ms| ==> p <= ms[k].0 <= ms[k].1 <= |s|
    ensures forall k :: 0 <= k < |ms| ==> MatchFrom(pat, s, ms[k].0) == Some(ms[k].1)
    decreases |s| - p
  {
    if p >= |s| then []
    else match MatchFrom(pat, s, p)
      case Some(e) => [(p, e)] + FindAll(pat, s, if e > p then e else p + 1)
      case None => FindAll(pat, s, p + 1)
  }
}
