/**
 * The text window around a number and the "same table or section" test that
 * decides whether a unit hint applies to it (`get_number_context`,
 * `contexts_overlap`).
 */
module Context {
  import opened Text

  /** Characters kept on each side of a number. */
  const Radius: nat := 50

  /** `max(0, pos - 50)`. */
  function WindowStart(pos: nat): nat {
    if pos >= Radius then pos - Radius else 0
  }

  /**
   * `get_number_context(text, pos)`: the characters of `text` whose index
   * lies in `[pos - 50, pos + 50)`.
   */
  function NumberContext(text: string, pos: nat): (c: string)
    ensures |c| <= 2 * Radius
    ensures c != [] ==> WindowStart(pos) + |c| <= |text| && c == text[WindowStart(pos)..WindowStart(pos) + |c|]
    ensures WindowStart(pos) <= |text| ==> WindowStart(pos) + |c| == |text| || WindowStart(pos) + |c| == pos + Radius
    ensures |c| > 0 ==> WindowStart(pos) + |c| <= pos + Radius
  {
    var start := WindowStart(pos);
    var end := if pos + Radius <= |text| then pos + Radius else |text|;
    if start <= end then text[start..end] else []
  }

  /** The markers of a major section break, looked for in lower-cased text. */
  const BreakMarkers: seq<string> := ["\n\n\n", "page", "chapter", "section"]

  /** Words that say nothing about which table a text belongs to. */
  const StopWords: set<string> := {
    "the", "and", "or", "in", "on", "at", "to", "of", "for", "with", "by",
    "from", "as", "is", "are", "was", "were", "be", "been", "being"
  }

  /** Some break marker occurs in both lower-cased texts. */
  predicate BreakInBoth(l1: string, l2: string) {
    exists k :: 0 <= k < |BreakMarkers| && Contains(l1, BreakMarkers[k]) && Contains(l2, BreakMarkers[k])
  }

  /** `set(c.lower().split()) - common_words`. */
  function Words(c: string): set<string> {
    (set w | w in SplitWords(Lower(c))) - StopWords
  }

  /**
   * `contexts_overlap(c1, c2)`: no break marker occurs in both, and the two
   * share a word that is not a stop word.
   */
  function ContextsOverlap(c1: string, c2: string): bool {
    !BreakInBoth(Lower(c1), Lower(c2)) && Words(c1) * Words(c2) != {}
  }

  /** The test does not depend on the order of its arguments. */
  lemma ContextsOverlapSymmetric(c1: string, c2: string)
    ensures ContextsOverlap(c1, c2) == ContextsOverlap(c2, c1)
  {
    assert BreakInBoth(Lower(c1), Lower(c2)) == BreakInBoth(Lower(c2), Lower(c1));
    assert Words(c1) * Words(c2) == Words(c2) * Words(c1);
  }

  /** A break marker found in both texts refuses the overlap, whatever words they share. */
  lemma SharedBreakRefuses(c1: string, c2: string, k: nat)
    requires k < |BreakMarkers|
    requires Contains(Lower(c1), BreakMarkers[k]) && Contains(Lower(c2), BreakMarkers[k])
    ensures !ContextsOverlap(c1, c2)
  {
  }

  /**
   * A text overlaps itself exactly when it holds no break marker and some
   * word of it is not a stop word.
   */
  lemma SelfOverlap(c: string)
    ensures ContextsOverlap(c, c) <==>
      (forall k :: 0 <= k < |BreakMarkers| ==> !Contains(Lower(c), BreakMarkers[k]))
      && (exists w :: w in SplitWords(Lower(c)) && w !in StopWords)
  {
    if w :| w in SplitWords(Lower(c)) && w !in StopWords {
      assert w in Words(c) * Words(c);
    }
    if Words(c) * Words(c) != {} {
      var w :| w in Words(c) * Words(c);
      assert w in SplitWords(Lower(c)) && w !in StopWords;
    }
  }

  /** The test lower-cases both texts itself, so lower-casing one beforehand changes nothing. */
  lemma ContextsOverlapIgnoresCase(c1: string, c2: string)
    ensures ContextsOverlap(Lower(c1), c2) == ContextsOverlap(c1, c2)
  {
    LowerTwice(c1);
  }

  /**
   * A window that holds a break marker never overlaps the whole text it was
   * cut from: the marker is in the text too.
   */
  lemma WindowWithBreakMissesText(text: string, pos: nat, k: nat)
    requires k < |BreakMarkers| && Contains(Lower(NumberContext(text, pos)), BreakMarkers[k])
    ensures !ContextsOverlap(NumberContext(text, pos), text)
  {
    var c := NumberContext(text, pos);
    var s := WindowStart(pos);
    LowerSlice(text, s, s + |c|);
    ContainsInSlice(Lower(text), s, s + |c|, BreakMarkers[k]);
    assert BreakInBoth(Lower(c), Lower(text));
  }
}
