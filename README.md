# Budget-number finder: a verified model of `utils/number_parser.py`

The number finder reads the text of one page of a budget document. It pulls
out every figure on the page and scales each figure by the unit the page or
its table declares. Examples of such units are "(dollars in millions)",
"(in thousands)" and "$K". It then picks the largest figure and prints it with
thousands separators.

This project models that core in Dafny:

- `UnitHints` finds the unit hints of a page (`find_unit_hints`).
  - A page-wide "(dollars in millions/thousands)" header wins outright.
  - Otherwise the table headers and bare phrases that sit in a money context
    and name no count are collected.
  - They are stable-sorted by position, and a hint that starts inside the
    span of the previously kept one is dropped.
- `Scanning` holds hand-written scanners for the regular expressions:
  - the hint patterns;
  - `NUMBER_PATTERN`;
  - the fallback numeral of `parse_number`.
- `NumberParsing` turns one matched token into a decimal and a unit
  multiplier (`parse_number`). It covers the inline unit words, the dollar
  sign, parenthesised negatives, the strict decimal parse and the numeral
  fallback.
- `Context` covers the 100-character window around a number
  (`get_number_context`) and the "same table or section" test
  (`contexts_overlap`).
- `Extraction` is the main loop (`extract_numbers_with_local_units`). It skips
  years, keeps counts raw, and scales money by the token's own unit or by the
  first earlier hint whose context overlaps. The loop is a method proved
  against a specification function.
- `Aggregate` covers the maximum (`find_max_number`) and the printed form
  (`format_number`).
- `Decimals` is a model of Python's `Decimal`:
  - a value is `coef * 10^exp`;
  - `Decimal(str)` is modelled for the forms a token can take;
  - `int()` truncates toward zero;
  - multiplication rounds to 28 significant digits, half-even, as the
    default decimal context does.
- `Text` has the string helpers: ASCII lower-casing, `strip`, `split`,
  `replace` and `rstrip`.
- `Wrappers` has `Option`.

Three behaviours of the code worth knowing:

- A token such as "$2024 million" is dropped as a year. The year test runs on
  the parsed number before any scaling or dollar check.
- A page-wide header does not scale a number whose 100-character window holds
  a break marker ("page", "section", ...). The header's context is the whole
  page, so `contexts_overlap` sees the marker in both texts and refuses.
- `number * multiplier` is not of arbitrary precision. It rounds to 28
  significant digits. It is exact whenever the product's coefficient has at
  most 28 digits (`Extraction.ExactScaling`).

## Model

| member | source | states |
|---|---|---|
| `Scanning.TokensFrom` | utils/number_parser.py:27 | every token found is a match of NUMBER_PATTERN at its start, inside the text, and tokens do not overlap |
| `Scanning.TokensComplete` | utils/number_parser.py:263 | no NUMBER_PATTERN match starts before the first token, between two tokens or after the last one, so the scan misses no match |
| `Scanning.TokensOrdered` | utils/number_parser.py:263 | the matches of `re.finditer` start at strictly increasing positions |
| `Scanning.FindAll` | utils/number_parser.py:86 | every (start, end) reported for a hint pattern is a match of that pattern inside the lower-cased text |
| `Scanning.FindAllComplete` | utils/number_parser.py:86 | no match of a hint pattern starts in a gap the scan skipped: before the first match, between the end of one match and the start of the next, or after the last |
| `UnitHints.PatternScales` | utils/number_parser.py:72-121 | every header and other pattern carries 1000, 10^6 or 10^9 |
| `UnitHints.InsertSorted` | utils/number_parser.py:152 | inserting a hint into a list sorted by position keeps it sorted |
| `UnitHints.SortByPos` | utils/number_parser.py:152 | the sorted hints are a permutation of the input and ordered by position |
| `UnitHints.MatchLoop` | utils/number_parser.py:86-111 | the loop over one pattern's matches yields exactly the qualifying hints of those matches, in match order |
| `UnitHints.CollectHints` | utils/number_parser.py:85-111 | the loop over a pattern table yields the hints of every pattern in table order |
| `UnitHints.DropOverlaps` | utils/number_parser.py:153-160 | the filter loop with `last_end = -1` keeps exactly the greedy selection of hints starting after the last kept span |
| `UnitHints.FindUnitHints` | utils/number_parser.py:43-162 | the procedure returns the specified hint list: page header, else sorted and filtered pattern hints |
| `UnitHints.PageHeaderWins` | utils/number_parser.py:56-69 | "(dollars in millions)" gives the single hint (0, 10^6, page); else "(dollars in thousands)" gives (0, 1000, page); else the filtered pattern hints |
| `UnitHints.HintsQualify` | utils/number_parser.py:84-149 | without a page header each hint is a match of one of the patterns at its position with that pattern's multiplier; its context is the ±200-character window; that window names money and no count |
| `UnitHints.HintsSpaced` | utils/number_parser.py:151-162 | each kept hint starts after the previous one's position plus its context length, so positions strictly increase |
| `UnitHints.DroppedHintsCovered` | utils/number_parser.py:151-162 | every candidate hint is either kept or lies within the span of a kept hint |
| `Context.NumberContext` | utils/number_parser.py:210-214 | the window is the slice of the text from max(0, pos-50) to min(len, pos+50), at most 100 characters |
| `Context.ContextsOverlapSymmetric` | utils/number_parser.py:217-245 | the same-section test does not depend on argument order |
| `Context.SharedBreakRefuses` | utils/number_parser.py:226-229 | a break marker that occurs in both lower-cased texts makes the test fail, whatever words they share |
| `Context.SelfOverlap` | utils/number_parser.py:217-245 | a text overlaps itself exactly when it holds no break marker and has a word that is not a stop word |
| `Context.ContextsOverlapIgnoresCase` | utils/number_parser.py:222-223 | lower-casing an argument beforehand does not change the answer |
| `Context.WindowWithBreakMissesText` | utils/number_parser.py:226-229 | a window holding a break marker never overlaps the text it was cut from |
| `NumberParsing.StripUnit` | utils/number_parser.py:176-188 | the unit loop returns the specified stripped string and unit multiplier |
| `NumberParsing.ParseNumber` | utils/number_parser.py:165-207 | the procedure returns the specified parse result |
| `NumberParsing.UnitPriority` | utils/number_parser.py:177-188 | the multiplier is 10^9 iff "billion" follows a digit; 10^6 iff not that but "million"; 1000 iff neither but "thousand"; 1 iff none |
| `NumberParsing.NoUnitWithoutLetters` | utils/number_parser.py:183 | a string with no letters has no unit word |
| `NumberParsing.UnitMultiplierSet` | utils/number_parser.py:176-188 | the unit multiplier is one of 1, 1000, 10^6, 10^9 and is the one reported by a successful parse |
| `NumberParsing.MKSuffixNoMultiplier` | utils/number_parser.py:177-188 | a token whose only letters are the M/K suffixes of NUMBER_PATTERN gets multiplier 1 and is parsed unchanged |
| `NumberParsing.ParsePlain` | utils/number_parser.py:191-201 | an optional `$`, an optional `-` and a comma-grouped numeral parse to the signed value of its digits with the fraction length as scale, multiplier 1 |
| `NumberParsing.ParseParenthesized` | utils/number_parser.py:194-197 | `(numeral)`, with or without `$`, parses to the negated value |
| `NumberParsing.UnitSplitKeepsDigit` | utils/number_parser.py:186-187 | removing a unit word never removes a digit |
| `NumberParsing.ParseSucceedsWithDigit` | utils/number_parser.py:199-207 | any string holding a digit parses (strictly or by the numeral fallback), so ValueError needs a digit-free string |
| `NumberParsing.TokenParses` | utils/number_parser.py:263-272 | every NUMBER_PATTERN match parses, so the `except ValueError` branch of the loop is never taken |
| `Decimals.DecimalParseNumeral` | utils/number_parser.py:200 | `Decimal` of a signed numeral is the signed value of its digits with the fraction length as negative exponent |
| `Decimals.DecimalParseRejectsLetter` | utils/number_parser.py:199-202 | the modelled `Decimal(str)` (no exponents, NaN or infinities; see Left out) fails on a string containing a letter, which sends it to the fallback |
| `Decimals.DecimalParseNeedsDigit` | utils/number_parser.py:199-202 | a string the modelled `Decimal(str)` accepts holds a digit (real `Decimal` also takes "NaN" and "Infinity"; see Left out) |
| `Decimals.MulExact` | utils/number_parser.py:324 | a product whose coefficient has at most 28 digits is not rounded |
| `Extraction.YearByValue` | utils/number_parser.py:30-40 | `is_year(int(number))` holds exactly when 1900 <= number < 2101 |
| `Extraction.ExtractNumbers` | utils/number_parser.py:248-335 | the procedure returns the values emitted for the page's tokens with the page's hints |
| `Extraction.NumberLoop` | utils/number_parser.py:259-335 | the loop over the matches returns exactly the specified emitted values |
| `Extraction.EmitToken` | utils/number_parser.py:263-330 | one loop step skips a processed start, and otherwise appends the token's outcome and records its start |
| `Extraction.ProcessToken` | utils/number_parser.py:271-327 | the body for one match computes the token's specified outcome |
| `Extraction.FirstHintMultiplier` | utils/number_parser.py:310-314 | the hint loop returns the multiplier of the first hint at or before the token whose context overlaps, else 1 |
| `Extraction.ContextMultiplierFirst` | utils/number_parser.py:309-314 | if hint j applies and no earlier hint does, the context multiplier is hint j's |
| `Extraction.ContextMultiplierNone` | utils/number_parser.py:310-314 | if no hint applies the context multiplier is 1 |
| `Extraction.ContextMultiplierFrom` | utils/number_parser.py:309-314 | the context multiplier is 1 or the multiplier of some hint |
| `Extraction.HintMultipliers` | utils/number_parser.py:43-162 | every hint of a page carries 1000, 10^6 or 10^9 |
| `Extraction.ContextMultiplierSet` | utils/number_parser.py:309-321 | with such hints the context multiplier is 1 or a scale |
| `Extraction.TokensAreMatches` | utils/number_parser.py:263 | every token of the page is a NUMBER_PATTERN match |
| `Extraction.YearSkipped` | utils/number_parser.py:271-274 | a match always parses, and it contributes nothing exactly when its truncated value is a year |
| `Extraction.CountUnscaled` | utils/number_parser.py:290-293 | a non-year in a window naming a count contributes its raw parsed value |
| `Extraction.MultiplierRule` | utils/number_parser.py:296-327 | for a parsed non-year outside a count window: when the token has a `$`, the window names money or the inline unit exceeds 1, the value is the number times the inline unit if above 1, else times the context multiplier; otherwise it is the raw number; the multiplier is 1 or a scale |
| `Extraction.ExactScaling` | utils/number_parser.py:324 | with a coefficient product below 10^28 the scaled value is exactly number × multiplier |
| `Extraction.PageHeaderNeedsNoBreak` | utils/number_parser.py:311-312 | under a page-wide header a number whose window holds a break marker gets context multiplier 1 |
| `Extraction.CapitalCostNeverMatches` | utils/number_parser.py:296-306 | the indicator "Cost" never occurs in lower-cased text, so it adds nothing to "cost" |
| `Extraction.OneValuePerStart` | utils/number_parser.py:261-269 | each returned value comes from a distinct token start, the starts strictly increase, and the list holds one value per emitted start |
| `Extraction.EmitNoSkip` | utils/number_parser.py:261-269 | over strictly increasing starts with none yet processed, the values emitted are exactly the present outcomes, in token order |
| `Extraction.ExtractComplete` | utils/number_parser.py:259-335 | the returned list is exactly the outcomes of all the page's tokens that contribute, in order, with none dropped by `processed_positions` |
| `Extraction.OutcomeExtracted` | utils/number_parser.py:263-330 | every token that contributes a value has that value in the returned list |
| `Aggregate.MaxOf` | utils/number_parser.py:350 | `max` returns an element no smaller than any other, the first such in list order |
| `Aggregate.FindMaxNumber` | utils/number_parser.py:338-350 | the empty list gives 0; otherwise the result is an element of the list and at least every element |
| `Aggregate.FindMaxOrderFree` | utils/number_parser.py:338-350 | reordering the numbers does not change the maximum's value |
| `Aggregate.GroupValue` | utils/number_parser.py:363 | the comma-grouped integer is a digit string after removing commas and denotes the same number |
| `Aggregate.PlainParts` | utils/number_parser.py:355 | the `:f` rendering has sign, a non-empty whole part and exactly -exp fraction digits |
| `Aggregate.FormatShape` | utils/number_parser.py:353-366 | the corrected output is sign, grouped whole part, then the fraction with trailing zeros (and a bare point) dropped |
| `Aggregate.FormatAsWrittenShape` | utils/number_parser.py:353-366 | the output as written is `int()` of the signed whole part grouped, then the trimmed fraction |
| `Aggregate.FormatParsed` | utils/number_parser.py:353-366 | removing commas from the corrected output and parsing it gives the decimal of its digits |
| `Aggregate.FormatValue` | utils/number_parser.py:353-366 | that decimal has the value of the input |
| `Aggregate.FormatRoundTrip` | utils/number_parser.py:353-366 | the corrected output, without commas, parses back to the input's value |
| `Aggregate.FormatByValue` | utils/number_parser.py:353-366 | two decimals of equal value (such as 1.50 and 1.5) get the same corrected output |
| `Aggregate.FormatIdempotent` | utils/number_parser.py:353-366 | the corrected output, without commas, parses, and formatting the parsed decimal gives the same output again |
| `Aggregate.SignLostMeaning` | utils/number_parser.py:363 | the integer part is "-0" exactly when the value lies strictly between -1 and 0 |
| `Aggregate.FormatAgreement` | utils/number_parser.py:353-366 | the output as written equals the corrected one except on (-1, 0), where it lacks the leading minus |
| `Aggregate.FormatDropsSign` | utils/number_parser.py:363 | on (-1, 0) the output as written starts with "0", is the corrected output without its "-", and parses back to the negated value |
| `Aggregate.FormatAsWrittenIdempotent` | utils/number_parser.py:353-366 | the output as written, without commas, parses, and formatting the parsed decimal as written gives the same output again, also on (-1, 0) where the sign is dropped |
| `Aggregate.AsWrittenRoundTrip` | utils/number_parser.py:363 | when the sign is lost the output as written parses back to minus the input's value |

## Left out

- PDF text extraction, the web API, the user interface and the file handling around the parser are not part of this model.
- The regular-expression engine is left out. Each pattern used is a fixed scanner, and every optional piece in these patterns is followed by something it cannot consume, so these scanners give the same matches as leftmost-greedy backtracking.
- Case-insensitive matching and `str.lower()` are modelled on ASCII letters only; Unicode case folding is left out. Digits (`\d`) are ASCII digits; whitespace is the full set Python's `str.split`/`strip` use.
- `Decimal(str)` is modelled for an optional sign, digits and an optional point. Exponents ("1E5"), NaN, infinities and underscores are left out: no NUMBER_PATTERN match and no fallback numeral can contain them. `Decimals.DecimalParseRejectsLetter` and `Decimals.DecimalParseNeedsDigit` hold for this modelled parse, not for `Decimal(str)` on arbitrary strings.
- Negative zero is not representable. Every result the core produces reads the same for it (its maximum, its year test and its printed form).
- The `raise ValueError` branch of `parse_number` is the `MalformedNumber` result. `NumberParsing.TokenParses` shows the main loop never reaches it.
- `processed_positions` is modelled as written. `Extraction.ExtractComplete` shows it never skips a match, because match starts strictly increase.
- `UnitHints.SortByPos`: stability (equal positions keep their discovery order) holds by construction of the insertion, which puts a hint before the first hint at an equal or later position. No separate lemma states it.
- The unused module-level `UNIT_PATTERNS` table and the unused `ROUND_HALF_UP` import are not modelled.

## Findings

| source | as written | input that shows it | evidently intended | confidence | as-written member | corrected member |
|---|---|---|---|---|---|---|
| utils/number_parser.py:363 | `int(parts[0])` turns the whole part "-0" into 0, so the minus sign of any value strictly between -1 and 0 is dropped | `format_number(Decimal("-0.5"))` gives "0.5" | "-0.5": the output should parse back to the input's value | not executed | `Aggregate.FormatDropsSign` | `Aggregate.FormatRoundTrip` |
