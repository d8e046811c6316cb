# eyecite citation model in Dafny

This project models the citation data model of eyecite, a library that finds
legal citations in text. The model covers:

- **Reporters and editions.** A reporter series such as "U.S." or "S.W." works
  out at construction whether it is a Supreme Court series. Each of its
  editions, such as "S.W.2d", covers a range of years.
- **Case citations.** A case citation is full ("Adarand Constructors, Inc. v.
  Peña, 515 U.S. 200") or short ("Adarand, 515 U.S., at 241"). It is a record
  that is enriched in place:
  - `GuessEdition` picks the single candidate edition, narrowing by year when
    needed, and rewrites the reporter from it.
  - `GuessCourt` sets the court to "scotus" when a candidate edition belongs
    to a Supreme Court series.
- **Back-references.** "Supra" citations ("Adarand, supra, at 240") and "id."
  citations point back to an earlier citation.
- **Printing and patterns.** The model's short and supra citations print
  themselves as their `__repr__` methods do. The model's full citation prints
  the form `CaseCitation.__repr__` builds (eyecite/models.py:106-123). As the
  source is written, a full citation prints the repr that `@dataclass`
  generates instead (see "## Findings"), and the model states that form too.
  The id citation's printed form is left out (see below). Every kind can
  build the regular-expression text that finds it again in the document.

The modules are:

- `Options`: `Option` and `Result`.
- `Text`: Python's `str.lower`, `in`, `%d` and `" ".join`.
- `Escaping`: Python's `re.escape`, and a reader that undoes it.
- `Reporters`: the `Reporter` class and the `Edition` value.
- `Patterns`: the pattern strings of the four citation kinds. Each comes with
  a parser that reads its fields back.
- `Citations`: the `CaseCitation` class, the supra and id records, printing,
  and the edition and court guesses.
- `Scenarios`: client methods that use the classes through their contracts
  only: a Supreme Court series, an ambiguous abbreviation, and a year that
  picks one of two editions.

Python semantics the model spells out:

- **Truthiness.** An optional string counts as set only when present and
  non-empty. An optional year counts as set only when present and non-zero.
- **`"%s" % None`** prints `None`.
- **Missing fields.** `re.escape` of a missing value raises `TypeError`, and
  so does iterating over the id citation's missing after-tokens. The model
  returns `Err` with the name of the first missing field that raises
  `TypeError`, in the order the source reaches them.
- **The clock.** The clock's year in `Edition.includes_year` is a parameter,
  `currentYear`.

Each pattern builder is paired with its parser. The round-trip lemmas say the
pattern determines every field it was built from. There are two exceptions:

- The volume is inserted unescaped, so the round trip needs a volume without
  "(".
- An id citation with no following tokens and one with a single empty token
  build the same pattern (`IdPatternNoTokensCollision`).

## Model

| member | source | states |
|---|---|---|
| Reporters.NamesSupremeCourt | eyecite/models.py:18-20 | True exactly when the cite type is "federal" and the lower-cased name contains "supreme", or when the lower-cased cite type contains "scotus" |
| Reporters.SupremeCourtTestIgnoresNameCase | eyecite/models.py:19 | Lower-casing the name beforehand does not change the Supreme Court test |
| Reporters.Reporter.constructor | eyecite/models.py:17-22 | Stores short name, name and cite type. `isScotus` is true exactly when it was passed true or the Supreme Court test holds, so a true passed in is never cleared |
| Reporters.Edition.IncludesYear | eyecite/models.py:35-44 | An included year is not later than the current year, not before the start year and not after the end year |
| Reporters.IncludedYearsHaveNoGaps | eyecite/models.py:40-44 | The years an edition includes form an interval |
| Reporters.UndatedEditionIncludesThePast | eyecite/models.py:40-44 | An edition with neither start nor end includes a year exactly when it is not later than the current year |
| Reporters.EditionsIncludingYear | eyecite/models.py:134 | The year filter keeps only editions that include the year, keeps each such edition as many times as it occurred, and never grows the list |
| Reporters.AnyScotusEdition | eyecite/models.py:143-145 | True exactly when some edition's reporter is a Supreme Court series |
| Text.HasSubstring | eyecite/models.py:19-20 | Python's `in` on strings: true exactly when the needle occurs at some position |
| Text.FormatInt | eyecite/models.py:115-117 | `%d`: digits only after an optional leading minus, the minus appears exactly for negative numbers, and there are no leading zeros (a leading "0" only in "0" itself, never right after the minus) |
| Text.FormatIntRoundTrip | eyecite/models.py:115-117 | The printed year reads back as the same integer |
| Escaping.Escape | eyecite/models.py:160-161 | `re.escape` at most doubles the length, is empty only for the empty string, and never starts with "(" |
| Escaping.ReadEscapedRoundTrip | eyecite/models.py:160-161 | Reading escaped text back gives the original string and stops exactly where the escaped text ends |
| Escaping.ReadEscapedIsEscape | eyecite/models.py:160-161 | The reader accepts only what `re.escape` produces: the text it consumes is exactly the escaping of the text it returns, so an unescaped special character such as "." ends the read |
| Escaping.EscapeInjective | eyecite/models.py:160-161 | Different strings escape differently |
| Patterns.FullPatternRoundTrip | eyecite/models.py:157-162 | The full-citation pattern determines the volume, the reporter as found and the page |
| Patterns.ShortPatternRoundTrip | eyecite/models.py:190-196 | The short-citation pattern determines the antecedent guess, the volume, the reporter as found and the page |
| Patterns.SupraPatternRoundTrip | eyecite/models.py:222-234 | The supra pattern determines the antecedent, whether and which volume is present, and whether and which pin page is present |
| Patterns.ParseJoinedRoundTrip | eyecite/models.py:278-283 | Escaped tokens joined by the whitespace group read back as the same tokens, in order |
| Patterns.IdPatternRoundTrip | eyecite/models.py:257-285 | The id pattern determines the id token and the following tokens, in order, unless the only following token is empty |
| Patterns.IdPatternNoTokensCollision | eyecite/models.py:277-280 | No following tokens and a single empty token give the same id pattern |
| Citations.BaseCitationText | eyecite/models.py:103-104 | If neither the volume nor the page contains a space, the base citation reads back as the printed volume, reporter and page |
| Citations.BaseCitationRoundTrip | eyecite/models.py:103-104 | "volume reporter page" splits back into its parts at the first and last spaces, even when the reporter contains spaces |
| Citations.Parenthetical | eyecite/models.py:114-121 | Empty exactly when neither court nor year is set. Otherwise it is wrapped in parentheses, opens with the set court and closes with the set year. With both set it is "(", the court, one space, the year and ")" (the pair sits at position 1 and the length leaves room for nothing else); with one set it is exactly that one in parentheses |
| Citations.FullCitationText | eyecite/models.py:106-123 | The printed full citation starts with the names part ("plaintiff v. defendant ", "defendant " or nothing, depending on which names are set) followed by the base citation, and ends with the base citation, the extra text (" extra" when set), a space and the parenthetical. Its length is the sum of those parts, so nothing else is printed |
| Citations.JoinedNamesAreCaseNames | eyecite/models.py:107-111 | Joining the defendant, then the plaintiff and "v.", in front of the base citation with single spaces gives the names part followed by the base citation |
| Citations.JoinedCitationTextIsFullCitationText | eyecite/models.py:106-123 | The source's sequence of `" ".join` calls (names, then extra when set, then the parenthetical) builds exactly `FullCitationText`, for every combination of set and unset fields |
| Citations.ShortCitationText | eyecite/models.py:181-188 | The printed short citation is "antecedent, ", then the volume, a space and the reporter, then ", at page": it starts and ends so, the text between is exactly "volume reporter", and its length leaves room for nothing else |
| Citations.NarrowedByYear | eyecite/models.py:132-134 | The year filter runs only for several candidates with a set year. It then keeps only candidates that include the year, and each candidate that includes it as often as it occurred; otherwise the candidates are untouched |
| Citations.GuessedEdition | eyecite/models.py:125-139 | The guess is a candidate, taken from the exact editions when there are any, and None when there are no candidates |
| Citations.GuessTakesLoneCandidate | eyecite/models.py:128-139 | A single candidate is always chosen, whatever the year |
| Citations.GuessNeedsYear | eyecite/models.py:132-139 | Several candidates without a set year give no guess |
| Citations.GuessIsUniqueSurvivor | eyecite/models.py:132-139 | A guess among several candidates means the year is set, the guess includes it, occurs once among the candidates, and is the only candidate that includes the year |
| Citations.GuessCommitsToUniqueSurvivor | eyecite/models.py:132-139 | Conversely, when the year is set and exactly one of several candidates includes it, occurring once, that candidate is the guess |
| Citations.GuessNoneWhenNoCandidateIncludesYear | eyecite/models.py:132-139 | Several candidates, a set year and no candidate including it give no guess |
| Citations.DataclassRepr | eyecite/models.py:149-150 | A generated `__repr__` starts with the class name and "(" and ends with ")" |
| Citations.DataclassReprFieldAt | eyecite/models.py:149-150 | In a generated `__repr__` every `name=value` item sits at its place after the class name and "(", in field order, and ", " follows every item but the last |
| Citations.DataclassReprLength | eyecite/models.py:149-150 | A generated `__repr__` is exactly as long as the class name, "(", the items with the separators between them, and ")" |
| Citations.FullReprAsWritten | eyecite/models.py:149-150 | As written, a full citation prints as "FullCaseCitation(" and ends with ")": the generated `__repr__` over its sixteen fields |
| Citations.FullReprAsWrittenListsFields | eyecite/models.py:149-150 | As written, a full citation prints each of its sixteen fields as `name=value`, in field order, after "FullCaseCitation(" |
| Citations.FullReprAsWrittenHidesCitation | eyecite/models.py:149-150 | As written, a full citation never prints as its citation text unless that text starts with "F" (its names, or its volume when no names are set, would have to start with "F") |
| Citations.CaseCitation.constructor | eyecite/models.py:92-98 | Every field is stored as given, except that all editions become the exact editions followed by the variation editions, both in order |
| Citations.CaseCitation.BaseCitation | eyecite/models.py:103-104 | If neither the printed volume nor the page contains a space, the base citation of the current volume, reporter and page reads back as those three |
| Citations.CaseCitation.ToString | eyecite/models.py:106-123 | A full citation prints the names part and its base citation first, and the base citation, extra text, a space and the parenthetical last, with nothing else in its length. A short one prints "antecedent, ", then exactly "volume reporter", then ", at page" |
| Citations.CaseCitation.AsRegex | eyecite/models.py:157-196 | The pattern exists exactly when every escaped field is present. It is built from the reporter as found, and reads back as the citation's fields |
| Citations.CaseCitation.GuessEdition | eyecite/models.py:125-139 | If `GuessedEdition` gives an edition, the method records it, its reporter's short name as the canonical reporter, and its own short name as the reporter. Otherwise those three fields keep their values. Every other field and the pattern are unchanged, and the invariant that all editions are the exact followed by the variation editions is kept |
| Citations.CaseCitation.GuessCourt | eyecite/models.py:141-146 | The court becomes "scotus" exactly when it was unset and some edition is a Supreme Court edition; under the class invariant, that is some exact or variation edition. Otherwise it is unchanged. A set court is never replaced, the edition guess plays no part, and the invariant is kept |
| Citations.FullRegex | eyecite/models.py:157-162 | Fails on a missing reporter-as-found first, then on a missing page. Otherwise the pattern reads back as the volume, reporter found and page |
| Citations.ShortRegex | eyecite/models.py:190-196 | Fails on the first missing field, checked in the order antecedent guess, reporter found, page. Otherwise the pattern reads back as all four fields |
| Citations.SupraCitation.AsRegex | eyecite/models.py:222-234 | Fails exactly when the antecedent guess is missing. Otherwise the pattern has a volume segment exactly when the volume is set and a pin segment exactly when the page is set, reads back as those fields, and ends in the optional-space group |
| Citations.SupraCitation.ToString | eyecite/models.py:218-220 | Prints "antecedent supra" and ends with ", at page"; its length leaves room for nothing between them |
| Citations.IdCitation.AsRegex | eyecite/models.py:257-285 | Fails exactly when there are no after-tokens to iterate. Otherwise the pattern starts with the whitespace group, ends in the optional-space group, and reads back as the id token and the after-tokens |
| Scenarios.UnitedStatesReportsIsSupreme | eyecite/models.py:17-22 | A federal reporter named "United States Supreme Court Reports" is a Supreme Court series |

## Left out

- `CitationBase.matched_text` (eyecite/models.py:54-56): it returns `str(token)`. The model keeps the token as its text.
- `NonopinionCitation` (eyecite/models.py:288-298) has no fields or behaviour of its own.
- `IdCitation.__repr__` (eyecite/models.py:253-255) prints Python's list repr of token objects. That depends on the token classes' generated `__repr__`, which is not part of this model.
- `Token` and its `from_match` family (eyecite/models.py:301-406) are not part of this model. They read `re.Match` objects, and regular-expression matching is not modelled.
- `TokenExtractor` (eyecite/models.py:409-438) is not part of this model. It compiles and runs regular expressions and caches them.
- `ExtractorMatch` (eyecite/models.py:441-448) is not part of this model; it is a bare record.
- The tokenizer, citation extraction and antecedent resolution live outside eyecite/models.py and are not part of this model.
- Regular-expression semantics are not modelled. The patterns are modelled as strings. That a pattern finds its citation is stated only as "the pattern determines its fields" (the parsers in `Patterns`).
- Dataclass-generated `__eq__`, `__hash__` and `frozen` are not modelled. `Reporter` is a class, so two reporters compare by identity in the model, whereas Python compares their fields. No modelled operation compares reporters.
- The `tuple(...)` conversions in `CaseCitation.__post_init__` are not modelled. They exist only for hashing, and Dafny sequences are already immutable values.
- The bare `CaseCitation` kind, whose `as_regex` returns `None` (eyecite/models.py:100-101), is not modelled. A case citation here is either full or short.
- The short citation's antecedent guess is part of its kind and fixed at construction. No modelled operation assigns it.
- `Edition.start` and `end` keep only a calendar date. Only the year is consulted, and `datetime.now()` becomes the `currentYear` parameter.
- `Text.Lower` lower-cases ASCII letters only. Python's `str.lower` also maps other characters, but none of them to a letter of "supreme" or "scotus". The Supreme Court test is therefore the same.
- `Citations.IdCitation.AsRegex`: the after-tokens are modelled as their texts. Escaping a token object that is not a `str` is not modelled.
- `Reporters.EditionsIncludingYear`: the contract states which editions are kept and how often. It does not state that the list comprehension keeps their order. The guess only ever uses a list of length one.
- `Citations.FullReprAsWritten`: the printed value of each of the sixteen fields (Python's `repr` of a string, an integer, `None`, a token, a tuple of editions) is a parameter, not computed. Python's `repr` of those values is not modelled; the lemmas state where each value text sits, not what it is.
- `Citations.FullReprAsWrittenHidesCitation`: the discrepancy is stated only for citation text that does not start with "F". A case name starting with "F" could in principle match the first letter of "FullCaseCitation(", and the lemma does not rule out the rest of a match for such names.
- `Reporters.Edition.IncludesYear`: the contract states only what an included year satisfies. The converse is the definition itself; `UndatedEditionIncludesThePast` and `IncludedYearsHaveNoGaps` state consequences of it.

## Findings

| source | as written | input that shows it | evidently intended | confidence | as-written member | corrected member |
|---|---|---|---|---|---|---|
| eyecite/models.py:149-150 | `@dataclass` on `FullCaseCitation` generates a `__repr__` in that class, because the class defines none of its own. This hides `CaseCitation.__repr__` (eyecite/models.py:106-123), so a full citation prints as `FullCaseCitation(token=..., index=..., ...)` | a full citation with volume "515", reporter "U.S." and page "200" | the case-citation form, "515 U.S. 200 " followed by the parenthetical, as the short, supra and id kinds print their own forms | not executed | Citations.FullReprAsWritten (with Citations.FullReprAsWrittenHidesCitation) | Citations.CaseCitation.ToString |
