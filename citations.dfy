/** Citations found in a document: case citations (full and short), which
    are enriched in place by edition and court guessing, and the supra and
    id back-references. Full, short and supra citations can print
    themselves, and every kind can build the pattern that finds it again in
    the text. */
module Citations {
  import opened Options
  import opened Text
  import opened Escaping
  import opened Reporters
  import opened Patterns

  /** `"%s" % x` for an optional string: Python prints `None` for a missing value. */
  function Show(s: Option<string>): string
  {
    if s.Some? then s.value else "None"
  }

  /** Python truthiness of an optional string: present and not empty. */
  predicate IsSet(s: Option<string>)
  {
    s.Some? && s.value != ""
  }

  /** Python truthiness of an optional year: present and not zero. */
  predicate IsSetYear(y: Option<int>)
  {
    y.Some? && y.value != 0
  }

  // ------------------------------------------------------ base citation

  datatype BaseParts = BaseParts(volume: string, reporter: string, page: string)

  /** `"%s %s %s" % (volume, reporter, page)`. */
  function BaseCitationText(volume: Option<string>, reporter: string, page: Option<string>): (r: string)
    ensures IsPrefix(Show(volume) + " ", r)
    ensures ' ' !in Show(volume) && ' ' !in Show(page)
            ==> ParseBaseCitation(r) == Some(BaseParts(Show(volume), reporter, Show(page)))
  {
    var r := Show(volume) + " " + reporter + " " + Show(page);
    assert r[..|Show(volume)| + 1] == Show(volume) + " ";
    if ' ' !in Show(volume) && ' ' !in Show(page) then
      BaseCitationRoundTrip(Show(volume), reporter, Show(page));
      r
    else
      r
  }

  /** Reads a base citation back: the volume is the text before the first
      space, the page the text after the last one, the reporter (which may
      itself contain spaces) what lies between. */
  function ParseBaseCitation(s: string): Option<BaseParts>
  {
    var (volume, r1) := TakeUntil(s, ' ');
    var r2 :- Strip(" ", r1);
    var (reporter, page) :- SplitAtLast(r2, ' ');
    Some(BaseParts(volume, reporter, page))
  }

  lemma {:induction false} BaseCitationRoundTrip(volume: string, reporter: string, page: string)
    requires ' ' !in volume && ' ' !in page
    ensures ParseBaseCitation(volume + " " + reporter + " " + page) == Some(BaseParts(volume, reporter, page))
  {
    var tail := reporter + " " + page;
    assert volume + " " + reporter + " " + page == volume + (" " + tail);
    TakeUntilRoundTrip(volume, ' ', " " + tail);
    StripPrefix(" ", tail);
    SplitAtLastRoundTrip(reporter, ' ', page);
  }

  // ------------------------------------------------------ parenthetical

  /** The parenthetical a case citation prints: `(court year)`, `(year)`,
      `(court)` or nothing, by which of court and year are set. */
  function Parenthetical(court: Option<string>, year: Option<int>): (r: string)
    ensures r == "" <==> !IsSet(court) && !IsSetYear(year)
    ensures r != "" ==> r[0] == '(' && r[|r| - 1] == ')'
    ensures IsSet(court) ==> IsPrefix("(" + court.value, r)
    ensures IsSetYear(year) ==> IsSuffix(FormatInt(year.value) + ")", r)
    ensures IsSet(court) && IsSetYear(year) ==> Contains(r, court.value + " " + FormatInt(year.value))
    ensures IsSet(court) && IsSetYear(year) ==> OccursAt(r, court.value + " " + FormatInt(year.value), 1)
    ensures IsSet(court) && IsSetYear(year) ==> |r| == |court.value| + |FormatInt(year.value)| + 3
    ensures !IsSet(court) && IsSetYear(year) ==> |r| == |FormatInt(year.value)| + 2
    ensures IsSet(court) && !IsSetYear(year) ==> |r| == |court.value| + 2
  {
    if IsSet(court) && IsSetYear(year) then
      var r := "(" + court.value + " " + FormatInt(year.value) + ")";
      assert r[..|"(" + court.value|] == "(" + court.value;
      assert r[|r| - |FormatInt(year.value) + ")"|..] == FormatInt(year.value) + ")";
      assert OccursAt(r, court.value + " " + FormatInt(year.value), 1);
      r
    else if IsSetYear(year) then
      var r := "(" + FormatInt(year.value) + ")";
      assert r[1..] == FormatInt(year.value) + ")";
      r
    else if IsSet(court) then
      var r := "(" + court.value + ")";
      assert r[..|"(" + court.value|] == "(" + court.value;
      r
    else
      ""
  }

  // ------------------------------------------- editions and disambiguation

  /** `exact_editions or variation_editions`: the exact matches when there
      are any, otherwise the variations. */
  function Candidates(exact: seq<Edition>, variation: seq<Edition>): seq<Edition>
  {
    if exact != [] then exact else variation
  }

  /** The candidates after the year filter, which runs only when there are
      several candidates and the year is set. The filter keeps exactly the
      candidates that include the year, each as often as it occurred. */
  function NarrowedByYear(editions: seq<Edition>, year: Option<int>, currentYear: int): (r: seq<Edition>)
    ensures |editions| > 1 && IsSetYear(year)
            ==> (forall e :: e in r ==> e in editions && e.IncludesYear(year.value, currentYear))
                && (forall e :: e in editions && e.IncludesYear(year.value, currentYear)
                      ==> multiset(r)[e] == multiset(editions)[e])
    ensures !(|editions| > 1 && IsSetYear(year)) ==> r == editions
  {
    if |editions| > 1 && IsSetYear(year) then
      EditionsIncludingYear(editions, year.value, currentYear)
    else
      editions
  }

  /** A sequence whose every element is `e` holds `e` as often as it is long. */
  lemma {:induction false} AllEqualCount(s: seq<Edition>, e: Edition)
    requires forall f :: f in s ==> f == e
    ensures multiset(s)[e] == |s|
  {
    if s != [] {
      assert s[0] in s;
      assert s == [s[0]] + s[1..];
      assert forall f :: f in s[1..] ==> f in s;
      AllEqualCount(s[1..], e);
    }
  }

  /** The edition `guess_edition` commits to, if any: the candidates are
      narrowed by year only when there are several and the year is set, and
      a guess is made only when exactly one edition remains. */
  function GuessedEdition(exact: seq<Edition>, variation: seq<Edition>, year: Option<int>, currentYear: int)
    : (r: Option<Edition>)
    ensures r.Some? ==> r.value in Candidates(exact, variation)
    ensures r.Some? && exact != [] ==> r.value in exact
    ensures exact == [] && variation == [] ==> r.None?
  {
    var editions := Candidates(exact, variation);
    if editions == [] then
      None
    else
      var narrowed := NarrowedByYear(editions, year, currentYear);
      if |narrowed| == 1 then
        assert narrowed[0] in narrowed;
        Some(narrowed[0])
      else
        None
  }

  /** A lone candidate is committed to, whether or not it includes the year. */
  lemma GuessTakesLoneCandidate(exact: seq<Edition>, variation: seq<Edition>, year: Option<int>, currentYear: int)
    requires |Candidates(exact, variation)| == 1
    ensures GuessedEdition(exact, variation, year, currentYear) == Some(Candidates(exact, variation)[0])
  {
  }

  /** Several candidates and no year: no guess. */
  lemma GuessNeedsYear(exact: seq<Edition>, variation: seq<Edition>, year: Option<int>, currentYear: int)
    requires |Candidates(exact, variation)| > 1 && !IsSetYear(year)
    ensures GuessedEdition(exact, variation, year, currentYear).None?
  {
  }

  /** A guess among several candidates is the one candidate that includes
      the year, and it occurs once among them. */
  lemma GuessIsUniqueSurvivor(exact: seq<Edition>, variation: seq<Edition>, year: Option<int>, currentYear: int)
    requires |Candidates(exact, variation)| > 1
    requires GuessedEdition(exact, variation, year, currentYear).Some?
    ensures var g := GuessedEdition(exact, variation, year, currentYear).value;
            && IsSetYear(year) && g.IncludesYear(year.value, currentYear)
            && multiset(Candidates(exact, variation))[g] == 1
            && forall e :: e in Candidates(exact, variation) && e.IncludesYear(year.value, currentYear) ==> e == g
  {
    var narrowed := NarrowedByYear(Candidates(exact, variation), year, currentYear);
    assert |narrowed| == 1;
    assert narrowed[0] in narrowed;
    assert forall e :: e in narrowed ==> e == narrowed[0];
    assert multiset(narrowed)[narrowed[0]] == 1;
  }

  /** Conversely, several candidates and a set year commit to the candidate
      that occurs once and is the only one including the year. */
  lemma GuessCommitsToUniqueSurvivor(exact: seq<Edition>, variation: seq<Edition>, year: Option<int>,
                                     currentYear: int, e: Edition)
    requires |Candidates(exact, variation)| > 1 && IsSetYear(year)
    requires e in Candidates(exact, variation) && multiset(Candidates(exact, variation))[e] == 1
    requires e.IncludesYear(year.value, currentYear)
    requires forall f :: f in Candidates(exact, variation) && f.IncludesYear(year.value, currentYear) ==> f == e
    ensures GuessedEdition(exact, variation, year, currentYear) == Some(e)
  {
    var narrowed := NarrowedByYear(Candidates(exact, variation), year, currentYear);
    AllEqualCount(narrowed, e);
    assert narrowed[0] in narrowed;
  }

  /** Several candidates, none of which includes the set year: no guess. */
  lemma GuessNoneWhenNoCandidateIncludesYear(exact: seq<Edition>, variation: seq<Edition>, year: Option<int>,
                                             currentYear: int)
    requires |Candidates(exact, variation)| > 1 && IsSetYear(year)
    requires forall e :: e in Candidates(exact, variation) ==> !e.IncludesYear(year.value, currentYear)
    ensures GuessedEdition(exact, variation, year, currentYear).None?
  {
    var narrowed := NarrowedByYear(Candidates(exact, variation), year, currentYear);
    assert forall i :: 0 <= i < |narrowed| ==> narrowed[i] in narrowed;
  }

  /** The names a full citation prints before its base citation: nothing
      without a defendant, else the defendant, preceded by the plaintiff and
      "v." when a plaintiff is set too; a space follows. */
  function CaseNames(plaintiff: Option<string>, defendant: Option<string>): string
  {
    if !IsSet(defendant) then ""
    else if IsSet(plaintiff) then plaintiff.value + " v. " + defendant.value + " "
    else defendant.value + " "
  }

  /** The extra text a full citation prints after its base citation,
      with its separating space, or nothing. */
  function ExtraText(extra: Option<string>): string
  {
    if IsSet(extra) then " " + extra.value else ""
  }

  /** The printed form of a full citation: the names, the base citation,
      the extra text and a space with the parenthetical after it. An empty
      parenthetical still leaves its separating space at the end. */
  function FullCitationText(plaintiff: Option<string>, defendant: Option<string>, base: string,
                            extra: Option<string>, paren: string): (r: string)
    ensures IsPrefix(CaseNames(plaintiff, defendant) + base, r)
    ensures IsSuffix(base + ExtraText(extra) + " " + paren, r)
    ensures |r| == |CaseNames(plaintiff, defendant)| + |base| + |ExtraText(extra)| + 1 + |paren|
    ensures Contains(r, base)
  {
    var names := CaseNames(plaintiff, defendant);
    var r := names + base + ExtraText(extra) + " " + paren;
    assert r[..|names + base|] == names + base;
    assert r[|names|..] == base + ExtraText(extra) + " " + paren;
    assert r[|names|..|names| + |base|] == base;
    assert OccursAt(r, base, |names|);
    r
  }

  /** The first steps of the case-citation `__repr__`: the defendant joined
      in front of the base citation, then the plaintiff and "v." joined in
      front of that, each only when set, and the plaintiff only with a
      defendant. */
  function JoinedNames(plaintiff: Option<string>, defendant: Option<string>, base: string): string
  {
    if IsSet(defendant) then
      var named := Join(" ", [defendant.value, base]);
      if IsSet(plaintiff) then Join(" ", [plaintiff.value, "v.", named]) else named
    else
      base
  }

  /** The case-citation `__repr__` as the source builds it: the names, then
      the extra text (when set) and the parenthetical joined behind, each
      join with a single space. */
  function JoinedCitationText(plaintiff: Option<string>, defendant: Option<string>, base: string,
                              extra: Option<string>, paren: string): string
  {
    var titled := JoinedNames(plaintiff, defendant, base);
    var extended := if IsSet(extra) then Join(" ", [titled, extra.value]) else titled;
    Join(" ", [extended, paren])
  }

  lemma JoinedNamesAreCaseNames(plaintiff: Option<string>, defendant: Option<string>, base: string)
    ensures JoinedNames(plaintiff, defendant, base) == CaseNames(plaintiff, defendant) + base
  {
    if IsSet(defendant) {
      var named := Join(" ", [defendant.value, base]);
      JoinPair(" ", defendant.value, base);
      if IsSet(plaintiff) {
        JoinTriple(" ", plaintiff.value, "v.", named);
        assert plaintiff.value + " " + "v." + " " + named
            == plaintiff.value + " v. " + defendant.value + " " + base;
      }
    }
  }

  /** Building the printed form by successive joins gives `FullCitationText`. */
  lemma JoinedCitationTextIsFullCitationText(plaintiff: Option<string>, defendant: Option<string>, base: string,
                                             extra: Option<string>, paren: string)
    ensures JoinedCitationText(plaintiff, defendant, base, extra, paren)
            == FullCitationText(plaintiff, defendant, base, extra, paren)
  {
    var titled := JoinedNames(plaintiff, defendant, base);
    JoinedNamesAreCaseNames(plaintiff, defendant, base);
    var extended := if IsSet(extra) then Join(" ", [titled, extra.value]) else titled;
    if IsSet(extra) {
      JoinPair(" ", titled, extra.value);
    }
    assert extended == titled + ExtraText(extra);
    JoinPair(" ", extended, paren);
  }

  /** The fields of a full citation, in the order `@dataclass` lists them. */
  const FullCaseCitationFields: seq<string> := [
    "token", "index", "reporter", "page", "volume", "canonical_reporter", "extra",
    "defendant", "plaintiff", "court", "year", "reporter_found", "exact_editions",
    "variation_editions", "all_editions", "edition_guess"]

  /** `name=value` for every field, in order. */
  function FieldItems(names: seq<string>, valueReprs: seq<string>): (r: seq<string>)
    requires |names| == |valueReprs|
    ensures |r| == |valueReprs|
  {
    seq(|valueReprs|, i requires 0 <= i < |valueReprs| => names[i] + "=" + valueReprs[i])
  }

  /** `name=value` for one field. */
  lemma FieldItemAt(names: seq<string>, valueReprs: seq<string>, i: nat)
    requires |names| == |valueReprs| && i < |valueReprs|
    ensures FieldItems(names, valueReprs)[i] == names[i] + "=" + valueReprs[i]
  {
  }

  /** The `__repr__` that `@dataclass` generates: the class name and "(",
      then the `name=value` items in field order, separated by ", ", then
      ")". */
  function DataclassRepr(className: string, items: seq<string>): (r: string)
    ensures IsPrefix(className + "(", r) && IsSuffix(")", r)
  {
    var head := className + "(";
    var r := head + (Join(", ", items) + ")");
    assert r[..|head|] == head;
    assert r[|r| - 1..] == ")";
    r
  }

  /** In a generated repr, the `i`-th item sits at its place after the class
      name and "(", in field order, and ", " follows it unless it is the
      last. */
  lemma DataclassReprFieldAt(className: string, items: seq<string>, i: nat)
    requires i < |items|
    ensures OccursAt(DataclassRepr(className, items), items[i], |className + "("| + JoinOffset(", ", items, i))
    ensures i < |items| - 1
            ==> OccursAt(DataclassRepr(className, items), ", ",
                         |className + "("| + (JoinOffset(", ", items, i) + |items[i]|))
  {
    JoinPartWithin(className + "(", ", ", items, ")", i);
  }

  /** A generated repr holds nothing besides the class name, "(", the items
      with their separators, and ")". */
  lemma DataclassReprLength(className: string, items: seq<string>)
    requires items != []
    ensures |DataclassRepr(className, items)| == |className| + 1 + JoinOffset(", ", items, |items|) - |", "| + |")"|
  {
    JoinLength(", ", items);
  }

  const ReprHead: string := "FullCaseCitation("

  /** What a full citation prints as the source is written: `@dataclass`
      gives the full-citation class its own generated `__repr__`
      (`DataclassRepr` over its sixteen fields), which hides the citation
      text the case-citation `__repr__` builds. */
  function FullReprAsWritten(valueReprs: seq<string>): (r: string)
    requires |valueReprs| == |FullCaseCitationFields|
    ensures IsPrefix(ReprHead, r) && IsSuffix(")", r)
  {
    DataclassRepr("FullCaseCitation", FieldItems(FullCaseCitationFields, valueReprs))
  }

  /** As written, a full citation prints every field as `name=value`, in
      field order, each at its place after "FullCaseCitation(". */
  lemma FullReprAsWrittenListsFields(valueReprs: seq<string>, i: nat)
    requires |valueReprs| == |FullCaseCitationFields| && i < |valueReprs|
    ensures OccursAt(FullReprAsWritten(valueReprs), FullCaseCitationFields[i] + "=" + valueReprs[i],
                     |ReprHead| + JoinOffset(", ", FieldItems(FullCaseCitationFields, valueReprs), i))
  {
    var items := FieldItems(FullCaseCitationFields, valueReprs);
    FieldItemAt(FullCaseCitationFields, valueReprs, i);
    DataclassReprFieldAt("FullCaseCitation", items, i);
    assert |"FullCaseCitation" + "("| == |ReprHead|;
  }

  /** As written, a full citation never prints as its citation text, unless
      that text begins with "F": as its names, or else its printed volume,
      would have to. */
  lemma FullReprAsWrittenHidesCitation(valueReprs: seq<string>, plaintiff: Option<string>,
                                       defendant: Option<string>, volume: Option<string>, reporter: string,
                                       page: Option<string>, extra: Option<string>,
                                       court: Option<string>, year: Option<int>)
    requires |valueReprs| == |FullCaseCitationFields|
    requires !IsPrefix("F", CaseNames(plaintiff, defendant) + Show(volume))
    ensures FullReprAsWritten(valueReprs)
            != FullCitationText(plaintiff, defendant, BaseCitationText(volume, reporter, page), extra,
                                Parenthetical(court, year))
  {
    var asWritten := FullReprAsWritten(valueReprs);
    var names := CaseNames(plaintiff, defendant);
    var base := BaseCitationText(volume, reporter, page);
    var intended := FullCitationText(plaintiff, defendant, base, extra, Parenthetical(court, year));
    assert asWritten[0] == 'F';
    assert intended[..|names + base|] == names + base;
    if names != [] {
      assert intended[0] == names[0];
      assert (names + Show(volume))[0] == names[0];
    } else if Show(volume) != [] {
      assert intended[0] == base[0] == Show(volume)[0];
    } else {
      assert intended[0] == base[0] == ' ';
    }
  }

  /** The printed form of a short citation: `antecedent, volume reporter, at page`. */
  function ShortCitationText(antecedentGuess: Option<string>, volume: Option<string>, reporter: string,
                             page: Option<string>): (r: string)
    ensures IsPrefix(Show(antecedentGuess) + ", ", r)
    ensures IsSuffix(", at " + Show(page), r)
    ensures |r| == |Show(antecedentGuess)| + |Show(volume)| + |reporter| + |Show(page)| + 8
    ensures r[|Show(antecedentGuess)| + 2..|r| - |", at " + Show(page)|] == Show(volume) + " " + reporter
  {
    var head := Show(antecedentGuess) + ", ";
    var middle := Show(volume) + " " + reporter;
    var tail := ", at " + Show(page);
    var r := head + (middle + tail);
    assert r[..|head|] == head;
    assert r[|r| - |tail|..] == tail;
    assert r[|head|..|r| - |tail|] == middle;
    r
  }

  /** The kinds of case citation and what they add to the shared fields. */
  datatype CaseKind =
    | Full
    | Short(antecedentGuess: Option<string>)

  /** A case citation found at `index` in the token list. The reporter and
      edition fields are filled in later by `GuessEdition` and `GuessCourt`;
      `reporterFound` keeps the reporter as it appeared in the text. */
  class CaseCitation {
    const token: string
    const index: int
    const kind: CaseKind

    var reporter: string
    var page: Option<string>
    var volume: Option<string>
    var canonicalReporter: Option<string>
    var extra: Option<string>
    var defendant: Option<string>
    var plaintiff: Option<string>
    var court: Option<string>
    var year: Option<int>
    var reporterFound: Option<string>
    var exactEditions: seq<Edition>
    var variationEditions: seq<Edition>
    var allEditions: seq<Edition>
    var editionGuess: Option<Edition>

    /** The edition lists agree: all editions are the exact ones followed by
        the variations. */
    ghost predicate Valid()
      reads this
    {
      allEditions == exactEditions + variationEditions
    }

    /** Stores the fields as given, except that `allEditions` is recomputed
        from the exact and variation editions (the value passed is dropped). */
    constructor (token: string, index: int, kind: CaseKind, reporter: string,
                 page: Option<string>, volume: Option<string>, canonicalReporter: Option<string>,
                 extra: Option<string>, defendant: Option<string>, plaintiff: Option<string>,
                 court: Option<string>, year: Option<int>, reporterFound: Option<string>,
                 exactEditions: seq<Edition>, variationEditions: seq<Edition>,
                 allEditions: seq<Edition>, editionGuess: Option<Edition>)
      ensures Valid()
      ensures this.token == token && this.index == index && this.kind == kind
      ensures this.reporter == reporter && this.page == page && this.volume == volume
      ensures this.canonicalReporter == canonicalReporter && this.extra == extra
      ensures this.defendant == defendant && this.plaintiff == plaintiff
      ensures this.court == court && this.year == year && this.reporterFound == reporterFound
      ensures this.exactEditions == exactEditions && this.variationEditions == variationEditions
      ensures this.allEditions == exactEditions + variationEditions
      ensures this.editionGuess == editionGuess
    {
      this.token := token;
      this.index := index;
      this.kind := kind;
      this.reporter := reporter;
      this.page := page;
      this.volume := volume;
      this.canonicalReporter := canonicalReporter;
      this.extra := extra;
      this.defendant := defendant;
      this.plaintiff := plaintiff;
      this.court := court;
      this.year := year;
      this.reporterFound := reporterFound;
      this.exactEditions := exactEditions;
      this.variationEditions := variationEditions;
      this.allEditions := exactEditions + variationEditions;
      this.editionGuess := editionGuess;
    }

    /** `"volume reporter page"`, after any rewriting of the reporter. */
    function BaseCitation(): (r: string)
      reads this
      ensures ' ' !in Show(volume) && ' ' !in Show(page)
              ==> ParseBaseCitation(r) == Some(BaseParts(Show(volume), reporter, Show(page)))
    {
      BaseCitationText(volume, reporter, page)
    }

    /** The printed form. A full citation prints the plaintiff and "v." (only
        when a defendant is set too), the defendant, the base citation, the
        extra text, and the parenthetical, joined by single spaces; an empty
        parenthetical still leaves its separating space at the end. A short
        citation prints `antecedent, volume reporter, at page`. */
    function ToString(): (r: string)
      reads this
      ensures kind.Full? ==> IsPrefix(CaseNames(plaintiff, defendant) + BaseCitation(), r)
      ensures kind.Full? ==> IsSuffix(BaseCitation() + ExtraText(extra) + " " + Parenthetical(court, year), r)
      ensures kind.Full? ==> |r| == |CaseNames(plaintiff, defendant)| + |BaseCitation()| + |ExtraText(extra)| + 1
                                    + |Parenthetical(court, year)|
      ensures kind.Full? ==> Contains(r, BaseCitation())
      ensures kind.Short? ==> IsPrefix(Show(kind.antecedentGuess) + ", ", r)
      ensures kind.Short? ==> IsSuffix(", at " + Show(page), r)
      ensures kind.Short? ==> |r| == |Show(kind.antecedentGuess)| + |Show(volume)| + |reporter| + |Show(page)| + 8
      ensures kind.Short?
              ==> r[|Show(kind.antecedentGuess)| + 2..|r| - |", at " + Show(page)|] == Show(volume) + " " + reporter
    {
      match kind
      case Full => FullCitationText(plaintiff, defendant, BaseCitation(), extra, Parenthetical(court, year))
      case Short(antecedentGuess) => ShortCitationText(antecedentGuess, volume, reporter, page)
    }

    /** The pattern that finds this citation again. It is built from
        `reporterFound`, never from the possibly rewritten `reporter`. A full
        citation fails as Python does when the reporter found or the page is
        missing; a short one also when the antecedent guess is missing. */
    function AsRegex(): (r: Result<string>)
      reads this
      ensures kind.Full? ==> (r.Ok? <==> reporterFound.Some? && page.Some?)
      ensures kind.Short? ==> (r.Ok? <==> kind.antecedentGuess.Some? && reporterFound.Some? && page.Some?)
      ensures kind.Full? && r.Ok? && '(' !in Show(volume)
              ==> ParseFullPattern(r.value) == Some(FullParts(Show(volume), reporterFound.value, page.value))
      ensures kind.Short? && r.Ok? && '(' !in Show(volume)
              ==> ParseShortPattern(r.value)
                  == Some(ShortParts(kind.antecedentGuess.value, Show(volume), reporterFound.value, page.value))
    {
      match kind
      case Full => FullRegex(volume, reporterFound, page)
      case Short(antecedentGuess) => ShortRegex(antecedentGuess, volume, reporterFound, page)
    }

    /** Commits to an edition when exactly one candidate remains (see
        `GuessedEdition`): records it, its reporter's short name as the
        canonical reporter, and its own short name as the reporter. Nothing
        else changes, and nothing at all when no single edition remains. */
    method GuessEdition(currentYear: int)
      modifies this`reporter, this`canonicalReporter, this`editionGuess
      ensures var guess := GuessedEdition(exactEditions, variationEditions, year, currentYear);
              if guess.Some? then
                && editionGuess == guess
                && canonicalReporter == Some(guess.value.reporter.shortName)
                && reporter == guess.value.shortName
              else
                && editionGuess == old(editionGuess)
                && canonicalReporter == old(canonicalReporter)
                && reporter == old(reporter)
      ensures reporterFound == old(reporterFound) && volume == old(volume) && page == old(page)
      ensures court == old(court) && year == old(year)
      ensures exactEditions == old(exactEditions) && variationEditions == old(variationEditions)
      ensures allEditions == old(allEditions)
      ensures old(Valid()) ==> Valid()
      ensures AsRegex() == old(AsRegex())
    {
      var guess := GuessedEdition(exactEditions, variationEditions, year, currentYear);
      if guess.Some? {
        editionGuess := guess;
        canonicalReporter := Some(guess.value.reporter.shortName);
        reporter := guess.value.shortName;
      }
    }

    /** Sets the court to "scotus" when no court is set and some candidate
        edition belongs to a Supreme Court reporter. A set court is never
        replaced, and the edition guess plays no part. */
    method GuessCourt()
      modifies this`court
      ensures court == if !IsSet(old(court)) && AnyScotusEdition(allEditions) then Some("scotus") else old(court)
      ensures old(Valid())
              ==> Valid() && court == if !IsSet(old(court)) && AnyScotusEdition(exactEditions + variationEditions)
                                      then Some("scotus") else old(court)
      ensures IsSet(old(court)) ==> court == old(court)
      ensures AsRegex() == old(AsRegex())
    {
      if !IsSet(court) && AnyScotusEdition(allEditions) {
        court := Some("scotus");
      }
    }
  }

  /** A full citation's pattern, or the `TypeError` Python raises when
      `re.escape` is given a missing reporter or page (the reporter first). */
  function FullRegex(volume: Option<string>, reporterFound: Option<string>, page: Option<string>)
    : (r: Result<string>)
    ensures reporterFound.None? ==> r == Err("reporter_found")
    ensures reporterFound.Some? && page.None? ==> r == Err("page")
    ensures r.Ok? <==> reporterFound.Some? && page.Some?
    ensures r.Ok? && '(' !in Show(volume)
            ==> ParseFullPattern(r.value) == Some(FullParts(Show(volume), reporterFound.value, page.value))
  {
    if reporterFound.None? then
      Err("reporter_found")
    else if page.None? then
      Err("page")
    else
      var p := FullPattern(Show(volume), reporterFound.value, page.value);
      if '(' !in Show(volume) then
        FullPatternRoundTrip(Show(volume), reporterFound.value, page.value);
        Ok(p)
      else
        Ok(p)
  }

  /** A short citation's pattern, or the `TypeError` for the first of the
      antecedent guess, the reporter found and the page that is missing. */
  function ShortRegex(antecedentGuess: Option<string>, volume: Option<string>,
                      reporterFound: Option<string>, page: Option<string>): (r: Result<string>)
    ensures antecedentGuess.None? ==> r == Err("antecedent_guess")
    ensures antecedentGuess.Some? && reporterFound.None? ==> r == Err("reporter_found")
    ensures antecedentGuess.Some? && reporterFound.Some? && page.None? ==> r == Err("page")
    ensures r.Ok? <==> antecedentGuess.Some? && reporterFound.Some? && page.Some?
    ensures r.Ok? && '(' !in Show(volume)
            ==> ParseShortPattern(r.value)
                == Some(ShortParts(antecedentGuess.value, Show(volume), reporterFound.value, page.value))
  {
    if antecedentGuess.None? then
      Err("antecedent_guess")
    else if reporterFound.None? then
      Err("reporter_found")
    else if page.None? then
      Err("page")
    else
      var p := ShortPattern(antecedentGuess.value, Show(volume), reporterFound.value, page.value);
      if '(' !in Show(volume) then
        ShortPatternRoundTrip(antecedentGuess.value, Show(volume), reporterFound.value, page.value);
        Ok(p)
      else
        Ok(p)
  }

  // ---------------------------------------------------------------- supra

  /** A "supra" back-reference, such as `Adarand, supra, at 240`. */
  datatype SupraCitation = SupraCitation(
    token: string,
    index: int,
    antecedentGuess: Option<string>,
    page: Option<string>,
    volume: Option<string>)
  {
    /** The pattern has a volume segment exactly when the volume is set and
        a pin-page segment exactly when the page is set; it fails when the
        antecedent guess is missing. */
    function AsRegex(): (r: Result<string>)
      ensures r.Ok? <==> antecedentGuess.Some?
      ensures r.Err? ==> r.field == "antecedent_guess"
      ensures r.Ok? && (IsSet(volume) ==> '(' !in volume.value)
              ==> ParseSupraPattern(r.value)
                  == Some(SupraParts(antecedentGuess.value,
                                     if IsSet(volume) then volume else None,
                                     if IsSet(page) then page else None))
      ensures r.Ok? ==> IsSuffix(TrailingSpace, r.value)
    {
      if antecedentGuess.None? then
        Err("antecedent_guess")
      else
        var v := if IsSet(volume) then volume else None;
        var pg := if IsSet(page) then page else None;
        var p := SupraPattern(antecedentGuess.value, v, pg);
        if v.Some? ==> '(' !in v.value then
          SupraPatternRoundTrip(antecedentGuess.value, v, pg);
          Ok(p)
        else
          Ok(p)
    }

    /** `antecedent supra, at page`. */
    function ToString(): (r: string)
      ensures IsPrefix(Show(antecedentGuess) + " supra", r)
      ensures IsSuffix(", at " + Show(page), r)
      ensures |r| == |Show(antecedentGuess)| + |" supra, at "| + |Show(page)|
    {
      var head := Show(antecedentGuess) + " supra";
      var r := head + ", at " + Show(page);
      assert r[..|head|] == head;
      assert r[|head|..] == ", at " + Show(page);
      r
    }
  }

  // ------------------------------------------------------------------- id

  /** An "id." back-reference, with the texts of the tokens that follow it. */
  datatype IdCitation = IdCitation(
    token: string,
    index: int,
    afterTokens: Option<seq<string>>,
    hasPage: bool)
  {
    /** The pattern records the id token and every following token, in
        order; it fails as Python does when there are no after-tokens to
        iterate over. */
    function AsRegex(): (r: Result<string>)
      ensures r.Ok? <==> afterTokens.Some?
      ensures r.Err? ==> r.field == "after_tokens"
      ensures r.Ok? && afterTokens.value != [""]
              ==> ParseIdPattern(r.value) == Some(IdParts(token, afterTokens.value))
      ensures r.Ok? ==> IsPrefix(Filler, r.value) && IsSuffix(TrailingSpace, r.value)
    {
      if afterTokens.None? then
        Err("after_tokens")
      else
        var p := IdPattern(token, afterTokens.value);
        if afterTokens.value != [""] then
          IdPatternRoundTrip(token, afterTokens.value);
          Ok(p)
        else
          Ok(p)
    }
  }
}
