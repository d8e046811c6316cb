/** Reporters and their editions, as supplied by the reporters database. */
module Reporters {
  import opened Options
  import opened Text

  /** A calendar date; only its year is consulted. */
  datatype Date = Date(year: int, month: int, day: int)

  /** The test `Reporter` runs after construction: the cite type is exactly
      "federal" and the lower-cased name contains "supreme", or the
      lower-cased cite type contains "scotus". */
  predicate NamesSupremeCourt(citeType: string, name: string): (b: bool)
    ensures b <==> (citeType == "federal" && Contains(Lower(name), "supreme"))
                   || Contains(Lower(citeType), "scotus")
  {
    (citeType == "federal" && HasSubstring(Lower(name), "supreme"))
    || HasSubstring(Lower(citeType), "scotus")
  }

  lemma LowerTwice(s: string)
    ensures Lower(Lower(s)) == Lower(s)
  {
  }

  /** The name test ignores the case of the name; the cite type must still
      be exactly "federal". */
  lemma SupremeCourtTestIgnoresNameCase(citeType: string, name: string)
    ensures NamesSupremeCourt(citeType, Lower(name)) == NamesSupremeCourt(citeType, name)
  {
    LowerTwice(name);
  }

  /** A top-level reporter series, such as "S.W.". Its fields never change
      after construction; `isScotus` is settled by the constructor. */
  class Reporter {
    const shortName: string
    const name: string
    const citeType: string
    const isScotus: bool

    /** Builds the reporter and then sets `isScotus` when the cite type and
        name mark a Supreme Court series; a `true` passed in is kept. */
    constructor (shortName: string, name: string, citeType: string, isScotus: bool)
      ensures this.shortName == shortName && this.name == name && this.citeType == citeType
      ensures this.isScotus <==> isScotus || NamesSupremeCourt(citeType, name)
      ensures isScotus ==> this.isScotus
    {
      this.shortName := shortName;
      this.name := name;
      this.citeType := citeType;
      this.isScotus := isScotus || NamesSupremeCourt(citeType, name);
    }
  }

  /** One edition of a reporter, such as "S.W.2d", with optional first and
      last dates. */
  datatype Edition = Edition(reporter: Reporter, shortName: string, start: Option<Date>, end: Option<Date>)
  {
    /** The edition holds cases of `year`: the year is not after
        `currentYear` (the clock's year), and lies between the start and
        end years, inclusive, a missing bound being open. */
    predicate IncludesYear(year: int, currentYear: int): (b: bool)
      ensures b ==> year <= currentYear
      ensures b && start.Some? ==> start.value.year <= year
      ensures b && end.Some? ==> year <= end.value.year
    {
      && year <= currentYear
      && (start.None? || start.value.year <= year)
      && (end.None? || end.value.year >= year)
    }
  }

  /** The years an edition includes form an interval: no gaps. */
  lemma IncludedYearsHaveNoGaps(e: Edition, currentYear: int, a: int, b: int, c: int)
    requires a <= b <= c
    requires e.IncludesYear(a, currentYear) && e.IncludesYear(c, currentYear)
    ensures e.IncludesYear(b, currentYear)
  {
  }

  /** An edition without dates includes exactly the years up to now. */
  lemma UndatedEditionIncludesThePast(e: Edition, currentYear: int, year: int)
    requires e.start.None? && e.end.None?
    ensures e.IncludesYear(year, currentYear) <==> year <= currentYear
  {
  }

  /** `[e for e in editions if e.includes_year(year)]`: keeps exactly the
      editions including the year, each as often as it occurred. */
  function EditionsIncludingYear(editions: seq<Edition>, year: int, currentYear: int): (r: seq<Edition>)
    ensures |r| <= |editions|
    ensures forall e :: e in r ==> e in editions && e.IncludesYear(year, currentYear)
    ensures forall e :: e in editions && e.IncludesYear(year, currentYear) ==> multiset(r)[e] == multiset(editions)[e]
  {
    if editions == [] then
      []
    else
      var rest := EditionsIncludingYear(editions[1..], year, currentYear);
      assert editions == [editions[0]] + editions[1..];
      if editions[0].IncludesYear(year, currentYear) then [editions[0]] + rest else rest
  }

  /** `any(e.reporter.is_scotus for e in editions)`. */
  function AnyScotusEdition(editions: seq<Edition>): (b: bool)
    ensures b <==> exists i :: 0 <= i < |editions| && editions[i].reporter.isScotus
  {
    if editions == [] then
      false
    else if editions[0].reporter.isScotus then
      true
    else
      var rest := AnyScotusEdition(editions[1..]);
      assert forall i :: 0 < i < |editions| ==> editions[i] == editions[1..][i - 1];
      rest
  }
}
