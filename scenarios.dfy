/** Clients of the citation model, each asserting only what follows from
    the contracts: the full citation "515 U.S. 200, 240 (1995)" against a
    reporters table where "U.S." has one edition starting in 1790 and no
    end; an abbreviation shared by several editions, where no edition is
    guessed; and a year that picks one of two editions of the Southern
    Reporter whose date ranges do not overlap. */
module Scenarios {
  import opened Options
  import opened Text
  import opened Reporters
  import opened Citations

  const UnitedStatesReportsName := "United States Supreme Court Reports"

  /** The federal "United States Supreme Court Reports" name marks a
      Supreme Court series. */
  lemma UnitedStatesReportsIsSupreme()
    ensures NamesSupremeCourt("federal", UnitedStatesReportsName)
  {
    var name := UnitedStatesReportsName;
    assert name[14..21] == "Supreme";
    var lowered := Lower(name);
    assert lowered[14] == 's' && lowered[15] == 'u' && lowered[16] == 'p' && lowered[17] == 'r';
    assert lowered[18] == 'e' && lowered[19] == 'm' && lowered[20] == 'e';
    assert lowered[14..21] == "supreme";
    assert OccursAt(lowered, "supreme", 14);
  }

  method UnitedStatesReportsScenario()
  {
    var name := UnitedStatesReportsName;
    UnitedStatesReportsIsSupreme();
    var unitedStates := new Reporter("U.S.", name, "federal", false);
    assert unitedStates.isScotus;

    var edition := Edition(unitedStates, "U.S.", Some(Date(1790, 1, 1)), None);
    var citation := new CaseCitation("515 U.S. 200", 0, Full, "U.S.", Some("200"), Some("515"), None,
                                     None, None, None, None, Some(1995), Some("U.S."),
                                     [edition], [], [], None);
    assert citation.allEditions == [edition];

    citation.GuessEdition(2026);
    assert citation.editionGuess == Some(edition);
    assert citation.canonicalReporter == Some("U.S.");
    assert citation.reporter == "U.S.";

    citation.GuessCourt();
    assert citation.court == Some("scotus");
    assert citation.year == Some(1995) && citation.volume == Some("515") && citation.page == Some("200");
  }

  /** An abbreviation matching editions of two reporters with overlapping
      dates, on a citation without a year, stays unresolved. */
  method AmbiguousAbbreviationScenario()
  {
    var first := new Reporter("S.W.", "South Western Reporter", "state", false);
    var second := new Reporter("S.W.R.", "Southwestern Law Reports", "state", false);
    var a := Edition(first, "S.W.", Some(Date(1886, 1, 1)), Some(Date(1928, 12, 31)));
    var b := Edition(second, "S.W.", Some(Date(1900, 1, 1)), None);
    var citation := new CaseCitation("12 S.W. 34", 3, Full, "S.W.", Some("34"), Some("12"), None,
                                     None, None, None, None, None, Some("S.W."),
                                     [a, b], [], [], None);
    citation.GuessEdition(2026);
    assert citation.editionGuess == None;
    assert citation.canonicalReporter == None;
    assert citation.reporter == "S.W.";
  }

  /** "So." matches two editions of the Southern Reporter with adjoining
      date ranges; the citation's year picks the second one. */
  method YearPicksEditionScenario()
  {
    var southern := new Reporter("So.", "Southern Reporter", "state", false);
    var first := Edition(southern, "So.", Some(Date(1886, 1, 1)), Some(Date(1940, 12, 31)));
    var second := Edition(southern, "So. 2d", Some(Date(1941, 1, 1)), Some(Date(2008, 12, 31)));
    var citation := new CaseCitation("123 So. 456", 5, Full, "So.", Some("456"), Some("123"), None,
                                     None, None, None, None, Some(1950), Some("So."),
                                     [], [first, second], [], None);
    GuessCommitsToUniqueSurvivor([], [first, second], Some(1950), 2026, second);
    citation.GuessEdition(2026);
    assert citation.editionGuess == Some(second);
    assert citation.canonicalReporter == Some("So.");
    assert citation.reporter == "So. 2d";
    assert citation.reporterFound == Some("So.");
  }
}
