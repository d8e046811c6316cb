/** The regular-expression source text each citation kind builds to find
    itself again in the document, and readers that take such a pattern
    apart. The readers are the partners of the builders: every field a
    pattern was built from can be read back out of it, so a pattern never
    confuses two citations. Matching a pattern against text is not modelled. */
module Patterns {
  import opened Options
  import opened Escaping
  import opened Text

  /** One or more whitespace characters, captured. */
  const Gap: string := @"(\s+)"
  /** An optional trailing whitespace character, captured. */
  const TrailingSpace: string := @"(\s?)"
  /** Whitespace, HTML tags and commas, captured as one group. */
  const Filler: string := @"((?:\s|</?\w+>|,)*)"
  /** The optional comma and the word "at" before a short citation's pin page. */
  const ShortPin: string := @"(,?)(\s+)at(\s+)"
  /** The comma and the word "at" before a supra citation's pin page. */
  const SupraPin: string := @",(\s+)at(\s+)"
  const SupraWord: string := "supra"

  // ---------------------------------------------------- full and short

  /** The part both the full and the short pattern end with: the volume as
      it is (not escaped), a gap, the escaped reporter as found, the
      `separator` group, the escaped page and an optional trailing space. */
  function VolumeReporterPage(volume: string, reporterFound: string, separator: string, page: string): string
  {
    volume + Gap + (Escape(reporterFound) + separator + (Escape(page) + TrailingSpace))
  }

  /** Reads back what `VolumeReporterPage` builds. */
  function ParseVolumeReporterPage(s: string, separator: string): Option<FullParts>
  {
    var (volume, r1) := TakeUntil(s, '(');
    var r2 :- Strip(Gap, r1);
    var (reporterFound, r3) := ReadEscaped(r2);
    var r4 :- Strip(separator, r3);
    var (page, r5) := ReadEscaped(r4);
    var r6 :- Strip(TrailingSpace, r5);
    if r6 == [] then Some(FullParts(volume, reporterFound, page)) else None
  }

  lemma {:induction false} VolumeReporterPageRoundTrip(volume: string, reporterFound: string, separator: string, page: string)
    requires '(' !in volume
    requires separator != [] && separator[0] == '('
    ensures ParseVolumeReporterPage(VolumeReporterPage(volume, reporterFound, separator, page), separator)
         == Some(FullParts(volume, reporterFound, page))
  {
    var pageTail := Escape(page) + TrailingSpace;
    var tail := Escape(reporterFound) + separator + pageTail;
    assert VolumeReporterPage(volume, reporterFound, separator, page) == volume + (Gap + tail);
    TakeUntilRoundTrip(volume, '(', Gap + tail);
    StripPrefix(Gap, tail);
    assert tail == Escape(reporterFound) + (separator + pageTail);
    ReadEscapedRoundTrip(reporterFound, separator + pageTail);
    StripPrefix(separator, pageTail);
    ReadEscapedRoundTrip(page, TrailingSpace);
    StripPrefix(TrailingSpace, []);
    assert TrailingSpace + [] == TrailingSpace;
  }

  datatype FullParts = FullParts(volume: string, reporterFound: string, page: string)

  /** A full citation's pattern: the volume as it is (not escaped), a gap,
      the escaped reporter as found, a gap, the escaped page, and an
      optional trailing space. */
  function FullPattern(volume: string, reporterFound: string, page: string): string
  {
    VolumeReporterPage(volume, reporterFound, Gap, page)
  }

  function ParseFullPattern(p: string): Option<FullParts>
  {
    ParseVolumeReporterPage(p, Gap)
  }

  /** The full-citation pattern determines its volume, reporter and page. */
  lemma {:induction false} FullPatternRoundTrip(volume: string, reporterFound: string, page: string)
    requires '(' !in volume
    ensures ParseFullPattern(FullPattern(volume, reporterFound, page))
         == Some(FullParts(volume, reporterFound, page))
  {
    VolumeReporterPageRoundTrip(volume, reporterFound, Gap, page);
  }

  datatype ShortParts = ShortParts(antecedent: string, volume: string, reporterFound: string, page: string)

  /** A short citation's pattern: the escaped antecedent guess, a gap, the
      volume as it is, a gap, the escaped reporter as found, an optional
      comma, "at" between gaps, the escaped page, an optional trailing space. */
  function ShortPattern(antecedent: string, volume: string, reporterFound: string, page: string): string
  {
    Escape(antecedent) + (Gap + VolumeReporterPage(volume, reporterFound, ShortPin, page))
  }

  function ParseShortPattern(p: string): Option<ShortParts>
  {
    var (antecedent, r1) := ReadEscaped(p);
    var r2 :- Strip(Gap, r1);
    var parts :- ParseVolumeReporterPage(r2, ShortPin);
    Some(ShortParts(antecedent, parts.volume, parts.reporterFound, parts.page))
  }

  /** The short-citation pattern determines all four of its fields. */
  lemma {:induction false} ShortPatternRoundTrip(antecedent: string, volume: string, reporterFound: string, page: string)
    requires '(' !in volume
    ensures ParseShortPattern(ShortPattern(antecedent, volume, reporterFound, page))
         == Some(ShortParts(antecedent, volume, reporterFound, page))
  {
    var rest := VolumeReporterPage(volume, reporterFound, ShortPin, page);
    ReadEscapedRoundTrip(antecedent, Gap + rest);
    StripPrefix(Gap, rest);
    VolumeReporterPageRoundTrip(volume, reporterFound, ShortPin, page);
  }

  // --------------------------------------------------------------- supra

  datatype SupraParts = SupraParts(antecedent: string, volume: Option<string>, page: Option<string>)

  /** A supra citation's pattern: the escaped antecedent guess and a gap;
      then, when a volume is given, the volume as it is and a gap; the word
      "supra"; then, when a page is given, a comma, "at" between gaps and the
      escaped page; and an optional trailing space. */
  function SupraPattern(antecedent: string, volume: Option<string>, page: Option<string>): (r: string)
    ensures IsSuffix(TrailingSpace, r)
  {
    var pin := SupraPinPart(page);
    var afterGap := SupraVolumePart(volume) + SupraWord + pin;
    SuffixExtends(SupraVolumePart(volume) + SupraWord, pin, TrailingSpace);
    SuffixExtends(Gap, afterGap, TrailingSpace);
    SuffixExtends(Escape(antecedent), Gap + afterGap, TrailingSpace);
    Escape(antecedent) + (Gap + afterGap)
  }

  /** The volume and its gap, when a volume is given. */
  function SupraVolumePart(volume: Option<string>): string
  {
    if volume.Some? then volume.value + Gap else ""
  }

  /** The pin page part, when a page is given, then the optional trailing space. */
  function SupraPinPart(page: Option<string>): (r: string)
    ensures IsSuffix(TrailingSpace, r)
  {
    var r := (if page.Some? then SupraPin + Escape(page.value) else "") + TrailingSpace;
    assert r[|r| - |TrailingSpace|..] == TrailingSpace;
    r
  }

  /** Reads the volume between the antecedent's gap and "supra", if there is one. */
  function ReadSupraVolume(s: string): (Option<string>, string)
  {
    var (v, r) := TakeUntil(s, '(');
    if Strip(Gap + SupraWord, r).Some? then (Some(v), r[|Gap|..]) else (None, s)
  }

  /** Reads the ", at <page>" part after "supra", if there is one. */
  function ReadSupraPin(s: string): (Option<string>, string)
  {
    match Strip(SupraPin, s)
    case Some(r) =>
      var (page, rest) := ReadEscaped(r);
      (Some(page), rest)
    case None => (None, s)
  }

  /** Reads what follows the antecedent's gap: the volume, "supra", the pin
      page and the trailing space. */
  function ParseSupraTail(s: string): Option<(Option<string>, Option<string>)>
  {
    var (volume, r1) := ReadSupraVolume(s);
    var r2 :- Strip(SupraWord, r1);
    var (page, r3) := ReadSupraPin(r2);
    var r4 :- Strip(TrailingSpace, r3);
    if r4 == [] then Some((volume, page)) else None
  }

  function ParseSupraPattern(p: string): Option<SupraParts>
  {
    var (antecedent, r1) := ReadEscaped(p);
    var r2 :- Strip(Gap, r1);
    var (volume, page) :- ParseSupraTail(r2);
    Some(SupraParts(antecedent, volume, page))
  }

  lemma ReadSupraPinRoundTrip(page: Option<string>)
    ensures ReadSupraPin((if page.Some? then SupraPin + Escape(page.value) else "") + TrailingSpace)
         == (page, TrailingSpace)
  {
    if page.Some? {
      var s := SupraPin + (Escape(page.value) + TrailingSpace);
      assert (SupraPin + Escape(page.value)) + TrailingSpace == s;
      StripPrefix(SupraPin, Escape(page.value) + TrailingSpace);
      ReadEscapedRoundTrip(page.value, TrailingSpace);
    } else {
      assert "" + TrailingSpace == TrailingSpace;
      assert TrailingSpace[0] != SupraPin[0];
    }
  }

  lemma ReadSupraVolumeRoundTrip(volume: Option<string>, tail: string)
    requires volume.Some? ==> '(' !in volume.value
    requires tail == TrailingSpace || (|tail| > |SupraPin| && tail[..|SupraPin|] == SupraPin)
    ensures ReadSupraVolume((if volume.Some? then volume.value + Gap else "") + SupraWord + tail)
         == (volume, SupraWord + tail)
  {
    var s := (if volume.Some? then volume.value + Gap else "") + SupraWord + tail;
    if volume.Some? {
      assert s == volume.value + (Gap + SupraWord + tail);
      TakeUntilRoundTrip(volume.value, '(', Gap + SupraWord + tail);
      StripPrefix(Gap + SupraWord, tail);
      assert Gap + SupraWord + tail == Gap + (SupraWord + tail);
    } else if tail == TrailingSpace {
      assert s == SupraWord + TrailingSpace;
      TakeUntilRoundTrip(SupraWord, '(', TrailingSpace);
    } else {
      var comma := SupraWord + [','];
      assert s == comma + tail[1..];
      assert '(' !in comma;
      TakeUntilRoundTrip(comma, '(', tail[1..]);
      assert tail[1..][5] == SupraPin[6] == 'a';
      assert (tail[1..])[..|Gap + SupraWord|] != Gap + SupraWord by {
        assert (Gap + SupraWord)[5] == 's';
      }
      assert s == SupraWord + tail;
    }
  }

  lemma {:induction false} SupraTailRoundTrip(volume: Option<string>, page: Option<string>)
    requires volume.Some? ==> '(' !in volume.value
    ensures ParseSupraTail(SupraVolumePart(volume) + SupraWord + SupraPinPart(page)) == Some((volume, page))
  {
    var tail := SupraPinPart(page);
    if page.Some? {
      assert tail[..|SupraPin|] == SupraPin;
    } else {
      assert tail == TrailingSpace;
    }
    ReadSupraVolumeRoundTrip(volume, tail);
    StripPrefix(SupraWord, tail);
    ReadSupraPinRoundTrip(page);
    StripPrefix(TrailingSpace, []);
    assert TrailingSpace + [] == TrailingSpace;
  }

  /** The supra pattern determines the antecedent guess, whether a volume
      segment is present and which, and whether a pin page is present and which. */
  lemma {:induction false} SupraPatternRoundTrip(antecedent: string, volume: Option<string>, page: Option<string>)
    requires volume.Some? ==> '(' !in volume.value
    ensures ParseSupraPattern(SupraPattern(antecedent, volume, page))
         == Some(SupraParts(antecedent, volume, page))
  {
    var afterGap := SupraVolumePart(volume) + SupraWord + SupraPinPart(page);
    ReadEscapedRoundTrip(antecedent, Gap + afterGap);
    StripPrefix(Gap, afterGap);
    SupraTailRoundTrip(volume, page);
  }

  // ------------------------------------------------------------------ id

  datatype IdParts = IdParts(token: string, after: seq<string>)

  /** `[re.escape(t) for t in tokens]`. */
  function EscapeAll(tokens: seq<string>): (r: seq<string>)
    ensures |r| == |tokens|
    ensures forall i :: 0 <= i < |r| ==> r[i] == Escape(tokens[i])
  {
    seq(|tokens|, i requires 0 <= i < |tokens| => Escape(tokens[i]))
  }

  /** An id citation's pattern: filler, the escaped id token, filler, the
      escaped tokens after it joined by filler, and an optional trailing space. */
  function IdPattern(token: string, after: seq<string>): (r: string)
    ensures IsPrefix(Filler, r) && IsSuffix(TrailingSpace, r)
  {
    var joined := Join(Filler, EscapeAll(after)) + TrailingSpace;
    assert joined[|joined| - |TrailingSpace|..] == TrailingSpace;
    SuffixExtends(Filler, joined, TrailingSpace);
    SuffixExtends(Escape(token), Filler + joined, TrailingSpace);
    SuffixExtends(Filler, Escape(token) + (Filler + joined), TrailingSpace);
    var r := Filler + (Escape(token) + (Filler + joined));
    assert r[..|Filler|] == Filler;
    r
  }

  /** Reads escaped tokens separated by filler, up to the trailing space. */
  function ParseJoined(s: string): Option<seq<string>>
    decreases |s|
  {
    var (t, r) := ReadEscaped(s);
    if r == TrailingSpace then
      Some([t])
    else
      var r' :- Strip(Filler, r);
      var ts :- ParseJoined(r');
      Some([t] + ts)
  }

  function ParseIdPattern(p: string): Option<IdParts>
  {
    var r1 :- Strip(Filler, p);
    var (token, r2) := ReadEscaped(r1);
    var r3 :- Strip(Filler, r2);
    var after :- if r3 == TrailingSpace then Some([]) else ParseJoined(r3);
    Some(IdParts(token, after))
  }

  lemma {:induction false} ParseJoinedRoundTrip(tokens: seq<string>)
    requires tokens != []
    ensures ParseJoined(Join(Filler, EscapeAll(tokens)) + TrailingSpace) == Some(tokens)
    decreases |tokens|
  {
    var t := tokens[0];
    if |tokens| == 1 {
      assert Join(Filler, EscapeAll(tokens)) == Escape(t);
      ReadEscapedRoundTrip(t, TrailingSpace);
      assert tokens == [t];
    } else {
      var rest := tokens[1..];
      assert EscapeAll(tokens)[1..] == EscapeAll(rest);
      var joined := Join(Filler, EscapeAll(rest)) + TrailingSpace;
      assert Join(Filler, EscapeAll(tokens)) + TrailingSpace == Escape(t) + (Filler + joined);
      ReadEscapedRoundTrip(t, Filler + joined);
      StripPrefix(Filler, joined);
      ParseJoinedRoundTrip(rest);
      assert [t] + rest == tokens;
    }
  }

  /** The id pattern determines the id token and the tokens after it, except
      that no tokens and one empty token give the same pattern
      (see IdPatternNoTokensCollision). */
  lemma {:induction false} IdPatternRoundTrip(token: string, after: seq<string>)
    requires after != [""]
    ensures ParseIdPattern(IdPattern(token, after)) == Some(IdParts(token, after))
  {
    var joined := Join(Filler, EscapeAll(after)) + TrailingSpace;
    StripPrefix(Filler, Escape(token) + (Filler + joined));
    ReadEscapedRoundTrip(token, Filler + joined);
    StripPrefix(Filler, joined);
    if after == [] {
      assert joined == TrailingSpace;
    } else {
      ParseJoinedRoundTrip(after);
      assert Join(Filler, EscapeAll(after)) != [] by {
        if |after| == 1 {
          assert Escape(after[0]) != [];
        }
      }
      assert |joined| > |TrailingSpace|;
    }
  }

  /** The one pair of inputs the id pattern cannot tell apart. */
  lemma IdPatternNoTokensCollision(token: string)
    ensures IdPattern(token, []) == IdPattern(token, [""])
  {
  }
}
