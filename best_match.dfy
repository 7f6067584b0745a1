/**
 * `find_best_match` (app/core/image_analyzer.py:201-343): signal extraction,
 * catalog matching, confidence resolution and the fallback "UNMATCHED" label,
 * as a specification function and the method that follows the source's loops.
 */
module BestMatch {
  import opened Wrappers
  import opened PyStrings
  import opened PyNumbers
  import opened Signals
  import opened Matching
  import FileUtils

  /** The keys of the analysis dictionary that `find_best_match` reads; an absent key is None. */
  datatype Analysis = Analysis(
    description: string,
    confidenceBoost: Option<real>,
    synergyNotes: Option<seq<string>>,
    analysisMethods: Option<seq<string>>)

  /**
   * The result dictionary.  `isExplicitUnmatched` false stands for the key
   * being absent; `matchText` (the `match` key) None for Python's None.
   */
  datatype MatchResult = MatchResult(
    matchText: Option<string>,
    score: real,
    confidence: real,
    originalConfidence: real,
    synergyBoost: real,
    isExplicitUnmatched: bool,
    unmatchedReason: Option<string>,
    synergyNotes: Option<seq<string>>,
    analysisMethods: Option<seq<string>>)

  const UnmatchedPrefix: string := "UNMATCHED "
  const ExplicitReason: string := "AI explicitly marked as unmatched"
  const NoMatchReason: string := "No good match found"
  /** Cap on the confidence of an explicitly unmatched result. */
  const UnmatchedCap: real := 0.9
  /** Cap on every other confidence. */
  const ConfidenceCap: real := 1.0
  /** Floor of the base confidence of an explicitly unmatched result without a reported value. */
  const UnmatchedFloor: real := 0.3
  /** Below this score a catalog match is replaced by the fallback label. */
  const WeakScore: real := 0.3
  /** How many words the fallback label keeps. */
  const FallbackWordLimit: nat := 4

  /** A resolved confidence and the value before the boost (`original_confidence`). */
  datatype Resolved = Resolved(confidence: real, original: real)

  /**
   * Confidence on the explicit-unmatched path: the reported value over 10 if
   * there is one, else the larger of 0.3 and the match score; then the boost
   * is added and the sum capped at 0.9.
   */
  function ResolveExplicit(reported: real, score: real, boost: real): (r: Resolved)
    ensures r.confidence <= UnmatchedCap
    ensures reported > 0.0 ==> r.original == reported / 10.0
    ensures reported <= 0.0 ==> r.original >= UnmatchedFloor && r.original >= score
    ensures reported <= 0.0 ==> r.original == UnmatchedFloor || r.original == score
    ensures r.confidence == r.original + boost || (r.confidence == UnmatchedCap < r.original + boost)
  {
    var base := if reported > 0.0 then reported / 10.0 else if UnmatchedFloor >= score then UnmatchedFloor else score;
    var final := base + boost;
    Resolved(if final <= UnmatchedCap then final else UnmatchedCap, base)
  }

  /**
   * Confidence on the general path: a reported value (over 10) takes priority
   * over the match score; the boost is added and the sum capped at 1.0.
   */
  function ResolveGeneral(reported: real, score: real, boost: real): (r: Resolved)
    ensures r.confidence <= ConfidenceCap
    ensures reported > 0.0 ==> r.original == reported / 10.0
    ensures reported <= 0.0 ==> r.original == score
    ensures r.confidence == r.original + boost || (r.confidence == ConfidenceCap < r.original + boost)
  {
    var base := if reported > 0.0 then reported / 10.0 else score;
    var final := base + boost;
    Resolved(if final <= ConfidenceCap then final else ConfidenceCap, base)
  }

  /**
   * `re.sub(marker + r'.*?\n', '', s)`: every occurrence of the marker is
   * removed together with the rest of its line and the newline; a marker on
   * a last line without a newline stays.
   */
  function RemoveMarkerLines(s: string, marker: string): (r: string)
    requires marker != []
    ensures |r| <= |s|
    ensures !Contains(s, marker) ==> r == s
    decreases |s|
  {
    if s == [] then []
    else if IsAt(s, marker, 0) && SkipWhile(IsNotNewline, s, |marker|) < |s| then
      RemoveMarkerLines(s[SkipWhile(IsNotNewline, s, |marker|) + 1..], marker)
    else
      NotContainsTail(s, marker);
      [s[0]] + RemoveMarkerLines(s[1..], marker)
  }

  /** A pattern missing from a string is missing from its tail too. */
  lemma NotContainsTail(s: string, pat: string)
    requires s != []
    ensures Contains(s[1..], pat) ==> Contains(s, pat)
  {
    if Contains(s[1..], pat) {
      var k :| 0 <= k <= |s[1..]| && IsAt(s[1..], pat, k);
      assert s[k + 1..k + 1 + |pat|] == s[1..][k..k + |pat|];
      assert IsAt(s, pat, k + 1);
    }
  }

  /** A token the fallback label may use: longer than two characters and alphabetic. */
  predicate IsFoodWord(w: string) {
    |w| > 2 && IsAlpha(w)
  }

  /** An upper-case ASCII word of more than two letters. */
  predicate IsLabelWord(w: string) {
    |w| > 2 && IsAlpha(w) && forall k :: 0 <= k < |w| ==> IsAsciiUpper(w[k])
  }

  /** The `food_words` list: the food words among the tokens, upper-cased, in order. */
  function FoodWords(tokens: seq<string>): (ws: seq<string>)
    ensures |ws| <= |tokens|
    ensures forall i :: 0 <= i < |ws| ==> IsLabelWord(ws[i])
    decreases |tokens|
  {
    if tokens == [] then []
    else
      var ws := FoodWords(tokens[..|tokens| - 1]);
      var w := tokens[|tokens| - 1];
      if IsFoodWord(w) then ws + [Upper(w)] else ws
  }

  /** The loop that fills `food_words`. */
  method CollectFoodWords(tokens: seq<string>) returns (foodWords: seq<string>)
    ensures foodWords == FoodWords(tokens)
  {
    foodWords := [];
    for i := 0 to |tokens|
      invariant foodWords == FoodWords(tokens[..i])
    {
      assert tokens[..i + 1][..i] == tokens[..i];
      if |tokens[i]| > 2 && IsAlpha(tokens[i]) {
        foodWords := foodWords + [Upper(tokens[i])];
      }
    }
    assert tokens[..|tokens|] == tokens;
  }

  /** The text the fallback label is drawn from: detected-text and confidence-score lines removed. */
  function FallbackSource(text: string): string {
    RemoveMarkerLines(RemoveMarkerLines(text, "text detected:"), "confidence score:")
  }

  /** The words after "UNMATCHED ": at most four food words of the text, joined by single spaces. */
  function FallbackPhrase(text: string): string {
    Join(Take(FoodWords(Words(FallbackSource(text))), FallbackWordLimit), " ")
  }

  /** The specification of `find_best_match` over a catalog and an analysis. */
  function FindBestMatchSpec(catalog: seq<string>, analysis: Analysis): MatchResult {
    var text := Lower(analysis.description);
    ResultFor(catalog, analysis, text, MatchCatalog(catalog, text, DetectedText(text)))
  }

  /** The result dictionary built from the lower-cased text and the catalog match `c`. */
  function ResultFor(catalog: seq<string>, analysis: Analysis, text: string, c: Candidate): MatchResult
    requires c.best.Some? ==> c.best.value < |catalog|
  {
    var reported := ReportedConfidence(text);
    var boost := analysis.confidenceBoost.GetOr(0.0);
    match UnmatchedCapture(text)
    case Some(g) =>
      var res := ResolveExplicit(reported, c.score, boost);
      MatchResult(Some(UnmatchedPrefix + Upper(Strip(g))), c.score, res.confidence, res.original,
                  boost, true, Some(ExplicitReason), analysis.synergyNotes, analysis.analysisMethods)
    case None =>
      var res := ResolveGeneral(reported, c.score, boost);
      if c.best.None? || c.score < WeakScore then
        MatchResult(Some(UnmatchedPrefix + FallbackPhrase(text)), c.score, res.confidence, res.original,
                    boost, false, Some(NoMatchReason), analysis.synergyNotes, analysis.analysisMethods)
      else
        MatchResult(if catalog[c.best.value] != [] then Some(catalog[c.best.value]) else None,
                    c.score, res.confidence, res.original,
                    boost, false, None, analysis.synergyNotes, analysis.analysisMethods)
  }

  /** `find_best_match`, following the source's loops. */
  method FindBestMatch(catalog: seq<string>, analysis: Analysis) returns (result: MatchResult)
    ensures result == FindBestMatchSpec(catalog, analysis)
  {
    var text := Lower(analysis.description);
    var detected := DetectedText(text);
    var c := MatchPhases(catalog, text, detected);
    result := BuildResult(catalog, analysis, text, c);
  }

  /** Phase A, then phase B when phase A found nothing. */
  method MatchPhases(catalog: seq<string>, text: string, detected: string) returns (c: Candidate)
    ensures c == MatchCatalog(catalog, text, detected)
  {
    var bestMatch: Option<nat> := None;
    var bestScore: real := 0.0;
    if detected != [] {
      bestMatch := FindTextHit(catalog, detected);
      if bestMatch.Some? {
        bestScore := TextMatchScore;
      }
    }
    if bestMatch.None? {
      c := ScanCatalog(catalog, text);
    } else {
      c := Candidate(bestMatch, bestScore);
    }
  }

  /** Confidence resolution and, when needed, the fallback label. */
  method BuildResult(catalog: seq<string>, analysis: Analysis, text: string, c: Candidate) returns (result: MatchResult)
    requires c.best.Some? ==> c.best.value < |catalog|
    ensures result == ResultFor(catalog, analysis, text, c)
  {
    var confidenceScore := ReportedConfidence(text);
    var unmatchedMatch := UnmatchedCapture(text);
    var boost := analysis.confidenceBoost.GetOr(0.0);
    if unmatchedMatch.Some? {
      var unmatchedDesc := Upper(Strip(unmatchedMatch.value));
      var baseConfidence: real;
      if confidenceScore > 0.0 {
        baseConfidence := confidenceScore / 10.0;
      } else {
        baseConfidence := if UnmatchedFloor >= c.score then UnmatchedFloor else c.score;
      }
      var finalConfidence := baseConfidence + boost;
      finalConfidence := if finalConfidence <= UnmatchedCap then finalConfidence else UnmatchedCap;
      assert Resolved(finalConfidence, baseConfidence) == ResolveExplicit(confidenceScore, c.score, boost);
      result := MatchResult(Some(UnmatchedPrefix + unmatchedDesc), c.score, finalConfidence, baseConfidence,
                            boost, true, Some(ExplicitReason), analysis.synergyNotes, analysis.analysisMethods);
      assert result == ResultFor(catalog, analysis, text, c);
    } else {
      var finalConfidence: real;
      if confidenceScore > 0.0 {
        finalConfidence := confidenceScore / 10.0 + boost;
      } else {
        finalConfidence := c.score + boost;
      }
      finalConfidence := if finalConfidence <= ConfidenceCap then finalConfidence else ConfidenceCap;
      var original := if confidenceScore > 0.0 then confidenceScore / 10.0 else c.score;
      assert Resolved(finalConfidence, original) == ResolveGeneral(confidenceScore, c.score, boost);
      var matchValue := if c.best.Some? && catalog[c.best.value] != [] then Some(catalog[c.best.value]) else None;
      result := MatchResult(matchValue, c.score, finalConfidence, original,
                            boost, false, None, analysis.synergyNotes, analysis.analysisMethods);
      if c.best.None? || c.score < WeakScore {
        var foodWords := CollectFoodWords(Words(FallbackSource(text)));
        var abbrevDesc := Join(Take(foodWords, FallbackWordLimit), " ");
        assert abbrevDesc == FallbackPhrase(text);
        result := result.(matchText := Some(UnmatchedPrefix + abbrevDesc), unmatchedReason := Some(NoMatchReason));
      }
      assert result == ResultFor(catalog, analysis, text, c);
    }
  }

  /** A text without a newline loses nothing: only newline-terminated marker lines are removed. */
  lemma {:induction false} UnterminatedLineKept(s: string, marker: string)
    requires marker != []
    requires forall k :: 0 <= k < |s| ==> s[k] != '\n'
    ensures RemoveMarkerLines(s, marker) == s
    decreases |s|
  {
    if s != [] {
      if IsAt(s, marker, 0) {
        SkipWhileStops(IsNotNewline, s, |marker|, |s|);
      }
      UnterminatedLineKept(s[1..], marker);
      assert [s[0]] + s[1..] == s;
    }
  }

  /** A marker line ended by a newline is removed whole, newline included. */
  lemma TerminatedLineRemoved(marker: string, line: string, rest: string)
    requires marker != []
    requires forall k :: 0 <= k < |line| ==> line[k] != '\n'
    ensures RemoveMarkerLines(marker + line + "\n" + rest, marker) == RemoveMarkerLines(rest, marker)
  {
    var s := marker + line + "\n" + rest;
    var e := |marker| + |line|;
    assert s[..|marker|] == marker;
    assert forall k :: |marker| <= k < e ==> s[k] == line[k - |marker|];
    assert s[e] == '\n';
    SkipWhileStops(IsNotNewline, s, |marker|, e);
    assert s[e + 1..] == rest;
  }

  /** An upper-case label word is a token of `split()`. */
  lemma LabelWordsAreTokens(ws: seq<string>)
    requires forall i :: 0 <= i < |ws| ==> IsLabelWord(ws[i])
    ensures forall i :: 0 <= i < |ws| ==> IsToken(ws[i])
  {
    forall i | 0 <= i < |ws|
      ensures IsToken(ws[i])
    {
      assert forall k :: 0 <= k < |ws[i]| ==> IsAsciiUpper(ws[i][k]);
    }
  }

  /**
   * The fallback phrase is at most four upper-case words of more than two
   * letters, the first food words of the text in order; splitting it gives
   * them back.
   */
  lemma FallbackPhraseWords(text: string)
    ensures var ws := Take(FoodWords(Words(FallbackSource(text))), FallbackWordLimit);
      Words(FallbackPhrase(text)) == ws && |ws| <= 4
      && forall i :: 0 <= i < |ws| ==> IsLabelWord(ws[i])
  {
    var ws := Take(FoodWords(Words(FallbackSource(text))), FallbackWordLimit);
    LabelWordsAreTokens(ws);
    WordsOfJoin(ws);
  }

  /**
   * Every result has confidence at most 1.0, an explicitly unmatched one at
   * most 0.9, and a score within [0, 1]; with a non-negative boost the
   * confidence is non-negative too.
   */
  lemma ConfidenceBounds(catalog: seq<string>, analysis: Analysis)
    ensures var r := FindBestMatchSpec(catalog, analysis);
      r.confidence <= 1.0 && (r.isExplicitUnmatched ==> r.confidence <= 0.9)
      && 0.0 <= r.score <= 1.0
      && (analysis.confidenceBoost.GetOr(0.0) >= 0.0 ==> 0.0 <= r.confidence)
  {
  }

  /** The notes, methods and boost of the analysis are passed through to the result. */
  lemma ResultCarriesAnalysis(catalog: seq<string>, analysis: Analysis)
    ensures var r := FindBestMatchSpec(catalog, analysis);
      r.synergyNotes == analysis.synergyNotes && r.analysisMethods == analysis.analysisMethods
      && r.synergyBoost == analysis.confidenceBoost.GetOr(0.0)
  {
  }

  /**
   * `original_confidence` stays within [0, 1] whenever the reported value is
   * at most 10 after rescaling (a number of at most 100 in the text).
   */
  lemma OriginalConfidenceBounds(catalog: seq<string>, analysis: Analysis)
    requires ReportedConfidence(Lower(analysis.description)) <= 10.0
    ensures 0.0 <= FindBestMatchSpec(catalog, analysis).originalConfidence <= 1.0
  {
  }

  /**
   * The explicit-unmatched path is taken exactly when the "unmatched" pattern
   * matches; its label is the stripped, upper-cased capture.
   */
  lemma ExplicitUnmatchedPath(catalog: seq<string>, analysis: Analysis)
    ensures var r, text := FindBestMatchSpec(catalog, analysis), Lower(analysis.description);
      (r.isExplicitUnmatched <==> UnmatchedCapture(text).Some?)
      && (UnmatchedCapture(text).Some? ==>
            r.matchText == Some(UnmatchedPrefix + Upper(Strip(UnmatchedCapture(text).value)))
            && r.unmatchedReason == Some(ExplicitReason))
  {
  }

  /**
   * Without the "unmatched" marker a reported confidence takes priority over
   * the match score: confidence is min(reported / 10 + boost, 1.0).
   */
  lemma ReportedConfidenceFirst(catalog: seq<string>, analysis: Analysis)
    requires UnmatchedCapture(Lower(analysis.description)).None?
    requires ReportedConfidence(Lower(analysis.description)) > 0.0
    ensures var r, v := FindBestMatchSpec(catalog, analysis), ReportedConfidence(Lower(analysis.description)) / 10.0;
      var boost := analysis.confidenceBoost.GetOr(0.0);
      r.originalConfidence == v
      && r.confidence == (if v + boost <= 1.0 then v + boost else 1.0)
  {
  }

  /**
   * On the explicit-unmatched path a positive reported value decides the
   * confidence too: a tenth of it, plus the boost, capped at 0.9; the match
   * is the capture, stripped and upper-cased, after "UNMATCHED ".
   */
  lemma ExplicitReportedConfidence(catalog: seq<string>, analysis: Analysis, g: string, reported: real)
    requires UnmatchedCapture(Lower(analysis.description)) == Some(g)
    requires ReportedConfidence(Lower(analysis.description)) == reported > 0.0
    ensures var r, boost := FindBestMatchSpec(catalog, analysis), analysis.confidenceBoost.GetOr(0.0);
      r.matchText == Some(UnmatchedPrefix + Upper(Strip(g)))
      && r.isExplicitUnmatched && r.unmatchedReason == Some(ExplicitReason)
      && r.originalConfidence == reported / 10.0
      && r.confidence == (if reported / 10.0 + boost <= UnmatchedCap then reported / 10.0 + boost else UnmatchedCap)
  {
  }

  /**
   * Detected text shared by a catalog entry decides the match: the first such
   * entry, with score 0.9 (unless the explicit marker takes over).
   */
  lemma DetectedTextDecides(catalog: seq<string>, analysis: Analysis, k: nat)
    requires DetectedText(Lower(analysis.description)) != []
    requires k < |catalog| && TextHit(catalog[k], DetectedText(Lower(analysis.description)))
    requires forall j :: 0 <= j < k ==> !TextHit(catalog[j], DetectedText(Lower(analysis.description)))
    requires UnmatchedCapture(Lower(analysis.description)).None?
    requires catalog[k] != []
    ensures var r := FindBestMatchSpec(catalog, analysis);
      r.matchText == Some(catalog[k]) && r.score == 0.9 && r.unmatchedReason.None?
  {
    var text := Lower(analysis.description);
    TextHitShortCircuit(catalog, text, DetectedText(text), k);
  }

  /**
   * Without a phase A hit and without the marker, a match that scores at
   * least 0.3 is the first catalog entry reaching the highest overlap score.
   */
  lemma OverlapDecides(catalog: seq<string>, analysis: Analysis)
    requires var text := Lower(analysis.description);
      DetectedText(text) == [] || forall j :: 0 <= j < |catalog| ==> !TextHit(catalog[j], DetectedText(text))
    requires UnmatchedCapture(Lower(analysis.description)).None?
    requires FindBestMatchSpec(catalog, analysis).unmatchedReason.None?
    ensures var r, text := FindBestMatchSpec(catalog, analysis), Lower(analysis.description);
      exists k :: 0 <= k < |catalog|
        && r.score == EntryScore(catalog[k], text) >= 0.3
        && (r.matchText == Some(catalog[k]) || (r.matchText.None? && catalog[k] == []))
        && (forall j :: 0 <= j < |catalog| ==> EntryScore(catalog[j], text) <= r.score)
        && (forall j :: 0 <= j < k ==> EntryScore(catalog[j], text) < r.score)
  {
    var text := Lower(analysis.description);
    NoTextHitUsesOverlap(catalog, text, DetectedText(text));
    ScanOverlapIsFirstMaximum(catalog, text, |catalog|);
  }

  /**
   * Without the marker, when nothing matched or the best score is below 0.3,
   * the match is "UNMATCHED " and the fallback phrase.
   */
  lemma FallbackWhenWeak(catalog: seq<string>, analysis: Analysis)
    requires var text := Lower(analysis.description);
      var c := MatchCatalog(catalog, text, DetectedText(text));
      UnmatchedCapture(text).None? && (c.best.None? || c.score < 0.3)
    ensures var r, text := FindBestMatchSpec(catalog, analysis), Lower(analysis.description);
      r.matchText == Some(UnmatchedPrefix + FallbackPhrase(text))
      && r.unmatchedReason == Some(NoMatchReason) && !r.isExplicitUnmatched
  {
  }

  /** A catalog without empty entries always yields a match string. */
  lemma MatchNeverMissing(catalog: seq<string>, analysis: Analysis)
    requires forall k :: 0 <= k < |catalog| ==> catalog[k] != []
    ensures FindBestMatchSpec(catalog, analysis).matchText.Some?
  {
  }

  /** A match is either a catalog entry or an "UNMATCHED " label. */
  lemma MatchIsEntryOrUnmatched(catalog: seq<string>, analysis: Analysis)
    ensures var r := FindBestMatchSpec(catalog, analysis);
      r.matchText.Some? ==> r.matchText.value in catalog || StartsWith(r.matchText.value, UnmatchedPrefix)
  {
    var r := FindBestMatchSpec(catalog, analysis);
    if r.matchText.Some? && !(r.matchText.value in catalog) {
      var m := r.matchText.value;
      assert m[..|UnmatchedPrefix|] == UnmatchedPrefix;
    }
  }

  /** A catalog loaded from a descriptions file always yields a match string. */
  lemma LoadedCatalogAlwaysMatches(file: Option<seq<string>>, analysis: Analysis)
    ensures FindBestMatchSpec(FileUtils.LoadDescriptions(file), analysis).matchText.Some?
  {
    MatchNeverMissing(FileUtils.LoadDescriptions(file), analysis);
  }
}
