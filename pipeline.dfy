/**
 * The tail of `analyze_image` (app/core/image_analyzer.py:124-132): the fused
 * analysis is matched against the catalog, the match is merged into it and
 * the output file name is derived from the merged dictionary.
 */
module Pipeline {
  import opened Wrappers
  import opened PyStrings
  import opened PyNumbers
  import FileUtils
  import Signals
  import Matching
  import Fusion
  import BestMatch
  import MatchFilename

  /** The dictionary `find_best_match` receives when both services answered. */
  function AnalysisOf(c: Fusion.Combined): BestMatch.Analysis {
    BestMatch.Analysis(c.description, Some(c.confidenceBoost), Some(c.synergyNotes), Some(c.analysisMethods))
  }

  /** The match result and the `match_filename` added to the merged dictionary. */
  datatype Outcome = Outcome(result: BestMatch.MatchResult, matchFilename: string)

  /**
   * `find_best_match` on the fused analysis, then `_create_match_filename` on
   * the merged dictionary: its `file_name` comes from fusion, its `match` and
   * `confidence` from the match result.
   */
  function MatchAndName(catalog: seq<string>, combined: Fusion.Combined): Outcome {
    var r := BestMatch.FindBestMatchSpec(catalog, AnalysisOf(combined));
    Outcome(r, MatchFilename.MatchFilenameOf(RequestOf(combined, r)))
  }

  /** The request `_create_match_filename` sees after the merge. */
  function RequestOf(combined: Fusion.Combined, r: BestMatch.MatchResult): MatchFilename.FilenameRequest {
    MatchFilename.FilenameRequest(Some(combined.fileName), r.matchText, Some(r.confidence))
  }

  /**
   * Fusion's notes and methods reach the result, and its zero boost leaves
   * the confidence within [0, 1] (so the file name's percentage is a whole
   * number from 0 to 100, by `MatchFilename.ConfPercentRange`).
   */
  lemma FusedResultCarriesNotes(catalog: seq<string>, openai: Fusion.OpenAIAnalysis, vision: Option<Fusion.VisionAnalysis>)
    ensures var combined := Fusion.CombineSpec(openai, vision);
      var r := MatchAndName(catalog, combined).result;
      r.synergyNotes == Some(combined.synergyNotes)
      && r.analysisMethods == Some(["openai", "azure_vision"])
      && r.synergyBoost == 0.0
      && 0.0 <= r.confidence <= 1.0
  {
    var combined := Fusion.CombineSpec(openai, vision);
    Fusion.CombineConstants(openai, vision);
    var analysis := AnalysisOf(combined);
    BestMatch.ResultCarriesAnalysis(catalog, analysis);
    BestMatch.ConfidenceBounds(catalog, analysis);
  }

  /** Without a match the image keeps the name fusion recorded. */
  lemma NoMatchKeepsFileName(combined: Fusion.Combined, r: BestMatch.MatchResult)
    requires r.matchText.None?
    ensures MatchFilename.MatchFilenameOf(RequestOf(combined, r)) == combined.fileName
  {
  }

  /**
   * Every "UNMATCHED " result, explicit or fallback, is named "UNMATCHED_"
   * followed by its cleaned label, "_conf", the percentage and the original
   * extension.
   */
  lemma UnmatchedResultName(combined: Fusion.Combined, r: BestMatch.MatchResult)
    requires r.matchText.Some? && StartsWith(r.matchText.value, BestMatch.UnmatchedPrefix)
    ensures MatchFilename.MatchFilenameOf(RequestOf(combined, r))
      == MatchFilename.UnmatchedFilePrefix + MatchFilename.UnmatchedLabel(r.matchText.value)
        + MatchFilename.ConfInfix + MatchFilename.ConfPercent(r.confidence) + MatchFilename.Ext(combined.fileName)
  {
    MarkerOfPrefix(r.matchText.value);
    MatchFilename.UnmatchedName(RequestOf(combined, r));
  }

  /** A match starting with "UNMATCHED " starts with the filename step's "UNMATCHED". */
  lemma MarkerOfPrefix(m: string)
    requires StartsWith(m, BestMatch.UnmatchedPrefix)
    ensures StartsWith(m, MatchFilename.UnmatchedMarker)
  {
    assert BestMatch.UnmatchedPrefix == MatchFilename.UnmatchedMarker + " ";
    assert m[..|MatchFilename.UnmatchedMarker|] == m[..|BestMatch.UnmatchedPrefix|][..|MatchFilename.UnmatchedMarker|];
  }

  /**
   * A catalog match that does not itself start with "UNMATCHED" is named by
   * the sanitised entry, "_conf", the percentage and the original extension.
   */
  lemma CatalogResultName(combined: Fusion.Combined, r: BestMatch.MatchResult)
    requires r.matchText.Some? && r.matchText.value != [] && !StartsWith(r.matchText.value, MatchFilename.UnmatchedMarker)
    ensures MatchFilename.MatchFilenameOf(RequestOf(combined, r))
      == FileUtils.Sanitize(r.matchText.value) + MatchFilename.ConfInfix
        + MatchFilename.ConfPercent(r.confidence) + MatchFilename.Ext(combined.fileName)
  {
    MatchFilename.CatalogMatchName(RequestOf(combined, r));
  }

  /**
   * Vision's OCR text decides the match: when fusion adds the header and the
   * text it carries (stripped, lower-cased) is shared by a catalog entry, the
   * first such entry is the match with score 0.9, unless the description is
   * explicitly marked unmatched.
   */
  lemma VisionTextDecides(catalog: seq<string>, openai: Fusion.OpenAIAnalysis, v: Fusion.VisionAnalysis, k: nat)
    requires Fusion.AddsHeader(openai.description, Fusion.DetectedTextOf(v))
    requires !IsSpace(Fusion.DetectedTextOf(v)[0])
    requires forall i :: 0 <= i < |Fusion.DetectedTextOf(v)| ==> Fusion.DetectedTextOf(v)[i] != '\n'
    requires var d := Strip(Lower(Fusion.DetectedTextOf(v)));
      k < |catalog| && catalog[k] != [] && Matching.TextHit(catalog[k], d)
      && forall j :: 0 <= j < k ==> !Matching.TextHit(catalog[j], d)
    requires Signals.UnmatchedCapture(Lower(Fusion.CombineSpec(openai, Some(v)).description)).None?
    ensures var r := MatchAndName(catalog, Fusion.CombineSpec(openai, Some(v))).result;
      r.matchText == Some(catalog[k]) && r.score == 0.9
  {
    var combined := Fusion.CombineSpec(openai, Some(v));
    var dt := Fusion.DetectedTextOf(v);
    Fusion.HeaderIsDetectedText(openai, v);
    Fusion.LowerKeepsLine(dt);
    StripShape(Lower(dt));
    BestMatch.DetectedTextDecides(catalog, AnalysisOf(combined), k);
  }

  /**
   * The explicit-unmatched case of the unit test of `find_best_match`: the
   * `[\w\s]` capture runs on past the newline into "confidence score", and
   * the reported 8/10 gives a confidence of 0.8 whatever the catalog.
   */
  lemma ExplicitUnmatchedScenario(catalog: seq<string>, analysis: BestMatch.Analysis)
    requires analysis.description == "UNMATCHED CHICKEN SNDWCH\nConfidence score: 8/10"
    requires analysis.confidenceBoost.None?
    ensures var r := BestMatch.FindBestMatchSpec(catalog, analysis);
      r.matchText == Some("UNMATCHED CHICKEN SNDWCH\nCONFIDENCE SCORE")
      && r.isExplicitUnmatched && r.unmatchedReason == Some(BestMatch.ExplicitReason)
      && r.confidence == 0.8 && r.originalConfidence == 0.8
  {
    var g := ScenarioScans(analysis.description);
    ScenarioLabel("chicken sndwch", g);
    BestMatch.ExplicitReportedConfidence(catalog, analysis, g, 8.0);
  }

  /** ... and the image is then named after the food words alone. */
  lemma ExplicitUnmatchedScenarioName(catalog: seq<string>, analysis: BestMatch.Analysis)
    requires analysis.description == "UNMATCHED CHICKEN SNDWCH\nConfidence score: 8/10"
    requires analysis.confidenceBoost.None?
    ensures var r := BestMatch.FindBestMatchSpec(catalog, analysis);
      MatchFilename.MatchFilenameOf(MatchFilename.FilenameRequest(Some("test.jpg"), r.matchText, Some(r.confidence)))
        == "UNMATCHED_CHICKEN_SNDWCH_conf80.jpg"
  {
    ExplicitUnmatchedScenario(catalog, analysis);
    var r := BestMatch.FindBestMatchSpec(catalog, analysis);
    MatchFilename.UnmatchedRunOnNameExample(MatchFilename.FilenameRequest(Some("test.jpg"), r.matchText, Some(r.confidence)));
  }

  /** What the two scans read from the test's description. */
  lemma ScenarioScans(d: string) returns (g: string)
    requires d == "UNMATCHED CHICKEN SNDWCH\nConfidence score: 8/10"
    ensures g == "chicken sndwch" + "\nconfidence score"
    ensures Signals.UnmatchedCapture(Lower(d)) == Some(g)
    ensures Signals.ReportedConfidence(Lower(d)) == 8.0
  {
    var text := Lower(d);
    var words, n := "chicken sndwch", 8;
    ScenarioText(d, text, words, n);
    Signals.UnmatchedCaptureRunsOn(words, n);
    Signals.ReportedAfterUnmatched(words, n);
    g := words + "\nconfidence score";
  }

  /** The test's description, lower-cased, in the shape the two scans are stated for. */
  lemma ScenarioText(d: string, text: string, words: string, n: nat)
    requires d == "UNMATCHED CHICKEN SNDWCH\nConfidence score: 8/10" && text == Lower(d)
    requires words == "chicken sndwch" && n == 8
    ensures text == "unmatched " + words + "\nconfidence score: " + NatToDecimal(n) + "/10"
    ensures words != [] && IsWordChar(words[0]) && forall k :: 0 <= k < |words| ==> Signals.IsWordOrSpace(words[k]) && words[k] != 'o'
  {
    ScenarioLower(d, text);
    ScenarioPieces(words, n);
  }

  lemma ScenarioLower(d: string, text: string)
    requires d == "UNMATCHED CHICKEN SNDWCH\nConfidence score: 8/10" && text == Lower(d)
    ensures text == "unmatched chicken sndwch\nconfidence score: 8/10"
  {
    var a, b, c, e := "UNMATCHED ", "CHICKEN SNDWCH", "\nConfidence score: ", "8/10";
    ScenarioSplit(d, a, b, c, e);
    LowerAppend(a + b + c, e);
    LowerAppend(a + b, c);
    LowerAppend(a, b);
    LowerMarker(a);
    LowerFood(b);
    LowerScoreLine(c);
    LowerFraction(e);
    ScenarioJoin("unmatched chicken sndwch", "\nconfidence score: ", "8", "/10");
    assert "unmatched " + "chicken sndwch" == "unmatched chicken sndwch";
    assert "8/10" == "8" + "/10";
    Assoc("unmatched chicken sndwch" + "\nconfidence score: ", "8", "/10");
  }

  lemma ScenarioSplit(d: string, a: string, b: string, c: string, e: string)
    requires d == "UNMATCHED CHICKEN SNDWCH\nConfidence score: 8/10"
    requires a == "UNMATCHED " && b == "CHICKEN SNDWCH" && c == "\nConfidence score: " && e == "8/10"
    ensures d == a + b + c + e
  {
  }

  lemma LowerMarker(a: string)
    requires a == "UNMATCHED "
    ensures Lower(a) == "unmatched "
  {
  }

  lemma LowerFood(b: string)
    requires b == "CHICKEN SNDWCH"
    ensures Lower(b) == "chicken sndwch"
  {
  }

  lemma LowerScoreLine(c: string)
    requires c == "\nConfidence score: "
    ensures Lower(c) == "\nconfidence score: "
  {
  }

  lemma LowerFraction(e: string)
    requires e == "8/10"
    ensures Lower(e) == "8/10"
  {
  }

  lemma ScenarioPieces(words: string, n: nat)
    requires words == "chicken sndwch" && n == 8
    ensures "unmatched " + words + "\nconfidence score: " + NatToDecimal(n) + "/10" == "unmatched chicken sndwch\nconfidence score: 8/10"
    ensures words != [] && IsWordChar(words[0]) && forall k :: 0 <= k < |words| ==> Signals.IsWordOrSpace(words[k]) && words[k] != 'o'
  {
    var head := "unmatched " + words;
    ScenarioHead(words, head);
    assert NatToDecimal(n) == "8";
    ScenarioJoin(head, "\nconfidence score: ", NatToDecimal(n), "/10");
  }

  lemma ScenarioHead(words: string, head: string)
    requires words == "chicken sndwch" && head == "unmatched " + words
    ensures head == "unmatched chicken sndwch"
  {
  }

  lemma ScenarioJoin(a: string, b: string, c: string, d: string)
    requires a == "unmatched chicken sndwch" && b == "\nconfidence score: " && c == "8" && d == "/10"
    ensures a + b + c + d == "unmatched chicken sndwch\nconfidence score: 8/10"
  {
  }

  /** The captured text, stripped and upper-cased, as it appears in the match. */
  lemma ScenarioLabel(words: string, g: string)
    requires words == "chicken sndwch" && g == words + "\nconfidence score"
    ensures BestMatch.UnmatchedPrefix + Upper(Strip(g)) == "UNMATCHED CHICKEN SNDWCH\nCONFIDENCE SCORE"
  {
    ScenarioStrip(words, g);
    ScenarioUpper(g);
  }

  lemma ScenarioStrip(words: string, g: string)
    requires words == "chicken sndwch" && g == words + "\nconfidence score"
    ensures Strip(g) == g
  {
    assert g == "" + g + "";
    StripPadded("", g, "");
  }

  lemma ScenarioUpper(g: string)
    requires g == "chicken sndwch" + "\nconfidence score"
    ensures BestMatch.UnmatchedPrefix + Upper(g) == "UNMATCHED CHICKEN SNDWCH\nCONFIDENCE SCORE"
  {
    var a, b := "chicken sndwch", "\nconfidence score";
    UpperAppend(a, b);
    UpperFood(a);
    UpperScoreLine(b);
    UpperJoin(BestMatch.UnmatchedPrefix, "CHICKEN SNDWCH", "\nCONFIDENCE SCORE");
    Assoc(BestMatch.UnmatchedPrefix, "CHICKEN SNDWCH", "\nCONFIDENCE SCORE");
  }

  lemma UpperFood(a: string)
    requires a == "chicken sndwch"
    ensures Upper(a) == "CHICKEN SNDWCH"
  {
  }

  lemma UpperScoreLine(b: string)
    requires b == "\nconfidence score"
    ensures Upper(b) == "\nCONFIDENCE SCORE"
  {
  }

  lemma UpperJoin(p: string, a: string, b: string)
    requires p == "UNMATCHED " && a == "CHICKEN SNDWCH" && b == "\nCONFIDENCE SCORE"
    ensures p + a + b == "UNMATCHED CHICKEN SNDWCH\nCONFIDENCE SCORE"
  {
  }
}
