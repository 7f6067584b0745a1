/**
 * The three regular-expression scans of `find_best_match`
 * (app/core/image_analyzer.py:211-233).  Each runs over the lower-cased
 * description and is written as a scanner that returns the captured group,
 * or None where `re.search` finds no match.
 */
module Signals {
  import opened Wrappers
  import opened PyStrings
  import opened PyNumbers

  const DetectedMarker: string := "text detected:"
  const ConfidenceWord: string := "confidence"
  const ScoreWord: string := "score"
  const UnmatchedWord: string := "unmatched"

  predicate IsSpaceOrColon(c: char) { IsSpace(c) || c == ':' }

  predicate IsSpaceOrHyphen(c: char) { IsSpace(c) || c == '-' }

  predicate IsHyphen(c: char) { c == '-' }

  predicate IsWordOrSpace(c: char) { IsWordChar(c) || IsSpace(c) }

  /**
   * Group 1 of `text detected:\s*(.*?)(?:\n|$)`: at the leftmost marker, skip
   * whitespace (newlines included), then take the rest of that line.
   */
  function DetectedTextCapture(text: string): (g: Option<string>)
    ensures g.Some? <==> Contains(text, DetectedMarker)
    ensures g.Some? ==> forall k :: 0 <= k < |g.value| ==> g.value[k] != '\n'
    ensures g.Some? && g.value != [] ==> !IsSpace(g.value[0])
  {
    IndexOfFinds(text, DetectedMarker);
    match IndexOfFrom(text, DetectedMarker, 0)
    case None => None
    case Some(j) =>
      var k := SkipWhile(IsSpace, text, j + |DetectedMarker|);
      var e := SkipWhile(IsNotNewline, text, k);
      Some(text[k..e])
  }

  /** The detected text as `find_best_match` keeps it: stripped, lower-cased, "" when absent. */
  function DetectedText(text: string): (d: string)
    ensures !Contains(text, DetectedMarker) ==> d == []
    ensures forall k :: 0 <= k < |d| ==> !IsAsciiUpper(d[k])
  {
    match DetectedTextCapture(text)
    case None => []
    case Some(g) => Lower(Strip(g))
  }

  /** Where `[\s:]*(score)?[\s:]*` stops when started at `p`. */
  function NumberStart(text: string, p: nat): (q: nat)
    requires p <= |text|
    ensures p <= q <= |text|
    ensures forall k :: p <= k < q ==> IsSpaceOrColon(text[k]) || IsAsciiLower(text[k])
  {
    var a := SkipWhile(IsSpaceOrColon, text, p);
    if IsAt(text, ScoreWord, a) then
      assert forall k :: a <= k < a + |ScoreWord| ==> text[k] == ScoreWord[k - a];
      SkipWhile(IsSpaceOrColon, text, a + |ScoreWord|)
    else a
  }

  /**
   * Group 2 of `confidence[\s:]*(score)?[\s:]*([\d\.]+)(?:\/10)?`, searching
   * from `from`: an occurrence of "confidence" not followed by a number is
   * passed over and the search resumes after it.
   */
  function ConfidenceCaptureFrom(text: string, from: nat): (g: Option<string>)
    ensures g.Some? ==> g.value != [] && forall k :: 0 <= k < |g.value| ==> IsDigitOrDot(g.value[k])
    ensures g.Some? ==> exists j :: from <= j && IsAt(text, ConfidenceWord, j)
    ensures (forall j :: from <= j ==> !IsAt(text, ConfidenceWord, j)) ==> g.None?
    decreases |text| - from
  {
    match IndexOfFrom(text, ConfidenceWord, from)
    case None => None
    case Some(j) =>
      var d := NumberStart(text, j + |ConfidenceWord|);
      var e := SkipWhile(IsDigitOrDot, text, d);
      if d < e then Some(text[d..e]) else ConfidenceCaptureFrom(text, j + 1)
  }

  function ConfidenceCapture(text: string): Option<string> {
    ConfidenceCaptureFrom(text, 0)
  }

  /** `if confidence_score > 10: confidence_score = confidence_score / 10` (applied once). */
  function Rescale(v: real): (r: real)
    requires v >= 0.0
    ensures 0.0 <= r <= v
    ensures v <= 10.0 ==> r == v
    ensures v > 10.0 ==> r * 10.0 == v
    ensures v <= 100.0 ==> r <= 10.0
  {
    if v > 10.0 then v / 10.0 else v
  }

  /**
   * The self-reported confidence on its 0-10 scale; 0 stands for "absent",
   * whether no number was found or `float()` rejected it.
   */
  function ReportedConfidence(text: string): (r: real)
    ensures r >= 0.0
    ensures !Contains(text, ConfidenceWord) ==> r == 0.0
  {
    match ConfidenceCapture(text)
    case None => 0.0
    case Some(g) =>
      match ParseFloat(g)
      case None => 0.0
      case Some(v) => Rescale(v)
  }

  /**
   * Group 1 of `unmatched[\s\-]*([\w\s]+)`: after "unmatched" and a run of
   * whitespace and hyphens, the run of word characters and whitespace.  When
   * no word character follows the run, the engine backtracks to the last
   * whitespace character of the run and captures that one character.
   */
  function UnmatchedCaptureFrom(text: string, from: nat): (g: Option<string>)
    ensures g.Some? ==> g.value != [] && forall k :: 0 <= k < |g.value| ==> IsWordOrSpace(g.value[k])
    ensures g.Some? ==> exists j :: from <= j && IsAt(text, UnmatchedWord, j)
    ensures (forall j :: from <= j ==> !IsAt(text, UnmatchedWord, j)) ==> g.None?
    decreases |text| - from
  {
    match IndexOfFrom(text, UnmatchedWord, from)
    case None => None
    case Some(j) =>
      match UnmatchedHit(text, j)
      case Some(g) => Some(g)
      case None => UnmatchedCaptureFrom(text, j + 1)
  }

  /**
   * The group matched at an occurrence of "unmatched" at `j`: after a run of
   * whitespace and hyphens, the run of word characters and whitespace.  When
   * no word character follows the run, the engine backtracks to the last
   * whitespace character of the run and captures that one character; with
   * no whitespace in the run there is no match at `j`.
   */
  function UnmatchedHit(text: string, j: nat): (g: Option<string>)
    requires j + |UnmatchedWord| <= |text|
    ensures g.Some? ==> g.value != [] && forall k :: 0 <= k < |g.value| ==> IsWordOrSpace(g.value[k])
  {
    var p := j + |UnmatchedWord|;
    var q := SkipWhile(IsSpaceOrHyphen, text, p);
    if q < |text| && IsWordChar(text[q]) then
      Some(text[q..SkipWhile(IsWordOrSpace, text, q)])
    else
      var i := SkipWhileBack(IsHyphen, text, q);
      if p < i then
        assert IsSpaceOrHyphen(text[i - 1]) && !IsHyphen(text[i - 1]);
        Some([text[i - 1]])
      else None
  }

  function UnmatchedCapture(text: string): Option<string> {
    UnmatchedCaptureFrom(text, 0)
  }

  /** `pat` occurs at `p` and nowhere before: the search from 0 finds it at `p`. */
  lemma FirstAt(s: string, pat: string, p: nat)
    requires IsAt(s, pat, p)
    requires forall k :: 0 <= k < p ==> !IsAt(s, pat, k)
    ensures IndexOfFrom(s, pat, 0) == Some(p)
  {
  }

  /**
   * A word absent from `pre` is absent from every position of `pre + rest`
   * before `rest`, when no occurrence can straddle the boundary.
   */
  lemma AbsentBefore(pre: string, rest: string, w: string)
    requires forall k :: 0 <= k < |pre| ==> !IsAt(pre, w, k)
    requires forall k :: 0 <= k < |pre| && |pre| < k + |w| ==> !IsAt(pre + rest, w, k)
    ensures forall k :: 0 <= k < |pre| ==> !IsAt(pre + rest, w, k)
  {
    forall k | 0 <= k < |pre| && k + |w| <= |pre|
      ensures !IsAt(pre + rest, w, k)
    {
      assert (pre + rest)[k..k + |w|] == pre[k..k + |w|];
      assert !IsAt(pre, w, k);
    }
  }

  /** No "confidence" overlaps the start of another: no proper suffix of the word begins with "co". */
  lemma ConfidenceNoStraddle(pre: string, rest: string)
    requires IsAt(rest, ConfidenceWord, 0)
    ensures forall k :: 0 <= k < |pre| && |pre| < k + |ConfidenceWord| ==> !IsAt(pre + rest, ConfidenceWord, k)
  {
    var s := pre + rest;
    var p := |pre|;
    assert s[p] == 'c' && s[p + 1] == 'o' by {
      assert rest[..|ConfidenceWord|] == ConfidenceWord;
    }
    forall k | 0 <= k < p && p < k + |ConfidenceWord|
      ensures !IsAt(s, ConfidenceWord, k)
    {
      if k + |ConfidenceWord| <= |s| {
        assert s[k..k + |ConfidenceWord|][p - k] == s[p];
        if p - k < 9 {
          assert s[k..k + |ConfidenceWord|][p - k + 1] == s[p + 1];
        }
      }
    }
  }

  /** No "unmatched" overlaps the start of another: its only 'u' is its first letter. */
  lemma UnmatchedNoStraddle(pre: string, rest: string)
    requires IsAt(rest, UnmatchedWord, 0)
    ensures forall k :: 0 <= k < |pre| && |pre| < k + |UnmatchedWord| ==> !IsAt(pre + rest, UnmatchedWord, k)
  {
    var s := pre + rest;
    var p := |pre|;
    assert s[p] == 'u' by {
      assert rest[..|UnmatchedWord|] == UnmatchedWord;
    }
    forall k | 0 <= k < p && p < k + |UnmatchedWord|
      ensures !IsAt(s, UnmatchedWord, k)
    {
      if k + |UnmatchedWord| <= |s| {
        assert s[k..k + |UnmatchedWord|][p - k] == s[p];
      }
    }
  }

  /** The first "confidence" of `pre + rest`, when `pre` has none and `rest` starts with it, is at `|pre|`. */
  lemma FirstConfidenceAt(pre: string, rest: string)
    requires forall k :: 0 <= k < |pre| ==> !IsAt(pre, ConfidenceWord, k)
    requires IsAt(rest, ConfidenceWord, 0)
    ensures IndexOfFrom(pre + rest, ConfidenceWord, 0) == Some(|pre|)
  {
    ConfidenceNoStraddle(pre, rest);
    AbsentBefore(pre, rest, ConfidenceWord);
    assert (pre + rest)[|pre|..|pre| + |ConfidenceWord|] == rest[..|ConfidenceWord|];
    FirstAt(pre + rest, ConfidenceWord, |pre|);
  }

  /** The first "unmatched" of `pre + rest`, when `pre` has none and `rest` starts with it, is at `|pre|`. */
  lemma FirstUnmatchedAt(pre: string, rest: string)
    requires forall k :: 0 <= k < |pre| ==> !IsAt(pre, UnmatchedWord, k)
    requires IsAt(rest, UnmatchedWord, 0)
    ensures IndexOfFrom(pre + rest, UnmatchedWord, 0) == Some(|pre|)
  {
    UnmatchedNoStraddle(pre, rest);
    AbsentBefore(pre, rest, UnmatchedWord);
    assert (pre + rest)[|pre|..|pre| + |UnmatchedWord|] == rest[..|UnmatchedWord|];
    FirstAt(pre + rest, UnmatchedWord, |pre|);
  }

  /** `[\s:]*(score)?[\s:]*` run over separators and an optional "score" stops at the number after them. */
  lemma NumberStartAt(u: string, sep1: string, word: string, sep2: string, tail: string)
    requires forall k :: 0 <= k < |sep1| ==> IsSpaceOrColon(sep1[k])
    requires word == [] || word == ScoreWord
    requires forall k :: 0 <= k < |sep2| ==> IsSpaceOrColon(sep2[k])
    requires tail != [] && IsDigitOrDot(tail[0])
    ensures NumberStart(u + sep1 + word + sep2 + tail, |u|) == |u| + |sep1| + |word| + |sep2|
  {
    if word == ScoreWord {
      NumberStartScore(u, sep1, sep2, tail);
    } else {
      assert u + sep1 + word == u + sep1;
      Assoc(u, sep1, sep2);
      NumberStartPlain(u, sep1 + sep2, tail);
    }
  }

  /** Without "score", the separators alone are skipped. */
  lemma NumberStartPlain(u: string, sep: string, tail: string)
    requires forall k :: 0 <= k < |sep| ==> IsSpaceOrColon(sep[k])
    requires tail != [] && IsDigitOrDot(tail[0])
    ensures NumberStart(u + sep + tail, |u|) == |u| + |sep|
  {
    RunAt(IsSpaceOrColon, u, sep, tail);
    assert !IsAt(u + sep + tail, ScoreWord, |u| + |sep|) by {
      assert (u + sep + tail)[|u| + |sep|] != ScoreWord[0];
    }
  }

  /** With "score", the separators on both sides of it are skipped too. */
  lemma NumberStartScore(u: string, sep1: string, sep2: string, tail: string)
    requires forall k :: 0 <= k < |sep1| ==> IsSpaceOrColon(sep1[k])
    requires forall k :: 0 <= k < |sep2| ==> IsSpaceOrColon(sep2[k])
    requires tail != [] && IsDigitOrDot(tail[0])
    ensures NumberStart(u + sep1 + ScoreWord + sep2 + tail, |u|) == |u| + |sep1| + |ScoreWord| + |sep2|
  {
    var v := u + sep1;
    var w := v + ScoreWord;
    Assoc(v, ScoreWord, sep2);
    Assoc(v, ScoreWord + sep2, tail);
    RunAt(IsSpaceOrColon, u, sep1, ScoreWord + sep2 + tail);
    ScoreAt(v, sep2, tail);
    RunAt(IsSpaceOrColon, w, sep2, tail);
  }

  lemma ScoreAt(v: string, sep: string, tail: string)
    ensures IsAt(v + ScoreWord + sep + tail, ScoreWord, |v|)
  {
    assert (v + ScoreWord + sep + tail)[|v|..|v| + |ScoreWord|] == ScoreWord;
  }

  /** One step of the confidence scan: the first "confidence" at `j` is followed by a number. */
  lemma ConfidenceCaptureStep(s: string, j: nat, d: nat, e: nat)
    requires IndexOfFrom(s, ConfidenceWord, 0) == Some(j)
    requires d == NumberStart(s, j + |ConfidenceWord|)
    requires e == SkipWhile(IsDigitOrDot, s, d) && d < e
    ensures ConfidenceCapture(s) == Some(s[d..e])
  {
  }

  /** One step of the unmatched scan: the first "unmatched" at `j` is followed, past `q`, by a word character. */
  lemma UnmatchedCaptureStep(s: string, j: nat, q: nat, e: nat)
    requires IndexOfFrom(s, UnmatchedWord, 0) == Some(j)
    requires q == SkipWhile(IsSpaceOrHyphen, s, j + |UnmatchedWord|)
    requires q < |s| && IsWordChar(s[q])
    requires e == SkipWhile(IsWordOrSpace, s, q)
    ensures UnmatchedCapture(s) == Some(s[q..e])
  {
  }

  /**
   * The confidence scan reads the number after the first "confidence", its
   * separators and an optional "score": for example "8" in "confidence score: 8/10".
   */
  lemma ConfidenceCaptureAt(pre: string, sep1: string, word: string, sep2: string, g: string, post: string)
    requires forall k :: 0 <= k < |pre| ==> !IsAt(pre, ConfidenceWord, k)
    requires forall k :: 0 <= k < |sep1| ==> IsSpaceOrColon(sep1[k])
    requires word == [] || word == ScoreWord
    requires forall k :: 0 <= k < |sep2| ==> IsSpaceOrColon(sep2[k])
    requires g != [] && forall k :: 0 <= k < |g| ==> IsDigitOrDot(g[k])
    requires post == [] || !IsDigitOrDot(post[0])
    ensures ConfidenceCapture(pre + ConfidenceWord + sep1 + word + sep2 + g + post) == Some(g)
  {
    var u := pre + ConfidenceWord;
    var v := u + sep1 + word + sep2;
    var s := v + g + post;
    var rest := ConfidenceWord + sep1 + word + sep2 + g + post;
    Assoc(pre, ConfidenceWord, sep1);
    Assoc(pre, ConfidenceWord + sep1, word);
    Assoc(pre, ConfidenceWord + sep1 + word, sep2);
    Assoc(pre, ConfidenceWord + sep1 + word + sep2, g);
    Assoc(pre, ConfidenceWord + sep1 + word + sep2 + g, post);
    assert rest[..|ConfidenceWord|] == ConfidenceWord;
    FirstConfidenceAt(pre, rest);
    Assoc(v, g, post);
    NumberStartAt(u, sep1, word, sep2, g + post);
    RunAt(IsDigitOrDot, v, g, post);
    MiddleOf(v, g, post);
    ConfidenceCaptureStep(s, |pre|, |v|, |v| + |g|);
  }

  /**
   * The unmatched scan reads, after the first "unmatched" and its run of
   * whitespace and hyphens, the whole run of word characters and whitespace
   * that follows, newlines included.
   */
  lemma UnmatchedCaptureAt(pre: string, sep: string, body: string, post: string)
    requires forall k :: 0 <= k < |pre| ==> !IsAt(pre, UnmatchedWord, k)
    requires forall k :: 0 <= k < |sep| ==> IsSpaceOrHyphen(sep[k])
    requires body != [] && IsWordChar(body[0]) && forall k :: 0 <= k < |body| ==> IsWordOrSpace(body[k])
    requires post == [] || !IsWordOrSpace(post[0])
    ensures UnmatchedCapture(pre + UnmatchedWord + sep + body + post) == Some(body)
  {
    var u := pre + UnmatchedWord;
    var w := u + sep;
    var s := w + body + post;
    var rest := UnmatchedWord + sep + body + post;
    Assoc(pre, UnmatchedWord, sep);
    Assoc(pre, UnmatchedWord + sep, body);
    Assoc(pre, UnmatchedWord + sep + body, post);
    assert rest[..|UnmatchedWord|] == UnmatchedWord;
    FirstUnmatchedAt(pre, rest);
    Assoc(w, body, post);
    RunAt(IsSpaceOrHyphen, u, sep, body + post);
    RunAt(IsWordOrSpace, w, body, post);
    MiddleOf(w, body, post);
    UnmatchedCaptureStep(s, |pre|, |w|, |w| + |body|);
  }

  /**
   * A whole number written after the first "confidence" is the reported
   * confidence, divided by 10 when it is above 10: "confidence score: 8/10"
   * reports 8.
   */
  lemma ReportedConfidenceOf(pre: string, sep1: string, word: string, sep2: string, n: nat, post: string)
    requires forall k :: 0 <= k < |pre| ==> !IsAt(pre, ConfidenceWord, k)
    requires forall k :: 0 <= k < |sep1| ==> IsSpaceOrColon(sep1[k])
    requires word == [] || word == ScoreWord
    requires forall k :: 0 <= k < |sep2| ==> IsSpaceOrColon(sep2[k])
    requires post == [] || !IsDigitOrDot(post[0])
    ensures ReportedConfidence(pre + ConfidenceWord + sep1 + word + sep2 + NatToDecimal(n) + post) == Rescale(n as real)
  {
    ConfidenceCaptureAt(pre, sep1, word, sep2, NatToDecimal(n), post);
    ParseFloatOfNatToDecimal(n);
  }

  /**
   * When the digits and dots after the first "confidence" are not a number
   * `float()` accepts, the reported confidence is 0, as if absent.
   */
  lemma ReportedConfidenceUnparsed(pre: string, sep1: string, word: string, sep2: string, g: string, post: string)
    requires forall k :: 0 <= k < |pre| ==> !IsAt(pre, ConfidenceWord, k)
    requires forall k :: 0 <= k < |sep1| ==> IsSpaceOrColon(sep1[k])
    requires word == [] || word == ScoreWord
    requires forall k :: 0 <= k < |sep2| ==> IsSpaceOrColon(sep2[k])
    requires g != [] && forall k :: 0 <= k < |g| ==> IsDigitOrDot(g[k])
    requires ParseFloat(g).None?
    requires post == [] || !IsDigitOrDot(post[0])
    ensures ReportedConfidence(pre + ConfidenceWord + sep1 + word + sep2 + g + post) == 0.0
  {
    ConfidenceCaptureAt(pre, sep1, word, sep2, g, post);
  }

  /** In "confidence score: N/10" the capture is exactly the digits of N. */
  lemma ConfidenceCaptureOutOfTen(n: nat)
    ensures ConfidenceCapture("confidence score: " + NatToDecimal(n) + "/10") == Some(NatToDecimal(n))
  {
    var sep1, sep2, post := " ", ": ", "/10";
    assert "confidence score: " == [] + ConfidenceWord + sep1 + ScoreWord + sep2;
    ConfidenceCaptureAt([], sep1, ScoreWord, sep2, NatToDecimal(n), post);
  }

  /** "confidence score: N/10", the format the description is asked for, reports N. */
  lemma ReportedOutOfTen(n: nat)
    requires n <= 10
    ensures ReportedConfidence("confidence score: " + NatToDecimal(n) + "/10") == n as real
  {
    var sep1, sep2, post := " ", ": ", "/10";
    assert "confidence score: " == [] + ConfidenceWord + sep1 + ScoreWord + sep2;
    ReportedConfidenceOf([], sep1, ScoreWord, sep2, n, post);
  }

  /** "confidence: N" with N above 10 is read as a percentage-like value and divided by 10. */
  lemma ReportedRescaled(n: nat)
    requires n > 10
    ensures ReportedConfidence("confidence: " + NatToDecimal(n)) == n as real / 10.0
  {
    var sep1, sep2: string := ":", " ";
    assert "confidence: " == [] + ConfidenceWord + sep1 + [] + sep2;
    assert "confidence: " + NatToDecimal(n) == [] + ConfidenceWord + sep1 + [] + sep2 + NatToDecimal(n) + [];
    ReportedConfidenceOf([], sep1, [], sep2, n, []);
  }

  /** "confidence: ." has no digit: `float()` fails and the reported confidence is 0. */
  lemma ReportedLoneDot(post: string)
    requires post == [] || !IsDigitOrDot(post[0])
    ensures ReportedConfidence("confidence: ." + post) == 0.0
  {
    var sep1, sep2, g: string := ":", " ", ".";
    assert !HasDigit(g);
    assert "confidence: ." == [] + ConfidenceWord + sep1 + [] + sep2 + g;
    ReportedConfidenceUnparsed([], sep1, [], sep2, g, post);
  }

  /**
   * The shape of the unit test's explicit-unmatched description, lower-cased:
   * the capture runs on across the newline into "confidence score" and stops
   * at the colon.
   */
  lemma UnmatchedCaptureRunsOn(words: string, n: nat)
    requires words != [] && IsWordChar(words[0])
    requires forall k :: 0 <= k < |words| ==> IsWordOrSpace(words[k])
    ensures UnmatchedCapture("unmatched " + words + "\nconfidence score: " + NatToDecimal(n) + "/10")
      == Some(words + "\nconfidence score")
  {
    var body := words + "\nconfidence score";
    var post := ": " + NatToDecimal(n) + "/10";
    RunOnPieces(words, n);
    UnmatchedCaptureAt([], " ", body, post);
  }

  /** The pieces of the run-on description, as UnmatchedCaptureAt takes them. */
  lemma RunOnPieces(words: string, n: nat)
    requires words != [] && IsWordChar(words[0])
    requires forall k :: 0 <= k < |words| ==> IsWordOrSpace(words[k])
    ensures var body := words + "\nconfidence score";
      && body != [] && IsWordChar(body[0]) && (forall k :: 0 <= k < |body| ==> IsWordOrSpace(body[k]))
      && "unmatched " + words + "\nconfidence score: " + NatToDecimal(n) + "/10"
         == [] + UnmatchedWord + " " + body + (": " + NatToDecimal(n) + "/10")
  {
    var tail := "\nconfidence score";
    var body := words + tail;
    assert forall k :: 0 <= k < |tail| ==> IsWordOrSpace(tail[k]);
    assert forall k :: 0 <= k < |body| ==> IsWordOrSpace(body[k]) by {
      assert forall k :: |words| <= k < |body| ==> body[k] == tail[k - |words|];
    }
    assert "unmatched " == [] + UnmatchedWord + " ";
    Assoc(words, tail, ": " + NatToDecimal(n) + "/10");
  }

  /** Text without the letter 'o' holds no "confidence". */
  lemma NoConfidenceWithoutLetterO(s: string)
    requires forall k :: 0 <= k < |s| ==> s[k] != 'o'
    ensures forall k :: 0 <= k < |s| ==> !IsAt(s, ConfidenceWord, k)
  {
    forall k | 0 <= k < |s|
      ensures !IsAt(s, ConfidenceWord, k)
    {
      if k + |ConfidenceWord| <= |s| {
        assert s[k..k + |ConfidenceWord|][1] == s[k + 1];
      }
    }
  }

  /** `u + (a + b + c + d + e)` regrouped to the left. */
  lemma Regroup5(u: string, a: string, b: string, c: string, d: string, e: string)
    ensures u + (a + b + c + d + e) == u + a + b + c + d + e
  {
    Assoc(u, a, b);
    Assoc(u, a + b, c);
    Assoc(u, a + b + c, d);
    Assoc(u, a + b + c + d, e);
  }

  /**
   * The reported "N/10" on the line after an "unmatched" line, as in the
   * unit test's description, is read as N (when the food words hold no 'o',
   * so no "confidence" can start before the real one).
   */
  lemma ReportedAfterUnmatched(words: string, n: nat)
    requires forall k :: 0 <= k < |words| ==> words[k] != 'o'
    requires n <= 10
    ensures ReportedConfidence("unmatched " + words + "\nconfidence score: " + NatToDecimal(n) + "/10") == n as real
  {
    var u := "unmatched " + words;
    var pre := u + "\n";
    assert forall k :: 0 <= k < |pre| ==> pre[k] != 'o' by {
      assert forall k :: 10 <= k < |u| ==> u[k] == words[k - 10];
    }
    NoConfidenceWithoutLetterO(pre);
    var sep1, sep2, post := " ", ": ", "/10";
    assert "\nconfidence score: " == "\n" + ConfidenceWord + sep1 + ScoreWord + sep2;
    Regroup5(u, "\n", ConfidenceWord, sep1, ScoreWord, sep2);
    ReportedConfidenceOf(pre, sep1, ScoreWord, sep2, n, post);
  }

  /** The scan's hit at `j` has a number after it: that number is the capture. */
  lemma ConfidenceStepTake(text: string, from: nat, j: nat, d: nat, e: nat)
    requires IndexOfFrom(text, ConfidenceWord, from) == Some(j)
    requires d == NumberStart(text, j + |ConfidenceWord|)
    requires e == SkipWhile(IsDigitOrDot, text, d) && d < e
    ensures ConfidenceCaptureFrom(text, from) == Some(text[d..e])
  {
  }

  /** The scan's hit at `j` has no number after it: the scan resumes at `j + 1`. */
  lemma ConfidenceStepSkip(text: string, from: nat, j: nat, d: nat)
    requires IndexOfFrom(text, ConfidenceWord, from) == Some(j)
    requires d == NumberStart(text, j + |ConfidenceWord|)
    requires SkipWhile(IsDigitOrDot, text, d) == d
    ensures ConfidenceCaptureFrom(text, from) == ConfidenceCaptureFrom(text, j + 1)
  {
  }

  /**
   * One step of the confidence scan, the case `re.search` passes over: the
   * first "confidence" at or after `from` is at `j` and no digit or dot
   * follows its separators, so the search resumes one character later.
   */
  lemma ConfidenceCaptureSkipsBare(text: string, from: nat, j: nat)
    requires from <= j && IsAt(text, ConfidenceWord, j)
    requires forall k :: from <= k < j ==> !IsAt(text, ConfidenceWord, k)
    requires var d := NumberStart(text, j + |ConfidenceWord|); SkipWhile(IsDigitOrDot, text, d) == d
    ensures ConfidenceCaptureFrom(text, from) == ConfidenceCaptureFrom(text, j + 1)
  {
    FirstFrom(text, ConfidenceWord, from, j);
    ConfidenceStepSkip(text, from, j, NumberStart(text, j + |ConfidenceWord|));
  }

  /**
   * One step of the confidence scan, the case that ends it: the first
   * "confidence" at or after `from` is at `j` and its number is captured.
   */
  lemma ConfidenceCaptureTakesNumber(text: string, from: nat, j: nat)
    requires from <= j && IsAt(text, ConfidenceWord, j)
    requires forall k :: from <= k < j ==> !IsAt(text, ConfidenceWord, k)
    ensures var d := NumberStart(text, j + |ConfidenceWord|);
      var e := SkipWhile(IsDigitOrDot, text, d);
      d < e ==> ConfidenceCaptureFrom(text, from) == Some(text[d..e])
  {
    FirstFrom(text, ConfidenceWord, from, j);
    var d := NumberStart(text, j + |ConfidenceWord|);
    var e := SkipWhile(IsDigitOrDot, text, d);
    if d < e {
      ConfidenceStepTake(text, from, j, d, e);
    }
  }

  /** The confidence scan skips a stretch where no "confidence" starts. */
  lemma ConfidenceCaptureClear(text: string, a: nat, b: nat)
    requires a <= b
    requires forall k :: a <= k < b ==> !IsAt(text, ConfidenceWord, k)
    ensures ConfidenceCaptureFrom(text, a) == ConfidenceCaptureFrom(text, b)
  {
    IndexOfFromClear(text, ConfidenceWord, a, b);
    match IndexOfFrom(text, ConfidenceWord, b)
    case None =>
      assert ConfidenceCaptureFrom(text, a) == None;
    case Some(j) =>
      var d := NumberStart(text, j + |ConfidenceWord|);
      var e := SkipWhile(IsDigitOrDot, text, d);
      if d < e {
        ConfidenceStepTake(text, a, j, d, e);
        ConfidenceStepTake(text, b, j, d, e);
      } else {
        ConfidenceStepSkip(text, a, j, d);
        ConfidenceStepSkip(text, b, j, d);
      }
  }

  /** The scan's hit at `j` is followed, past its spaces and hyphens, by a word character. */
  lemma UnmatchedStepWords(text: string, from: nat, j: nat, q: nat, e: nat)
    requires IndexOfFrom(text, UnmatchedWord, from) == Some(j)
    requires q == SkipWhile(IsSpaceOrHyphen, text, j + |UnmatchedWord|)
    requires q < |text| && IsWordChar(text[q])
    requires e == SkipWhile(IsWordOrSpace, text, q)
    ensures UnmatchedCaptureFrom(text, from) == Some(text[q..e])
  {
  }

  /** The scan's hit at `j` has no word after it, but its run ends in whitespace then hyphens. */
  lemma UnmatchedStepBack(text: string, from: nat, j: nat, q: nat, i: nat, c: char)
    requires IndexOfFrom(text, UnmatchedWord, from) == Some(j)
    requires q == SkipWhile(IsSpaceOrHyphen, text, j + |UnmatchedWord|)
    requires !(q < |text| && IsWordChar(text[q]))
    requires i == SkipWhileBack(IsHyphen, text, q) && j + |UnmatchedWord| < i
    requires c == text[i - 1]
    ensures UnmatchedCaptureFrom(text, from) == Some([c])
  {
    UnmatchedHitBack(text, j, q, i, c);
  }

  /** The backtracking case of one hit, on its own. */
  lemma UnmatchedHitBack(text: string, j: nat, q: nat, i: nat, c: char)
    requires j + |UnmatchedWord| <= |text|
    requires q == SkipWhile(IsSpaceOrHyphen, text, j + |UnmatchedWord|)
    requires !(q < |text| && IsWordChar(text[q]))
    requires i == SkipWhileBack(IsHyphen, text, q) && j + |UnmatchedWord| < i
    requires c == text[i - 1]
    ensures UnmatchedHit(text, j) == Some([c])
  {
  }

  /** The scan's hit at `j` has neither a word nor whitespace after it: the scan resumes at `j + 1`. */
  lemma UnmatchedStepSkip(text: string, from: nat, j: nat, q: nat)
    requires IndexOfFrom(text, UnmatchedWord, from) == Some(j)
    requires q == SkipWhile(IsSpaceOrHyphen, text, j + |UnmatchedWord|)
    requires !(q < |text| && IsWordChar(text[q]))
    requires SkipWhileBack(IsHyphen, text, q) <= j + |UnmatchedWord|
    ensures UnmatchedCaptureFrom(text, from) == UnmatchedCaptureFrom(text, j + 1)
  {
  }

  /**
   * One step of the unmatched scan, the case that reads words: after the
   * first "unmatched" at or after `from` and its spaces and hyphens comes a
   * word character, and the run of word characters and whitespace is captured.
   */
  lemma UnmatchedCaptureTakesWords(text: string, from: nat, j: nat)
    requires from <= j && IsAt(text, UnmatchedWord, j)
    requires forall k :: from <= k < j ==> !IsAt(text, UnmatchedWord, k)
    ensures var q := SkipWhile(IsSpaceOrHyphen, text, j + |UnmatchedWord|);
      q < |text| && IsWordChar(text[q]) ==>
        UnmatchedCaptureFrom(text, from) == Some(text[q..SkipWhile(IsWordOrSpace, text, q)])
  {
    FirstFrom(text, UnmatchedWord, from, j);
    var q := SkipWhile(IsSpaceOrHyphen, text, j + |UnmatchedWord|);
    if q < |text| && IsWordChar(text[q]) {
      UnmatchedStepWords(text, from, j, q, SkipWhile(IsWordOrSpace, text, q));
    }
  }

  /**
   * One step of the unmatched scan, the case `re.search` passes over: the
   * first "unmatched" at or after `from` is at `j`, only hyphens follow it
   * and then no word character, so `[\w\s]+` has nothing to take and the
   * search resumes one character later.
   */
  lemma UnmatchedCaptureSkipsBare(text: string, from: nat, j: nat)
    requires from <= j && IsAt(text, UnmatchedWord, j)
    requires forall k :: from <= k < j ==> !IsAt(text, UnmatchedWord, k)
    requires var q := SkipWhile(IsSpaceOrHyphen, text, j + |UnmatchedWord|);
      (q == |text| || !IsWordChar(text[q])) && forall k :: j + |UnmatchedWord| <= k < q ==> IsHyphen(text[k])
    ensures UnmatchedCaptureFrom(text, from) == UnmatchedCaptureFrom(text, j + 1)
  {
    FirstFrom(text, UnmatchedWord, from, j);
    var p := j + |UnmatchedWord|;
    var q := SkipWhile(IsSpaceOrHyphen, text, p);
    assert text[p - 1] == UnmatchedWord[8] by {
      assert text[j..p][8] == text[p - 1];
    }
    SkipWhileBackStops(IsHyphen, text, p, q);
    UnmatchedStepSkip(text, from, j, q);
  }

  /**
   * One step of the unmatched scan, the backtracking case: no word character
   * follows the spaces and hyphens after the first "unmatched", so the engine
   * gives back the run down to its last whitespace character, which is then
   * the whole capture.
   */
  lemma UnmatchedCaptureBacktracks(text: string, from: nat, j: nat, i: nat)
    requires from <= j && IsAt(text, UnmatchedWord, j)
    requires forall k :: from <= k < j ==> !IsAt(text, UnmatchedWord, k)
    requires var q := SkipWhile(IsSpaceOrHyphen, text, j + |UnmatchedWord|);
      && (q == |text| || !IsWordChar(text[q]))
      && j + |UnmatchedWord| < i <= q && IsSpace(text[i - 1])
      && forall k :: i <= k < q ==> IsHyphen(text[k])
    ensures UnmatchedCaptureFrom(text, from) == Some([text[i - 1]])
  {
    FirstFrom(text, UnmatchedWord, from, j);
    var q := SkipWhile(IsSpaceOrHyphen, text, j + |UnmatchedWord|);
    SkipWhileBackStops(IsHyphen, text, i, q);
    UnmatchedStepBack(text, from, j, q, i, text[i - 1]);
  }

  /**
   * "unmatched" followed by one space, hyphens, and then neither a word
   * character nor whitespace ("unmatched :", "unmatched --") captures the
   * lone space: the match is explicit, with an empty label once stripped.
   */
  lemma UnmatchedCaptureLoneSpace(pre: string, hyphens: string, post: string)
    requires forall k :: 0 <= k < |pre| ==> !IsAt(pre, UnmatchedWord, k)
    requires forall k :: 0 <= k < |hyphens| ==> IsHyphen(hyphens[k])
    requires post == [] || (!IsWordChar(post[0]) && !IsSpaceOrHyphen(post[0]))
    ensures UnmatchedCapture(pre + UnmatchedWord + " " + hyphens + post) == Some(" ")
  {
    var w := pre + UnmatchedWord;
    var text := w + " " + hyphens + post;
    var rest := UnmatchedWord + " " + hyphens + post;
    Assoc(pre, UnmatchedWord, " ");
    Assoc(pre, UnmatchedWord + " ", hyphens);
    Assoc(pre, UnmatchedWord + " " + hyphens, post);
    assert rest[..|UnmatchedWord|] == UnmatchedWord;
    FirstUnmatchedAt(pre, rest);
    Assoc(w, " ", hyphens);
    var run := " " + hyphens;
    assert forall k :: 0 <= k < |run| ==> IsSpaceOrHyphen(run[k]) by {
      assert forall k :: 1 <= k < |run| ==> run[k] == hyphens[k - 1];
    }
    RunAt(IsSpaceOrHyphen, w, run, post);
    assert text[|w|] == ' ';
    assert forall k :: |w| + 1 <= k < |w| + |run| ==> text[k] == hyphens[k - |w| - 1];
    UnmatchedCaptureBacktracks(text, 0, |pre|, |w| + 1);
  }

  /** "unmatched :" captures a single space. */
  lemma UnmatchedColonExample(colon: string)
    requires colon == ":"
    ensures UnmatchedCapture(UnmatchedWord + " " + colon) == Some(" ")
  {
    assert [] + UnmatchedWord + " " + [] + colon == UnmatchedWord + " " + colon;
    UnmatchedCaptureLoneSpace([], [], colon);
  }
}
