/**
 * `_create_match_filename` (app/core/image_analyzer.py:345-393): the name an
 * analysed image is copied under, built from the match label, the confidence
 * as a whole percentage and the original extension.
 */
module MatchFilename {
  import opened Wrappers
  import opened PyStrings
  import opened PyNumbers
  import opened FileUtils

  /** The keys of the analysis that the filename is built from; each may be missing. */
  datatype FilenameRequest = FilenameRequest(fileName: Option<string>, matchText: Option<string>, confidence: Option<real>)

  const DefaultFileName: string := "unknown.jpeg"
  const UnmatchedMarker: string := "UNMATCHED"
  const UnmatchedFilePrefix: string := "UNMATCHED_"
  const ConfInfix: string := "_conf"
  const ConfidenceWord: string := "confidence"
  const ScoreWord: string := "score"

  predicate IsDot(c: char) { c == '.' }
  predicate IsNotDot(c: char) { c != '.' }
  predicate IsNotSlash(c: char) { c != '/' }
  predicate IsNotWordChar(c: char) { !IsWordChar(c) }

  /** Where the last path component starts: just after the last '/', or 0. */
  function NameStart(p: string): (b: nat)
    ensures b <= |p|
    ensures 0 < b ==> p[b - 1] == '/'
    ensures forall k :: b <= k < |p| ==> p[k] != '/'
  {
    SkipWhileBack(IsNotSlash, p, |p|)
  }

  /**
   * Where `os.path.splitext` (POSIX) cuts `p`: at the last '.' of the last
   * path component when some character before it in that component is not a
   * '.', otherwise nowhere (`|p|`, an empty extension).
   */
  function ExtStart(p: string): (e: nat)
    ensures NameStart(p) <= e <= |p|
    ensures e < |p| ==> p[e] == '.' && forall k :: e < k < |p| ==> p[k] != '.' && p[k] != '/'
    ensures e < |p| ==> exists k :: NameStart(p) <= k < e && p[k] != '.'
    ensures e == |p| ==> forall k :: NameStart(p) <= k < |p| && p[k] == '.' ==>
      forall l :: NameStart(p) <= l < k ==> p[l] == '.'
  {
    var b := NameStart(p);
    var d := SkipWhileBack(IsNotDot, p, |p|);
    if d > b && SkipWhile(IsDot, p, b) < d - 1 then d - 1 else |p|
  }

  /** The extension `os.path.splitext` returns, dot included. */
  function Ext(p: string): (ext: string)
    ensures |ext| <= |p| && p[..|p| - |ext|] + ext == p
    ensures ext == [] || (ext[0] == '.' && forall k :: 1 <= k < |ext| ==> ext[k] != '.' && ext[k] != '/')
  {
    p[ExtStart(p)..]
  }

  /** `re.sub(r'\s+', '_', s)`: every maximal whitespace run becomes one '_'. */
  function CollapseSpaces(s: string): (r: string)
    ensures |r| <= |s|
    ensures forall k :: 0 <= k < |r| ==> !IsSpace(r[k])
    decreases |s|
  {
    if s == [] then []
    else if IsSpace(s[0]) then "_" + CollapseSpaces(s[SkipWhile(IsSpace, s, 0)..])
    else [s[0]] + CollapseSpaces(s[1..])
  }

  /** `pat` (lower case) occurs at `i` in `s` ignoring ASCII case. */
  predicate IsAtIgnoreCase(s: string, pat: string, i: nat) {
    i + |pat| <= |s| && Lower(s[i..i + |pat|]) == pat
  }

  /**
   * Where a match of `CONFIDENCE[^\w]*SCORE.*` (ignoring case) that starts
   * at `i` ends: after "confidence", the longest run of non-word characters,
   * "score", then the rest of the line. The run cannot give back characters
   * usefully, since "score" starts with a word character.
   */
  function ScoreMatchEnd(s: string, i: nat): (e: Option<nat>)
    requires i <= |s|
    ensures e.Some? ==> i < e.value <= |s|
    ensures e.Some? ==> IsAtIgnoreCase(s, ConfidenceWord, i)
    ensures !IsAtIgnoreCase(s, ConfidenceWord, i) ==> e.None?
  {
    if !IsAtIgnoreCase(s, ConfidenceWord, i) then None
    else
      var j := SkipWhile(IsNotWordChar, s, i + |ConfidenceWord|);
      if IsAtIgnoreCase(s, ScoreWord, j) then Some(SkipWhile(IsNotNewline, s, j + |ScoreWord|)) else None
  }

  /** `re.sub(r'CONFIDENCE[^\w]*SCORE.*', '', s[i:], flags=re.IGNORECASE)`, scanning left to right. */
  function DropScoreFrom(s: string, i: nat): (r: string)
    requires i <= |s|
    ensures |r| <= |s| - i
    decreases |s| - i
  {
    if i == |s| then []
    else match ScoreMatchEnd(s, i)
      case Some(e) => DropScoreFrom(s, e)
      case None => [s[i]] + DropScoreFrom(s, i + 1)
  }

  function DropScore(s: string): (r: string)
    ensures |r| <= |s|
  {
    DropScoreFrom(s, 0)
  }

  /** The label of an UNMATCHED match: the text after the marker, cleaned for a file name. */
  function UnmatchedLabel(m: string): (cleaned: string)
    requires StartsWith(m, UnmatchedMarker)
    ensures IsSafeName(cleaned)
  {
    var rest := Strip(m[|UnmatchedMarker|..]);
    var noScore := Strip(DropScore(rest));
    Sanitize(CollapseSpaces(noScore))
  }

  /** `int(confidence * 100)` rendered with `str`. */
  function ConfPercent(confidence: real): (pct: string)
    ensures pct != [] && forall k :: 0 <= k < |pct| ==> IsAsciiDigit(pct[k]) || pct[k] == '-'
    ensures confidence >= 0.0 ==> pct == NatToDecimal(Trunc(confidence * 100.0))
  {
    IntToDecimal(Trunc(confidence * 100.0))
  }

  /**
   * `_create_match_filename`. Without a (non-empty) match the original file
   * name, or its default, comes back unchanged; with one, the name is a stem
   * made only of `[A-Za-z0-9_-]` that ends in "_conf" and the percentage,
   * followed by the original extension.
   */
  function MatchFilenameOf(req: FilenameRequest): (name: string)
    ensures req.matchText.None? || req.matchText == Some([]) ==> name == req.fileName.GetOr(DefaultFileName)
    ensures req.matchText.Some? && req.matchText.value != [] ==>
      var ext, tail := Ext(req.fileName.GetOr(DefaultFileName)), ConfInfix + ConfPercent(req.confidence.GetOr(0.0));
      |tail| + |ext| <= |name|
      && name[|name| - |ext|..] == ext
      && name[|name| - |ext| - |tail|..|name| - |ext|] == tail
      && IsSafeName(name[..|name| - |ext|])
  {
    var orig := req.fileName.GetOr(DefaultFileName);
    var ext := Ext(orig);
    match req.matchText
    case None => orig
    case Some(m) =>
      if m == [] then orig
      else
        var pct := ConfPercent(req.confidence.GetOr(0.0));
        var head := MatchedHead(m);
        MatchedHeadSafe(m);
        ConfTailSafe(req);
        SafeConcat(head, ConfInfix + pct);
        ThreeParts(head, ConfInfix + pct, ext);
        Regroup(head, ConfInfix, pct, ext);
        if StartsWith(m, UnmatchedMarker)
        then UnmatchedFilePrefix + UnmatchedLabel(m) + ConfInfix + pct + ext
        else CollapseSpaces(Sanitize(m)) + ConfInfix + pct + ext
  }

  /** A string with no whitespace is left alone by the whitespace collapse. */
  lemma {:induction false} CollapseNoSpace(s: string)
    requires forall k :: 0 <= k < |s| ==> !IsSpace(s[k])
    ensures CollapseSpaces(s) == s
    decreases |s|
  {
    if s != [] {
      CollapseNoSpace(s[1..]);
    }
  }

  /** A token in front passes through the whitespace collapse untouched. */
  lemma {:induction false} CollapseToken(w: string, t: string)
    requires forall k :: 0 <= k < |w| ==> !IsSpace(w[k])
    ensures CollapseSpaces(w + t) == w + CollapseSpaces(t)
    decreases |w|
  {
    if w != [] {
      assert (w + t)[0] == w[0];
      assert (w + t)[1..] == w[1..] + t;
      CollapseToken(w[1..], t);
      assert CollapseSpaces(w + t) == [w[0]] + (w[1..] + CollapseSpaces(t));
      assert w == [w[0]] + w[1..];
    } else {
      assert w + t == t;
    }
  }

  /** Words joined by single spaces come out joined by single underscores. */
  lemma {:induction false} CollapseJoin(ws: seq<string>)
    requires forall i :: 0 <= i < |ws| ==> IsToken(ws[i])
    ensures CollapseSpaces(Join(ws, " ")) == Join(ws, "_")
    decreases |ws|
  {
    if |ws| == 1 {
      CollapseNoSpace(ws[0]);
    } else if |ws| > 1 {
      var rest := Join(ws[1..], " ");
      CollapseJoin(ws[1..]);
      JoinTokensStart(ws[1..]);
      assert ws[0] + " " + rest == ws[0] + (" " + rest);
      CollapseToken(ws[0], " " + rest);
      SkipWhileStops(IsSpace, " " + rest, 0, 1);
      assert (" " + rest)[1..] == rest;
      assert CollapseSpaces(" " + rest) == "_" + CollapseSpaces(rest);
      assert ws[0] + "_" + Join(ws[1..], "_") == ws[0] + ("_" + Join(ws[1..], "_"));
    }
  }

  /** Tokens joined by spaces start with a non-space. */
  lemma JoinTokensStart(ws: seq<string>)
    requires |ws| > 0 && forall i :: 0 <= i < |ws| ==> IsToken(ws[i])
    ensures Join(ws, " ") != [] && !IsSpace(Join(ws, " ")[0])
  {
    var w := ws[0];
    assert IsToken(w);
    JoinFront(ws, " ");
    FirstOfAppend(w, if |ws| == 1 then [] else " " + Join(ws[1..], " "));
  }

  /** A join starts with its first element. */
  lemma JoinFront(ws: seq<string>, sep: string)
    requires |ws| > 0
    ensures Join(ws, sep) == ws[0] + (if |ws| == 1 then [] else sep + Join(ws[1..], sep))
  {
    if |ws| == 1 {
      assert ws[0] + [] == ws[0];
    }
  }

  lemma FirstOfAppend(w: string, t: string)
    requires w != []
    ensures (w + t)[0] == w[0]
  {
  }

  /** A confidence within [0, 1] prints as a whole percentage from 0 to 100. */
  lemma ConfPercentRange(confidence: real)
    requires 0.0 <= confidence <= 1.0
    ensures 0 <= Trunc(confidence * 100.0) <= 100
    ensures ConfPercent(confidence) == NatToDecimal(Trunc(confidence * 100.0))
  {
    assert confidence * 100.0 <= 100.0;
  }

  /** Every character of the rendered percentage is safe in a file name. */
  lemma ConfPercentSafe(confidence: real)
    ensures IsSafeName(ConfPercent(confidence))
  {
  }

  /** Joining names safe in a file name gives one. */
  lemma SafeConcat(a: string, b: string)
    requires IsSafeName(a) && IsSafeName(b)
    ensures IsSafeName(a + b)
  {
    assert forall k :: |a| <= k < |a + b| ==> (a + b)[k] == b[k - |a|];
  }

  /** The label part of the name on the matched branches, before "_conf". */
  function MatchedHead(m: string): string {
    if StartsWith(m, UnmatchedMarker) then UnmatchedFilePrefix + UnmatchedLabel(m) else CollapseSpaces(Sanitize(m))
  }

  /** "_conf" and the percentage. */
  function ConfTail(req: FilenameRequest): string {
    ConfInfix + ConfPercent(req.confidence.GetOr(0.0))
  }

  lemma MatchedHeadSafe(m: string)
    ensures IsSafeName(MatchedHead(m))
  {
    if StartsWith(m, UnmatchedMarker) {
      assert IsSafeName(UnmatchedFilePrefix);
      SafeConcat(UnmatchedFilePrefix, UnmatchedLabel(m));
    } else {
      SanitizeHasNoSpace(m);
      CollapseNoSpace(Sanitize(m));
    }
  }

  lemma ConfTailSafe(req: FilenameRequest)
    ensures IsSafeName(ConfTail(req))
  {
    ConfPercentSafe(req.confidence.GetOr(0.0));
    assert IsSafeName(ConfInfix);
    SafeConcat(ConfInfix, ConfPercent(req.confidence.GetOr(0.0)));
  }

  lemma Regroup(a: string, b: string, c: string, d: string)
    ensures a + b + c + d == a + (b + c) + d
  {
  }

  /** Slicing a three-part string at the lengths of its parts. */
  lemma ThreeParts(a: string, b: string, c: string)
    ensures var s := a + b + c;
      |b| + |c| <= |s| && s[|s| - |c|..] == c && s[|s| - |c| - |b|..|s| - |c|] == b && s[..|s| - |c|] == a + b
  {
  }

  /**
   * A catalog match is only sanitised: the whitespace collapse after it has
   * nothing left to do, so every space of the match becomes exactly one '_'.
   */
  lemma CatalogMatchName(req: FilenameRequest)
    requires req.matchText.Some? && req.matchText.value != [] && !StartsWith(req.matchText.value, UnmatchedMarker)
    ensures MatchFilenameOf(req) == Sanitize(req.matchText.value) + ConfInfix + ConfPercent(req.confidence.GetOr(0.0))
      + Ext(req.fileName.GetOr(DefaultFileName))
  {
    SanitizeHasNoSpace(req.matchText.value);
    CollapseNoSpace(Sanitize(req.matchText.value));
  }

  /** A name whose last component has no '/' and no leading '.' splits at its last dot. */
  lemma ExtOfDotted(stem: string, suffix: string)
    requires stem != [] && stem[0] != '.' && forall k :: 0 <= k < |stem| ==> stem[k] != '/'
    requires forall k :: 0 <= k < |suffix| ==> suffix[k] != '.' && suffix[k] != '/'
    ensures Ext(stem + "." + suffix) == "." + suffix
  {
    var p := stem + "." + suffix;
    assert forall k :: 0 <= k < |p| ==> p[k] != '/';
    SkipWhileBackStops(IsNotSlash, p, 0, |p|);
    assert p[|stem|] == '.';
    SkipWhileBackStops(IsNotDot, p, |stem| + 1, |p|);
    SkipWhileStops(IsDot, p, 0, 0);
    assert p[|stem|..] == "." + suffix;
  }

  /** A name with no dot has no extension. */
  lemma ExtOfUndotted(p: string)
    requires forall k :: 0 <= k < |p| ==> p[k] != '.'
    ensures Ext(p) == []
  {
  }

  /** A dot file such as ".bashrc" has no extension: its only dot leads the name. */
  lemma ExtOfDotFile(suffix: string)
    requires forall k :: 0 <= k < |suffix| ==> suffix[k] != '.' && suffix[k] != '/'
    ensures Ext("." + suffix) == []
  {
    var p := "." + suffix;
    assert forall k :: 0 <= k < |p| ==> p[k] != '/';
    SkipWhileBackStops(IsNotSlash, p, 0, |p|);
    SkipWhileBackStops(IsNotDot, p, 1, |p|);
  }

  /** The extensions `os.path.splitext` gives for typical names. */
  lemma ExtExamples(a: string, b: string, c: string)
    requires a == "test.jpg" && b == "unknown.jpeg" && c == "archive.tar.gz"
    ensures Ext(a) == ".jpg"
    ensures Ext(b) == ".jpeg"
    ensures Ext(c) == ".gz"
  {
    ExtOfTestJpg(a);
    ExtOfUnknownJpeg(b);
    ExtOfArchive(c);
  }

  lemma ExtOfTestJpg(p: string)
    requires p == "test.jpg"
    ensures Ext(p) == ".jpg"
  {
    ExtOfName(p, "test", "jpg");
  }

  lemma ExtOfUnknownJpeg(p: string)
    requires p == "unknown.jpeg"
    ensures Ext(p) == ".jpeg"
  {
    ExtOfName(p, "unknown", "jpeg");
  }

  lemma ExtOfArchive(p: string)
    requires p == "archive.tar.gz"
    ensures Ext(p) == ".gz"
  {
    ExtOfName(p, "archive.tar", "gz");
  }

  /** `ExtOfDotted` for a name given whole. */
  lemma ExtOfName(p: string, stem: string, suffix: string)
    requires p == stem + "." + suffix
    requires stem != [] && stem[0] != '.' && forall k :: 0 <= k < |stem| ==> stem[k] != '/'
    requires forall k :: 0 <= k < |suffix| ==> suffix[k] != '.' && suffix[k] != '/'
    ensures Ext(p) == "." + suffix
  {
    ExtOfDotted(stem, suffix);
  }

  lemma ExtExamplesNone()
    ensures Ext(".bashrc") == ""
    ensures Ext("photo") == ""
  {
    ExtOfDotFile("bashrc");
    assert "." + "bashrc" == ".bashrc";
    ExtOfUndotted("photo");
  }

  /** Text with no letter 'o' in either case holds no "confidence" to remove. */
  lemma NoConfidenceWithoutO(s: string)
    requires forall k :: 0 <= k < |s| ==> s[k] != 'o' && s[k] != 'O'
    ensures forall k :: 0 <= k < |s| ==> !IsAtIgnoreCase(s, ConfidenceWord, k)
  {
    forall k | 0 <= k < |s|
      ensures !IsAtIgnoreCase(s, ConfidenceWord, k)
    {
      if k + |ConfidenceWord| <= |s| {
        assert Lower(s[k..k + |ConfidenceWord|])[1] == LowerChar(s[k + 1]);
      }
    }
  }

  /** Tokens joined by spaces end with a non-space. */
  lemma {:induction false} JoinTokensEnd(ws: seq<string>)
    requires |ws| > 0 && forall i :: 0 <= i < |ws| ==> IsToken(ws[i])
    ensures var j := Join(ws, " "); j != [] && !IsSpace(j[|j| - 1])
    decreases |ws|
  {
    if |ws| > 1 {
      JoinTokensEnd(ws[1..]);
      var rest := Join(ws[1..], " ");
      assert Join(ws, " ") == (ws[0] + " ") + rest;
    }
  }

  /** Names safe in a file name stay safe joined by '_'. */
  lemma {:induction false} SafeJoin(ws: seq<string>)
    requires forall i :: 0 <= i < |ws| ==> IsSafeName(ws[i])
    ensures IsSafeName(Join(ws, "_"))
    decreases |ws|
  {
    if |ws| > 1 {
      SafeJoin(ws[1..]);
      assert IsSafeName("_");
      SafeConcat(ws[0], "_");
      SafeConcat(ws[0] + "_", Join(ws[1..], "_"));
    }
  }

  /**
   * The label of an UNMATCHED match made of plain words (each safe in a file
   * name, with no "confidence" among them) is those words joined by '_'.
   */
  lemma UnmatchedLabelOfWords(ws: seq<string>)
    requires |ws| > 0
    requires forall i :: 0 <= i < |ws| ==> IsToken(ws[i]) && IsSafeName(ws[i])
    requires forall k :: 0 <= k < |Join(ws, " ")| ==> !IsAtIgnoreCase(Join(ws, " "), ConfidenceWord, k)
    ensures StartsWith(UnmatchedMarker + " " + Join(ws, " "), UnmatchedMarker)
    ensures UnmatchedLabel(UnmatchedMarker + " " + Join(ws, " ")) == Join(ws, "_")
  {
    var phrase := Join(ws, " ");
    var m := UnmatchedMarker + " " + phrase;
    assert m[..|UnmatchedMarker|] == UnmatchedMarker;
    assert m[|UnmatchedMarker|..] == " " + phrase + "";
    JoinTokensStart(ws);
    JoinTokensEnd(ws);
    StripPadded(" ", phrase, "");
    DropScoreUnchanged(phrase);
    StripPadded("", phrase, "");
    assert "" + phrase + "" == phrase;
    CollapseJoin(ws);
    SafeJoin(ws);
    SanitizeSafe(Join(ws, "_"));
  }

  /** Scanning past a stretch where no "confidence" starts copies that stretch unchanged. */
  lemma {:induction false} DropScoreSkip(s: string, i: nat, j: nat)
    requires i <= j <= |s|
    requires forall k :: i <= k < j ==> !IsAtIgnoreCase(s, ConfidenceWord, k)
    ensures DropScoreFrom(s, i) == s[i..j] + DropScoreFrom(s, j)
    decreases j - i
  {
    if i < j {
      DropScoreStep(s, i);
      DropScoreSkip(s, i + 1, j);
      assert s[i..j] == [s[i]] + s[i + 1..j];
      Assoc([s[i]], s[i + 1..j], DropScoreFrom(s, j));
    }
  }

  /** Text in which no "confidence" starts, in any case, comes through the score clean-up unchanged. */
  lemma DropScoreUnchanged(s: string)
    requires forall k :: 0 <= k < |s| ==> !IsAtIgnoreCase(s, ConfidenceWord, k)
    ensures DropScore(s) == s
  {
    DropScoreSkip(s, 0, |s|);
    assert s[0..|s|] == s;
  }

  /** Where no "confidence" starts, the character is kept and the scan moves on. */
  lemma DropScoreStep(s: string, i: nat)
    requires i < |s| && !IsAtIgnoreCase(s, ConfidenceWord, i)
    ensures DropScoreFrom(s, i) == [s[i]] + DropScoreFrom(s, i + 1)
  {
  }

  /**
   * "confidence", non-word characters, "score" and a rest without a newline
   * (any case) form one match of the pattern, reaching the end of the string.
   */
  lemma ScoreMatchToEnd(a: string, c: string, gap: string, sc: string, rest: string)
    requires Lower(c) == ConfidenceWord && Lower(sc) == ScoreWord
    requires forall k :: 0 <= k < |gap| ==> !IsWordChar(gap[k])
    requires forall k :: 0 <= k < |rest| ==> rest[k] != '\n'
    ensures ScoreMatchEnd(a + c + gap + sc + rest, |a|) == Some(|a + c + gap + sc + rest|)
  {
    var u := a + c;
    var w := u + gap;
    var s := w + sc + rest;
    WordAtIgnoreCase(a, c, gap + sc + rest, ConfidenceWord);
    Assoc(u, gap, sc);
    Assoc(u, gap + sc, rest);
    Assoc(w, sc, rest);
    assert LowerChar(sc[0]) == Lower(sc)[0];
    RunAt(IsNotWordChar, u, gap, sc + rest);
    WordAtIgnoreCase(w, sc, rest, ScoreWord);
    assert w + sc + rest + [] == s;
    RunAt(IsNotNewline, w + sc, rest, []);
    ScoreMatchEndIs(s, |a|, |w|, |s|);
  }

  /** A word `c` spelt in any case, between `a` and `t`, is found at `|a|` ignoring case. */
  lemma WordAtIgnoreCase(a: string, c: string, t: string, word: string)
    requires Lower(c) == word
    ensures IsAtIgnoreCase(a + c + t, word, |a|)
  {
    MiddleOf(a, c, t);
  }

  /** `ScoreMatchEnd` once its two skips are known. */
  lemma ScoreMatchEndIs(s: string, i: nat, j: nat, e: nat)
    requires i <= |s| && IsAtIgnoreCase(s, ConfidenceWord, i)
    requires SkipWhile(IsNotWordChar, s, i + |ConfidenceWord|) == j
    requires IsAtIgnoreCase(s, ScoreWord, j)
    requires j + |ScoreWord| <= |s| && SkipWhile(IsNotNewline, s, j + |ScoreWord|) == e
    ensures ScoreMatchEnd(s, i) == Some(e)
  {
  }

  /** A "confidence" starting inside `a` cannot run on into a tail that starts with "co". */
  lemma NoStraddle(a: string, t: string, k: nat)
    requires |t| >= 2 && LowerChar(t[0]) == 'c' && LowerChar(t[1]) == 'o'
    requires k < |a| < k + |ConfidenceWord|
    ensures !IsAtIgnoreCase(a + t, ConfidenceWord, k)
  {
    var s := a + t;
    if k + |ConfidenceWord| <= |s| {
      var w := s[k..k + |ConfidenceWord|];
      var d := |a| - k;
      assert Lower(w)[d] == LowerChar(t[0]);
      if d < 9 {
        assert Lower(w)[d + 1] == LowerChar(t[1]);
      }
    }
  }

  /** Text free of "confidence" stays free of it with a newline after it. */
  lemma NoConfidenceNewline(a: string)
    requires forall k :: 0 <= k < |a| ==> !IsAtIgnoreCase(a, ConfidenceWord, k)
    ensures forall k :: 0 <= k < |a + "\n"| ==> !IsAtIgnoreCase(a + "\n", ConfidenceWord, k)
  {
    var s := a + "\n";
    forall k | 0 <= k < |s|
      ensures !IsAtIgnoreCase(s, ConfidenceWord, k)
    {
      if k + |ConfidenceWord| <= |a| {
        assert s[k..k + |ConfidenceWord|] == a[k..k + |ConfidenceWord|];
        assert !IsAtIgnoreCase(a, ConfidenceWord, k);
      } else if k + |ConfidenceWord| <= |s| {
        var w := s[k..k + |ConfidenceWord|];
        assert w[|a| - k] == '\n';
        assert Lower(w)[|a| - k] == '\n' != ConfidenceWord[|a| - k];
      }
    }
  }

  /**
   * The score clean-up of `_create_match_filename`: after text `a` holding no
   * "confidence", a tail "CONFIDENCE", non-word characters, "SCORE" and the
   * rest of the line (in any case) is removed entirely.
   */
  lemma DropScoreRemovesTail(a: string, c: string, gap: string, sc: string, rest: string)
    requires forall k :: 0 <= k < |a| ==> !IsAtIgnoreCase(a, ConfidenceWord, k)
    requires Lower(c) == ConfidenceWord && Lower(sc) == ScoreWord
    requires forall k :: 0 <= k < |gap| ==> !IsWordChar(gap[k])
    requires forall k :: 0 <= k < |rest| ==> rest[k] != '\n'
    ensures DropScore(a + c + gap + sc + rest) == a
  {
    var t := c + gap + sc + rest;
    Assoc(c, gap, sc);
    Assoc(c, gap + sc, rest);
    Assoc(a, c, gap + sc + rest);
    var s := a + t;
    assert s == a + c + gap + sc + rest by {
      Assoc(a + c, gap, sc);
      Assoc(a + c, gap + sc, rest);
    }
    assert t[0] == c[0] && t[1] == c[1];
    assert LowerChar(c[0]) == Lower(c)[0] && LowerChar(c[1]) == Lower(c)[1];
    forall k | 0 <= k < |a|
      ensures !IsAtIgnoreCase(s, ConfidenceWord, k)
    {
      if k + |ConfidenceWord| <= |a| {
        assert s[k..k + |ConfidenceWord|] == a[k..k + |ConfidenceWord|];
        assert !IsAtIgnoreCase(a, ConfidenceWord, k);
      } else {
        NoStraddle(a, t, k);
      }
    }
    DropScoreSkip(s, 0, |a|);
    ScoreMatchToEnd(a, c, gap, sc, rest);
    assert DropScoreFrom(s, |a|) == DropScoreFrom(s, |s|);
    assert s[0..|a|] == a;
  }

  /** Words joined by spaces, whitespace-collapsed and sanitised, are the words joined by '_'. */
  lemma LabelOfPhrase(ws: seq<string>)
    requires forall i :: 0 <= i < |ws| ==> IsToken(ws[i]) && IsSafeName(ws[i])
    ensures Sanitize(CollapseSpaces(Join(ws, " "))) == Join(ws, "_")
  {
    CollapseJoin(ws);
    SafeJoin(ws);
    SanitizeSafe(Join(ws, "_"));
  }

  /**
   * When the match text runs on past the food words into a
   * "CONFIDENCE … SCORE" line, as the explicit-unmatched capture does, that
   * line is dropped and the label is the words joined by '_'.
   */
  lemma UnmatchedLabelDropsScore(ws: seq<string>, c: string, gap: string, sc: string)
    requires |ws| > 0
    requires forall i :: 0 <= i < |ws| ==> IsToken(ws[i]) && IsSafeName(ws[i])
    requires forall k :: 0 <= k < |Join(ws, " ")| ==> !IsAtIgnoreCase(Join(ws, " "), ConfidenceWord, k)
    requires Lower(c) == ConfidenceWord && Lower(sc) == ScoreWord
    requires forall k :: 0 <= k < |gap| ==> !IsWordChar(gap[k])
    ensures var body := Join(ws, " ") + "\n" + c + gap + sc;
      StartsWith(UnmatchedMarker + " " + body, UnmatchedMarker)
      && UnmatchedLabel(UnmatchedMarker + " " + body) == Join(ws, "_")
  {
    var phrase := Join(ws, " ");
    var a := phrase + "\n";
    var body := a + c + gap + sc;
    JoinTokensStart(ws);
    JoinTokensEnd(ws);
    assert body[0] == phrase[0];
    assert body[|body| - 1] == sc[|sc| - 1];
    assert LowerChar(sc[|sc| - 1]) == Lower(sc)[|sc| - 1];
    StripAfterMarker(body);
    NoConfidenceNewline(phrase);
    assert body == a + c + gap + sc + [];
    DropScoreRemovesTail(a, c, gap, sc, []);
    StripPadded("", phrase, "\n");
    assert "" + phrase + "\n" == a;
    LabelOfPhrase(ws);
  }

  /** After "UNMATCHED" and a space, text without surrounding whitespace is what the label is cut from. */
  lemma StripAfterMarker(body: string)
    requires body != [] && !IsSpace(body[0]) && !IsSpace(body[|body| - 1])
    ensures StartsWith(UnmatchedMarker + " " + body, UnmatchedMarker)
    ensures Strip((UnmatchedMarker + " " + body)[|UnmatchedMarker|..]) == body
  {
    var m := UnmatchedMarker + " " + body;
    assert m[..|UnmatchedMarker|] == UnmatchedMarker;
    assert m[|UnmatchedMarker|..] == " " + body + "";
    StripPadded(" ", body, "");
  }

  /** The label of "UNMATCHED CHICKEN SNDWCH\nCONFIDENCE SCORE" is "CHICKEN_SNDWCH". */
  lemma UnmatchedLabelRunOnExample(m: string)
    requires m == "UNMATCHED CHICKEN SNDWCH\nCONFIDENCE SCORE"
    ensures StartsWith(m, UnmatchedMarker)
    ensures UnmatchedLabel(m) == "CHICKEN_SNDWCH"
  {
    var ws := ["CHICKEN", "SNDWCH"];
    ChickenWords(ws);
    NoConfidenceWithoutO(Join(ws, " "));
    RunOnParts(m, Join(ws, " "), "CONFIDENCE", " ", "SCORE");
    UnmatchedLabelDropsScore(ws, "CONFIDENCE", " ", "SCORE");
  }

  lemma RunOnParts(m: string, phrase: string, c: string, gap: string, sc: string)
    requires m == "UNMATCHED CHICKEN SNDWCH\nCONFIDENCE SCORE"
    requires phrase == "CHICKEN SNDWCH"
    requires c == "CONFIDENCE" && gap == " " && sc == "SCORE"
    ensures m == UnmatchedMarker + " " + (phrase + "\n" + c + gap + sc)
    ensures Lower(c) == ConfidenceWord && Lower(sc) == ScoreWord
    ensures forall k :: 0 <= k < |gap| ==> !IsWordChar(gap[k])
  {
    RunOnText(m, phrase, c, gap, sc);
    LowerConfidence(c);
    LowerScore(sc);
  }

  lemma RunOnText(m: string, phrase: string, c: string, gap: string, sc: string)
    requires m == "UNMATCHED CHICKEN SNDWCH\nCONFIDENCE SCORE"
    requires phrase == "CHICKEN SNDWCH"
    requires c == "CONFIDENCE" && gap == " " && sc == "SCORE"
    ensures m == UnmatchedMarker + " " + (phrase + "\n" + c + gap + sc)
  {
  }

  lemma LowerConfidence(c: string)
    requires c == "CONFIDENCE"
    ensures Lower(c) == ConfidenceWord
  {
  }

  lemma LowerScore(sc: string)
    requires sc == "SCORE"
    ensures Lower(sc) == ScoreWord
  {
  }

  /** The percentage printed for a non-negative confidence is its truncated hundredfold. */
  lemma ConfPercentExamples()
    ensures ConfPercent(0.85) == "85"
    ensures ConfPercent(0.25) == "25"
    ensures ConfPercent(0.8) == "80"
    ensures ConfPercent(0.0) == "0"
  {
    assert Trunc(0.85 * 100.0) == 85;
    assert Trunc(0.25 * 100.0) == 25;
    assert Trunc(0.8 * 100.0) == 80;
  }

  /** A catalog match, as in the unit test: "Chicken Sandwich" at 0.85 for "test.jpg". */
  lemma CatalogMatchExample(req: FilenameRequest)
    requires req == FilenameRequest(Some("test.jpg"), Some("Chicken Sandwich"), Some(0.85))
    ensures MatchFilenameOf(req) == "Chicken_Sandwich_conf85.jpg"
  {
    CatalogMatchIsNotUnmatched();
    CatalogMatchName(req);
    CatalogMatchParts(req.matchText.value, req.fileName.value, req.confidence.value);
  }

  lemma CatalogMatchIsNotUnmatched()
    ensures !StartsWith("Chicken Sandwich", UnmatchedMarker)
  {
    var m := "Chicken Sandwich";
    assert m[0] != UnmatchedMarker[0];
  }

  lemma CatalogMatchParts(m: string, f: string, c: real)
    requires m == "Chicken Sandwich" && f == "test.jpg" && c == 0.85
    ensures Sanitize(m) + ConfInfix + ConfPercent(c) + Ext(f) == "Chicken_Sandwich_conf85.jpg"
  {
    ExtOfTestJpg(f);
    assert c * 100.0 == 85.0;
    PercentOf(c, 85);
    SanitizeChicken(m);
  }

  lemma SanitizeChicken(m: string)
    requires m == "Chicken Sandwich"
    ensures Sanitize(m) == "Chicken_Sandwich"
  {
  }

  /** The percentage printed for a confidence whose hundredfold truncates to `n`. */
  lemma PercentOf(c: real, n: nat)
    requires c >= 0.0 && Trunc(c * 100.0) == n
    ensures ConfPercent(c) == NatToDecimal(n)
  {
  }

  /** The test's unmatched file names, spelled out. */
  lemma ChickenName25()
    ensures UnmatchedFilePrefix + "CHICKEN_SNDWCH" + ConfInfix + "25" + ".jpg" == "UNMATCHED_CHICKEN_SNDWCH_conf25.jpg"
  {
  }

  lemma ChickenName80()
    ensures UnmatchedFilePrefix + "CHICKEN_SNDWCH" + ConfInfix + "80" + ".jpg" == "UNMATCHED_CHICKEN_SNDWCH_conf80.jpg"
  {
  }

  /** An explicit-unmatched label, as in the unit test: at 0.25 for "test.jpg". */
  lemma UnmatchedMatchExample(req: FilenameRequest)
    requires req == FilenameRequest(Some("test.jpg"), Some("UNMATCHED CHICKEN SNDWCH"), Some(0.25))
    ensures MatchFilenameOf(req) == "UNMATCHED_CHICKEN_SNDWCH_conf25.jpg"
  {
    UnmatchedLabelExample(req.matchText.value);
    UnmatchedName(req);
    UnmatchedMatchParts(req.fileName.value, req.confidence.value);
  }

  /** The label of "UNMATCHED CHICKEN SNDWCH" is "CHICKEN_SNDWCH". */
  lemma UnmatchedLabelExample(m: string)
    requires m == "UNMATCHED CHICKEN SNDWCH"
    ensures StartsWith(m, UnmatchedMarker)
    ensures UnmatchedLabel(m) == "CHICKEN_SNDWCH"
  {
    var ws := ["CHICKEN", "SNDWCH"];
    ChickenWords(ws);
    NoConfidenceWithoutO(Join(ws, " "));
    UnmatchedLabelOfWords(ws);
  }

  lemma ChickenWords(ws: seq<string>)
    requires ws == ["CHICKEN", "SNDWCH"]
    ensures Join(ws, " ") == "CHICKEN SNDWCH" && Join(ws, "_") == "CHICKEN_SNDWCH"
    ensures UnmatchedMarker + " " + Join(ws, " ") == "UNMATCHED CHICKEN SNDWCH"
    ensures |ws| > 0 && forall i :: 0 <= i < |ws| ==> IsToken(ws[i]) && IsSafeName(ws[i])
    ensures forall k :: 0 <= k < |Join(ws, " ")| ==> Join(ws, " ")[k] != 'o' && Join(ws, " ")[k] != 'O'
  {
  }

  lemma UnmatchedMatchParts(f: string, c: real)
    requires f == "test.jpg" && c == 0.25
    ensures UnmatchedFilePrefix + "CHICKEN_SNDWCH" + ConfInfix + ConfPercent(c) + Ext(f)
      == "UNMATCHED_CHICKEN_SNDWCH_conf25.jpg"
  {
    ExtOfTestJpg(f);
    assert c * 100.0 == 25.0;
    PercentOf(c, 25);
    ChickenName25();
  }

  /**
   * The explicit-unmatched match of the unit test, run on into its
   * "CONFIDENCE SCORE" line, at 0.8 for "test.jpg": the score line leaves no
   * trace in the name.
   */
  lemma UnmatchedRunOnNameExample(req: FilenameRequest)
    requires req == FilenameRequest(Some("test.jpg"), Some("UNMATCHED CHICKEN SNDWCH\nCONFIDENCE SCORE"), Some(0.8))
    ensures MatchFilenameOf(req) == "UNMATCHED_CHICKEN_SNDWCH_conf80.jpg"
  {
    UnmatchedLabelRunOnExample(req.matchText.value);
    UnmatchedName(req);
    RunOnNameParts(req.fileName.value, req.confidence.value);
  }

  lemma RunOnNameParts(f: string, c: real)
    requires f == "test.jpg" && c == 0.8
    ensures UnmatchedFilePrefix + "CHICKEN_SNDWCH" + ConfInfix + ConfPercent(c) + Ext(f)
      == "UNMATCHED_CHICKEN_SNDWCH_conf80.jpg"
  {
    ExtOfTestJpg(f);
    assert c * 100.0 == 80.0;
    PercentOf(c, 80);
    ChickenName80();
  }

  /** An UNMATCHED match becomes "UNMATCHED_", its cleaned label, "_conf", the percentage and the extension. */
  lemma UnmatchedName(req: FilenameRequest)
    requires req.matchText.Some? && StartsWith(req.matchText.value, UnmatchedMarker)
    ensures MatchFilenameOf(req) == UnmatchedFilePrefix + UnmatchedLabel(req.matchText.value) + ConfInfix
      + ConfPercent(req.confidence.GetOr(0.0)) + Ext(req.fileName.GetOr(DefaultFileName))
  {
  }

  /** Without a match, as in the unit test, the name stays "test.jpg". */
  lemma NoMatchExample()
    ensures MatchFilenameOf(FilenameRequest(Some("test.jpg"), None, None)) == "test.jpg"
  {
  }
}
