/**
 * Model of app/utils/file_utils.py: the filename sanitiser and the line
 * filter that turns a descriptions file into the reference catalog.
 */
module FileUtils {
  import opened Wrappers
  import opened PyStrings

  /** The characters `[\w\-]` keeps under the ASCII flag. */
  predicate IsSafeChar(c: char) {
    IsAsciiLetter(c) || IsAsciiDigit(c) || c == '_' || c == '-'
  }

  predicate IsSafeName(s: string) {
    forall k :: 0 <= k < |s| ==> IsSafeChar(s[k])
  }

  /**
   * `sanitize_filename`: every character outside `[A-Za-z0-9_-]` becomes `_`,
   * one for one; every other character stays where it was.
   */
  function Sanitize(name: string): (r: string)
    ensures |r| == |name|
    ensures IsSafeName(r)
    ensures forall k :: 0 <= k < |name| && IsSafeChar(name[k]) ==> r[k] == name[k]
    ensures forall k :: 0 <= k < |name| && !IsSafeChar(name[k]) ==> r[k] == '_'
  {
    seq(|name|, k requires 0 <= k < |name| => if IsSafeChar(name[k]) then name[k] else '_')
  }

  /** A name made only of safe characters is left as it is. */
  lemma SanitizeSafe(s: string)
    requires IsSafeName(s)
    ensures Sanitize(s) == s
  {
    assert forall k :: 0 <= k < |s| ==> Sanitize(s)[k] == s[k];
  }

  /** Sanitising twice is sanitising once. */
  lemma SanitizeIdempotent(s: string)
    ensures Sanitize(Sanitize(s)) == Sanitize(s)
  {
    SanitizeSafe(Sanitize(s));
  }

  /** A sanitised name holds no whitespace. */
  lemma SanitizeHasNoSpace(s: string)
    ensures forall k :: 0 <= k < |Sanitize(s)| ==> !IsSpace(Sanitize(s)[k])
  {
  }

  /** The worked cases of the sanitiser's unit test. */
  lemma SanitizeExamples()
    ensures Sanitize("Hello World!") == "Hello_World_"
    ensures Sanitize("path/to/file") == "path_to_file"
    ensures Sanitize("\U{F1}\U{E1}\U{E9}\U{ED}\U{F3}\U{FA}") == "______"
    ensures Sanitize("") == ""
  {
  }

  /**
   * The list comprehension of `load_descriptions_from_file`: every line is
   * stripped and the lines that are then empty are dropped, order kept.
   */
  function NonBlankLines(lines: seq<string>): (r: seq<string>)
    ensures |r| <= |lines|
    ensures forall i :: 0 <= i < |r| ==> r[i] != []
    decreases |lines|
  {
    if lines == [] then []
    else
      var rest := NonBlankLines(lines[1..]);
      var line := Strip(lines[0]);
      if line != [] then [line] + rest else rest
  }

  /**
   * The filter works line by line, in order: the lines kept from two files
   * read one after the other are those kept from the first, then those kept
   * from the second.
   */
  lemma {:induction false} NonBlankLinesAppend(x: seq<string>, y: seq<string>)
    ensures NonBlankLines(x + y) == NonBlankLines(x) + NonBlankLines(y)
    decreases |x|
  {
    if x == [] {
      assert x + y == y;
    } else {
      assert (x + y)[0] == x[0];
      assert (x + y)[1..] == x[1..] + y;
      NonBlankLinesAppend(x[1..], y);
    }
  }

  /** Stripping is idempotent. */
  lemma StripStripped(s: string)
    ensures Strip(Strip(s)) == Strip(s)
  {
    var r := Strip(s);
    StripShape(s);
    StripShape(r);
    if r != [] {
      assert SkipWhile(IsSpace, r, 0) == 0;
    }
  }

  /**
   * `load_descriptions_from_file`: the file's lines (None when the file is
   * missing or cannot be read, which the function reports and turns into an
   * empty catalog).
   */
  function LoadDescriptions(file: Option<seq<string>>): (r: seq<string>)
    ensures file.None? ==> r == []
    ensures file.Some? ==> |r| <= |file.value|
    ensures forall i :: 0 <= i < |r| ==> r[i] != []
  {
    match file
    case None => []
    case Some(lines) => NonBlankLines(lines)
  }

  predicate IsStrippedLineOf(x: string, lines: seq<string>) {
    exists j :: 0 <= j < |lines| && x == Strip(lines[j])
  }

  /** Every loaded description is the stripped form of some line of the file. */
  lemma NonBlankLinesFromFile(lines: seq<string>)
    ensures forall i :: 0 <= i < |NonBlankLines(lines)| ==> IsStrippedLineOf(NonBlankLines(lines)[i], lines)
  {
    forall i | 0 <= i < |NonBlankLines(lines)|
      ensures IsStrippedLineOf(NonBlankLines(lines)[i], lines)
    {
      NonBlankLineFrom(lines, i);
    }
  }

  /** Every loaded description is already stripped. */
  lemma NonBlankLinesStripped(lines: seq<string>)
    ensures forall i :: 0 <= i < |NonBlankLines(lines)| ==> Strip(NonBlankLines(lines)[i]) == NonBlankLines(lines)[i]
  {
    forall i | 0 <= i < |NonBlankLines(lines)|
      ensures Strip(NonBlankLines(lines)[i]) == NonBlankLines(lines)[i]
    {
      NonBlankLineFrom(lines, i);
      var j :| 0 <= j < |lines| && NonBlankLines(lines)[i] == Strip(lines[j]);
      StripStripped(lines[j]);
    }
  }

  /** The `i`-th loaded description is the stripped form of some line of the file. */
  lemma {:induction false} NonBlankLineFrom(lines: seq<string>, i: nat)
    requires i < |NonBlankLines(lines)|
    ensures IsStrippedLineOf(NonBlankLines(lines)[i], lines)
    decreases |lines|
  {
    var r := NonBlankLines(lines);
    var rest := NonBlankLines(lines[1..]);
    var line := Strip(lines[0]);
    if line != [] && i == 0 {
      assert r[0] == line;
      StrippedLineOfHead(lines);
    } else {
      var k := if line != [] then i - 1 else i;
      assert r[i] == rest[k];
      NonBlankLineFrom(lines[1..], k);
      StrippedLineOfTail(r[i], lines);
    }
  }

  lemma StrippedLineOfHead(lines: seq<string>)
    requires lines != []
    ensures IsStrippedLineOf(Strip(lines[0]), lines)
  {
  }

  /** A stripped line of the tail is a stripped line of the whole file. */
  lemma StrippedLineOfTail(x: string, lines: seq<string>)
    requires lines != [] && IsStrippedLineOf(x, lines[1..])
    ensures IsStrippedLineOf(x, lines)
  {
    var j :| 0 <= j < |lines[1..]| && x == Strip(lines[1..][j]);
    assert lines[1..][j] == lines[j + 1];
  }

  /** Every line that is not blank after stripping is loaded, stripped. */
  lemma {:induction false} NonBlankLinesKeepAll(lines: seq<string>)
    ensures forall j :: 0 <= j < |lines| && Strip(lines[j]) != [] ==>
      Strip(lines[j]) in NonBlankLines(lines)
    decreases |lines|
  {
    if lines != [] {
      NonBlankLinesKeepAll(lines[1..]);
      forall j | 0 <= j < |lines| && Strip(lines[j]) != []
        ensures Strip(lines[j]) in NonBlankLines(lines)
      {
        if j > 0 {
          assert lines[j] == lines[1..][j - 1];
        }
      }
    }
  }

  /** A line whose text is surrounded only by trailing whitespace strips to that text. */
  lemma StripTrailing(s: string, t: string)
    requires s != [] && !IsSpace(s[0]) && !IsSpace(s[|s| - 1])
    requires forall k :: 0 <= k < |t| ==> IsSpace(t[k])
    ensures Strip(s + t) == s
  {
    var u := s + t;
    var r := Strip(u);
    StripShape(u);
    assert u[0] == s[0];
    assert SkipWhile(IsSpace, u, 0) == 0;
    assert u[|s| - 1] == s[|s| - 1];
    assert forall k :: |s| <= k < |u| ==> u[k] == t[k - |s|];
    assert |r| == |s|;
    assert r == u[..|s|] == s;
  }

  /** The unit test's file of three "Test description N" lines. */
  lemma LoadDescriptionsExample(d1: string, d2: string, d3: string)
    requires d1 == "Test description 1" && d2 == "Test description 2" && d3 == "Test description 3"
    ensures LoadDescriptions(Some([d1 + "\n", d2 + "\n", d3 + "\n"])) == [d1, d2, d3]
    ensures LoadDescriptions(None) == []
  {
    DescriptionLine(d1);
    DescriptionLine(d2);
    DescriptionLine(d3);
    KeptLine(d3 + "\n", []);
    KeptLine(d2 + "\n", [d3 + "\n"]);
    KeptLine(d1 + "\n", [d2 + "\n"] + [d3 + "\n"]);
    assert [d1 + "\n", d2 + "\n", d3 + "\n"] == [d1 + "\n"] + ([d2 + "\n"] + [d3 + "\n"]);
  }

  /** A description line of the unit test's file strips back to its text. */
  lemma DescriptionLine(d: string)
    requires d != [] && d[0] == 'T' && '0' <= d[|d| - 1] <= '9'
    ensures Strip(d + "\n") == d
  {
    StripTrailing(d, "\n");
  }

  /** A line that is not blank contributes its stripped text ahead of the rest. */
  lemma KeptLine(line: string, rest: seq<string>)
    requires Strip(line) != []
    ensures NonBlankLines([line] + rest) == [Strip(line)] + NonBlankLines(rest)
  {
    assert ([line] + rest)[1..] == rest;
  }
}
