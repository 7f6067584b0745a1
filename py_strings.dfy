/**
 * The parts of Python's `str` type that the matching engine relies on:
 * `isspace`, `lower`/`upper`, `strip`, `split()`, `join`, `startswith` and
 * the substring test `a in b`.  Case mapping is ASCII only.
 */
module PyStrings {
  import opened Wrappers

  /** `str.isspace()` on one character; the regex class `\s` matches the same set. */
  predicate IsSpace(c: char) {
    ('\t' <= c <= '\r') || ('\U{1C}' <= c <= '\U{1F}') || c == ' ' || c == '\U{85}'
    || c == '\U{A0}' || c == '\U{1680}' || ('\U{2000}' <= c <= '\U{200A}')
    || c == '\U{2028}' || c == '\U{2029}' || c == '\U{202F}' || c == '\U{205F}'
    || c == '\U{3000}'
  }

  predicate IsNotSpace(c: char) { !IsSpace(c) }

  predicate IsNotNewline(c: char) { c != '\n' }

  predicate IsAsciiUpper(c: char) { 'A' <= c <= 'Z' }

  predicate IsAsciiLower(c: char) { 'a' <= c <= 'z' }

  predicate IsAsciiLetter(c: char) { IsAsciiUpper(c) || IsAsciiLower(c) }

  predicate IsAsciiDigit(c: char) { '0' <= c <= '9' }

  /** The regex class `\w`, restricted to ASCII letters, digits and `_`. */
  predicate IsWordChar(c: char) { IsAsciiLetter(c) || IsAsciiDigit(c) || c == '_' }

  /** `str.isalpha()`: non-empty and letters only. */
  predicate IsAlpha(s: string) {
    s != [] && forall k :: 0 <= k < |s| ==> IsAsciiLetter(s[k])
  }

  function LowerChar(c: char): char {
    if IsAsciiUpper(c) then (c as int + 32) as char else c
  }

  function UpperChar(c: char): char {
    if IsAsciiLower(c) then (c as int - 32) as char else c
  }

  /** `str.lower()` */
  function Lower(s: string): string {
    seq(|s|, i requires 0 <= i < |s| => LowerChar(s[i]))
  }

  /** `str.upper()` */
  function Upper(s: string): string {
    seq(|s|, i requires 0 <= i < |s| => UpperChar(s[i]))
  }

  /** The first index at or after `i` whose character fails `p` (or `|s|`). */
  function SkipWhile(p: char -> bool, s: string, i: nat): (j: nat)
    requires i <= |s|
    ensures i <= j <= |s|
    ensures forall k :: i <= k < j ==> p(s[k])
    ensures j < |s| ==> !p(s[j])
    decreases |s| - i
  {
    if i < |s| && p(s[i]) then SkipWhile(p, s, i + 1) else i
  }

  /** `SkipWhile` stops exactly at the first character failing `p`. */
  lemma SkipWhileStops(p: char -> bool, s: string, i: nat, j: nat)
    requires i <= j <= |s|
    requires forall k :: i <= k < j ==> p(s[k])
    requires j == |s| || !p(s[j])
    ensures SkipWhile(p, s, i) == j
  {
  }

  /** The smallest index `i <= j` such that every character of `s[i..j]` satisfies `p`. */
  function SkipWhileBack(p: char -> bool, s: string, j: nat): (i: nat)
    requires j <= |s|
    ensures i <= j
    ensures forall k :: i <= k < j ==> p(s[k])
    ensures 0 < i ==> !p(s[i - 1])
  {
    if 0 < j && p(s[j - 1]) then SkipWhileBack(p, s, j - 1) else j
  }

  /** Concatenation is associative: a bracketing hint for the solver. */
  lemma Assoc(a: string, b: string, c: string)
    ensures (a + b) + c == a + (b + c)
  {
  }

  /** A run of characters satisfying `p`, placed at `|u|` and not continued by `tail`, is skipped whole. */
  lemma RunAt(p: char -> bool, u: string, run: string, tail: string)
    requires forall k :: 0 <= k < |run| ==> p(run[k])
    requires tail == [] || !p(tail[0])
    ensures SkipWhile(p, u + run + tail, |u|) == |u| + |run|
    ensures tail != [] ==> (u + run + tail)[|u| + |run|] == tail[0]
  {
    var s := u + run + tail;
    assert forall k :: |u| <= k < |u| + |run| ==> s[k] == run[k - |u|];
    if tail != [] {
      assert s[|u| + |run|] == tail[0];
    }
    SkipWhileStops(p, s, |u|, |u| + |run|);
  }

  /** The middle part of a three-part string, cut out again. */
  lemma MiddleOf(u: string, run: string, tail: string)
    ensures (u + run + tail)[|u|..|u| + |run|] == run
  {
  }

  /** `SkipWhileBack` stops exactly after the last character failing `p`. */
  lemma {:induction false} SkipWhileBackStops(p: char -> bool, s: string, i: nat, j: nat)
    requires i <= j <= |s|
    requires forall k :: i <= k < j ==> p(s[k])
    requires i == 0 || !p(s[i - 1])
    ensures SkipWhileBack(p, s, j) == i
    decreases j
  {
    if i < j {
      SkipWhileBackStops(p, s, i, j - 1);
    }
  }

  /** `str.strip()`: drops leading and trailing whitespace. */
  function Strip(s: string): (r: string)
    ensures |r| <= |s|
  {
    var i := SkipWhile(IsSpace, s, 0);
    var j := SkipWhileBack(IsSpace, s, |s|);
    if i < j then s[i..j] else []
  }

  /**
   * What `strip` leaves: empty exactly when the string is all whitespace,
   * otherwise the slice after the leading whitespace run whose two ends are
   * not whitespace and after which only whitespace follows.
   */
  lemma StripShape(s: string)
    ensures Strip(s) == [] <==> forall k :: 0 <= k < |s| ==> IsSpace(s[k])
    ensures Strip(s) != [] ==> !IsSpace(Strip(s)[0]) && !IsSpace(Strip(s)[|Strip(s)| - 1])
    ensures var i, r := SkipWhile(IsSpace, s, 0), Strip(s);
      i + |r| <= |s| && r == s[i..i + |r|] && forall k :: i + |r| <= k < |s| ==> IsSpace(s[k])
  {
  }

  /** Stripping whitespace padding on both sides gives back the text between. */
  lemma StripPadded(a: string, s: string, b: string)
    requires forall k :: 0 <= k < |a| ==> IsSpace(a[k])
    requires forall k :: 0 <= k < |b| ==> IsSpace(b[k])
    requires s != [] && !IsSpace(s[0]) && !IsSpace(s[|s| - 1])
    ensures Strip(a + s + b) == s
  {
    var u := a + s + b;
    assert forall k :: 0 <= k < |a| ==> u[k] == a[k];
    assert forall k :: |a| <= k < |a| + |s| ==> u[k] == s[k - |a|];
    assert forall k :: |a| + |s| <= k < |u| ==> u[k] == b[k - |a| - |s|];
    assert !IsSpace(u[|a|]) && !IsSpace(u[|a| + |s| - 1]);
    SkipWhileStops(IsSpace, u, 0, |a|);
    SkipWhileBackStops(IsSpace, u, |a| + |s|, |u|);
    assert u[|a|..|a| + |s|] == s;
  }

  /** A token of `str.split()`: non-empty and free of whitespace. */
  predicate IsToken(w: string) {
    w != [] && forall k :: 0 <= k < |w| ==> !IsSpace(w[k])
  }

  /** `str.split()` with no separator: the maximal runs of non-whitespace, in order. */
  function Words(s: string): (ws: seq<string>)
    ensures forall i :: 0 <= i < |ws| ==> IsToken(ws[i])
    decreases |s|
  {
    if s == [] then []
    else if IsSpace(s[0]) then Words(s[1..])
    else
      var n := SkipWhile(IsNotSpace, s, 0);
      [s[..n]] + Words(s[n..])
  }

  /** `sep.join(ws)` */
  function Join(ws: seq<string>, sep: string): string {
    if |ws| == 0 then []
    else if |ws| == 1 then ws[0]
    else ws[0] + sep + Join(ws[1..], sep)
  }

  /** The slice `ws[:n]`. */
  function Take<T>(ws: seq<T>, n: nat): (r: seq<T>)
    ensures |r| <= n && |r| <= |ws| && r == ws[..|r|]
    ensures |ws| >= n ==> |r| == n
    ensures |ws| < n ==> r == ws
  {
    if |ws| <= n then ws else ws[..n]
  }

  /** `pat` occurs in `s` starting at index `i`. */
  predicate IsAt(s: string, pat: string, i: nat) {
    i + |pat| <= |s| && s[i..i + |pat|] == pat
  }

  /** `s.startswith(pat)` */
  predicate StartsWith(s: string, pat: string) {
    IsAt(s, pat, 0)
  }

  /** Python's `pat in s`. */
  predicate Contains(s: string, pat: string) {
    exists k :: 0 <= k <= |s| && IsAt(s, pat, k)
  }

  /** The leftmost occurrence of `pat` in `s` at or after `from` (`str.find`). */
  function IndexOfFrom(s: string, pat: string, from: nat): (r: Option<nat>)
    ensures r.Some? ==> from <= r.value && IsAt(s, pat, r.value)
    ensures r.Some? ==> forall k :: from <= k < r.value ==> !IsAt(s, pat, k)
    ensures r.None? ==> forall k :: from <= k ==> !IsAt(s, pat, k)
    decreases |s| - from
  {
    if from + |pat| > |s| then None
    else if IsAt(s, pat, from) then Some(from)
    else IndexOfFrom(s, pat, from + 1)
  }

  /** The first index at or after `from` holding the character `c` (`str.find`). */
  function IndexOfCharFrom(s: string, c: char, from: nat): (r: Option<nat>)
    ensures r.Some? ==> from <= r.value < |s| && s[r.value] == c
    ensures r.Some? ==> forall k :: from <= k < r.value ==> s[k] != c
    ensures r.None? ==> forall k :: from <= k < |s| ==> s[k] != c
    decreases |s| - from
  {
    if from >= |s| then None
    else if s[from] == c then Some(from)
    else IndexOfCharFrom(s, c, from + 1)
  }

  /** Searching from the start finds an occurrence exactly when `pat in s`. */
  lemma IndexOfFinds(s: string, pat: string)
    ensures IndexOfFrom(s, pat, 0).Some? <==> Contains(s, pat)
  {
    var r := IndexOfFrom(s, pat, 0);
    if r.Some? {
      assert IsAt(s, pat, r.value);
    }
  }

  /** A token followed by whitespace (or nothing) is exactly the first run of non-space. */
  lemma TokenEnd(w: string, rest: string)
    requires IsToken(w)
    requires rest == [] || IsSpace(rest[0])
    ensures SkipWhile(IsNotSpace, w + rest, 0) == |w|
  {
    var s := w + rest;
    assert forall k :: 0 <= k < |w| ==> s[k] == w[k];
    if |w| < |s| {
      assert s[|w|] == rest[0];
    }
  }

  /** Splitting a single-space join of tokens gives back the tokens. */
  lemma {:induction false} WordsOfJoin(ws: seq<string>)
    requires forall i :: 0 <= i < |ws| ==> IsToken(ws[i])
    ensures Words(Join(ws, " ")) == ws
    decreases |ws|
  {
    if |ws| == 1 {
      TokenEnd(ws[0], []);
      assert ws[0] + [] == ws[0];
      assert ws[0][..|ws[0]|] == ws[0];
    } else if |ws| > 1 {
      var w, tail := ws[0], Join(ws[1..], " ");
      var s := w + " " + tail;
      TokenEnd(w, " " + tail);
      assert w + (" " + tail) == s;
      assert s[..|w|] == w;
      assert s[|w|..] == " " + tail;
      assert (" " + tail)[1..] == tail;
      WordsOfJoin(ws[1..]);
      assert [w] + ws[1..] == ws;
    }
  }

  /** Lower-casing distributes over concatenation. */
  lemma LowerAppend(a: string, b: string)
    ensures Lower(a + b) == Lower(a) + Lower(b)
  {
    assert |Lower(a + b)| == |Lower(a) + Lower(b)|;
    forall k | 0 <= k < |a + b|
      ensures Lower(a + b)[k] == (Lower(a) + Lower(b))[k]
    {
      if k < |a| {
        assert (a + b)[k] == a[k];
      } else {
        assert (a + b)[k] == b[k - |a|];
      }
    }
  }

  /** Upper-casing distributes over concatenation. */
  lemma UpperAppend(a: string, b: string)
    ensures Upper(a + b) == Upper(a) + Upper(b)
  {
    assert |Upper(a + b)| == |Upper(a) + Upper(b)|;
    forall k | 0 <= k < |a + b|
      ensures Upper(a + b)[k] == (Upper(a) + Upper(b))[k]
    {
      if k < |a| {
        assert (a + b)[k] == a[k];
      } else {
        assert (a + b)[k] == b[k - |a|];
      }
    }
  }

  /** An occurrence at `p` with none in `[from, p)` is what the search from `from` finds. */
  lemma FirstFrom(s: string, pat: string, from: nat, p: nat)
    requires from <= p && IsAt(s, pat, p)
    requires forall k :: from <= k < p ==> !IsAt(s, pat, k)
    ensures IndexOfFrom(s, pat, from) == Some(p)
  {
  }

  /** Searching from `a` or from `b` finds the same when nothing occurs in `[a, b)`. */
  lemma IndexOfFromClear(s: string, pat: string, a: nat, b: nat)
    requires a <= b
    requires forall k :: a <= k < b ==> !IsAt(s, pat, k)
    ensures IndexOfFrom(s, pat, a) == IndexOfFrom(s, pat, b)
  {
    match IndexOfFrom(s, pat, b)
    case Some(p) => FirstFrom(s, pat, a, p);
    case None =>
  }

  /** An occurrence stays an occurrence when text is appended. */
  lemma ContainsAppend(s: string, t: string, pat: string)
    requires Contains(s, pat)
    ensures Contains(s + t, pat)
  {
    var k :| 0 <= k <= |s| && IsAt(s, pat, k);
    assert (s + t)[k..k + |pat|] == s[k..k + |pat|];
    assert IsAt(s + t, pat, k);
  }
}
