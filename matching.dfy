/**
 * Catalog matching of `find_best_match` (app/core/image_analyzer.py:236-271):
 * phase A picks the first entry that shares the detected text, phase B scores
 * every entry by word overlap and keeps the first strict maximum.
 */
module Matching {
  import opened Wrappers
  import opened PyStrings

  /** The score given to a phase A (detected text) match. */
  const TextMatchScore: real := 0.9

  /** Phase A's test: the detected text lies inside the lower-cased entry, or the reverse. */
  predicate TextHit(entry: string, detected: string) {
    Contains(Lower(entry), detected) || Contains(detected, Lower(entry))
  }

  /** The first entry at or after `from` that passes phase A's test. */
  function FirstTextHitFrom(catalog: seq<string>, detected: string, from: nat): (r: Option<nat>)
    ensures r.Some? ==> from <= r.value < |catalog| && TextHit(catalog[r.value], detected)
    ensures r.Some? ==> forall k :: from <= k < r.value ==> !TextHit(catalog[k], detected)
    ensures r.None? ==> forall k :: from <= k < |catalog| ==> !TextHit(catalog[k], detected)
    decreases |catalog| - from
  {
    if from >= |catalog| then None
    else if TextHit(catalog[from], detected) then Some(from)
    else FirstTextHitFrom(catalog, detected, from + 1)
  }

  /** Phase A's loop, which breaks at the first entry that shares the detected text. */
  method FindTextHit(catalog: seq<string>, detected: string) returns (hit: Option<nat>)
    ensures hit == FirstTextHitFrom(catalog, detected, 0)
  {
    var i := 0;
    while i < |catalog|
      invariant 0 <= i <= |catalog|
      invariant FirstTextHitFrom(catalog, detected, i) == FirstTextHitFrom(catalog, detected, 0)
    {
      var entry := Lower(catalog[i]);
      if Contains(entry, detected) || Contains(detected, entry) {
        return Some(i);
      }
      i := i + 1;
    }
    return None;
  }

  /** A word of an entry counts when it is longer than two characters and occurs anywhere in the text. */
  predicate CountsIn(word: string, text: string) {
    |word| > 2 && Contains(text, word)
  }

  /** How many of `words` count in `text`. */
  function OverlapCount(words: seq<string>, text: string): (n: nat)
    ensures n <= |words|
    decreases |words|
  {
    if words == [] then 0
    else OverlapCount(words[..|words| - 1], text) + (if CountsIn(words[|words| - 1], text) then 1 else 0)
  }

  /** The `base_score` accumulator loop. */
  method CountOverlap(words: seq<string>, text: string) returns (count: nat)
    ensures count == OverlapCount(words, text)
  {
    count := 0;
    for i := 0 to |words|
      invariant count == OverlapCount(words[..i], text)
    {
      assert words[..i + 1][..i] == words[..i];
      if |words[i]| > 2 && Contains(text, words[i]) {
        count := count + 1;
      }
    }
    assert words[..|words|] == words;
  }

  /**
   * The overlap score of one entry: the share of its whitespace tokens that
   * count in the text.  None for an entry without tokens, which the loop skips.
   */
  function OverlapScore(entry: string, text: string): (r: Option<real>)
    ensures r.None? <==> Words(Lower(entry)) == []
    ensures r.Some? ==> 0.0 <= r.value <= 1.0
  {
    var words := Words(Lower(entry));
    if |words| == 0 then None
    else
      ShareBounds(OverlapCount(words, text), |words|);
      Some(OverlapCount(words, text) as real / |words| as real)
  }

  /** A share of a whole lies within [0, 1]. */
  lemma ShareBounds(n: nat, d: nat)
    requires 0 < d && n <= d
    ensures 0.0 <= n as real / d as real <= 1.0
  {
    var q := n as real / d as real;
    assert q * d as real == n as real;
    assert (1.0 - q) * d as real == d as real - n as real;
  }

  /** An entry's score with a skipped entry read as 0, which can never beat the running best. */
  function EntryScore(entry: string, text: string): real {
    OverlapScore(entry, text).GetOr(0.0)
  }

  /** The best entry so far (an index into the catalog) and its score. */
  datatype Candidate = Candidate(best: Option<nat>, score: real)

  /** The running best after the first `n` entries: it moves only on a strictly greater score. */
  function ScanOverlap(catalog: seq<string>, text: string, n: nat): (c: Candidate)
    requires n <= |catalog|
    ensures c.best.Some? ==> c.best.value < n
    ensures 0.0 <= c.score <= 1.0
  {
    if n == 0 then Candidate(None, 0.0)
    else
      var c := ScanOverlap(catalog, text, n - 1);
      match OverlapScore(catalog[n - 1], text)
      case Some(s) => if s > c.score then Candidate(Some(n - 1), s) else c
      case None => c
  }

  /**
   * The scan finds the first maximum: its score bounds every entry's score;
   * the chosen entry reaches it and every earlier entry scores strictly less;
   * and nothing is chosen, with score 0, exactly when no entry scores above 0.
   */
  lemma {:induction false} ScanOverlapIsFirstMaximum(catalog: seq<string>, text: string, n: nat)
    requires n <= |catalog|
    ensures var c := ScanOverlap(catalog, text, n);
      (forall k :: 0 <= k < n ==> EntryScore(catalog[k], text) <= c.score)
      && (c.best.None? <==> forall k :: 0 <= k < n ==> EntryScore(catalog[k], text) == 0.0)
      && (c.best.None? ==> c.score == 0.0)
      && (c.best.Some? ==> 0.0 < c.score == EntryScore(catalog[c.best.value], text))
      && (c.best.Some? ==> forall k :: 0 <= k < c.best.value ==> EntryScore(catalog[k], text) < c.score)
  {
    if n > 0 {
      ScanOverlapIsFirstMaximum(catalog, text, n - 1);
      var prev := ScanOverlap(catalog, text, n - 1);
      var s := EntryScore(catalog[n - 1], text);
      if s > prev.score {
        assert ScanOverlap(catalog, text, n) == Candidate(Some(n - 1), s);
      } else {
        assert ScanOverlap(catalog, text, n) == prev;
      }
    }
  }

  /** Phase B's loop over the catalog. */
  method ScanCatalog(catalog: seq<string>, text: string) returns (c: Candidate)
    ensures c == ScanOverlap(catalog, text, |catalog|)
  {
    var bestMatch: Option<nat> := None;
    var bestScore: real := 0.0;
    for i := 0 to |catalog|
      invariant Candidate(bestMatch, bestScore) == ScanOverlap(catalog, text, i)
    {
      var words := Words(Lower(catalog[i]));
      var baseScore := CountOverlap(words, text);
      if |words| > 0 {
        var normalizedScore := baseScore as real / |words| as real;
        if normalizedScore > bestScore {
          bestScore := normalizedScore;
          bestMatch := Some(i);
        }
      }
    }
    c := Candidate(bestMatch, bestScore);
  }

  /** Both phases: a phase A hit (only tried with non-empty detected text) wins with 0.9. */
  function MatchCatalog(catalog: seq<string>, text: string, detected: string): (c: Candidate)
    ensures c.best.Some? ==> c.best.value < |catalog|
    ensures 0.0 <= c.score <= 1.0
  {
    var hit := if detected != [] then FirstTextHitFrom(catalog, detected, 0) else None;
    if hit.Some? then Candidate(hit, TextMatchScore) else ScanOverlap(catalog, text, |catalog|)
  }

  /**
   * The short-circuit: with non-empty detected text that some entry shares,
   * the first such entry is chosen with score 0.9 and phase B does not decide.
   */
  lemma TextHitShortCircuit(catalog: seq<string>, text: string, detected: string, k: nat)
    requires detected != [] && k < |catalog| && TextHit(catalog[k], detected)
    requires forall j :: 0 <= j < k ==> !TextHit(catalog[j], detected)
    ensures MatchCatalog(catalog, text, detected) == Candidate(Some(k), 0.9)
  {
    var hit := FirstTextHitFrom(catalog, detected, 0);
    assert hit.Some?;
  }

  /** Without a phase A hit the result is phase B's first maximum. */
  lemma NoTextHitUsesOverlap(catalog: seq<string>, text: string, detected: string)
    requires detected == [] || forall j :: 0 <= j < |catalog| ==> !TextHit(catalog[j], detected)
    ensures MatchCatalog(catalog, text, detected) == ScanOverlap(catalog, text, |catalog|)
  {
  }
}
