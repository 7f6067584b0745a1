/**
 * `combine_analysis_results` (app/core/image_analyzer.py:137-199): the
 * OpenAI description is enriched with the text and food tags that Azure AI
 * Vision reported before matching runs on it.
 */
module Fusion {
  import opened Wrappers
  import opened PyStrings
  import Signals

  /** One OCR line reported by Vision. */
  datatype TextItem = TextItem(text: string, confidence: real)

  /** One image tag reported by Vision. */
  datatype Tag = Tag(name: string, confidence: real)

  /** The keys of the Vision result that fusion reads (objects and caption are not read). */
  datatype VisionAnalysis = VisionAnalysis(caption: string, tags: seq<Tag>, text: seq<TextItem>)

  /** The keys of the OpenAI result that fusion reads. */
  datatype OpenAIAnalysis = OpenAIAnalysis(description: string, fileName: string)

  /** The combined analysis dictionary. */
  datatype Combined = Combined(
    description: string,
    fileName: string,
    confidenceBoost: real,
    synergyNotes: seq<string>,
    analysisMethods: seq<string>,
    openaiAnalysis: OpenAIAnalysis,
    visionAnalysis: Option<VisionAnalysis>)

  /** The fixed food vocabulary a Vision tag must belong to. */
  const FoodVocabulary: seq<string> := ["food", "sandwich", "bread", "burger", "meal", "lunch", "dinner",
    "breakfast", "plate", "meat", "cheese", "vegetable", "dessert", "salad", "wrap"]
  const TextConfidenceThreshold: real := 0.5
  const TagConfidenceThreshold: real := 0.7
  /** The case-sensitive marker whose presence stops the text header from being added. */
  const TextHeaderMarker: string := "TEXT DETECTED:"
  const TextHeaderPrefix: string := "TEXT DETECTED: "
  const TagLinePrefix: string := "\nVision API detected: "
  const TextNote: string := "Added Vision API text detection"
  const TagNotePrefix: string := "Added Vision API food tags: "
  const AnalysisMethods: seq<string> := ["openai", "azure_vision"]

  /** The texts of the OCR lines whose confidence exceeds 0.5, in order. */
  function ConfidentTexts(items: seq<TextItem>): (ts: seq<string>)
    ensures |ts| <= |items|
    decreases |items|
  {
    if items == [] then []
    else
      var rest := ConfidentTexts(items[1..]);
      if items[0].confidence > TextConfidenceThreshold then [items[0].text] + rest else rest
  }

  /** The names of the tags whose confidence exceeds 0.7 and that are in the food vocabulary, in order. */
  function FoodTags(tags: seq<Tag>): (names: seq<string>)
    ensures |names| <= |tags|
    ensures forall i :: 0 <= i < |names| ==> names[i] in FoodVocabulary
    decreases |tags|
  {
    if tags == [] then []
    else
      var rest := FoodTags(tags[1..]);
      if tags[0].confidence > TagConfidenceThreshold && tags[0].name in FoodVocabulary
      then [tags[0].name] + rest else rest
  }

  /** The OCR filter works item by item, in order. */
  lemma {:induction false} ConfidentTextsAppend(x: seq<TextItem>, y: seq<TextItem>)
    ensures ConfidentTexts(x + y) == ConfidentTexts(x) + ConfidentTexts(y)
    decreases |x|
  {
    if x == [] {
      assert x + y == y;
    } else {
      assert (x + y)[0] == x[0];
      assert (x + y)[1..] == x[1..] + y;
      ConfidentTextsAppend(x[1..], y);
    }
  }

  /** The food-tag filter works tag by tag, in order. */
  lemma {:induction false} FoodTagsAppend(x: seq<Tag>, y: seq<Tag>)
    ensures FoodTags(x + y) == FoodTags(x) + FoodTags(y)
    decreases |x|
  {
    if x == [] {
      assert x + y == y;
    } else {
      assert (x + y)[0] == x[0];
      assert (x + y)[1..] == x[1..] + y;
      FoodTagsAppend(x[1..], y);
    }
  }

  /** Every kept text comes from an OCR line above the threshold, and every such line's text is kept. */
  lemma ConfidentTextsExact(items: seq<TextItem>)
    ensures forall i :: 0 <= i < |ConfidentTexts(items)| ==>
      exists j :: 0 <= j < |items| && items[j].text == ConfidentTexts(items)[i] && items[j].confidence > TextConfidenceThreshold
    ensures forall j :: 0 <= j < |items| && items[j].confidence > TextConfidenceThreshold ==>
      items[j].text in ConfidentTexts(items)
  {
    var ts := ConfidentTexts(items);
    forall i | 0 <= i < |ts|
      ensures exists j :: 0 <= j < |items| && items[j].text == ts[i] && items[j].confidence > TextConfidenceThreshold
    {
      var w := ConfidentTextSource(items, i);
      assert 0 <= w < |items| && items[w].text == ts[i] && items[w].confidence > TextConfidenceThreshold;
    }
    forall j | 0 <= j < |items| && items[j].confidence > TextConfidenceThreshold
      ensures items[j].text in ConfidentTexts(items)
    {
      ConfidentTextKept(items, j);
    }
  }

  /** The OCR line the `i`-th kept text comes from. */
  lemma {:induction false} ConfidentTextSource(items: seq<TextItem>, i: nat) returns (j: nat)
    requires i < |ConfidentTexts(items)|
    ensures j < |items| && items[j].text == ConfidentTexts(items)[i] && items[j].confidence > TextConfidenceThreshold
    decreases |items|
  {
    var rest := ConfidentTexts(items[1..]);
    if items[0].confidence > TextConfidenceThreshold {
      assert ConfidentTexts(items) == [items[0].text] + rest;
      if i == 0 {
        j := 0;
      } else {
        var k := ConfidentTextSource(items[1..], i - 1);
        assert items[1..][k] == items[k + 1];
        j := k + 1;
      }
    } else {
      assert ConfidentTexts(items) == rest;
      var k := ConfidentTextSource(items[1..], i);
      assert items[1..][k] == items[k + 1];
      j := k + 1;
    }
  }

  /** The text of an OCR line above the threshold is kept. */
  lemma {:induction false} ConfidentTextKept(items: seq<TextItem>, j: nat)
    requires j < |items| && items[j].confidence > TextConfidenceThreshold
    ensures items[j].text in ConfidentTexts(items)
    decreases j
  {
    var rest := ConfidentTexts(items[1..]);
    if j == 0 {
      assert ConfidentTexts(items) == [items[0].text] + rest;
    } else {
      assert items[1..][j - 1] == items[j];
      ConfidentTextKept(items[1..], j - 1);
      assert ConfidentTexts(items) == rest || ConfidentTexts(items) == [items[0].text] + rest;
    }
  }

  /** Every kept name is a food tag above the threshold, and every such tag's name is kept. */
  lemma FoodTagsExact(tags: seq<Tag>)
    ensures forall i :: 0 <= i < |FoodTags(tags)| ==>
      exists j :: 0 <= j < |tags| && tags[j].name == FoodTags(tags)[i] && tags[j].confidence > TagConfidenceThreshold
    ensures forall j :: 0 <= j < |tags| && tags[j].confidence > TagConfidenceThreshold && tags[j].name in FoodVocabulary ==>
      tags[j].name in FoodTags(tags)
  {
    var names := FoodTags(tags);
    forall i | 0 <= i < |names|
      ensures exists j :: 0 <= j < |tags| && tags[j].name == names[i] && tags[j].confidence > TagConfidenceThreshold
    {
      var w := FoodTagSource(tags, i);
      assert 0 <= w < |tags| && tags[w].name == names[i] && tags[w].confidence > TagConfidenceThreshold;
    }
    forall j | 0 <= j < |tags| && tags[j].confidence > TagConfidenceThreshold && tags[j].name in FoodVocabulary
      ensures tags[j].name in FoodTags(tags)
    {
      FoodTagKept(tags, j);
    }
  }

  /** The Vision tag the `i`-th kept name comes from. */
  lemma {:induction false} FoodTagSource(tags: seq<Tag>, i: nat) returns (j: nat)
    requires i < |FoodTags(tags)|
    ensures j < |tags| && tags[j].name == FoodTags(tags)[i] && tags[j].confidence > TagConfidenceThreshold
    decreases |tags|
  {
    var rest := FoodTags(tags[1..]);
    if tags[0].confidence > TagConfidenceThreshold && tags[0].name in FoodVocabulary {
      assert FoodTags(tags) == [tags[0].name] + rest;
      if i == 0 {
        j := 0;
      } else {
        var k := FoodTagSource(tags[1..], i - 1);
        assert tags[1..][k] == tags[k + 1];
        j := k + 1;
      }
    } else {
      assert FoodTags(tags) == rest;
      var k := FoodTagSource(tags[1..], i);
      assert tags[1..][k] == tags[k + 1];
      j := k + 1;
    }
  }

  /** The name of a food tag above the threshold is kept. */
  lemma {:induction false} FoodTagKept(tags: seq<Tag>, j: nat)
    requires j < |tags| && tags[j].confidence > TagConfidenceThreshold && tags[j].name in FoodVocabulary
    ensures tags[j].name in FoodTags(tags)
    decreases j
  {
    var rest := FoodTags(tags[1..]);
    if j == 0 {
      assert FoodTags(tags) == [tags[0].name] + rest;
    } else {
      assert tags[1..][j - 1] == tags[j];
      FoodTagKept(tags[1..], j - 1);
      assert FoodTags(tags) == rest || FoodTags(tags) == [tags[0].name] + rest;
    }
  }

  /** The header is added when Vision read some text and the description has no (upper-case) marker yet. */
  predicate AddsHeader(description: string, detectedText: string) {
    detectedText != [] && !Contains(description, TextHeaderMarker)
  }

  /**
   * The description with the Vision text header prepended when it is added:
   * the description is kept whole at the end, and afterwards the marker is
   * present exactly when Vision read some text or it was there already.
   */
  function WithTextHeader(description: string, detectedText: string): (r: string)
    ensures !AddsHeader(description, detectedText) ==> r == description
    ensures |description| <= |r| && r[|r| - |description|..] == description
    ensures Contains(r, TextHeaderMarker) <==> detectedText != [] || Contains(description, TextHeaderMarker)
  {
    if AddsHeader(description, detectedText) then
      var r := TextHeaderPrefix + detectedText + "\n" + description;
      assert r[..|TextHeaderMarker|] == TextHeaderMarker;
      assert IsAt(r, TextHeaderMarker, 0);
      r
    else description
  }

  /** A description that already carries the marker gets no second header. */
  lemma HeaderAddedOnce(description: string, first: string, second: string)
    requires first != [] || Contains(description, TextHeaderMarker)
    ensures WithTextHeader(WithTextHeader(description, first), second) == WithTextHeader(description, first)
  {
  }

  /** The description grown by tag lines and the tags actually added. */
  datatype TagState = TagState(description: string, added: seq<string>)

  /**
   * The tag loop after the given tags: a tag is appended as a line unless it
   * already occurs, ignoring case, in the description as it stands.
   */
  function AppendTags(description: string, tags: seq<string>): (st: TagState)
    ensures |st.added| <= |tags|
    ensures forall i :: 0 <= i < |st.added| ==> st.added[i] in tags
    decreases |tags|
  {
    if tags == [] then TagState(description, [])
    else
      var st := AppendTags(description, tags[..|tags| - 1]);
      var tag := tags[|tags| - 1];
      if !Contains(Lower(st.description), Lower(tag))
      then TagState(st.description + TagLinePrefix + tag, st.added + [tag])
      else st
  }

  /** The OCR text fusion works with: the confident lines joined by " | " ("" when there are none). */
  function DetectedTextOf(v: VisionAnalysis): string {
    Join(ConfidentTexts(v.text), " | ")
  }

  /** The tag loop run on the description after the header step. */
  function FusedTags(description: string, v: VisionAnalysis): TagState {
    AppendTags(WithTextHeader(description, DetectedTextOf(v)), FoodTags(v.tags))
  }

  /** The notes: the text note when the header was added, then the tag note when some tag was. */
  function FusionNotes(description: string, v: VisionAnalysis): seq<string> {
    var added := FusedTags(description, v).added;
    (if AddsHeader(description, DetectedTextOf(v)) then [TextNote] else [])
    + (if added != [] then [TagNotePrefix + Join(added, ", ")] else [])
  }

  /** The specification of `combine_analysis_results`. */
  function CombineSpec(openai: OpenAIAnalysis, vision: Option<VisionAnalysis>): Combined {
    match vision
    case None =>
      Combined(openai.description, openai.fileName, 0.0, [], AnalysisMethods, openai, vision)
    case Some(v) =>
      Combined(FusedTags(openai.description, v).description, openai.fileName, 0.0,
               FusionNotes(openai.description, v), AnalysisMethods, openai, vision)
  }

  /** `combine_analysis_results`, following the source's loop over the food tags. */
  method CombineAnalysisResults(openai: OpenAIAnalysis, vision: Option<VisionAnalysis>) returns (combined: Combined)
    ensures combined == CombineSpec(openai, vision)
  {
    var combinedDescription := openai.description;
    var confidenceBoost := 0.0;
    var synergyNotes: seq<string> := [];
    if vision.Some? {
      var v := vision.value;
      var detectedText := Join(ConfidentTexts(v.text), " | ");
      assert detectedText == DetectedTextOf(v);
      if detectedText != [] && !Contains(combinedDescription, TextHeaderMarker) {
        assert AddsHeader(openai.description, detectedText);
        combinedDescription := TextHeaderPrefix + detectedText + "\n" + combinedDescription;
        synergyNotes := synergyNotes + [TextNote];
      }
      assert combinedDescription == WithTextHeader(openai.description, detectedText);
      var withHeader := combinedDescription;
      var foodTags := FoodTags(v.tags);
      var addedTags: seq<string> := [];
      for i := 0 to |foodTags|
        invariant TagState(combinedDescription, addedTags) == AppendTags(withHeader, foodTags[..i])
      {
        assert foodTags[..i + 1][..i] == foodTags[..i];
        var tag := foodTags[i];
        if !Contains(Lower(combinedDescription), Lower(tag)) {
          combinedDescription := combinedDescription + TagLinePrefix + tag;
          addedTags := addedTags + [tag];
        }
      }
      assert foodTags[..|foodTags|] == foodTags;
      if addedTags != [] {
        synergyNotes := synergyNotes + [TagNotePrefix + Join(addedTags, ", ")];
      }
    }
    combined := Combined(combinedDescription, openai.fileName, confidenceBoost, synergyNotes,
                         AnalysisMethods, openai, vision);
  }

  /** The lines the tag loop appends for the given added tags, in order. */
  function TagLines(added: seq<string>): string
    decreases |added|
  {
    if added == [] then [] else TagLines(added[..|added| - 1]) + TagLinePrefix + added[|added| - 1]
  }

  /** The tag loop only appends: the description it started from is the prefix, then one line per added tag. */
  lemma {:induction false} AppendTagsShape(description: string, tags: seq<string>)
    ensures AppendTags(description, tags).description == description + TagLines(AppendTags(description, tags).added)
    decreases |tags|
  {
    if tags != [] {
      var front := tags[..|tags| - 1];
      AppendTagsShape(description, front);
      var st := AppendTags(description, front);
      var tag := tags[|tags| - 1];
      if !Contains(Lower(st.description), Lower(tag)) {
        var added := st.added + [tag];
        assert added[..|added| - 1] == st.added;
        assert TagLines(added) == TagLines(st.added) + TagLinePrefix + tag;
      }
    }
  }

  /** Case-insensitive containment survives appending text. */
  lemma ContainsLowerGrows(d: string, suffix: string, pat: string)
    requires Contains(Lower(d), pat)
    ensures Contains(Lower(d + suffix), pat)
  {
    LowerAppend(d, suffix);
    ContainsAppend(Lower(d), Lower(suffix), pat);
  }

  /** A string ending in `t` contains `Lower(t)` once lower-cased. */
  lemma ContainsLowerEnd(d: string, t: string)
    ensures Contains(Lower(d + t), Lower(t))
  {
    LowerAppend(d, t);
    var s := Lower(d) + Lower(t);
    assert s[|Lower(d)|..|Lower(d)| + |Lower(t)|] == Lower(t);
    assert IsAt(s, Lower(t), |Lower(d)|);
  }

  /**
   * After the tag loop every tag it was given occurs, ignoring case, in the
   * description: either it was there already or its line was appended.
   */
  lemma {:induction false} AppendTagsCovers(description: string, tags: seq<string>)
    ensures forall i :: 0 <= i < |tags| ==>
      Contains(Lower(AppendTags(description, tags).description), Lower(tags[i]))
    decreases |tags|
  {
    if tags != [] {
      var front := tags[..|tags| - 1];
      AppendTagsCovers(description, front);
      var st := AppendTags(description, front);
      var tag := tags[|tags| - 1];
      if !Contains(Lower(st.description), Lower(tag)) {
        var grown := st.description + TagLinePrefix + tag;
        forall i | 0 <= i < |tags|
          ensures Contains(Lower(grown), Lower(tags[i]))
        {
          if i < |front| {
            assert tags[i] == front[i];
            ContainsLowerGrows(st.description, TagLinePrefix + tag, Lower(tags[i]));
            assert st.description + (TagLinePrefix + tag) == grown;
          } else {
            ContainsLowerEnd(st.description + TagLinePrefix, tag);
          }
        }
      } else {
        forall i | 0 <= i < |tags|
          ensures Contains(Lower(st.description), Lower(tags[i]))
        {
          if i < |front| {
            assert tags[i] == front[i];
          }
        }
      }
    }
  }

  /**
   * A tag already present in the description, ignoring case, is never
   * appended: each added tag was absent from the description the loop started from.
   */
  lemma {:induction false} AppendTagsSkipsPresent(description: string, tags: seq<string>)
    ensures forall i :: 0 <= i < |AppendTags(description, tags).added| ==>
      !Contains(Lower(description), Lower(AppendTags(description, tags).added[i]))
    decreases |tags|
  {
    if tags != [] {
      var front := tags[..|tags| - 1];
      AppendTagsSkipsPresent(description, front);
      var st := AppendTags(description, front);
      var tag := tags[|tags| - 1];
      if !Contains(Lower(st.description), Lower(tag)) {
        AppendTagsShape(description, front);
        if Contains(Lower(description), Lower(tag)) {
          ContainsLowerGrows(description, TagLines(st.added), Lower(tag));
          assert false;
        }
        var added := st.added + [tag];
        assert AppendTags(description, tags).added == added;
        forall i | 0 <= i < |added|
          ensures !Contains(Lower(description), Lower(added[i]))
        {
          if i < |st.added| {
            assert added[i] == st.added[i];
          }
        }
      } else {
        assert AppendTags(description, tags) == st;
      }
    }
  }

  /**
   * The tag loop over two lists one after the other is the loop over the
   * first, then the loop over the second on the grown description: tags are
   * considered and added in their order.
   */
  lemma {:induction false} AppendTagsSplit(description: string, x: seq<string>, y: seq<string>)
    ensures var st := AppendTags(description, x);
      var st2 := AppendTags(st.description, y);
      AppendTags(description, x + y) == TagState(st2.description, st.added + st2.added)
    decreases |y|
  {
    var st := AppendTags(description, x);
    if y == [] {
      assert x + y == x;
      assert st.added + [] == st.added;
    } else {
      var y0 := y[..|y| - 1];
      AppendTagsSplit(description, x, y0);
      assert (x + y)[..|x + y| - 1] == x + y0;
      assert (x + y)[|x + y| - 1] == y[|y| - 1];
      var st2 := AppendTags(st.description, y0);
      assert (st.added + st2.added) + [y[|y| - 1]] == st.added + (st2.added + [y[|y| - 1]]);
    }
  }

  /** No two of the tags are equal once lower-cased. */
  predicate DistinctIgnoringCase(ts: seq<string>) {
    forall i, j :: 0 <= i < j < |ts| ==> Lower(ts[i]) != Lower(ts[j])
  }

  /** No tag is added twice, not even in another letter case. */
  lemma {:induction false} AppendTagsDistinct(description: string, tags: seq<string>)
    ensures DistinctIgnoringCase(AppendTags(description, tags).added)
    decreases |tags|
  {
    if tags != [] {
      var front := tags[..|tags| - 1];
      AppendTagsDistinct(description, front);
      var st := AppendTags(description, front);
      var tag := tags[|tags| - 1];
      if !Contains(Lower(st.description), Lower(tag)) {
        AppendTagsCovers(description, front);
        var added := st.added + [tag];
        assert AppendTags(description, tags).added == added;
        forall i, j | 0 <= i < j < |added|
          ensures Lower(added[i]) != Lower(added[j])
        {
          assert added[i] == st.added[i];
          if j == |added| - 1 {
            assert added[j] == tag;
            assert st.added[i] in front;
            var k :| 0 <= k < |front| && front[k] == st.added[i];
            assert Contains(Lower(st.description), Lower(front[k]));
            assert Lower(added[i]) == Lower(front[k]);
          } else {
            assert added[j] == st.added[j];
            assert Lower(st.added[i]) != Lower(st.added[j]);
          }
        }
        assert DistinctIgnoringCase(added);
      } else {
        assert AppendTags(description, tags) == st;
      }
    }
  }

  /** Without a Vision result the OpenAI description passes through unchanged, with no notes. */
  lemma CombineWithoutVision(openai: OpenAIAnalysis)
    ensures var r := CombineSpec(openai, None);
      r.description == openai.description && r.synergyNotes == [] && r.confidenceBoost == 0.0
      && r.fileName == openai.fileName && r.analysisMethods == ["openai", "azure_vision"]
  {
  }

  /** Fusion keeps the OpenAI file name, adds no boost and names both services. */
  lemma CombineConstants(openai: OpenAIAnalysis, vision: Option<VisionAnalysis>)
    ensures var r := CombineSpec(openai, vision);
      r.fileName == openai.fileName && r.confidenceBoost == 0.0 && r.analysisMethods == ["openai", "azure_vision"]
      && r.openaiAnalysis == openai && r.visionAnalysis == vision
  {
  }

  /**
   * With a Vision result the fused description is the optional text header,
   * then the OpenAI description untouched, then one line per added food tag.
   */
  lemma CombineDescriptionShape(openai: OpenAIAnalysis, v: VisionAnalysis)
    ensures var tail := openai.description + TagLines(FusedTags(openai.description, v).added);
      var fused := CombineSpec(openai, Some(v)).description;
      (AddsHeader(openai.description, DetectedTextOf(v)) ==>
         fused == TextHeaderPrefix + DetectedTextOf(v) + "\n" + tail)
      && (!AddsHeader(openai.description, DetectedTextOf(v)) ==> fused == tail)
  {
    FusedShape(openai.description, v);
    var tl := TagLines(FusedTags(openai.description, v).added);
    if AddsHeader(openai.description, DetectedTextOf(v)) {
      Concat3(TextHeaderPrefix + DetectedTextOf(v) + "\n", openai.description, tl);
    }
  }

  /** The tag loop after the header step only appends tag lines. */
  lemma FusedShape(description: string, v: VisionAnalysis)
    ensures FusedTags(description, v).description
      == WithTextHeader(description, DetectedTextOf(v)) + TagLines(FusedTags(description, v).added)
  {
    AppendTagsShape(WithTextHeader(description, DetectedTextOf(v)), FoodTags(v.tags));
  }

  lemma Concat3(a: string, b: string, c: string)
    ensures (a + b) + c == a + (b + c)
  {
  }

  /**
   * Every high-confidence food tag Vision reported ends up, ignoring case, in
   * the fused description, and the tags named in the note are distinct food
   * tags of that list.
   */
  lemma CombineCoversFoodTags(openai: OpenAIAnalysis, v: VisionAnalysis)
    ensures var r := CombineSpec(openai, Some(v));
      forall j :: 0 <= j < |v.tags| && v.tags[j].confidence > TagConfidenceThreshold && v.tags[j].name in FoodVocabulary
        ==> Contains(Lower(r.description), Lower(v.tags[j].name))
    ensures var added := FusedTags(openai.description, v).added;
      (forall i :: 0 <= i < |added| ==> added[i] in FoodTags(v.tags))
      && DistinctIgnoringCase(added)
  {
    var withHeader := WithTextHeader(openai.description, DetectedTextOf(v));
    var names := FoodTags(v.tags);
    FoodTagsExact(v.tags);
    AppendTagsCovers(withHeader, names);
    AppendTagsDistinct(withHeader, names);
    var fused := CombineSpec(openai, Some(v)).description;
    assert fused == AppendTags(withHeader, names).description;
    forall j | 0 <= j < |v.tags| && v.tags[j].confidence > TagConfidenceThreshold && v.tags[j].name in FoodVocabulary
      ensures Contains(Lower(fused), Lower(v.tags[j].name))
    {
      var i :| 0 <= i < |names| && names[i] == v.tags[j].name;
    }
  }

  /**
   * The notes record exactly what fusion changed: the text note when the
   * header was added, the tag note (listing the added tags) when some tag line
   * was appended, in that order.
   */
  lemma CombineNotes(openai: OpenAIAnalysis, v: VisionAnalysis)
    ensures var added := FusedTags(openai.description, v).added;
      var notes := CombineSpec(openai, Some(v)).synergyNotes;
      |notes| <= 2
      && (TextNote in notes <==> AddsHeader(openai.description, DetectedTextOf(v)))
      && (TagNotePrefix + Join(added, ", ") in notes <==> added != [])
      && (AddsHeader(openai.description, DetectedTextOf(v)) ==> notes[0] == TextNote)
  {
    var added := FusedTags(openai.description, v).added;
    var tagNote := TagNotePrefix + Join(added, ", ");
    assert tagNote[17] == TagNotePrefix[17] == 'f';
    assert tagNote != TextNote by {
      assert TextNote[17] == 't';
    }
  }

  /** A string with no upper-case ASCII letter is its own lower case. */
  lemma LowerOfLowerCase(s: string)
    requires forall k :: 0 <= k < |s| ==> !IsAsciiUpper(s[k])
    ensures Lower(s) == s
  {
  }

  /**
   * When fusion adds the header, the text it carries is what `find_best_match`
   * extracts as detected text from the fused description, whatever lower-case
   * "text detected:" line the OpenAI description already held: the header
   * comes first.
   */
  lemma HeaderIsDetectedText(openai: OpenAIAnalysis, v: VisionAnalysis)
    requires AddsHeader(openai.description, DetectedTextOf(v))
    requires !IsSpace(DetectedTextOf(v)[0])
    requires forall k :: 0 <= k < |DetectedTextOf(v)| ==> DetectedTextOf(v)[k] != '\n'
    ensures Signals.DetectedText(Lower(CombineSpec(openai, Some(v)).description)) == Strip(Lower(DetectedTextOf(v)))
  {
    CombineDescriptionShape(openai, v);
    HeaderRead(DetectedTextOf(v), openai.description + TagLines(FusedTags(openai.description, v).added));
  }

  /** The detected text of a description that opens with the header line is that line's text. */
  lemma HeaderRead(line: string, tail: string)
    requires line != [] && !IsSpace(line[0])
    requires forall k :: 0 <= k < |line| ==> line[k] != '\n'
    ensures Signals.DetectedText(Lower(TextHeaderPrefix + line + "\n" + tail)) == Strip(Lower(line))
  {
    var text := TextHeaderPrefix + line + "\n" + tail;
    var lj := Lower(line);
    var lr := Lower("\n" + tail);
    LowerHeaderLine(line, tail);
    LowerKeepsLine(line);
    HeaderCapture(lj, lr);
    assert Signals.DetectedTextCapture(Lower(text)) == Some(lj);
    LowerStripLower(line);
  }

  /** Lower-casing the fused text lower-cases the header, the line and the rest separately. */
  lemma LowerHeaderLine(line: string, tail: string)
    ensures Lower(TextHeaderPrefix + line + "\n" + tail) == Signals.DetectedMarker + " " + Lower(line) + Lower("\n" + tail)
    ensures Lower("\n" + tail) != [] && Lower("\n" + tail)[0] == '\n'
  {
    var rest := "\n" + tail;
    assert TextHeaderPrefix + line + "\n" + tail == TextHeaderPrefix + (line + rest);
    LowerAppend(TextHeaderPrefix, line + rest);
    LowerAppend(line, rest);
    LowerHeaderPrefix();
  }

  /** Lower-casing keeps a line non-blank at its start and free of newlines. */
  lemma LowerKeepsLine(line: string)
    requires line != [] && !IsSpace(line[0])
    requires forall k :: 0 <= k < |line| ==> line[k] != '\n'
    ensures Lower(line) != [] && !IsSpace(Lower(line)[0])
    ensures forall k :: 0 <= k < |Lower(line)| ==> Lower(line)[k] != '\n'
  {
  }

  /** Stripping a lower-cased string leaves it lower-cased. */
  lemma LowerStripLower(line: string)
    ensures Lower(Strip(Lower(line))) == Strip(Lower(line))
  {
    var lj := Lower(line);
    StripShape(lj);
    var r := Strip(lj);
    var i := SkipWhile(IsSpace, lj, 0);
    assert forall k :: 0 <= k < |r| ==> r[k] == lj[i + k];
    LowerOfLowerCase(r);
  }

  lemma LowerHeaderPrefix()
    ensures Lower(TextHeaderPrefix) == Signals.DetectedMarker + " "
  {
  }

  /** The detected-text scanner reads back a header line placed at the front. */
  lemma HeaderCapture(line: string, rest: string)
    requires line != [] && !IsSpace(line[0])
    requires forall k :: 0 <= k < |line| ==> line[k] != '\n'
    requires rest != [] && rest[0] == '\n'
    ensures Signals.DetectedTextCapture(Signals.DetectedMarker + " " + line + rest) == Some(line)
  {
    var s := Signals.DetectedMarker + " " + line + rest;
    var m := |Signals.DetectedMarker|;
    assert s[..m] == Signals.DetectedMarker;
    assert IsAt(s, Signals.DetectedMarker, 0);
    assert s[m] == ' ';
    assert s[m + 1] == line[0];
    SkipWhileStops(IsSpace, s, m, m + 1);
    assert forall k :: m + 1 <= k < m + 1 + |line| ==> s[k] == line[k - m - 1];
    assert s[m + 1 + |line|] == '\n';
    SkipWhileStops(IsNotNewline, s, m + 1, m + 1 + |line|);
    assert s[m + 1..m + 1 + |line|] == line;
  }
}
