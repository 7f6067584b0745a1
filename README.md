# Image description matching engine, modelled in Dafny

This project models the matching engine of an application that names food photos. The engine reads an image analysis from Azure OpenAI, optionally enriched by Azure AI Vision. It matches the analysis against a catalog of menu-item descriptions and derives the name the image is copied under. Five pieces are modelled:

- **Fusion** (`combine_analysis_results`). Vision's confident OCR text is prepended to the OpenAI description as a `TEXT DETECTED:` header. Its confident food tags are appended as lines, unless already present ignoring case. Synergy notes record what was added.
- **Best match** (`find_best_match`). Three regular-expression scans read the detected text, a self-reported confidence and an explicit `unmatched` marker from the lower-cased description. Phase A picks the first catalog entry sharing the detected text, with score 0.9. Otherwise phase B picks the first entry with the strictly highest word-overlap share. Confidence resolution then applies a reported confidence, the synergy boost and the caps 0.9 or 1.0. A weak or missing match is replaced by an `UNMATCHED` label of at most four food words.
- **Match file name** (`_create_match_filename`). The name is the sanitised label, `_conf`, the truncated percentage and the original extension. The extension is cut the way POSIX `os.path.splitext` cuts it.
- **File utilities**. `sanitize_filename`, and the line filter that turns a descriptions file into the catalog.
- **The tail of `analyze_image`**. The fused analysis is matched, merged and named.

Each loop of the source becomes a method with loop invariants. Each method is proved equal to a specification function:

| method | specification function |
|---|---|
| `Fusion.CombineAnalysisResults` | `CombineSpec` |
| `BestMatch.FindBestMatch` | `FindBestMatchSpec` |
| `Matching.FindTextHit` | `FirstTextHitFrom` |
| `Matching.ScanCatalog` | `ScanOverlap` |
| `Matching.CountOverlap` | `OverlapCount` |

The properties are lemmas about those functions. Functions that only compose others have no contract of their own; the lemma rows below specify them. `BestMatch.FindBestMatchSpec`, `BestMatch.ResultFor` and `BestMatch.FallbackPhrase` are specified by the `BestMatch` lemma rows and `BestMatch.FallbackPhraseWords`. `Fusion.CombineSpec` is specified by the `Fusion.Combine…` rows. `MatchFilename.DropScore` is specified by `MatchFilename.DropScoreUnchanged` and `MatchFilename.DropScoreRemovesTail`. `Pipeline.MatchAndName` is specified by the `Pipeline` rows. The image analyser object is never modified after construction, so it is not a class. Its catalog is a parameter.

Three behaviours worth knowing:

- Fusion appends each added tag as a line `Vision API detected: <tag>`.
- Fusion always reports the analysis methods `["openai", "azure_vision"]`.
- The file-name clean-up removes `CONFIDENCE…SCORE` together with the rest of its line, at every occurrence.

## Model

| member | source | states |
|---|---|---|
| FileUtils.Sanitize | app/utils/file_utils.py:33-45 | the result has the input's length, only `[A-Za-z0-9_-]`, every safe character kept in place and every other one replaced by `_` |
| FileUtils.SanitizeSafe | app/utils/file_utils.py:43-45 | a name already made of safe characters is returned unchanged |
| FileUtils.SanitizeIdempotent | app/utils/file_utils.py:43-45 | sanitising twice equals sanitising once |
| FileUtils.SanitizeHasNoSpace | app/utils/file_utils.py:43-45 | a sanitised name contains no whitespace |
| FileUtils.SanitizeExamples | app/utils/file_utils.py:33-45 | the unit test's cases: "Hello World!", "path/to/file", accented letters, the empty string |
| FileUtils.NonBlankLines | app/utils/file_utils.py:23 | at most as many descriptions as lines; each is non-empty |
| FileUtils.NonBlankLinesAppend | app/utils/file_utils.py:23 | the filter keeps order and multiplicity: the lines of `x + y` give the descriptions of `x` followed by those of `y` |
| FileUtils.StripStripped | app/utils/file_utils.py:23 | `strip` is idempotent |
| FileUtils.LoadDescriptions | app/utils/file_utils.py:11-30 | a missing or unreadable file gives the empty catalog; otherwise at most one non-empty description per line |
| FileUtils.NonBlankLinesFromFile | app/utils/file_utils.py:23 | every loaded description is the stripped form of some line of the file |
| FileUtils.NonBlankLinesStripped | app/utils/file_utils.py:23 | every loaded description is already stripped |
| FileUtils.NonBlankLinesKeepAll | app/utils/file_utils.py:23 | every line that is non-blank after stripping is loaded |
| FileUtils.StripTrailing | app/utils/file_utils.py:23 | a line followed by its newline strips to the line |
| FileUtils.LoadDescriptionsExample | app/utils/file_utils.py:21-27 | the unit test's three-line file loads as three descriptions; a missing file loads as none |
| PyStrings.StripShape | app/core/image_analyzer.py:217 | `strip` is empty exactly for all-whitespace text; otherwise both ends are non-space and only whitespace is dropped |
| PyStrings.StripPadded | app/core/image_analyzer.py:367 | stripping whitespace padding gives back the text it surrounds |
| PyStrings.WordsOfJoin | app/core/image_analyzer.py:326-331 | `split()` of tokens joined by single spaces gives the tokens back |
| PyStrings.IndexOfFinds | app/core/image_analyzer.py:215 | a search from the start finds an occurrence exactly when the substring test holds |
| PyNumbers.ParseFloat | app/core/image_analyzer.py:224-229 | `float()` of a digit-and-dot capture succeeds exactly with at most one dot and some digit; the value is non-negative; a digit string gives its integer value |
| PyNumbers.ParseFloatOfNatToDecimal | app/core/image_analyzer.py:225 | parsing the decimal digits of a whole number gives that number |
| PyNumbers.Trunc | app/core/image_analyzer.py:377 | `int()` truncates toward zero: the result lies within one of its argument, on the side of zero |
| PyNumbers.IntToDecimal | app/core/image_analyzer.py:380 | `str()` of an int is digits that `float()` reads back as the int, after a minus sign when it is negative |
| Signals.DetectedTextCapture | app/core/image_analyzer.py:215 | the capture exists exactly when "text detected:" occurs; it contains no newline and does not start with whitespace |
| Signals.DetectedText | app/core/image_analyzer.py:214-217 | empty without the marker; contains no upper-case letter |
| Signals.NumberStart | app/core/image_analyzer.py:222 | `[\s:]*(score)?[\s:]*` consumes only whitespace, colons and lower-case letters |
| Signals.ConfidenceCaptureFrom | app/core/image_analyzer.py:222 | a capture is a non-empty run of digits and dots after some "confidence"; without "confidence" there is none |
| Signals.Rescale | app/core/image_analyzer.py:226-227 | values up to 10 are kept; larger ones are divided by 10 exactly once; up to 100 lands within [0, 10] |
| Signals.ReportedConfidence | app/core/image_analyzer.py:220-229 | the reported confidence is non-negative, and 0 when the text has no "confidence" |
| Signals.UnmatchedCaptureFrom | app/core/image_analyzer.py:232-233 | a capture is non-empty, made of word characters and whitespace, after some "unmatched"; without "unmatched" there is none |
| Signals.ConfidenceCaptureAt | app/core/image_analyzer.py:222 | after the first "confidence", its separators and an optional "score", the capture is exactly the following run of digits and dots |
| Signals.ReportedConfidenceOf | app/core/image_analyzer.py:220-227 | a whole number N after the first "confidence" is reported as N, or N/10 when above 10 |
| Signals.ReportedConfidenceUnparsed | app/core/image_analyzer.py:223-229 | a digit-and-dot capture that `float()` rejects reports 0, as if absent |
| Signals.ConfidenceCaptureOutOfTen | app/core/image_analyzer.py:222 | in "confidence score: N/10" the capture is the digits of N |
| Signals.ReportedOutOfTen | app/core/image_analyzer.py:220-227 | "confidence score: N/10" with N at most 10 reports N |
| Signals.ReportedRescaled | app/core/image_analyzer.py:222-227 | "confidence: N" with N above 10 reports N/10 |
| Signals.ReportedLoneDot | app/core/image_analyzer.py:222-229 | "confidence: ." reports 0 |
| Signals.ReportedAfterUnmatched | app/core/image_analyzer.py:220-227 | "confidence score: N/10" on the line after "unmatched" and food words without an 'o' reports N |
| Signals.UnmatchedCaptureAt | app/core/image_analyzer.py:232-233 | after the first "unmatched" and its spaces and hyphens, the capture is the whole following run of word characters and whitespace |
| Signals.UnmatchedCaptureRunsOn | app/core/image_analyzer.py:232-233 | the capture of "unmatched <words>\nconfidence score: N/10" runs on across the newline and ends at "score" |
| Signals.UnmatchedHit | app/core/image_analyzer.py:232-233 | the group matched at one occurrence of "unmatched" is, when present, non-empty and made of word characters and whitespace |
| Signals.ConfidenceCaptureTakesNumber | app/core/image_analyzer.py:222 | when digits or dots follow the first "confidence" at or after the scan point (past its separators and optional "score"), the capture is exactly that run |
| Signals.ConfidenceCaptureSkipsBare | app/core/image_analyzer.py:222 | a "confidence" with no digit or dot after its separators does not match: the search resumes one character later, so a later "confidence score: 8/10" still reports 8 |
| Signals.ConfidenceCaptureClear | app/core/image_analyzer.py:222 | a stretch of text without "confidence" does not change the outcome of the search started before it |
| Signals.UnmatchedCaptureTakesWords | app/core/image_analyzer.py:232-233 | when a word character follows the first "unmatched" and its spaces and hyphens, the capture is the run of word characters and whitespace from there |
| Signals.UnmatchedCaptureSkipsBare | app/core/image_analyzer.py:232-233 | an "unmatched" followed only by hyphens and then no word character does not match: the search resumes one character later |
| Signals.UnmatchedCaptureBacktracks | app/core/image_analyzer.py:232-233 | when no word character follows the separators, the capture backtracks to the last whitespace character before the trailing hyphens and is that one character |
| Signals.UnmatchedCaptureLoneSpace | app/core/image_analyzer.py:232-233 | "unmatched", a space, hyphens and then punctuation (or the end) capture the single space |
| Signals.UnmatchedColonExample | app/core/image_analyzer.py:232-233 | "unmatched :" captures " " |
| Matching.FirstTextHitFrom | app/core/image_analyzer.py:240-248 | the result is the first entry sharing the detected text; None exactly when no entry does |
| Matching.FindTextHit | app/core/image_analyzer.py:241-248 | phase A's loop stops at the first entry sharing the detected text |
| Matching.OverlapCount | app/core/image_analyzer.py:260-263 | the count never exceeds the number of words |
| Matching.CountOverlap | app/core/image_analyzer.py:260-263 | the `base_score` loop counts the words longer than two characters that occur in the text |
| Matching.OverlapScore | app/core/image_analyzer.py:256-267 | an entry without tokens is skipped; any other score lies in [0, 1] |
| Matching.ScanOverlap | app/core/image_analyzer.py:251-271 | the running best is an entry already seen; its score lies in [0, 1] |
| Matching.ScanOverlapIsFirstMaximum | app/core/image_analyzer.py:252-271 | phase B chooses the first entry with the highest score, which every earlier entry falls strictly below; nothing is chosen exactly when every score is 0 |
| Matching.ScanCatalog | app/core/image_analyzer.py:252-271 | phase B's loop computes the first-maximum scan |
| Matching.MatchCatalog | app/core/image_analyzer.py:239-271 | the chosen entry is in the catalog and the score lies in [0, 1] |
| Matching.TextHitShortCircuit | app/core/image_analyzer.py:240-251 | with detected text shared by some entry, the first such entry wins with 0.9 and phase B does not run |
| Matching.NoTextHitUsesOverlap | app/core/image_analyzer.py:250-251 | without a phase A hit the result is phase B's |
| BestMatch.ResolveExplicit | app/core/image_analyzer.py:280-288 | a positive reported value, divided by 10, is preferred, else max(0.3, score); the boost is added and the sum is capped at 0.9 |
| BestMatch.ResolveGeneral | app/core/image_analyzer.py:300-308 | a positive reported value, divided by 10, is preferred, else the score; the boost is added and the sum is capped at 1.0 |
| BestMatch.RemoveMarkerLines | app/core/image_analyzer.py:322-323 | the text never grows and is unchanged when the marker is absent |
| BestMatch.UnterminatedLineKept | app/core/image_analyzer.py:322-323 | a marker line without a closing newline is not removed |
| BestMatch.TerminatedLineRemoved | app/core/image_analyzer.py:322-323 | a marker line ended by a newline is removed whole |
| BestMatch.FoodWords | app/core/image_analyzer.py:321-328 | the food words are upper-case alphabetic words longer than two letters, no more than the tokens |
| BestMatch.CollectFoodWords | app/core/image_analyzer.py:326-328 | the `food_words` loop computes the food words |
| BestMatch.FallbackPhraseWords | app/core/image_analyzer.py:318-332 | the fallback label is at most four upper-case food words in text order, and splitting it gives them back |
| BestMatch.FindBestMatch | app/core/image_analyzer.py:201-343 | `find_best_match`'s loops compute the specification |
| BestMatch.MatchPhases | app/core/image_analyzer.py:236-271 | phase A, then phase B when A found nothing, compute the catalog match |
| BestMatch.BuildResult | app/core/image_analyzer.py:273-343 | the resolution and fallback code builds the result dictionary of the specification |
| BestMatch.ConfidenceBounds | app/core/image_analyzer.py:287-308 | confidence is at most 1.0, and at most 0.9 when explicitly unmatched; the score lies in [0, 1]; a non-negative boost keeps confidence non-negative |
| BestMatch.ResultCarriesAnalysis | app/core/image_analyzer.py:274-341 | the notes, methods and boost of the analysis are copied into the result |
| BestMatch.OriginalConfidenceBounds | app/core/image_analyzer.py:280-314 | `original_confidence` lies in [0, 1] when the reported value is at most 10 |
| BestMatch.ExplicitUnmatchedPath | app/core/image_analyzer.py:277-298 | the explicit-unmatched result is produced exactly when the marker matches; its label is the stripped, upper-cased capture with the explicit reason |
| BestMatch.ExplicitReportedConfidence | app/core/image_analyzer.py:277-297 | with the marker and a positive reported value, the match is "UNMATCHED " and the upper-cased capture, and the confidence is min(reported/10 + boost, 0.9) |
| BestMatch.ReportedConfidenceFirst | app/core/image_analyzer.py:300-314 | without the marker, a reported confidence overrides the score: min(reported/10 + boost, 1.0) |
| BestMatch.DetectedTextDecides | app/core/image_analyzer.py:240-316 | the first entry sharing the detected text is the match, with score 0.9 and no fallback |
| BestMatch.OverlapDecides | app/core/image_analyzer.py:251-319 | an unreplaced phase B match is a first maximum with score at least 0.3 |
| BestMatch.FallbackWhenWeak | app/core/image_analyzer.py:318-333 | with no match or a score below 0.3, the match is "UNMATCHED " plus the fallback phrase, with its reason |
| BestMatch.MatchNeverMissing | app/core/image_analyzer.py:310-332 | a catalog without empty entries always yields a match string |
| BestMatch.MatchIsEntryOrUnmatched | app/core/image_analyzer.py:290-332 | every match is a catalog entry or starts with "UNMATCHED " |
| BestMatch.LoadedCatalogAlwaysMatches | app/core/image_analyzer.py:310-332 | a catalog loaded from a file always yields a match string |
| Fusion.ConfidentTexts | app/core/image_analyzer.py:160-161 | no more texts than OCR items |
| Fusion.ConfidentTextsExact | app/core/image_analyzer.py:161 | every kept text is the text of an OCR item with confidence above 0.5, and the text of every such item is kept |
| Fusion.ConfidentTextsAppend | app/core/image_analyzer.py:161 | the OCR texts keep their order and multiplicity across a concatenation of items |
| Fusion.FoodTags | app/core/image_analyzer.py:173-176 | every kept name is in the food vocabulary; no more names than tags |
| Fusion.FoodTagsExact | app/core/image_analyzer.py:173-176 | every kept name is the name of a tag with confidence above 0.7, and the name of every such tag in the food vocabulary is kept |
| Fusion.FoodTagsAppend | app/core/image_analyzer.py:173-176 | the food tags keep their order and multiplicity across a concatenation of tags |
| Fusion.WithTextHeader | app/core/image_analyzer.py:166-167 | the description stays at the end; it is unchanged when no header is added; the result holds the marker exactly when there is detected text or the description already held it |
| Fusion.HeaderAddedOnce | app/core/image_analyzer.py:166-167 | once a header is in, a second fusion adds no second header |
| Fusion.AppendTags | app/core/image_analyzer.py:179-183 | the tags added are some of those given, no more of them |
| Fusion.AppendTagsSkipsPresent | app/core/image_analyzer.py:180-183 | a tag already present in the description, ignoring case, is never added |
| Fusion.AppendTagsSplit | app/core/image_analyzer.py:179-183 | the tag loop runs in order: tags `x + y` act as `x`, then `y` on the result |
| Fusion.CombineAnalysisResults | app/core/image_analyzer.py:137-199 | the fusion method computes the specification, including its tag loop |
| Fusion.AppendTagsShape | app/core/image_analyzer.py:180-183 | the tag loop only appends one line per added tag |
| Fusion.AppendTagsCovers | app/core/image_analyzer.py:180-183 | afterwards every tag occurs in the description, ignoring case |
| Fusion.AppendTagsDistinct | app/core/image_analyzer.py:180-183 | no tag is added twice, even in another letter case |
| Fusion.CombineWithoutVision | app/core/image_analyzer.py:152-199 | without Vision the description passes through, with no notes and no boost |
| Fusion.CombineConstants | app/core/image_analyzer.py:191-199 | the file name is OpenAI's, the boost is 0, both services are named, and both inputs are kept |
| Fusion.CombineDescriptionShape | app/core/image_analyzer.py:156-186 | the fused description is the optional header, then the OpenAI text untouched, then the tag lines |
| Fusion.CombineCoversFoodTags | app/core/image_analyzer.py:171-183 | every confident food tag ends up in the description; the added tags are distinct food tags |
| Fusion.CombineNotes | app/core/image_analyzer.py:166-186 | the text note appears exactly when the header is added, and first; the tag note appears exactly when tags are added |
| Fusion.HeaderIsDetectedText | app/core/image_analyzer.py:166-217 | the text fusion puts in the header is what `find_best_match` later reads as detected text |
| Fusion.HeaderCapture | app/core/image_analyzer.py:215 | the detected-text scanner reads back a header line at the front |
| MatchFilename.NameStart | app/core/image_analyzer.py:357 | the last path component starts after the last '/' |
| MatchFilename.ExtStart | app/core/image_analyzer.py:357 | `splitext` cuts at the last dot of the last component when a non-dot precedes it there, else nowhere |
| MatchFilename.Ext | app/core/image_analyzer.py:357 | the extension is a suffix that is empty, or a dot followed by no dot and no slash |
| MatchFilename.CollapseSpaces | app/core/image_analyzer.py:371-384 | whitespace runs become underscores: the result has no whitespace and never grows |
| MatchFilename.ScoreMatchEnd | app/core/image_analyzer.py:370 | a `CONFIDENCE[^\w]*SCORE.*` match starts at "confidence" in any case and ends after it |
| MatchFilename.DropScoreFrom | app/core/image_analyzer.py:370 | the clean-up never lengthens the text |
| MatchFilename.DropScoreSkip | app/core/image_analyzer.py:370 | a stretch where no "confidence" starts is copied unchanged |
| MatchFilename.DropScoreUnchanged | app/core/image_analyzer.py:370 | text without "confidence" in any case is unchanged |
| MatchFilename.DropScoreRemovesTail | app/core/image_analyzer.py:370 | after text without "confidence", a tail "CONFIDENCE", non-word characters, "SCORE" and the rest of the line (any case) is removed |
| MatchFilename.UnmatchedLabel | app/core/image_analyzer.py:367-374 | an UNMATCHED label is safe in a file name |
| MatchFilename.UnmatchedLabelDropsScore | app/core/image_analyzer.py:365-374 | words followed by a "CONFIDENCE … SCORE" line give the label of the words alone, joined by '_' |
| MatchFilename.UnmatchedLabelRunOnExample | app/core/image_analyzer.py:365-374 | "UNMATCHED CHICKEN SNDWCH\nCONFIDENCE SCORE" gives the label "CHICKEN_SNDWCH" |
| MatchFilename.ConfPercent | app/core/image_analyzer.py:377-387 | the percentage is digits, possibly after a minus sign; a non-negative confidence gives the digits of its truncated hundredfold |
| MatchFilename.MatchFilenameOf | app/core/image_analyzer.py:345-393 | without a match the original name, or "unknown.jpeg", is returned; with one, a `[A-Za-z0-9_-]` stem ending in "_conf" and the percentage, then the original extension |
| MatchFilename.CollapseJoin | app/core/image_analyzer.py:371 | words joined by single spaces come out joined by underscores |
| MatchFilename.ConfPercentRange | app/core/image_analyzer.py:377-387 | a confidence in [0, 1] prints as a whole number from 0 to 100 |
| MatchFilename.CatalogMatchName | app/core/image_analyzer.py:381-390 | a catalog match is only sanitised, since no whitespace is left for the collapse |
| MatchFilename.UnmatchedName | app/core/image_analyzer.py:365-380 | an UNMATCHED match becomes "UNMATCHED_", the cleaned label, "_conf", the percentage and the extension |
| MatchFilename.UnmatchedLabelOfWords | app/core/image_analyzer.py:367-374 | the label of "UNMATCHED" followed by plain safe words is those words joined by '_' |
| MatchFilename.ExtExamples | app/core/image_analyzer.py:357 | "test.jpg", "unknown.jpeg" and "archive.tar.gz" give ".jpg", ".jpeg" and ".gz" |
| MatchFilename.ExtExamplesNone | app/core/image_analyzer.py:357 | ".bashrc" and "photo" have no extension |
| MatchFilename.ConfPercentExamples | app/core/image_analyzer.py:377-387 | 0.85, 0.25, 0.8 and 0.0 print as 85, 25, 80 and 0 |
| MatchFilename.CatalogMatchExample | app/core/image_analyzer.py:381-390 | "Chicken Sandwich" at 0.85 for "test.jpg" gives "Chicken_Sandwich_conf85.jpg" |
| MatchFilename.UnmatchedMatchExample | app/core/image_analyzer.py:365-380 | "UNMATCHED CHICKEN SNDWCH" at 0.25 gives "UNMATCHED_CHICKEN_SNDWCH_conf25.jpg" |
| MatchFilename.UnmatchedRunOnNameExample | app/core/image_analyzer.py:365-380 | "UNMATCHED CHICKEN SNDWCH\nCONFIDENCE SCORE" at 0.8 gives "UNMATCHED_CHICKEN_SNDWCH_conf80.jpg" |
| MatchFilename.NoMatchExample | app/core/image_analyzer.py:391-393 | no match keeps "test.jpg" |
| Pipeline.FusedResultCarriesNotes | app/core/image_analyzer.py:124-129 | after fusion, the result carries fusion's notes and methods, a zero boost, and a confidence in [0, 1] |
| Pipeline.NoMatchKeepsFileName | app/core/image_analyzer.py:129-133 | a result without a match keeps fusion's file name |
| Pipeline.UnmatchedResultName | app/core/image_analyzer.py:129-133 | an "UNMATCHED " result is named by its cleaned label |
| Pipeline.CatalogResultName | app/core/image_analyzer.py:129-133 | a catalog result is named by its sanitised entry |
| Pipeline.VisionTextDecides | app/core/image_analyzer.py:124-126 | Vision's OCR text added by fusion decides the match: the first entry sharing it, with score 0.9 |
| Pipeline.ExplicitUnmatchedScenario | app/tests/test_image_analyzer.py:106-124 | "UNMATCHED CHICKEN SNDWCH\nConfidence score: 8/10" gives the explicit match "UNMATCHED CHICKEN SNDWCH\nCONFIDENCE SCORE" with confidence 0.8, for any catalog |
| Pipeline.ExplicitUnmatchedScenarioName | app/tests/test_image_analyzer.py:106-124 | that result, for "test.jpg", is named "UNMATCHED_CHICKEN_SNDWCH_conf80.jpg" |

## Left out

- Case mapping, `\w`, `\d` and `isalpha` cover ASCII only. Python's Unicode rules and its IGNORECASE case folding beyond ASCII are not modelled. Whitespace follows Python's full `isspace` set.
- Floats are exact reals. Rounding is not modelled: Python computes `int(0.29 * 100)` as 28, and the model gives 29.
- `analyze_image` is modelled only from line 124. Service dispatch, the Vision-only description builder and the "no services" error are I/O around the core.
- Printing and `_print_model_comparison` are left out: they only write to the console.
- The Azure OpenAI and Vision clients, `run.py`, the settings and the other `file_utils` functions (base64 encoding, directories) are left out. They do I/O.
- Reading the descriptions file is a parameter: the file's lines, or None when it is missing or unreadable.
- Vision's objects and caption fields are never read by fusion, so they are not modelled beyond the caption being carried.
- A missing Vision result and an empty dictionary (both falsy) are one case, None.
- `confidence_boost` is a real in the model. Fusion always sets it to 0.
- The `print` of the detected text inside `find_best_match` is not modelled.
