# Transcript merging and audio chunking

This project models the core of a long-recording transcription pipeline.

The recording is cut into overlapping windows (`AudioProcessor.create_chunks`),
and windows with too little speech are skipped. Each window's transcription is
then fed to a `TextMerger`. The merger:

- cleans the text: whitespace collapsed, `[...]` and `(...)` annotations removed;
- finds how many of the text's leading words repeat the tail of the transcript
  built so far, using a fuzzy word comparison;
- appends only the remaining words.

The project models these operations and proves what they guarantee. It
verifies with Dafny 4.11.

Modules, one file each:

- `Strings` (`strings.dfy`): the Python string behaviour the merger relies on.
  This covers `str.isspace`, `strip`, `split()`, `" ".join`, ASCII `lower()`,
  the `\s+` collapse and the lazy `\[.*?\]` / `\(.*?\)` removal.
- `Cleaning` (`cleaning.dfy`): `clean_text`.
- `WordSimilarity` (`similarity.dfy`): `words_similar` and `simple_similarity`.
- `OverlapSearch` (`overlap.dfy`): `sequences_match` and `find_best_overlap`.
- `TextMerging` (`text_merger.dfy`):
  - `remove_overlap` as a function of the transcript;
  - the class `TextMerger`, whose fields `accumulatedText` and
    `processedChunks` its methods update in place.
- `AudioChunking` (`audio_processor.dfy`): the loop of `create_chunks`.
- `MergeExample` (`merge_example.dfy`): works one merge through the model:
  "the quick brown fox" followed by "brown fox jumps over".
- `Numbers` (`numbers.dfy`): `min` and `max` on two integers.

Modelling choices:

- **Float ratios.** The source divides two counts and compares the
  quotient, a rounded double, with the literals 0.7 and 0.8, which are not
  exact in binary either. The model compares the counts by
  cross-multiplication instead:
  - `>= 0.7` becomes `10*matches >= 7*len`;
  - `> 0.8` becomes `5*common > 4*max(len)`.

  For the word counts and word lengths that occur here (at most 20 words,
  words of ordinary length), the integer comparison gives the same answer
  as the float comparison.
- **The shorthand table.** It is a lookup from a standard word to its
  variants. A pair is similar when either word is the standard word and the
  other is one of its variants.
- **The merger's state.** `TextMerger.Valid()` states two facts:
  - the transcript is the records' unique texts appended in order (`Rebuild`);
  - every record holds exactly what its cleaned text contributed to the
    transcript as it was then (`Audited`).

  Every method keeps `Valid()`.
- **The speech gate.** `detect_speech_activity` is a parameter
  `speech: seq<real> -> real` applied to a window's samples. Its result
  depends only on those samples and the fixed sample rate.
- **Chunk boundaries.** They are kept as sample indices. The source's times
  in seconds are these indices divided by `sample_rate`.

Two facts about the code that are easy to misread:

- The unique texts' lengths do not add up to the transcript length. The code
  puts one `" "` between consecutive non-empty unique texts.
  `TextMerging.RebuildLength` proves the exact relation, and
  `GetProcessingStats` states it.
- The record's `original_text` holds the cleaned text, not the raw input,
  because `new_text` is rebound before the record is made.

## Model

| member | source | states |
|---|---|---|
| Strings.IsSpaceAscii | text_merger.py:33 | within ASCII, the whitespace of `\s`, `split()` and `strip()` is exactly space, tab, line feed, carriage return, vertical tab, form feed and the four information separators; letters, digits and transcript punctuation are not whitespace |
| Strings.Strip | text_merger.py:38 | `strip()` never lengthens the text |
| Strings.IsBlankAllSpace | text_merger.py:10 | `not s.strip()` holds exactly when every character of `s` is whitespace |
| Strings.JoinEnds | text_merger.py:51 | `" ".join(ws)` starts with the first word and ends with the last |
| Strings.TrimLeft | text_merger.py:10 | `lstrip` result is a suffix of the input whose first character is not stripped |
| Strings.TrimRight | text_merger.py:10 | `rstrip` result is a prefix of the input whose last character is not stripped |
| Strings.TrimLeftDropsOnlySelected | text_merger.py:38 | `lstrip` only removes characters of the stripped class |
| Strings.TrimRightDropsOnlySelected | text_merger.py:38 | `rstrip` only removes characters of the stripped class |
| Strings.StripSlice | text_merger.py:38 | `strip()` is one contiguous slice of the input that neither starts nor ends with a stripped character, and it is empty iff every character is stripped |
| Strings.Lower | text_merger.py:82-83 | `lower()` keeps the length |
| Strings.LowerAt | text_merger.py:82-83 | `lower()` maps each character on its own, 'A'..'Z' to 'a'..'z' and the rest unchanged |
| Strings.Words | text_merger.py:41-42 | every element of `split()` is a non-empty word without whitespace |
| Strings.WordsAroundSpace | text_merger.py:21 | splitting `a + " " + b` gives the words of `a` followed by the words of `b` |
| Strings.WordsOfWord | text_merger.py:41-42 | a single word splits into itself |
| Strings.WordsOfJoin | text_merger.py:50-51 | `" ".join` of split words splits back into the same words (round trip) |
| Strings.NoWordsIffBlank | text_merger.py:10-11 | `split()` is empty exactly when `strip()` is empty |
| Strings.Collapse | text_merger.py:33 | after `re.sub(r'\s+', ' ', ...)` every whitespace character left is a plain space, and no character is new except spaces |
| Strings.CollapseHead | text_merger.py:33 | the collapse keeps the first character, or makes it a space when it is whitespace |
| Strings.CollapseSingleSpaces | text_merger.py:33 | after the collapse no two neighbouring characters are whitespace |
| Strings.WordsOfCollapse | text_merger.py:33 | the collapse keeps the words: `re.sub(r'\s+', ' ', s).split() == s.split()` |
| Strings.WordsOfStrip | text_merger.py:33 | stripping keeps the words: `s.strip().split() == s.split()` |
| Strings.FindClose | text_merger.py:35-36 | the lazy `.*?` stops at the first closing bracket, and never crosses a newline |
| Strings.RemoveSpans | text_merger.py:35-36 | span removal only shortens the text and introduces no new characters |
| Strings.RemoveSpansUntouched | text_merger.py:35-36 | a text without an opening bracket, or without a closing one, is returned unchanged |
| Strings.RemoveSpansKeepsPrefix | text_merger.py:35-36 | the text before the first opening bracket is kept as it is |
| Strings.FindCloseAfter | text_merger.py:35-36 | the lazy match from an opening bracket ends at the first closing bracket when no newline comes before it |
| Strings.RemoveSpansDropsFirstSpan | text_merger.py:35-36 | in `a + open + m + close + b`, with no opening bracket in `a` and no closing bracket or newline in `m`, the span is deleted, `a` is kept and the removal goes on in `b` |
| Strings.RemoveSpansLeavesNoSpan | text_merger.py:35-36 | on text without newlines, no opening bracket is followed by a closing one after the removal |
| Strings.RemoveSpansKeepsNoSpan | text_merger.py:35-36 | removing spans of one bracket kind keeps a text free of spans of another kind |
| Cleaning.CleanText | text_merger.py:32-38 | cleaning never lengthens the text |
| Cleaning.CleanTextProperties | text_merger.py:32-38 | cleaned text: no whitespace at either end, every whitespace character inside is a plain space, no `[...]` or `(...)` span left |
| Cleaning.CleanTextKeepsWords | text_merger.py:32-38 | a text with no `[` and no `(` keeps its words through cleaning: `clean_text(t).split() == t.split()` |
| Cleaning.CleanBlank | text_merger.py:10-13 | a blank text cleans to the empty string |
| WordSimilarity.VariantsOf | text_merger.py:88-96 | only words of at most three letters have variants, and every variant has at most four characters |
| WordSimilarity.CommonCount | text_merger.py:111 | the common-character count never exceeds the first word's length, and is 0 against an empty word |
| WordSimilarity.SimpleSimilarity | text_merger.py:107-112 | the similarity is a ratio in [0, 1], and 0 when either word is empty |
| WordSimilarity.NormalizeIdempotent | text_merger.py:82-83 | the normal form is lower case with no stripped punctuation at either end, so normalising it again changes nothing |
| WordSimilarity.WordsSimilarCases | text_merger.py:81-105 | the case split of `words_similar`: equal normal forms are similar, shorthand pairs are similar, and any other similar pair has both normal forms longer than three characters (the fuzzy branch, decided as `WordsSimilarFuzzyRule` states) |
| WordSimilarity.WordsSimilarReflexive | text_merger.py:82-86 | words equal after lower-casing and punctuation stripping are similar, both ways |
| WordSimilarity.WordsSimilarFuzzyRule | text_merger.py:102-105 | for distinct non-shorthand normal forms: similar iff both are longer than 3 and 5*common > 4*max length |
| WordSimilarity.VariantPairSimilar | text_merger.py:98-100 | a shorthand pair is similar in either order |
| WordSimilarity.CommonCountFull | text_merger.py:111 | the count is full iff every character of the first word occurs in the second |
| WordSimilarity.CommonCountZero | text_merger.py:111 | the count is zero iff no character of the first word occurs in the second |
| WordSimilarity.LongPlainWordsSimilar | text_merger.py:102-105 | between distinct plain words longer than four characters, similarity is decided by the character overlap alone |
| WordSimilarity.WordsSimilarNotSymmetric | text_merger.py:105-112 | the comparison is not symmetric: "aaaaa" is similar to "abcde" but not the reverse |
| OverlapSearch.MatchCount | text_merger.py:73-76 | the number of similar positions is at most the length |
| OverlapSearch.SequencesMatch | text_merger.py:69-79 | false on different lengths, otherwise whether the similar positions reach the threshold fraction |
| OverlapSearch.SelfMatchCount | text_merger.py:73-76 | every position of a list compared with itself matches |
| OverlapSearch.SequencesAgreeWithSelf | text_merger.py:69-79 | a word list agrees with itself at any threshold up to 1 |
| OverlapSearch.HighestFromIsLargest | text_merger.py:59-65 | the downward scan returns the highest agreeing length, or 0 when none agrees |
| OverlapSearch.OverlapIsLongestMatch | text_merger.py:55-67 | the chosen overlap agrees, and no longer length up to min(lengths, 20) does |
| OverlapSearch.FindBestOverlap | text_merger.py:55-67 | the loop returns the longest agreeing overlap of at most min(lengths, 20) words, 0 when none agrees |
| TextMerging.UniquePartIsSuffix | text_merger.py:40-53 | the unique part's words are the new words after the dropped overlap; nothing dropped means the text is returned untouched |
| TextMerging.UniquePartOfJoin | text_merger.py:40-53 | on texts that are words joined by single spaces, exactly the detected overlap of the word lists is dropped |
| TextMerging.ContributionWords | text_merger.py:15-19 | the first chunk contributes its whole cleaned text; a later one contributes the cleaned words after the dropped overlap, which is at most 20 words |
| TextMerging.Append | text_merger.py:15-21 | the transcript only grows by appending, by the unique text plus one separating space |
| TextMerging.AppendWords | text_merger.py:19-21 | the transcript's words grow by exactly the unique text's words |
| TextMerging.RebuildLength | text_merger.py:117-121 | the transcript length is the sum of unique lengths plus one space between consecutive non-empty ones |
| TextMerging.RebuildWords | text_merger.py:117-121 | every transcript word comes from exactly one record's unique text, in record order |
| TextMerging.RebuildPrefix | text_merger.py:19-21 | each earlier transcript is a prefix of every later one |
| TextMerging.AuditedSnoc | text_merger.py:23-28 | appending a record made from the current state keeps the records audited |
| TextMerging.TextMerger.constructor | text_merger.py:5-7 | the merger starts empty and valid |
| TextMerging.TextMerger.MergeTranscription | text_merger.py:9-30 | blank input changes nothing and returns ""; otherwise the cleaned text contributes its unique part, the transcript is extended by it and one record is added |
| TextMerging.TextMerger.MergeCleaned | text_merger.py:13-30 | from the cleaned text on: the unique text is the contribution, the transcript is extended by it, and exactly one record of the state is appended |
| TextMerging.TextMerger.RemoveOverlap | text_merger.py:40-53 | the result is the new text minus the detected overlap, or the new text itself |
| TextMerging.TextMerger.GetFinalTranscript | text_merger.py:114-115 | the final transcript is the records' unique texts appended in order |
| TextMerging.TextMerger.GetProcessingStats | text_merger.py:117-123 | chunk count, length and word count of the transcript, expressed through the records |
| MergeExample.ShortWordDissimilar | text_merger.py:98-103 | a plain word of at most three characters with no shorthand variants is similar to no longer plain word |
| MergeExample.DisjointWordsDissimilar | text_merger.py:102-112 | plain words longer than four characters that share no character are not similar |
| MergeExample.FourWithTwoMisses | text_merger.py:73-79 | two dissimilar pairs among four fall below the 0.7 agreement |
| MergeExample.ThreeWithOneMiss | text_merger.py:73-79 | one dissimilar pair among three falls below the 0.7 agreement |
| MergeExample.ExampleOverlap | text_merger.py:55-67 | for "the quick brown fox" then "brown fox jumps over", four and three words do not agree and two do, so the overlap is 2 |
| MergeExample.ExampleMerge | text_merger.py:40-53 | on that example `remove_overlap` drops two words and returns "jumps over" |
| MergeExample.ExampleAppend | text_merger.py:19-21 | the transcript then reads "the quick brown fox jumps over" |
| AudioChunking.ShippedConfigSteps | config.py:6-12 | the shipped configuration gives 480000-sample chunks advancing by 352000 samples |
| AudioChunking.StepSamples | audio_processor.py:47-49 | the step is positive, at most a chunk, and step plus overlap is a chunk |
| AudioChunking.WindowsFrom | audio_processor.py:56-57 | windows exist iff the start is inside the audio; each is `[start, min(start+chunk, len))`, non-empty and in bounds |
| AudioChunking.StepAt | audio_processor.py:74-77 | each window after the first starts one step later, where at least half a chunk was left |
| AudioChunking.LastStop | audio_processor.py:74-77 | after the last window, less than half a chunk is left at the next start |
| AudioChunking.LastStart | audio_processor.py:74-77 | the walk stops at a start inside the audio after which less than half a chunk is left one step on |
| AudioChunking.LastIsLastStart | audio_processor.py:74-77 | the last examined window starts where the walk stops |
| AudioChunking.StartsAreMultiples | audio_processor.py:53-74 | window i starts at i * step |
| AudioChunking.ExaminedIncreasing | audio_processor.py:74 | window starts strictly increase |
| AudioChunking.Coverage | audio_processor.py:57-74 | consecutive windows touch or overlap, and unclipped ones overlap by exactly the overlap samples |
| AudioChunking.UncoveredTail | audio_processor.py:76-77 | at most half a chunk of audio after the last window is never examined |
| AudioChunking.ExaminedCount | audio_processor.py:53-77 | no windows iff the audio is empty; the first is `[0, min(chunk, len))`; (count - 1) * step is less than the audio length |
| AudioChunking.Kept | audio_processor.py:63-67 | the kept chunks are never more than the windows |
| AudioChunking.KeptSound | audio_processor.py:57-67 | every kept chunk is the audio cut at one of the windows and passed the gate |
| AudioChunking.KeptComplete | audio_processor.py:63-67 | a window's chunk is kept iff its speech estimate reaches the threshold |
| AudioChunking.KeptIncreasing | audio_processor.py:56-74 | the kept chunks come in strictly increasing start order |
| AudioChunking.EmittedIsGated | audio_processor.py:63-67 | on the whole output: an examined window's chunk is returned iff it passes the speech gate |
| AudioChunking.EmittedIsSound | audio_processor.py:56-67 | every returned chunk is an examined, in-bounds slice that passed the gate, and there are no more chunks than windows |
| AudioChunking.EmittedInOrder | audio_processor.py:56-74 | the returned chunks are in strictly increasing time order |
| AudioChunking.WalkKeeps | audio_processor.py:56-77 | the loop, run from any start with any chunks collected, appends exactly the passing chunks of the windows from there |
| AudioChunking.CreateChunks | audio_processor.py:43-80 | returns exactly the passing chunks of the examined windows, in order |
| AudioChunking.SlideWindows | audio_processor.py:53-77 | the loop returns exactly the passing chunks of the windows from sample 0 |

## Left out

- `detect_speech_activity` (audio_processor.py:30-41) is a parameter. It computes an RMS percentile over floating-point frames with librosa, which is foreign numeric code.
- `load_and_preprocess` and `save_chunk` are file I/O, noise reduction and WAV writing, so they are not modelled.
- The `print` progress messages and `chunk_count` are not modelled, because they affect only console output.
- The `AUDIO_CONFIG` durations are whole seconds, as in the shipped configuration, so `int(duration * sample_rate)` needs no truncation. Fractional durations are not modelled.
- AudioChunking.CreateChunks requires `WellFormed`: a positive sample rate and an overlap shorter than a chunk. With a zero rate the source divides by zero. With an overlap of at least a chunk the step is zero or negative. Then, on non-empty audio, the source stops after the first window only when `len(audio) - step < chunk_samples * 0.5`. Otherwise `start_idx` stays put or moves backwards and the loop never ends. The model does not cover those configurations.
- Chunk start and end times are kept as sample indices rather than float seconds.
- OverlapSearch.SequencesMatch requires that two lists of equal length are not both empty. The source would divide by zero there. `find_best_overlap` never calls it that way.
- The default `min_similarity=0.8` of `sequences_match` is not a constant of the model. Its only caller passes 0.7, and `OverlapSearch.SequencesMatch` takes the threshold as a parameter.
- `lower()` is modelled for ASCII letters only. Unicode case mapping is not modelled.
- `isspace`, `\s` and `split()` use one fixed set of whitespace code points.
- `str` is modelled as a sequence of code points, with no encoding.
- The regular-expression engine is not modelled in general. Only the three patterns the merger uses are written out.
- The calling order in `main.py` (chunking, then transcription, then merging) is not part of this model. Transcription is a network call.
