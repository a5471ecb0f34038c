/** The transcript merger: it cleans each chunk's text, detects how many of
    its leading words repeat the tail of the transcript built so far, and
    appends only the rest. Pure helpers (which never touch the merger's
    state) are module-level; the state lives in class `TextMerger`. */
module TextMerging {
  import opened Strings
  import opened Cleaning
  import opened OverlapSearch

  // ---------------------------------------------------------------------------
  // remove_overlap

  /** How many leading words of `newText` `remove_overlap` discards. */
  function DroppedWords(accumulated: string, newText: string): nat {
    var aw, nw := Words(accumulated), Words(newText);
    if |aw| == 0 || |nw| == 0 then 0 else OverlapLength(aw, nw)
  }

  /** `remove_overlap` as a function of the accumulated text: the new words
      after the overlap, joined by single spaces, or the new text untouched
      when either side has no words or no overlap is found. */
  function UniquePart(accumulated: string, newText: string): string {
    var aw, nw := Words(accumulated), Words(newText);
    if |aw| == 0 || |nw| == 0 then newText
    else
      var best := OverlapLength(aw, nw);
      if best > 0 then Join(nw[best..]) else newText
  }

  /** The unique part is exactly the new text's words after the dropped
      overlap; nothing is dropped if the new text is returned untouched, and a
      dropped prefix always agrees with the tail of the accumulated words. */
  lemma UniquePartIsSuffix(accumulated: string, newText: string)
    ensures DroppedWords(accumulated, newText) <= |Words(newText)|
    ensures DroppedWords(accumulated, newText) <= MaxOverlapWords
    ensures Words(UniquePart(accumulated, newText)) == Words(newText)[DroppedWords(accumulated, newText)..]
    ensures DroppedWords(accumulated, newText) == 0 ==> UniquePart(accumulated, newText) == newText
    ensures var d := DroppedWords(accumulated, newText);
      d > 0 ==> OverlapAt(Words(accumulated), Words(newText), d)
  {
    var aw, nw := Words(accumulated), Words(newText);
    if |aw| > 0 && |nw| > 0 {
      OverlapIsLongestMatch(aw, nw);
      var best := OverlapLength(aw, nw);
      if best > 0 {
        WordsOfJoin(nw[best..]);
      }
    }
  }

  /** On texts that are words joined by single spaces (as cleaned text is),
      `remove_overlap` drops exactly the detected overlap of the word lists. */
  lemma UniquePartOfJoin(accumulatedWords: seq<string>, newWords: seq<string>)
    requires accumulatedWords != [] && newWords != []
    requires forall i :: 0 <= i < |accumulatedWords| ==> IsWord(accumulatedWords[i])
    requires forall i :: 0 <= i < |newWords| ==> IsWord(newWords[i])
    ensures DroppedWords(Join(accumulatedWords), Join(newWords)) == OverlapLength(accumulatedWords, newWords)
    ensures var d := OverlapLength(accumulatedWords, newWords);
      UniquePart(Join(accumulatedWords), Join(newWords)) == if d > 0 then Join(newWords[d..]) else Join(newWords)
  {
    WordsOfJoin(accumulatedWords);
    WordsOfJoin(newWords);
  }

  // ---------------------------------------------------------------------------
  // merge_transcription, as a function of the state

  /** What a non-blank call contributes: the whole cleaned text on an empty
      transcript, otherwise what `remove_overlap` leaves. */
  function Contribution(accumulated: string, cleaned: string): string {
    if accumulated == "" then cleaned else UniquePart(accumulated, cleaned)
  }

  /** The first chunk contributes its whole cleaned text; a later chunk
      contributes the words of its cleaned text that follow its overlap with
      the transcript, and that overlap is at most `MaxOverlapWords` words. */
  lemma ContributionWords(accumulated: string, cleaned: string)
    ensures accumulated == "" ==> Contribution(accumulated, cleaned) == cleaned
    ensures var d := if accumulated == "" then 0 else DroppedWords(accumulated, cleaned);
      && d <= |Words(cleaned)| && d <= MaxOverlapWords
      && Words(Contribution(accumulated, cleaned)) == Words(cleaned)[d..]
  {
    UniquePartIsSuffix(accumulated, cleaned);
  }

  /** The accumulated text after a contribution: the contribution itself on an
      empty transcript, unchanged for an empty contribution, otherwise the
      contribution appended after one space. */
  function Append(accumulated: string, unique: string): (r: string)
    ensures accumulated <= r
    ensures |r| == |accumulated| + |unique| + (if accumulated != "" && unique != "" then 1 else 0)
  {
    if accumulated == "" then unique
    else if unique == "" then accumulated
    else accumulated + " " + unique
  }

  /** The words of the transcript grow by the words of the contribution. */
  lemma AppendWords(accumulated: string, unique: string)
    ensures Words(Append(accumulated, unique)) == Words(accumulated) + Words(unique)
  {
    if accumulated == "" {
    } else if unique == "" {
    } else {
      WordsAroundSpace(accumulated, unique);
    }
  }

  // ---------------------------------------------------------------------------
  // The merger's state

  /** The caller's description of a chunk; the merger only stores it. */
  datatype ChunkInfo = ChunkInfo(index: int, startTime: real, endTime: real)

  /** One entry of `processed_chunks`. `originalText` holds the CLEANED text. */
  datatype MergeRecord = MergeRecord(
    chunkInfo: ChunkInfo,
    originalText: string,
    uniqueText: string,
    accumulatedLength: nat)

  /** The dictionary `get_processing_stats` returns. */
  datatype ProcessingStats = ProcessingStats(
    totalChunksProcessed: nat,
    finalTranscriptLength: nat,
    finalWordCount: nat,
    chunksInfo: seq<MergeRecord>)

  /** The transcript that a sequence of records describes: their unique texts
      appended in order. */
  function Rebuild(records: seq<MergeRecord>): string {
    if records == [] then ""
    else Append(Rebuild(records[..|records| - 1]), records[|records| - 1].uniqueText)
  }

  /** Every record's unique text is what its cleaned text contributed to the
      transcript before it, and its length field is the transcript's length
      right after it. */
  ghost predicate Audited(records: seq<MergeRecord>) {
    records == [] ||
      var front, last := records[..|records| - 1], records[|records| - 1];
      && Audited(front)
      && last.uniqueText == Contribution(Rebuild(front), last.originalText)
      && last.accumulatedLength == |Rebuild(records)|
  }

  /** Sum of the lengths of all unique texts. */
  function UniqueLength(records: seq<MergeRecord>): nat {
    if records == [] then 0
    else UniqueLength(records[..|records| - 1]) + |records[|records| - 1].uniqueText|
  }

  /** Number of records with a non-empty unique text. */
  function NonEmptyCount(records: seq<MergeRecord>): nat {
    if records == [] then 0
    else NonEmptyCount(records[..|records| - 1]) + (if records[|records| - 1].uniqueText != "" then 1 else 0)
  }

  /** All words of all unique texts, in record order. */
  function UniqueWords(records: seq<MergeRecord>): seq<string> {
    if records == [] then []
    else UniqueWords(records[..|records| - 1]) + Words(records[|records| - 1].uniqueText)
  }

  /** The transcript's length is the sum of the unique texts' lengths plus one
      separating space between each two consecutive non-empty ones. */
  lemma {:induction false} RebuildLength(records: seq<MergeRecord>)
    ensures Rebuild(records) == "" <==> NonEmptyCount(records) == 0
    ensures |Rebuild(records)| ==
      UniqueLength(records) + (if NonEmptyCount(records) > 0 then NonEmptyCount(records) - 1 else 0)
  {
    if records != [] {
      RebuildLength(records[..|records| - 1]);
    }
  }

  /** No double counting: every word of the transcript comes from exactly one
      record's unique text, in record order. */
  lemma {:induction false} RebuildWords(records: seq<MergeRecord>)
    ensures Words(Rebuild(records)) == UniqueWords(records)
  {
    if records != [] {
      RebuildWords(records[..|records| - 1]);
      AppendWords(Rebuild(records[..|records| - 1]), records[|records| - 1].uniqueText);
    }
  }

  /** The transcript only ever grows by appending: an earlier state is a
      prefix of every later one. */
  lemma {:induction false} RebuildPrefix(records: seq<MergeRecord>, i: nat)
    requires i <= |records|
    ensures Rebuild(records[..i]) <= Rebuild(records)
    decreases |records|
  {
    if i < |records| {
      var front := records[..|records| - 1];
      assert records[..i] == front[..i];
      RebuildPrefix(front, i);
    } else {
      assert records[..i] == records;
    }
  }

  /** Appending a record made from the current transcript keeps the records
      audited and extends the transcript by its unique text. */
  lemma AuditedSnoc(records: seq<MergeRecord>, record: MergeRecord)
    requires Audited(records)
    requires record.uniqueText == Contribution(Rebuild(records), record.originalText)
    requires record.accumulatedLength == |Append(Rebuild(records), record.uniqueText)|
    ensures Rebuild(records + [record]) == Append(Rebuild(records), record.uniqueText)
    ensures Audited(records + [record])
  {
    assert (records + [record])[..|records|] == records;
  }

  class TextMerger {
    var accumulatedText: string
    var processedChunks: seq<MergeRecord>

    /** The transcript is the records' unique texts appended in order, and
        every record is faithful to the state it was made in. */
    ghost predicate Valid()
      reads this
    {
      accumulatedText == Rebuild(processedChunks) && Audited(processedChunks)
    }

    constructor ()
      ensures Valid()
      ensures accumulatedText == "" && processedChunks == []
    {
      accumulatedText := "";
      processedChunks := [];
    }

    /** `merge_transcription`. A blank text changes nothing and returns "".
        Otherwise the cleaned text contributes its unique part, the transcript
        is extended with it (only by appending) and exactly one record is
        added. */
    method MergeTranscription(newText: string, chunkInfo: ChunkInfo) returns (uniqueText: string)
      requires Valid()
      modifies this
      ensures Valid()
      ensures old(accumulatedText) <= accumulatedText
      ensures IsBlank(newText) ==>
        && uniqueText == ""
        && accumulatedText == old(accumulatedText)
        && processedChunks == old(processedChunks)
      ensures !IsBlank(newText) ==>
        && uniqueText == Contribution(old(accumulatedText), CleanText(newText))
        && accumulatedText == Append(old(accumulatedText), uniqueText)
        && processedChunks == old(processedChunks) +
             [MergeRecord(chunkInfo, CleanText(newText), uniqueText, |accumulatedText|)]
    {
      if IsBlank(newText) {
        return "";
      }
      var cleaned := CleanText(newText);
      uniqueText := MergeCleaned(cleaned, chunkInfo);
    }

    /** The non-blank branch of `merge_transcription`, from the cleaned text
        on. */
    method MergeCleaned(cleaned: string, chunkInfo: ChunkInfo) returns (uniqueText: string)
      requires Valid()
      modifies this
      ensures Valid()
      ensures uniqueText == Contribution(old(accumulatedText), cleaned)
      ensures accumulatedText == Append(old(accumulatedText), uniqueText)
      ensures processedChunks == old(processedChunks) +
        [MergeRecord(chunkInfo, cleaned, uniqueText, |accumulatedText|)]
    {
      ghost var contribution := Contribution(accumulatedText, cleaned);
      ghost var extended := Append(accumulatedText, contribution);
      if accumulatedText == "" {
        accumulatedText := cleaned;
        uniqueText := cleaned;
      } else {
        uniqueText := RemoveOverlap(cleaned);
        assert uniqueText == contribution;
        if uniqueText != "" {
          accumulatedText := accumulatedText + " " + uniqueText;
        }
      }
      assert uniqueText == contribution && accumulatedText == extended;
      var record := MergeRecord(chunkInfo, cleaned, uniqueText, |accumulatedText|);
      AuditedSnoc(processedChunks, record);
      processedChunks := processedChunks + [record];
    }

    /** `remove_overlap` against the current transcript. */
    method RemoveOverlap(newText: string) returns (unique: string)
      ensures unique == UniquePart(accumulatedText, newText)
    {
      var wordsAccumulated := Words(accumulatedText);
      var wordsNew := Words(newText);
      if |wordsAccumulated| == 0 || |wordsNew| == 0 {
        return newText;
      }
      var bestOverlapLength := FindBestOverlap(wordsAccumulated, wordsNew);
      if bestOverlapLength > 0 {
        unique := Join(wordsNew[bestOverlapLength..]);
      } else {
        unique := newText;
      }
    }

    /** `get_final_transcript`: the unique texts of all records, appended in
        order. */
    function GetFinalTranscript(): (t: string)
      reads this
      requires Valid()
      ensures t == Rebuild(processedChunks)
    {
      accumulatedText
    }

    /** `get_processing_stats`: one chunk per record, and the length and word
        count of the transcript, which add up from the unique texts without
        double counting. */
    function GetProcessingStats(): (stats: ProcessingStats)
      reads this
      requires Valid()
      ensures stats.totalChunksProcessed == |processedChunks|
      ensures stats.chunksInfo == processedChunks
      ensures stats.finalWordCount == |UniqueWords(processedChunks)|
      ensures stats.finalTranscriptLength == UniqueLength(processedChunks) +
        (if NonEmptyCount(processedChunks) > 0 then NonEmptyCount(processedChunks) - 1 else 0)
    {
      RebuildWords(processedChunks);
      RebuildLength(processedChunks);
      ProcessingStats(
        |processedChunks|,
        |accumulatedText|,
        |Words(accumulatedText)|,
        processedChunks)
    }
  }
}
