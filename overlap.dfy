/** `sequences_match` and `find_best_overlap`: how many leading words of a new
    chunk repeat the tail of the transcript. */
module OverlapSearch {
  import opened Numbers
  import opened Strings
  import opened WordSimilarity

  /** `min_similarity=0.7` passed by `find_best_overlap`. */
  const OverlapThreshold := Ratio(7, 10)

  /** The longest overlap, in words, that is ever looked for. */
  const MaxOverlapWords := 20

  // ---------------------------------------------------------------------------
  // sequences_match

  /** The number of positions at which the two word lists hold similar words. */
  function MatchCount(s1: seq<string>, s2: seq<string>): (n: nat)
    requires |s1| == |s2|
    ensures n <= |s1|
  {
    if s1 == [] then 0
    else MatchCount(s1[..|s1| - 1], s2[..|s2| - 1])
         + (if WordsSimilar(s1[|s1| - 1], s2[|s2| - 1]) then 1 else 0)
  }

  /** Extending both lists by one position adds one match exactly when the
      two new words are similar. */
  lemma MatchCountStep(s1: seq<string>, s2: seq<string>, i: nat)
    requires |s1| == |s2| && i < |s1|
    ensures MatchCount(s1[..i + 1], s2[..i + 1]) ==
      MatchCount(s1[..i], s2[..i]) + (if WordsSimilar(s1[i], s2[i]) then 1 else 0)
  {
    assert s1[..i + 1][..i] == s1[..i];
    assert s2[..i + 1][..i] == s2[..i];
  }

  /** Equal lengths, and the fraction of similar positions reaches `min`. */
  predicate SequencesAgree(s1: seq<string>, s2: seq<string>, min: Ratio) {
    |s1| == |s2| && AtLeast(Ratio(MatchCount(s1, s2), |s1|), min)
  }

  /** `sequences_match`: counts the similar positions in one pass. Two empty
      lists would divide by zero in the source, so callers never pass them. */
  method SequencesMatch(seq1: seq<string>, seq2: seq<string>, minSimilarity: Ratio)
    returns (b: bool)
    requires |seq1| == |seq2| ==> |seq1| > 0
    ensures b == SequencesAgree(seq1, seq2, minSimilarity)
  {
    if |seq1| != |seq2| {
      return false;
    }
    var matches := 0;
    var i := 0;
    while i < |seq1|
      invariant 0 <= i <= |seq1|
      invariant matches == MatchCount(seq1[..i], seq2[..i])
    {
      MatchCountStep(seq1, seq2, i);
      if WordsSimilar(seq1[i], seq2[i]) {
        matches := matches + 1;
      }
      i := i + 1;
    }
    assert seq1[..i] == seq1 && seq2[..i] == seq2;
    b := AtLeast(Ratio(matches, |seq1|), minSimilarity);
  }

  /** A word list always agrees with itself, at any threshold up to 1. */
  lemma {:induction false} SelfMatchCount(s: seq<string>)
    ensures MatchCount(s, s) == |s|
  {
    if s != [] {
      SelfMatchCount(s[..|s| - 1]);
      WordsSimilarReflexive(s[|s| - 1], s[|s| - 1]);
    }
  }

  lemma SequencesAgreeWithSelf(s: seq<string>, min: Ratio)
    requires min.num <= min.den
    ensures SequencesAgree(s, s, min)
  {
    SelfMatchCount(s);
    FullRatioAtLeast(|s|, min);
  }

  /** A full count reaches any threshold up to 1. */
  lemma FullRatioAtLeast(n: nat, t: Ratio)
    requires t.num <= t.den
    ensures AtLeast(Ratio(n, n), t)
  {
    assert n * t.den - t.num * n == n * (t.den - t.num);
  }

  // ---------------------------------------------------------------------------
  // find_best_overlap

  /** The largest overlap length that is tried. */
  function MaxOverlap(accumulated: seq<string>, incoming: seq<string>): nat {
    Min(Min(|accumulated|, |incoming|), MaxOverlapWords)
  }

  /** The last `k` accumulated words agree with the first `k` new words. */
  predicate OverlapAt(accumulated: seq<string>, incoming: seq<string>, k: nat) {
    k <= |accumulated| && k <= |incoming| &&
    SequencesAgree(accumulated[|accumulated| - k..], incoming[..k], OverlapThreshold)
  }

  /** Entry `k` tells whether the last `k` accumulated words agree with the
      first `k` new words, for every length that is tried. */
  function Agreements(accumulated: seq<string>, incoming: seq<string>): (flags: seq<bool>)
    ensures |flags| == MaxOverlap(accumulated, incoming) + 1
  {
    seq(MaxOverlap(accumulated, incoming) + 1, k requires 0 <= k => OverlapAt(accumulated, incoming, k))
  }

  /** Entry `k` of the agreement vector is the outcome of comparing the last
      `k` accumulated words with the first `k` new ones. */
  lemma AgreementAt(accumulated: seq<string>, incoming: seq<string>, k: nat)
    requires 0 < k <= MaxOverlap(accumulated, incoming)
    ensures Agreements(accumulated, incoming)[k] ==
      SequencesAgree(accumulated[|accumulated| - k..], incoming[..k], OverlapThreshold)
  {
  }

  /** Counting down from `k` to 1, the first set entry, or 0 when there is none. */
  function HighestFrom(flags: seq<bool>, k: nat): (l: nat)
    requires k < |flags|
    ensures l <= k
  {
    if k == 0 then 0
    else if flags[k] then k
    else HighestFrom(flags, k - 1)
  }

  /** `HighestFrom` finds the highest set entry in `1..k`. */
  lemma {:induction false} HighestFromIsLargest(flags: seq<bool>, k: nat)
    requires k < |flags|
    ensures var l := HighestFrom(flags, k); l > 0 ==> flags[l]
    ensures var l := HighestFrom(flags, k); forall m :: l < m <= k ==> !flags[m]
  {
    if k > 0 && !flags[k] {
      HighestFromIsLargest(flags, k - 1);
    }
  }

  /** The overlap length `find_best_overlap` returns. */
  function OverlapLength(accumulated: seq<string>, incoming: seq<string>): (l: nat)
    ensures l <= MaxOverlap(accumulated, incoming)
  {
    HighestFrom(Agreements(accumulated, incoming), MaxOverlap(accumulated, incoming))
  }

  /** The chosen overlap is the longest agreeing one within
      `min(|accumulated|, |incoming|, 20)`; 0 means that no length agrees. */
  lemma OverlapIsLongestMatch(accumulated: seq<string>, incoming: seq<string>)
    ensures var l := OverlapLength(accumulated, incoming);
      l > 0 ==> OverlapAt(accumulated, incoming, l)
    ensures var l := OverlapLength(accumulated, incoming);
      forall m :: l < m <= MaxOverlap(accumulated, incoming) ==> !OverlapAt(accumulated, incoming, m)
  {
    var flags := Agreements(accumulated, incoming);
    var l := OverlapLength(accumulated, incoming);
    HighestFromIsLargest(flags, MaxOverlap(accumulated, incoming));
    if l > 0 {
      assert flags[l];
    }
    forall m | l < m <= MaxOverlap(accumulated, incoming)
      ensures !OverlapAt(accumulated, incoming, m)
    {
      assert !flags[m];
    }
  }

  /** `find_best_overlap`: tries lengths from the largest down and stops at the
      first that agrees. */
  method FindBestOverlap(accumulatedWords: seq<string>, newWords: seq<string>)
    returns (best: nat)
    ensures best == OverlapLength(accumulatedWords, newWords)
    ensures best <= MaxOverlap(accumulatedWords, newWords)
    ensures best > 0 ==> OverlapAt(accumulatedWords, newWords, best)
    ensures forall m :: best < m <= MaxOverlap(accumulatedWords, newWords) ==> !OverlapAt(accumulatedWords, newWords, m)
  {
    ghost var flags := Agreements(accumulatedWords, newWords);
    var maxOverlap := Min(Min(|accumulatedWords|, |newWords|), MaxOverlapWords);
    best := 0;
    var overlapLength: nat := maxOverlap;
    while overlapLength > 0
      invariant overlapLength < |flags|
      invariant HighestFrom(flags, overlapLength) == OverlapLength(accumulatedWords, newWords)
    {
      var lastWords := accumulatedWords[|accumulatedWords| - overlapLength..];
      var firstWords := newWords[..overlapLength];
      var matched := SequencesMatch(lastWords, firstWords, OverlapThreshold);
      AgreementAt(accumulatedWords, newWords, overlapLength);
      if matched {
        best := overlapLength;
        break;
      }
      overlapLength := overlapLength - 1;
    }
    OverlapIsLongestMatch(accumulatedWords, newWords);
  }
}
