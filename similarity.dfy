/** `words_similar` and `simple_similarity`: when two single words count as
    the same word in the overlap search. */
module WordSimilarity {
  import opened Numbers
  import opened Strings

  /** A non-negative fraction `num / den`, standing for a Python float that is
      a ratio of small integers. */
  datatype Ratio = Ratio(num: nat, den: nat)

  /** `r >= t`, cross-multiplied. */
  predicate AtLeast(r: Ratio, t: Ratio) {
    r.num * t.den >= t.num * r.den
  }

  /** `r > t`, cross-multiplied. */
  predicate Exceeds(r: Ratio, t: Ratio) {
    r.num * t.den > t.num * r.den
  }

  /** The fuzzy word-similarity cut-off, `> 0.8`. */
  const FuzzyThreshold := Ratio(4, 5)

  // ---------------------------------------------------------------------------
  // words_similar and simple_similarity

  /** The punctuation `strip('.,!?:;"')` removes from both ends of a word. */
  predicate IsStripPunct(c: char) {
    c in ".,!?:;\""
  }

  /** `word.lower().strip('.,!?:;"')`. */
  function Normalize(word: string): string {
    Strip(Lower(word), IsStripPunct)
  }

  /** The fixed shorthand table, looked up by its standard word: the
      accepted variants of `standard`, or none when it is not a key. */
  function VariantsOf(standard: string): (variants: seq<string>)
    ensures variants != [] ==> |standard| <= 3
    ensures forall v :: v in variants ==> |v| <= 4
  {
    if standard == "and" then ["&", "n"]
    else if standard == "to" then ["2", "too"]
    else if standard == "for" then ["4", "fore"]
    else if standard == "you" then ["u"]
    else if standard == "are" then ["r"]
    else if standard == "see" then ["c"]
    else if standard == "be" then ["b"]
    else []
  }

  /** One word is a standard word of the table and the other one of its
      variants, in either order. */
  predicate IsVariantPair(w1: string, w2: string) {
    w2 in VariantsOf(w1) || w1 in VariantsOf(w2)
  }

  /** How many characters of `s1` (with repetition) occur somewhere in `s2`. */
  function CommonCount(s1: string, s2: string): (n: nat)
    ensures n <= |s1|
    ensures s2 == [] ==> n == 0
  {
    if s1 == [] then 0 else (if s1[0] in s2 then 1 else 0) + CommonCount(s1[1..], s2)
  }

  /** `simple_similarity`: common characters over the longer length, or 0 when
      either string is empty. */
  function SimpleSimilarity(s1: string, s2: string): (r: Ratio)
    ensures r.den > 0 && r.num <= r.den
    ensures (s1 == [] || s2 == []) ==> r.num == 0
  {
    if s1 == [] || s2 == [] then Ratio(0, 1)
    else Ratio(CommonCount(s1, s2), Max(|s1|, |s2|))
  }

  /** `words_similar`: equal after normalising, a shorthand pair, or two words
      longer than three characters whose character overlap exceeds 0.8. */
  function WordsSimilar(word1: string, word2: string): bool {
    var w1 := Normalize(word1);
    var w2 := Normalize(word2);
    if w1 == w2 then true
    else if IsVariantPair(w1, w2) then true
    else if |w1| <= 3 || |w2| <= 3 then w1 == w2
    else Exceeds(SimpleSimilarity(w1, w2), FuzzyThreshold)
  }

  /** Words with the same normal form, and shorthand pairs, are similar; any
      other similar pair consists of two normalised words longer than three
      characters, so distinct short words never match. */
  lemma WordsSimilarCases(word1: string, word2: string)
    ensures Normalize(word1) == Normalize(word2) ==> WordsSimilar(word1, word2)
    ensures IsVariantPair(Normalize(word1), Normalize(word2)) ==> WordsSimilar(word1, word2)
    ensures WordsSimilar(word1, word2) ==>
      || Normalize(word1) == Normalize(word2)
      || IsVariantPair(Normalize(word1), Normalize(word2))
      || (|Normalize(word1)| > 3 && |Normalize(word2)| > 3)
  {
  }

  /** A word is similar to itself, and to any word that differs from it only
      in letter case or in surrounding punctuation. */
  lemma WordsSimilarReflexive(word1: string, word2: string)
    requires Normalize(word1) == Normalize(word2)
    ensures WordsSimilar(word1, word2) && WordsSimilar(word2, word1)
  {
  }

  /** The case split of the comparison: a pair of normalised words that are
      neither equal nor a shorthand pair is similar only when both are longer
      than three characters, and then exactly when `5*common > 4*max(len)`. */
  lemma WordsSimilarFuzzyRule(word1: string, word2: string)
    requires Normalize(word1) != Normalize(word2)
    requires !IsVariantPair(Normalize(word1), Normalize(word2))
    ensures var w1, w2 := Normalize(word1), Normalize(word2);
      WordsSimilar(word1, word2) <==>
        |w1| > 3 && |w2| > 3 && 5 * CommonCount(w1, w2) > 4 * Max(|w1|, |w2|)
  {
  }

  /** Already lower case, and no stripped punctuation at either end. */
  predicate Plain(w: string) {
    && Lower(w) == w
    && (w != [] ==> !IsStripPunct(w[0]) && !IsStripPunct(w[|w| - 1]))
  }

  /** A word without upper-case letters is its own lower-case form. */
  lemma LowerOfLowercase(w: string)
    requires forall k :: 0 <= k < |w| ==> !('A' <= w[k] <= 'Z')
    ensures Lower(w) == w
  {
    forall k | 0 <= k < |w| ensures Lower(w)[k] == w[k] {
      LowerAt(w, k);
    }
  }

  /** A plain word is its own normal form. */
  lemma NormalizeFixed(w: string)
    requires Plain(w)
    ensures Normalize(w) == w
  {
  }

  /** Normalising twice is normalising once: the normal form is lower case
      and has no stripped punctuation at either end. */
  lemma NormalizeIdempotent(word: string)
    ensures Plain(Normalize(word))
    ensures Normalize(Normalize(word)) == Normalize(word)
  {
    var l := Lower(word);
    var n := Normalize(word);
    var i := StripSlice(l, IsStripPunct);
    forall k | 0 <= k < |n| ensures !('A' <= n[k] <= 'Z') {
      assert n[k] == l[i + k];
      LowerAt(word, i + k);
    }
    LowerOfLowercase(n);
    NormalizeFixed(n);
  }

  /** A shorthand pair of plain words is similar, in either order. */
  lemma VariantPairSimilar(w1: string, w2: string)
    requires Plain(w1) && Plain(w2) && IsVariantPair(w1, w2)
    ensures WordsSimilar(w1, w2) && WordsSimilar(w2, w1)
  {
    NormalizeFixed(w1);
    NormalizeFixed(w2);
    WordsSimilarCases(w1, w2);
    WordsSimilarCases(w2, w1);
  }

  /** A shorthand pair never involves a word longer than four characters, so
      the fuzzy comparison never has to decide one. */
  lemma VariantPairsAreShort(w1: string, w2: string)
    requires IsVariantPair(w1, w2)
    ensures |w1| <= 4 && |w2| <= 4
  {
  }

  /** The count is full exactly when every character of `s1` occurs in
      `s2`. */
  lemma {:induction false} CommonCountFull(s1: string, s2: string)
    ensures CommonCount(s1, s2) == |s1| <==> forall k :: 0 <= k < |s1| ==> s1[k] in s2
  {
    if s1 != [] {
      CommonCountFull(s1[1..], s2);
      if forall k :: 0 <= k < |s1| - 1 ==> s1[1..][k] in s2 {
        if s1[0] in s2 {
          forall k | 0 <= k < |s1| ensures s1[k] in s2 {
            if k > 0 { assert s1[k] == s1[1..][k - 1]; }
          }
        }
      } else {
        var k :| 0 <= k < |s1| - 1 && s1[1..][k] !in s2;
        assert s1[k + 1] !in s2;
      }
    }
  }

  /** The count is zero exactly when no character of `s1` occurs in `s2`. */
  lemma {:induction false} CommonCountZero(s1: string, s2: string)
    ensures CommonCount(s1, s2) == 0 <==> forall k :: 0 <= k < |s1| ==> s1[k] !in s2
  {
    if s1 != [] {
      CommonCountZero(s1[1..], s2);
      if s1[0] !in s2 && CommonCount(s1[1..], s2) == 0 {
        forall k | 0 <= k < |s1| ensures s1[k] !in s2 {
          if k > 0 { assert s1[k] == s1[1..][k - 1]; }
        }
      }
    }
  }

  /** Every character of "aaaaa" occurs in "abcde", but only the first
      character of "abcde" occurs in "aaaaa". */
  lemma CommonCountExample()
    ensures CommonCount("aaaaa", "abcde") == 5
    ensures CommonCount("abcde", "aaaaa") == 1
  {
    var a, b := "aaaaa", "abcde";
    assert forall k :: 0 <= k < |a| ==> a[k] == 'a';
    CommonCountFull(a, b);
    assert 'b' !in a && 'c' !in a && 'd' !in a && 'e' !in a;
    CommonCountZero(b[1..], a);
  }

  /** The two words of the asymmetry example are plain. */
  lemma ExampleWordsPlain()
    ensures Plain("aaaaa") && Plain("abcde")
  {
    var a, b := "aaaaa", "abcde";
    assert a[0] == 'a' && a[1] == 'a' && a[2] == 'a' && a[3] == 'a' && a[4] == 'a';
    LowerOfLowercase(a);
    assert b[0] == 'a' && b[1] == 'b' && b[2] == 'c' && b[3] == 'd' && b[4] == 'e';
    LowerOfLowercase(b);
  }

  /** Between two plain words longer than four characters that differ, the
      comparison comes down to the character overlap of the first against
      the second. */
  lemma LongPlainWordsSimilar(w1: string, w2: string)
    requires Plain(w1) && Plain(w2) && w1 != w2 && |w1| > 4 && |w2| > 4
    ensures WordsSimilar(w1, w2) <==> 5 * CommonCount(w1, w2) > 4 * Max(|w1|, |w2|)
  {
    NormalizeFixed(w1);
    NormalizeFixed(w2);
    if IsVariantPair(w1, w2) {
      VariantPairsAreShort(w1, w2);
    }
    NormalWordsSimilar(w1, w2);
  }

  /** Between two words already in normal form that differ and are not a
      shorthand pair, only the fuzzy rule decides. */
  lemma NormalWordsSimilar(w1: string, w2: string)
    requires Normalize(w1) == w1 && Normalize(w2) == w2 && w1 != w2 && !IsVariantPair(w1, w2)
    ensures WordsSimilar(w1, w2) <==> |w1| > 3 && |w2| > 3 && 5 * CommonCount(w1, w2) > 4 * Max(|w1|, |w2|)
  {
    WordsSimilarFuzzyRule(w1, w2);
  }

  /** The comparison is not symmetric: the overlap counts the characters of
      the first word only, so "aaaaa" is similar to "abcde" (5 of 5) but not
      the other way round (1 of 5). */
  lemma WordsSimilarNotSymmetric()
    ensures WordsSimilar("aaaaa", "abcde")
    ensures !WordsSimilar("abcde", "aaaaa")
  {
    CommonCountExample();
    ExampleWordsPlain();
    LongPlainWordsSimilar("aaaaa", "abcde");
    LongPlainWordsSimilar("abcde", "aaaaa");
  }
}
