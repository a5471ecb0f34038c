/** A merge worked through the model: after "the quick brown fox", the chunk
    "brown fox jumps over" repeats two words, the longer overlaps of four and
    three words fail the 0.7 agreement, and only "jumps over" is appended. */
module MergeExample {
  import opened Strings
  import opened WordSimilarity
  import opened OverlapSearch
  import opened TextMerging

  const AccumulatedWords: seq<string> := ["the", "quick", "brown", "fox"]
  const IncomingWords: seq<string> := ["brown", "fox", "jumps", "over"]

  /** A non-empty word of lower-case ASCII letters. */
  predicate Lowercase(w: string) {
    w != [] && forall k :: 0 <= k < |w| ==> 'a' <= w[k] <= 'z'
  }

  /** A lower-case word is a word of `split()`. */
  lemma LowercaseWord(w: string)
    requires Lowercase(w)
    ensures IsWord(w)
  {
  }

  /** A lower-case word is its own normal form. */
  lemma LowercasePlain(w: string)
    requires Lowercase(w)
    ensures Plain(w)
  {
    LowerOfLowercase(w);
  }

  /** The example's words are lower-case words. */
  lemma ExampleWordsLowercase()
    ensures Lowercase("the") && Lowercase("quick") && Lowercase("brown")
    ensures Lowercase("fox") && Lowercase("jumps") && Lowercase("over")
  {
    var the, quick, brown := "the", "quick", "brown";
    var fox, jumps, over := "fox", "jumps", "over";
    assert the[0] == 't' && the[1] == 'h' && the[2] == 'e';
    assert quick[0] == 'q' && quick[1] == 'u' && quick[2] == 'i' && quick[3] == 'c' && quick[4] == 'k';
    assert brown[0] == 'b' && brown[1] == 'r' && brown[2] == 'o' && brown[3] == 'w' && brown[4] == 'n';
    assert fox[0] == 'f' && fox[1] == 'o' && fox[2] == 'x';
    assert jumps[0] == 'j' && jumps[1] == 'u' && jumps[2] == 'm' && jumps[3] == 'p' && jumps[4] == 's';
    assert over[0] == 'o' && over[1] == 'v' && over[2] == 'e' && over[3] == 'r';
  }

  /** A plain word of at most three characters that has no shorthand variants is
      similar to no plain word longer than three characters. */
  lemma ShortWordDissimilar(w1: string, w2: string)
    requires Plain(w1) && Plain(w2) && |w1| <= 3 && |w2| > 3 && VariantsOf(w1) == []
    ensures !WordsSimilar(w1, w2)
  {
    NormalizeFixed(w1);
    NormalizeFixed(w2);
    NotVariantOfShort(w1, w2);
    NormalWordsSimilar(w1, w2);
  }

  /** A word without variants and a word too long to be a standard word are
      no shorthand pair. */
  lemma NotVariantOfShort(w1: string, w2: string)
    requires |w2| > 3 && VariantsOf(w1) == []
    ensures !IsVariantPair(w1, w2)
  {
  }

  /** Two plain words longer than four characters that share no character are
      not similar. */
  lemma DisjointWordsDissimilar(w1: string, w2: string)
    requires Plain(w1) && Plain(w2) && |w1| > 4 && |w2| > 4
    requires forall k :: 0 <= k < |w1| ==> w1[k] !in w2
    ensures !WordsSimilar(w1, w2)
  {
    CommonCountZero(w1, w2);
    LongPlainWordsSimilar(w1, w2);
  }

  /** The three word pairs that keep the longer overlaps from agreeing. */
  lemma FoxJumps()
    ensures !WordsSimilar("fox", "jumps")
  {
    ExampleWordsLowercase();
    LowercasePlain("fox");
    LowercasePlain("jumps");
    assert VariantsOf("fox") == [];
    ShortWordDissimilar("fox", "jumps");
  }

  lemma FoxOver()
    ensures !WordsSimilar("fox", "over")
  {
    ExampleWordsLowercase();
    LowercasePlain("fox");
    LowercasePlain("over");
    assert VariantsOf("fox") == [];
    ShortWordDissimilar("fox", "over");
  }

  lemma BrownJumps()
    ensures !WordsSimilar("brown", "jumps")
  {
    ExampleWordsLowercase();
    LowercasePlain("brown");
    LowercasePlain("jumps");
    var b, j := "brown", "jumps";
    assert b[0] == 'b' && b[1] == 'r' && b[2] == 'o' && b[3] == 'w' && b[4] == 'n';
    DisjointWordsDissimilar(b, j);
  }

  /** A last pair that is not similar adds no match. */
  lemma LastMisses(s1: seq<string>, s2: seq<string>)
    requires |s1| == |s2| > 0 && !WordsSimilar(s1[|s1| - 1], s2[|s2| - 1])
    ensures MatchCount(s1, s2) == MatchCount(s1[..|s1| - 1], s2[..|s2| - 1])
  {
  }

  /** Two dissimilar last pairs leave at most `|s1| - 2` matches. */
  lemma TwoLastMiss(s1: seq<string>, s2: seq<string>)
    requires |s1| == |s2| >= 2
    requires !WordsSimilar(s1[|s1| - 1], s2[|s2| - 1]) && !WordsSimilar(s1[|s1| - 2], s2[|s2| - 2])
    ensures MatchCount(s1, s2) <= |s1| - 2
  {
    var f1, f2 := s1[..|s1| - 1], s2[..|s2| - 1];
    LastMisses(s1, s2);
    assert f1[|f1| - 1] == s1[|s1| - 2] && f2[|f2| - 1] == s2[|s2| - 2];
    LastMisses(f1, f2);
  }

  /** Two misses among four pairs stay below the 0.7 agreement (2/4). */
  lemma FourWithTwoMisses(aw: seq<string>, nw: seq<string>)
    requires |aw| == |nw| == 4
    requires !WordsSimilar(aw[3], nw[3]) && !WordsSimilar(aw[2], nw[2])
    ensures !OverlapAt(aw, nw, 4)
  {
    TwoLastMiss(aw, nw);
    assert aw[0..] == aw && nw[..4] == nw;
  }

  /** One miss among three pairs stays below the 0.7 agreement (2/3). */
  lemma ThreeWithOneMiss(aw: seq<string>, nw: seq<string>)
    requires |aw| == |nw| == 4
    requires !WordsSimilar(aw[3], nw[2])
    ensures !OverlapAt(aw, nw, 3)
  {
    LastMisses(aw[1..], nw[..3]);
  }

  /** "the quick brown fox" against "brown fox jumps over": no agreement. */
  lemma NoOverlapOfFour()
    ensures !OverlapAt(AccumulatedWords, IncomingWords, 4)
  {
    FoxOver();
    BrownJumps();
    FourWithTwoMisses(AccumulatedWords, IncomingWords);
  }

  /** "quick brown fox" against "brown fox jumps": no agreement. */
  lemma NoOverlapOfThree()
    ensures !OverlapAt(AccumulatedWords, IncomingWords, 3)
  {
    FoxJumps();
    ThreeWithOneMiss(AccumulatedWords, IncomingWords);
  }

  /** "brown fox" against "brown fox": full agreement. */
  lemma OverlapOfTwo()
    ensures OverlapAt(AccumulatedWords, IncomingWords, 2)
  {
    var s := ["brown", "fox"];
    assert AccumulatedWords[2..] == s && IncomingWords[..2] == s;
    SequencesAgreeWithSelf(s, OverlapThreshold);
  }

  /** The overlap search finds two repeated words. */
  lemma ExampleOverlap()
    ensures OverlapLength(AccumulatedWords, IncomingWords) == 2
  {
    NoOverlapOfFour();
    NoOverlapOfThree();
    OverlapOfTwo();
    OverlapIsLongestMatch(AccumulatedWords, IncomingWords);
  }

  /** The texts of the example, as the words joined by single spaces. */
  lemma AccumulatedText()
    ensures Join(AccumulatedWords) == "the quick brown fox"
  {
    var ws := AccumulatedWords;
    assert Join(ws[2..]) == "brown fox";
    assert Join(ws[1..]) == "quick brown fox";
  }

  lemma IncomingText()
    ensures Join(IncomingWords) == "brown fox jumps over"
  {
    var ws := IncomingWords;
    assert Join(ws[2..]) == "jumps over";
    assert Join(ws[1..]) == "fox jumps over";
  }

  /** Every word of the example is a word of `split()`. */
  lemma AccumulatedAreWords()
    ensures forall i :: 0 <= i < |AccumulatedWords| ==> IsWord(AccumulatedWords[i])
  {
    ExampleWordsLowercase();
    forall i | 0 <= i < |AccumulatedWords| ensures IsWord(AccumulatedWords[i]) {
      LowercaseWord(AccumulatedWords[i]);
    }
  }

  lemma IncomingAreWords()
    ensures forall i :: 0 <= i < |IncomingWords| ==> IsWord(IncomingWords[i])
  {
    ExampleWordsLowercase();
    forall i | 0 <= i < |IncomingWords| ensures IsWord(IncomingWords[i]) {
      LowercaseWord(IncomingWords[i]);
    }
  }

  /** `remove_overlap` on the example drops two words and keeps "jumps over". */
  lemma ExampleMerge()
    ensures var a, n := Join(AccumulatedWords), Join(IncomingWords);
      DroppedWords(a, n) == 2 && UniquePart(a, n) == Join(["jumps", "over"])
  {
    AccumulatedAreWords();
    IncomingAreWords();
    UniquePartOfJoin(AccumulatedWords, IncomingWords);
    ExampleOverlap();
    assert IncomingWords[2..] == ["jumps", "over"];
  }

  /** The transcript after the merge. */
  lemma ExampleAppend()
    ensures Append(Join(AccumulatedWords), Join(["jumps", "over"])) == "the quick brown fox jumps over"
  {
    AccumulatedText();
    assert Join(["jumps", "over"]) == "jumps over";
  }
}
