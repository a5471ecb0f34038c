/** `clean_text`: the five rewriting steps applied to each chunk's text
    before it is merged, and what they guarantee about the result. */
module Cleaning {
  import opened Strings

  // ---------------------------------------------------------------------------
  // clean_text

  /** Strip, collapse whitespace runs to one space, delete `[...]` then
      `(...)` annotations (shortest span, left to right), strip again. */
  function CleanText(text: string): (r: string)
    ensures |r| <= |text|
  {
    Strip(RemoveSpans(RemoveSpans(Collapse(Strip(text, IsSpace)), '[', ']'), '(', ')'), IsSpace)
  }

  /** After the first strip and the collapse, every whitespace character is a
      plain space, so no line break is left. */
  lemma CollapsedSpaces(text: string)
    ensures var t := Collapse(Strip(text, IsSpace));
      '\n' !in t && forall k :: 0 <= k < |t| && IsSpace(t[k]) ==> t[k] == ' '
  {
    assert IsSpace('\n');
  }

  /** Deleting the `[...]` spans and then the `(...)` spans of a single line
      leaves neither kind of span, and only characters of the line. */
  lemma SpansRemoved(t: string)
    requires '\n' !in t
    ensures var v := RemoveSpans(RemoveSpans(t, '[', ']'), '(', ')');
      NoSpan(v, '[', ']') && NoSpan(v, '(', ')') && forall c :: c in v ==> c in t
  {
    var u := RemoveSpans(t, '[', ']');
    RemoveSpansLeavesNoSpan(t, '[', ']');
    RemoveSpansLeavesNoSpan(u, '(', ')');
    RemoveSpansKeepsNoSpan(u, '(', ')', '[', ']');
  }

  /** The final strip removes whitespace at both ends and keeps the absence
      of whitespace other than plain spaces. */
  lemma FinalStrip(v: string)
    requires forall k :: 0 <= k < |v| && IsSpace(v[k]) ==> v[k] == ' '
    ensures var r := Strip(v, IsSpace);
      && (r == [] || (!IsSpace(r[0]) && !IsSpace(r[|r| - 1])))
      && (forall k :: 0 <= k < |r| && IsSpace(r[k]) ==> r[k] == ' ')
  {
    var r := Strip(v, IsSpace);
    var i := StripSlice(v, IsSpace);
    forall k | 0 <= k < |r| && IsSpace(r[k]) ensures r[k] == ' ' {
      assert r[k] == v[i + k];
    }
  }

  /** The final strip keeps the absence of spans. */
  lemma FinalStripNoSpan(v: string)
    requires NoSpan(v, '[', ']') && NoSpan(v, '(', ')')
    ensures NoSpan(Strip(v, IsSpace), '[', ']') && NoSpan(Strip(v, IsSpace), '(', ')')
  {
    var r := Strip(v, IsSpace);
    var i := StripSlice(v, IsSpace);
    NoSpanSlice(v, '[', ']', i, i + |r|);
    NoSpanSlice(v, '(', ')', i, i + |r|);
  }

  /** What cleaning guarantees: no surrounding whitespace, only plain spaces
      as whitespace, no `[` followed later by `]` and no `(` followed later by
      `)`. */
  lemma CleanTextProperties(text: string)
    ensures var r := CleanText(text); r == [] || (!IsSpace(r[0]) && !IsSpace(r[|r| - 1]))
    ensures var r := CleanText(text); forall k :: 0 <= k < |r| && IsSpace(r[k]) ==> r[k] == ' '
    ensures NoSpan(CleanText(text), '[', ']') && NoSpan(CleanText(text), '(', ')')
  {
    var t := Collapse(Strip(text, IsSpace));
    CollapsedSpaces(text);
    var v := RemoveSpans(RemoveSpans(t, '[', ']'), '(', ')');
    SpansRemoved(t);
    OnlyPlainSpacesKept(t, v);
    var r := CleanText(text);
    assert r == Strip(v, IsSpace);
    FinalStrip(v);
    FinalStripNoSpan(v);
  }

  /** Cleaning a text without annotations keeps its words:
      `clean_text(t).split() == t.split()` when `t` has no `[` and no `(`. */
  lemma CleanTextKeepsWords(text: string)
    requires '[' !in text && '(' !in text
    ensures Words(CleanText(text)) == Words(text)
  {
    var s := Strip(text, IsSpace);
    StripKeepsCharacters(text);
    var t := Collapse(s);
    assert '[' !in t && '(' !in t;
    RemoveSpansUntouched(t, '[', ']');
    RemoveSpansUntouched(t, '(', ')');
    calc {
      Words(CleanText(text));
      Words(Strip(t, IsSpace));
      { WordsOfStrip(t); }
      Words(t);
      { WordsOfCollapse(s); }
      Words(s);
      { WordsOfStrip(text); }
      Words(text);
    }
  }

  /** Characters taken from a text whose only whitespace is plain spaces keep
      that property. */
  lemma OnlyPlainSpacesKept(t: string, v: string)
    requires forall k :: 0 <= k < |t| && IsSpace(t[k]) ==> t[k] == ' '
    requires forall c :: c in v ==> c in t
    ensures forall k :: 0 <= k < |v| && IsSpace(v[k]) ==> v[k] == ' '
  {
    forall k | 0 <= k < |v| && IsSpace(v[k]) ensures v[k] == ' ' {
      assert v[k] in t;
    }
  }

  /** A blank text cleans to the empty string. */
  lemma CleanBlank(text: string)
    requires IsBlank(text)
    ensures CleanText(text) == ""
  {
  }
}
