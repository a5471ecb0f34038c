/** The parts of Python's `str` and `re` behaviour that the transcript merger
    relies on: whitespace classification, `strip`, `split()`, `" ".join`,
    ASCII `lower()`, the `\s+` collapse and the non-greedy removal of
    bracketed spans (`\[.*?\]`, `\(.*?\)`). */
module Strings {

  datatype Option<T> = None | Some(value: T)

  /** Python's `str.isspace()` on one character (which is also what `\s`
      and `split()` use): tab to carriage return, the information separators
      0x1C-0x1F, space, and the remaining Unicode White_Space code points. */
  predicate IsSpace(c: char) {
    var n := c as int;
    (9 <= n <= 13) || (28 <= n <= 32) || n == 0x85 || n == 0xA0 || n == 0x1680
    || (0x2000 <= n <= 0x200A) || n == 0x2028 || n == 0x2029 || n == 0x202F
    || n == 0x205F || n == 0x3000
  }

  /** Within ASCII, whitespace is space, tab, line feed, carriage return,
      vertical tab, form feed and the four information separators; letters,
      digits and the punctuation of a transcript are not whitespace. */
  lemma IsSpaceAscii(c: char)
    ensures c as int < 128 ==>
      (IsSpace(c) <==> c == ' ' || c == '\t' || c == '\n' || c == '\r' || c as int in {11, 12, 28, 29, 30, 31})
    ensures ('a' <= c <= 'z' || 'A' <= c <= 'Z' || '0' <= c <= '9') ==> !IsSpace(c)
    ensures c in ".,!?:;\"'&[]()-" ==> !IsSpace(c)
  {
  }

  // ---------------------------------------------------------------------------
  // strip

  /** Drops the leading characters selected by `drop`. */
  function TrimLeft(s: string, drop: char -> bool): (r: string)
    ensures |r| <= |s| && r == s[|s| - |r|..]
    ensures r == [] || !drop(r[0])
    decreases |s|
  {
    if s != [] && drop(s[0]) then TrimLeft(s[1..], drop) else s
  }

  /** Everything `TrimLeft` removed is selected by `drop`. */
  lemma {:induction false} TrimLeftDropsOnlySelected(s: string, drop: char -> bool)
    ensures forall k :: 0 <= k < |s| - |TrimLeft(s, drop)| ==> drop(s[k])
    decreases |s|
  {
    if s != [] && drop(s[0]) {
      TrimLeftDropsOnlySelected(s[1..], drop);
      forall k | 0 < k < |s| - |TrimLeft(s, drop)| ensures drop(s[k]) {
        assert s[k] == s[1..][k - 1];
      }
    }
  }

  /** Drops the trailing characters selected by `drop`. */
  function TrimRight(s: string, drop: char -> bool): (r: string)
    ensures |r| <= |s| && r == s[..|r|]
    ensures r == [] || !drop(r[|r| - 1])
    decreases |s|
  {
    if s != [] && drop(s[|s| - 1]) then TrimRight(s[..|s| - 1], drop) else s
  }

  /** Everything `TrimRight` removed is selected by `drop`. */
  lemma {:induction false} TrimRightDropsOnlySelected(s: string, drop: char -> bool)
    ensures forall k :: |TrimRight(s, drop)| <= k < |s| ==> drop(s[k])
    decreases |s|
  {
    if s != [] && drop(s[|s| - 1]) {
      TrimRightDropsOnlySelected(s[..|s| - 1], drop);
      forall k | |TrimRight(s, drop)| <= k < |s| - 1 ensures drop(s[k]) {
        assert s[k] == s[..|s| - 1][k];
      }
    }
  }

  /** `s.strip(chars)`: both ends; `Strip(s, IsSpace)` is `s.strip()`. */
  function Strip(s: string, drop: char -> bool): (r: string)
    ensures |r| <= |s|
  {
    TrimRight(TrimLeft(s, drop), drop)
  }

  /** The result of `Strip` is a slice of its input that neither starts nor
      ends with a dropped character, and it is empty exactly when every
      character of the input is dropped. */
  lemma StripSlice(s: string, drop: char -> bool) returns (i: nat)
    ensures i + |Strip(s, drop)| <= |s| && Strip(s, drop) == s[i..i + |Strip(s, drop)|]
    ensures var r := Strip(s, drop); r == [] || (!drop(r[0]) && !drop(r[|r| - 1]))
    ensures Strip(s, drop) == [] <==> forall k :: 0 <= k < |s| ==> drop(s[k])
  {
    i := StripOffset(s, drop);
    StripEmpty(s, drop);
    var t := TrimLeft(s, drop);
    assert Strip(s, drop) == [] || Strip(s, drop)[0] == t[0];
  }

  lemma StripOffset(s: string, drop: char -> bool) returns (i: nat)
    ensures i + |Strip(s, drop)| <= |s| && Strip(s, drop) == s[i..i + |Strip(s, drop)|]
  {
    var t := TrimLeft(s, drop);
    i := |s| - |t|;
    var r := TrimRight(t, drop);
    assert r == t[..|r|];
    assert t[..|r|] == s[i..i + |r|];
  }

  lemma StripEmpty(s: string, drop: char -> bool)
    ensures Strip(s, drop) == [] <==> forall k :: 0 <= k < |s| ==> drop(s[k])
  {
    var t := TrimLeft(s, drop);
    TrimLeftDropsOnlySelected(s, drop);
    var r := TrimRight(t, drop);
    TrimRightDropsOnlySelected(t, drop);
    if r == [] && t != [] {
      assert false;
    }
  }

  /** `Strip` keeps only characters of its input. */
  lemma StripKeepsCharacters(s: string)
    ensures forall c :: c in Strip(s, IsSpace) ==> c in s
  {
    var r := Strip(s, IsSpace);
    var i := StripSlice(s, IsSpace);
    forall c | c in r ensures c in s {
      var k :| 0 <= k < |r| && r[k] == c;
      assert s[i + k] == c;
    }
  }

  /** `not s.strip()`: the string is empty or all whitespace. */
  predicate IsBlank(s: string) {
    Strip(s, IsSpace) == []
  }

  /** A string is blank exactly when every character of it is whitespace. */
  lemma IsBlankAllSpace(s: string)
    ensures IsBlank(s) <==> forall k :: 0 <= k < |s| ==> IsSpace(s[k])
  {
    StripEmpty(s, IsSpace);
  }

  // ---------------------------------------------------------------------------
  // lower

  /** ASCII case folding of one character. */
  function LowerChar(c: char): (d: char)
    ensures ('A' <= c <= 'Z') ==> d as int == c as int + 32
    ensures !('A' <= c <= 'Z') ==> d == c
  {
    if 'A' <= c <= 'Z' then (c as int + 32) as char else c
  }

  /** `s.lower()`, restricted to ASCII letters. */
  function Lower(s: string): (r: string)
    ensures |r| == |s|
  {
    if s == [] then [] else [LowerChar(s[0])] + Lower(s[1..])
  }

  /** `Lower` works character by character. */
  lemma {:induction false} LowerAt(s: string, k: nat)
    requires k < |s|
    ensures Lower(s)[k] == LowerChar(s[k])
    decreases |s|
  {
    if k > 0 {
      LowerAt(s[1..], k - 1);
    }
  }

  // ---------------------------------------------------------------------------
  // split() and " ".join

  /** A word as `split()` yields it: non-empty, no whitespace. */
  predicate IsWord(w: string) {
    w != [] && forall k :: 0 <= k < |w| ==> !IsSpace(w[k])
  }

  /** Length of the run of non-space characters at the start of `s`. */
  function WordEnd(s: string): (n: nat)
    ensures n <= |s|
    ensures forall k :: 0 <= k < n ==> !IsSpace(s[k])
    ensures n < |s| ==> IsSpace(s[n])
  {
    if s == [] || IsSpace(s[0]) then 0 else 1 + WordEnd(s[1..])
  }

  /** `s.split()`: the maximal whitespace-free runs of `s`, in order. */
  function Words(s: string): (ws: seq<string>)
    ensures forall i :: 0 <= i < |ws| ==> IsWord(ws[i])
    decreases |s|
  {
    if s == [] then []
    else if IsSpace(s[0]) then Words(s[1..])
    else [s[..WordEnd(s)]] + Words(s[WordEnd(s)..])
  }

  /** `" ".join(ws)`. */
  function Join(ws: seq<string>): string {
    if ws == [] then ""
    else if |ws| == 1 then ws[0]
    else ws[0] + " " + Join(ws[1..])
  }

  /** The joined string starts with the first word and ends with the last. */
  lemma {:induction false} JoinEnds(ws: seq<string>)
    ensures ws != [] ==> ws[0] <= Join(ws)
    ensures ws != [] ==> var s := Join(ws); |ws[|ws| - 1]| <= |s| && s[|s| - |ws[|ws| - 1]|..] == ws[|ws| - 1]
    decreases |ws|
  {
    if |ws| > 1 {
      JoinEnds(ws[1..]);
      var t := Join(ws[1..]);
      var s := ws[0] + " " + t;
      var last := ws[|ws| - 1];
      assert ws[1..][|ws| - 2] == last;
      assert s[|s| - |last|..] == t[|t| - |last|..];
    }
  }

  lemma {:induction false} WordEndBeforeSpace(a: string, t: string)
    requires t != [] && IsSpace(t[0])
    ensures WordEnd(a + t) == WordEnd(a)
    decreases |a|
  {
    if a == [] {
      assert a + t == t;
    } else if !IsSpace(a[0]) {
      assert (a + t)[1..] == a[1..] + t;
      WordEndBeforeSpace(a[1..], t);
    }
  }

  /** Splitting two texts glued by a space splits each of them:
      `(a + " " + b).split() == a.split() + b.split()`. */
  lemma {:induction false} WordsAroundSpace(a: string, b: string)
    ensures Words(a + " " + b) == Words(a) + Words(b)
    decreases |a|
  {
    var s := a + " " + b;
    if a == [] {
      assert s[1..] == b;
    } else if IsSpace(a[0]) {
      assert s[1..] == a[1..] + " " + b;
      WordsAroundSpace(a[1..], b);
    } else {
      assert s == a + (" " + b);
      WordEndBeforeSpace(a, " " + b);
      var n := WordEnd(a);
      assert s[..n] == a[..n];
      assert s[n..] == a[n..] + " " + b;
      WordsAroundSpace(a[n..], b);
    }
  }

  /** Splitting a single word gives back that word. */
  lemma WordsOfWord(w: string)
    requires IsWord(w)
    ensures Words(w) == [w]
  {
    assert WordEnd(w) == |w|;
    assert w[..|w|] == w;
    assert w[|w|..] == [];
  }

  /** Round trip: joining words with single spaces and splitting again gives
      back the words. */
  lemma {:induction false} WordsOfJoin(ws: seq<string>)
    requires forall i :: 0 <= i < |ws| ==> IsWord(ws[i])
    ensures Words(Join(ws)) == ws
  {
    if ws == [] {
    } else if |ws| == 1 {
      WordsOfWord(ws[0]);
    } else {
      WordsOfJoin(ws[1..]);
      WordsAroundSpace(ws[0], Join(ws[1..]));
      WordsOfWord(ws[0]);
      assert ws == [ws[0]] + ws[1..];
    }
  }

  /** A text has no words exactly when it is blank. */
  lemma {:induction false} NoWordsIffBlank(s: string)
    ensures Words(s) == [] <==> forall k :: 0 <= k < |s| ==> IsSpace(s[k])
    decreases |s|
  {
    if s != [] {
      if IsSpace(s[0]) {
        NoWordsIffBlank(s[1..]);
        if forall k :: 0 <= k < |s| - 1 ==> IsSpace(s[1..][k]) {
          forall k | 0 <= k < |s| ensures IsSpace(s[k]) {
            if k > 0 { assert s[k] == s[1..][k - 1]; }
          }
        }
      }
    }
  }

  // ---------------------------------------------------------------------------
  // re.sub(r'\s+', ' ', s)

  /** Every maximal run of whitespace becomes one plain space. */
  function Collapse(s: string): (r: string)
    ensures |r| <= |s|
    ensures forall k :: 0 <= k < |r| ==> IsSpace(r[k]) ==> r[k] == ' '
    ensures forall c :: c in r ==> c in s || c == ' '
    decreases |s|
  {
    if s == [] then []
    else if IsSpace(s[0]) then
      var rest := TrimLeft(s, IsSpace);
      assert rest != [] ==> rest[0] != s[0];
      [' '] + Collapse(rest)
    else [s[0]] + Collapse(s[1..])
  }

  /** The collapse keeps the first character, or turns it into a space when
      it is whitespace. */
  lemma CollapseHead(s: string)
    requires s != []
    ensures Collapse(s) != [] && Collapse(s)[0] == if IsSpace(s[0]) then ' ' else s[0]
  {
  }

  /** No two neighbouring characters are whitespace. */
  predicate SingleSpaced(r: string) {
    forall k :: 0 < k < |r| ==> !(IsSpace(r[k - 1]) && IsSpace(r[k]))
  }

  /** After the collapse no two neighbouring characters are whitespace. */
  lemma {:induction false} CollapseSingleSpaces(s: string)
    ensures SingleSpaced(Collapse(s))
    decreases |s|
  {
    var r := Collapse(s);
    if s != [] {
      var rest := if IsSpace(s[0]) then TrimLeft(s, IsSpace) else s[1..];
      var tail := Collapse(rest);
      CollapseSingleSpaces(rest);
      CollapseHead(s);
      if rest != [] {
        CollapseHead(rest);
      }
      assert r == [r[0]] + tail;
      forall k | 0 < k < |r| ensures !(IsSpace(r[k - 1]) && IsSpace(r[k])) {
        if k > 1 {
          assert r[k - 1] == tail[k - 2] && r[k] == tail[k - 1];
        } else if IsSpace(s[0]) {
          assert r[1] == tail[0] == rest[0];
        }
      }
    }
  }

  /** Leading whitespace does not change the words. */
  lemma {:induction false} WordsOfTrimLeft(s: string)
    ensures Words(TrimLeft(s, IsSpace)) == Words(s)
    decreases |s|
  {
    if s != [] && IsSpace(s[0]) {
      WordsOfTrimLeft(s[1..]);
    }
  }

  /** A trailing whitespace character does not change the words. */
  lemma {:induction false} WordsOfSpaceAfter(s: string, c: char)
    requires IsSpace(c)
    ensures Words(s + [c]) == Words(s)
    decreases |s|
  {
    var t := s + [c];
    if s == [] {
      assert t[1..] == [];
    } else if IsSpace(s[0]) {
      assert t[1..] == s[1..] + [c];
      WordsOfSpaceAfter(s[1..], c);
    } else {
      WordEndBeforeSpace(s, [c]);
      var n := WordEnd(s);
      assert t[..n] == s[..n];
      assert t[n..] == s[n..] + [c];
      WordsOfSpaceAfter(s[n..], c);
    }
  }

  /** Trailing whitespace does not change the words. */
  lemma {:induction false} WordsOfTrimRight(s: string)
    ensures Words(TrimRight(s, IsSpace)) == Words(s)
    decreases |s|
  {
    if s != [] && IsSpace(s[|s| - 1]) {
      var f := s[..|s| - 1];
      WordsOfTrimRight(f);
      assert s == f + [s[|s| - 1]];
      WordsOfSpaceAfter(f, s[|s| - 1]);
    }
  }

  /** `s.strip().split() == s.split()`. */
  lemma WordsOfStrip(s: string)
    ensures Words(Strip(s, IsSpace)) == Words(s)
  {
    WordsOfTrimLeft(s);
    WordsOfTrimRight(TrimLeft(s, IsSpace));
  }

  /** The words of a text that starts with a non-whitespace character `c`:
      `c` opens the first word, joined to the first word of `t` when `t`
      starts with one. */
  function ConsWords(c: char, t: string, wt: seq<string>): seq<string> {
    if t == [] || IsSpace(t[0]) || wt == [] then [[c]] + wt
    else [[c] + wt[0]] + wt[1..]
  }

  lemma WordsCons(c: char, t: string)
    requires !IsSpace(c)
    ensures Words([c] + t) == ConsWords(c, t, Words(t))
  {
    var s := [c] + t;
    var m := WordEnd(t);
    assert s[1..] == t;
    assert WordEnd(s) == m + 1;
    assert s[..m + 1] == [c] + t[..m];
    assert s[m + 1..] == t[m..];
    if m == 0 {
      assert t[0..] == t;
    }
  }

  /** Collapsing whitespace keeps the words:
      `re.sub(r'\s+', ' ', s).split() == s.split()`. */
  lemma {:induction false} WordsOfCollapse(s: string)
    ensures Words(Collapse(s)) == Words(s)
    decreases |s|
  {
    if s == [] {
    } else if IsSpace(s[0]) {
      var rest := TrimLeft(s, IsSpace);
      WordsOfCollapse(rest);
      WordsOfTrimLeft(s);
      assert ([' '] + Collapse(rest))[1..] == Collapse(rest);
    } else {
      var t := s[1..];
      WordsOfCollapse(t);
      assert s == [s[0]] + t;
      WordsCons(s[0], t);
      WordsCons(s[0], Collapse(t));
      if t != [] {
        CollapseHead(t);
      }
    }
  }

  // ---------------------------------------------------------------------------
  // re.sub(r'\[.*?\]', '', s) and re.sub(r'\(.*?\)', '', s)

  /** Where a lazy `.*?<close>` that starts at the beginning of `s` ends: the
      index of the first `close`, provided no newline (which `.` does not
      match) comes before it. */
  function FindClose(s: string, close: char): (r: Option<nat>)
    requires close != '\n'
    ensures r.Some? ==> r.value < |s| && s[r.value] == close
    ensures r.Some? ==> forall k :: 0 <= k < r.value ==> s[k] != close && s[k] != '\n'
    ensures r.None? && '\n' !in s ==> close !in s
  {
    if s == [] then None
    else if s[0] == close then Some(0)
    else if s[0] == '\n' then None
    else match FindClose(s[1..], close)
      case Some(k) => Some(k + 1)
      case None => None
  }

  /** Deletes, scanning left to right, every shortest span that starts with
      `open` and ends with the next `close` on the same line. */
  function RemoveSpans(s: string, open: char, close: char): (r: string)
    requires close != '\n'
    ensures |r| <= |s|
    ensures forall c :: c in r ==> c in s
    decreases |s|
  {
    if s == [] then []
    else if s[0] == open then
      match FindClose(s[1..], close)
      case Some(j) => RemoveSpans(s[j + 2..], open, close)
      case None => [s[0]] + RemoveSpans(s[1..], open, close)
    else [s[0]] + RemoveSpans(s[1..], open, close)
  }

  /** A text with no `open` or no `close` has no span to remove. */
  lemma {:induction false} RemoveSpansUntouched(s: string, open: char, close: char)
    requires close != '\n' && (open !in s || close !in s)
    ensures RemoveSpans(s, open, close) == s
    decreases |s|
  {
    if s != [] {
      var t := s[1..];
      assert forall c :: c in t ==> c in s;
      RemoveSpansUntouched(t, open, close);
      if s[0] == open {
        assert FindClose(t, close).None?;
      }
      assert s == [s[0]] + t;
    }
  }

  /** Text before the first `open` is kept as it is. */
  lemma {:induction false} RemoveSpansKeepsPrefix(a: string, t: string, open: char, close: char)
    requires close != '\n' && open !in a
    ensures RemoveSpans(a + t, open, close) == a + RemoveSpans(t, open, close)
    decreases |a|
  {
    if a == [] {
      assert a + t == t;
    } else {
      var v := a[1..];
      assert forall c :: c in v ==> c in a;
      RemoveSpansKeepsPrefix(v, t, open, close);
      assert (a + t)[0] == a[0] && (a + t)[1..] == v + t;
      assert [a[0]] + (v + RemoveSpans(t, open, close)) == a + RemoveSpans(t, open, close);
    }
  }

  /** The lazy match from an `open` ends at the first `close` when no line
      break comes before it. */
  lemma {:induction false} FindCloseAfter(m: string, rest: string, close: char)
    requires close != '\n' && close !in m && '\n' !in m
    ensures FindClose(m + [close] + rest, close) == Some(|m|)
    decreases |m|
  {
    var s := m + [close] + rest;
    if m != [] {
      assert s[0] == m[0] && s[1..] == m[1..] + [close] + rest;
      assert forall c :: c in m[1..] ==> c in m;
      FindCloseAfter(m[1..], rest, close);
    }
  }

  /** The first span, from the first `open` to the next `close` on the same
      line, is deleted, the text before it is kept, and the removal goes on
      after it. */
  lemma RemoveSpansDropsFirstSpan(a: string, m: string, b: string, open: char, close: char)
    requires close != '\n' && open !in a && close !in m && '\n' !in m
    ensures RemoveSpans(a + [open] + m + [close] + b, open, close) == a + RemoveSpans(b, open, close)
  {
    var span := [open] + m + [close] + b;
    assert a + [open] + m + [close] + b == a + span;
    RemoveSpansKeepsPrefix(a, span, open, close);
    FindCloseAfter(m, b, close);
    assert span[1..] == m + [close] + b;
    assert span[|m| + 2..] == b;
  }

  /** No `open` character is followed, anywhere later, by a `close`. */
  predicate NoSpan(s: string, open: char, close: char) {
    forall i, j :: 0 <= i < j < |s| ==> !(s[i] == open && s[j] == close)
  }

  lemma NoSpanSlice(s: string, open: char, close: char, a: nat, b: nat)
    requires a <= b <= |s| && NoSpan(s, open, close)
    ensures NoSpan(s[a..b], open, close)
  {
    forall i, j | 0 <= i < j < b - a
      ensures !(s[a..b][i] == open && s[a..b][j] == close)
    {
      assert s[a..b][i] == s[a + i] && s[a..b][j] == s[a + j];
    }
  }

  /** On a single line, removing the `open`...`close` spans leaves no
      `open` that a later `close` follows. */
  lemma {:induction false} RemoveSpansLeavesNoSpan(s: string, open: char, close: char)
    requires close != '\n' && '\n' !in s
    ensures NoSpan(RemoveSpans(s, open, close), open, close)
    decreases |s|
  {
    if s == [] {
    } else if s[0] == open && FindClose(s[1..], close).Some? {
      var j := FindClose(s[1..], close).value;
      assert forall c :: c in s[j + 2..] ==> c in s;
      RemoveSpansLeavesNoSpan(s[j + 2..], open, close);
    } else {
      assert forall c :: c in s[1..] ==> c in s;
      RemoveSpansLeavesNoSpan(s[1..], open, close);
      var rest := RemoveSpans(s[1..], open, close);
      var r := [s[0]] + rest;
      assert s[0] == open ==> close !in rest;
      forall i, j | 0 <= i < j < |r| ensures !(r[i] == open && r[j] == close) {
        assert r[j] == rest[j - 1];
        if i > 0 {
          assert r[i] == rest[i - 1];
        }
      }
    }
  }

  /** Removing spans of one kind keeps a string free of spans of another. */
  lemma {:induction false} RemoveSpansKeepsNoSpan(s: string, open: char, close: char, o: char, c: char)
    requires close != '\n' && NoSpan(s, o, c)
    ensures NoSpan(RemoveSpans(s, open, close), o, c)
    decreases |s|
  {
    if s == [] {
    } else if s[0] == open && FindClose(s[1..], close).Some? {
      var j := FindClose(s[1..], close).value;
      NoSpanSlice(s, o, c, j + 2, |s|);
      RemoveSpansKeepsNoSpan(s[j + 2..], open, close, o, c);
    } else {
      NoSpanSlice(s, o, c, 1, |s|);
      RemoveSpansKeepsNoSpan(s[1..], open, close, o, c);
      var rest := RemoveSpans(s[1..], open, close);
      var r := [s[0]] + rest;
      if s[0] == o {
        forall k | 0 <= k < |s| - 1 ensures s[1..][k] != c {
          assert s[1..][k] == s[k + 1];
        }
        assert c !in s[1..];
        assert c !in rest;
      }
      forall i, j | 0 <= i < j < |r| ensures !(r[i] == o && r[j] == c) {
        assert r[j] == rest[j - 1];
        if i > 0 {
          assert r[i] == rest[i - 1];
        }
      }
    }
  }
}
