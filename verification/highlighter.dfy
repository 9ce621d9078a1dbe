/** `highlightProgrammingLanguage` of Uno/Helpers/DocumentProcessor.swift:
    for each keyword in turn, every whole-word occurrence (regular expression
    `\bkeyword\b`) is wrapped in terminal colour markers. The passes run one
    after another on the text the previous pass produced. */
module Highlighter {

  /** The keyword list, in the order the passes run. */
  const Keywords: seq<string> := [
    "func", "class", "struct", "enum", "var", "let", "if", "else", "guard", "return",
    "while", "for", "in", "switch", "case", "break", "continue", "public", "private",
    "internal", "static", "override"]

  const Esc: char := '\U{1B}'

  /** `"\u{001B}[0;35m"`, put before a keyword. */
  const Open: string := "\U{1B}[0;35m"

  /** `"\u{001B}[0m"`, put after a keyword. */
  const Close: string := "\U{1B}[0m"

  /** A character of `\w`: ASCII letters, digits and underscore. */
  predicate IsWordChar(c: char) {
    ('a' <= c <= 'z') || ('A' <= c <= 'Z') || ('0' <= c <= '9') || c == '_'
  }

  /** Every keyword of the list is a non-empty run of lower-case letters. */
  predicate IsKeyword(kw: string) {
    |kw| > 0 && forall i | 0 <= i < |kw| :: 'a' <= kw[i] <= 'z'
  }

  /** `\bkw\b` matches `u` at position `i`. */
  predicate MatchAt(u: string, kw: string, i: nat) {
    && i + |kw| <= |u|
    && u[i..i + |kw|] == kw
    && (i == 0 || !IsWordChar(u[i - 1]))
    && (i + |kw| == |u| || !IsWordChar(u[i + |kw|]))
  }

  /** `u` contains no whole-word occurrence of `kw`. */
  predicate NoMatch(u: string, kw: string) {
    forall j: nat | j < |u| :: !MatchAt(u, kw, j)
  }

  /** One `replacingOccurrences(of: "\\bkw\\b", ..., options: .regularExpression)`
      pass over `u[i..]`, scanning left to right and resuming after each match. */
  function ReplaceFrom(u: string, kw: string, i: nat): (r: string)
    requires IsKeyword(kw) && i <= |u|
    ensures |u| - i <= |r|
    decreases |u| - i
  {
    if i == |u| then ""
    else if MatchAt(u, kw, i) then Open + kw + Close + ReplaceFrom(u, kw, i + |kw|)
    else [u[i]] + ReplaceFrom(u, kw, i + 1)
  }

  function ReplaceWholeWord(u: string, kw: string): string
    requires IsKeyword(kw)
  {
    ReplaceFrom(u, kw, 0)
  }

  /** The passes for `kws`, in order, each on the previous pass's output. */
  function HighlightWith(text: string, kws: seq<string>): (r: string)
    requires forall k | 0 <= k < |kws| :: IsKeyword(kws[k])
    ensures |text| <= |r|
    decreases |kws|
  {
    if |kws| == 0 then text else HighlightWith(ReplaceWholeWord(text, kws[0]), kws[1..])
  }

  lemma KeywordsAreKeywords()
    ensures forall k | 0 <= k < |Keywords| :: IsKeyword(Keywords[k])
  {
  }

  /** `highlightProgrammingLanguage(_:)`. */
  function HighlightProgrammingLanguage(text: string): (r: string)
    ensures |text| <= |r|
  {
    KeywordsAreKeywords();
    HighlightWith(text, Keywords)
  }

  /** Where no match starts in `u[i..m]`, the pass copies that stretch unchanged. */
  lemma {:induction false} CopiesUpToMatch(u: string, kw: string, i: nat, m: nat)
    requires IsKeyword(kw) && i <= m <= |u|
    requires forall j: nat | i <= j < m :: !MatchAt(u, kw, j)
    ensures ReplaceFrom(u, kw, i) == u[i..m] + ReplaceFrom(u, kw, m)
    decreases m - i
  {
    if i < m {
      assert !MatchAt(u, kw, i);
      CopiesUpToMatch(u, kw, i + 1, m);
      ConsSlice(u, i, m, ReplaceFrom(u, kw, m));
    }
  }

  lemma ConsSlice(u: string, i: nat, m: nat, t: string)
    requires i < m <= |u|
    ensures u[i..m] + t == [u[i]] + (u[i + 1..m] + t)
  {
    assert u[i..m] == [u[i]] + u[i + 1..m];
  }

  /** The first position at or after `i` where the keyword matches, or `|u|`. */
  function FirstMatchFrom(u: string, kw: string, i: nat): (m: nat)
    requires i <= |u|
    ensures i <= m <= |u|
    ensures forall j: nat | i <= j < m :: !MatchAt(u, kw, j)
    ensures m < |u| ==> MatchAt(u, kw, m)
    decreases |u| - i
  {
    if i == |u| || MatchAt(u, kw, i) then i else FirstMatchFrom(u, kw, i + 1)
  }

  /** A pass changes the text exactly when the keyword occurs in it as a whole word. */
  lemma ReplaceUnchangedIff(u: string, kw: string)
    requires IsKeyword(kw)
    ensures ReplaceWholeWord(u, kw) == u <==> NoMatch(u, kw)
  {
    var m := FirstMatchFrom(u, kw, 0);
    CopiesUpToMatch(u, kw, 0, m);
    if m == |u| {
      assert u[0..|u|] == u;
    } else {
      var r := ReplaceWholeWord(u, kw);
      assert r == u[0..m] + (Open + kw + Close + ReplaceFrom(u, kw, m + |kw|));
      assert r[m] == Esc;
      assert u[m] == u[m..m + |kw|][0] == kw[0];
      assert IsWordChar(kw[0]);
    }
  }

  /** A pass copies the text up to the first whole-word match `m`, wraps that
      match in the markers, and carries on after it; with no match it copies
      everything. */
  lemma ReplaceSplitsAtFirstMatch(u: string, kw: string, m: nat)
    requires IsKeyword(kw) && m == FirstMatchFrom(u, kw, 0)
    ensures m == |u| ==> ReplaceWholeWord(u, kw) == u
    ensures m < |u| ==> m + |kw| <= |u| && u[m..m + |kw|] == kw
    ensures m < |u| ==> ReplaceWholeWord(u, kw) == u[..m] + (Open + kw + Close + ReplaceFrom(u, kw, m + |kw|))
  {
    if m == |u| {
      CopyWithoutMatch(u, kw);
    } else {
      WrapFirstMatch(u, kw, m);
    }
  }

  lemma CopyWithoutMatch(u: string, kw: string)
    requires IsKeyword(kw) && FirstMatchFrom(u, kw, 0) == |u|
    ensures ReplaceWholeWord(u, kw) == u
  {
    CopiesUpToMatch(u, kw, 0, |u|);
    assert u[0..|u|] == u;
  }

  lemma WrapFirstMatch(u: string, kw: string, m: nat)
    requires IsKeyword(kw) && m == FirstMatchFrom(u, kw, 0) && m < |u|
    ensures m + |kw| <= |u| && u[m..m + |kw|] == kw
    ensures ReplaceWholeWord(u, kw) == u[..m] + (Open + kw + Close + ReplaceFrom(u, kw, m + |kw|))
  {
    assert MatchAt(u, kw, m);
    CopiesUpToMatch(u, kw, 0, m);
    ReplaceAtMatch(u, kw, m, m + |kw|);
    assert u[0..m] == u[..m];
  }

  lemma ReplaceAtMatch(u: string, kw: string, i: nat, n: nat)
    requires IsKeyword(kw) && i <= |u| && MatchAt(u, kw, i) && n == i + |kw|
    ensures ReplaceFrom(u, kw, i) == Open + kw + Close + ReplaceFrom(u, kw, n)
  {
  }

  /** No keyword occurs as a whole word anywhere in `text`. */
  predicate NoKeyword(text: string) {
    forall k | 0 <= k < |Keywords| :: NoMatch(text, Keywords[k])
  }

  lemma {:induction false} HighlightWithUnchanged(text: string, kws: seq<string>)
    requires forall k | 0 <= k < |kws| :: IsKeyword(kws[k])
    requires forall k | 0 <= k < |kws| :: NoMatch(text, kws[k])
    ensures HighlightWith(text, kws) == text
    decreases |kws|
  {
    if |kws| > 0 {
      ReplaceUnchangedIff(text, kws[0]);
      HighlightWithUnchanged(text, kws[1..]);
    }
  }

  /** Text in which no keyword stands as a whole word comes out unchanged. */
  lemma HighlightUnchangedWithoutKeywords(text: string)
    requires NoKeyword(text)
    ensures HighlightProgrammingLanguage(text) == text
  {
    KeywordsAreKeywords();
    HighlightWithUnchanged(text, Keywords);
  }

  /** A pass over text in which the keyword stands as a whole word makes it
      longer: the first match gains the two markers. */
  lemma ReplaceGrows(u: string, kw: string)
    requires IsKeyword(kw) && !NoMatch(u, kw)
    ensures |u| < |ReplaceWholeWord(u, kw)|
  {
    var m := FirstMatchFrom(u, kw, 0);
    ReplaceSplitsAtFirstMatch(u, kw, m);
    assert m < |u|;
    var n := m + |kw|;
    assert |ReplaceFrom(u, kw, n)| >= |u| - n;
  }

  /** When some keyword of the list stands in the text as a whole word, the
      passes make the text longer. */
  lemma {:induction false} HighlightWithGrows(text: string, kws: seq<string>, k: nat)
    requires forall i | 0 <= i < |kws| :: IsKeyword(kws[i])
    requires k < |kws| && !NoMatch(text, kws[k])
    ensures |text| < |HighlightWith(text, kws)|
    decreases |kws|
  {
    var u := ReplaceWholeWord(text, kws[0]);
    if NoMatch(text, kws[0]) {
      ReplaceUnchangedIff(text, kws[0]);
      assert u == text;
      assert kws[1..][k - 1] == kws[k];
      HighlightWithGrows(u, kws[1..], k - 1);
    } else {
      ReplaceGrows(text, kws[0]);
    }
  }

  /** Highlighting changes the text exactly when one of the 22 keywords stands
      in it as a whole word, and then it makes the text longer. */
  lemma HighlightChangesIff(text: string)
    ensures HighlightProgrammingLanguage(text) == text <==> NoKeyword(text)
    ensures !NoKeyword(text) ==> |text| < |HighlightProgrammingLanguage(text)|
  {
    KeywordsAreKeywords();
    if NoKeyword(text) {
      HighlightUnchangedWithoutKeywords(text);
    } else {
      var k :| 0 <= k < |Keywords| && !NoMatch(text, Keywords[k]);
      HighlightWithGrows(text, Keywords, k);
    }
  }

  // ---------------------------------------------------------------------------
  // Losslessness: removing the markers gives the text back
  // ---------------------------------------------------------------------------

  predicate StartsWith(x: string, p: string) {
    |x| >= |p| && x[..|p|] == p
  }

  /** `x` begins with the `Open` marker, compared character by character. */
  predicate StartsOpen(x: string) {
    && |x| >= |Open|
    && x[0] == Esc && x[1] == '[' && x[2] == '0' && x[3] == ';' && x[4] == '3' && x[5] == '5' && x[6] == 'm'
  }

  /** `x` begins with the `Close` marker, compared character by character. */
  predicate StartsClose(x: string) {
    |x| >= |Close| && x[0] == Esc && x[1] == '[' && x[2] == '0' && x[3] == 'm'
  }

  /** The text with every `Open` and `Close` marker removed, scanning left to right. */
  function Strip(x: string): string
    decreases |x|
  {
    if |x| == 0 then ""
    else if StartsOpen(x) then Strip(x[|Open|..])
    else if StartsClose(x) then Strip(x[|Close|..])
    else [x[0]] + Strip(x[1..])
  }

  lemma StripOpen(x: string)
    ensures Strip(Open + x) == Strip(x)
  {
    var y := Open + x;
    assert StartsOpen(y);
    assert y[|Open|..] == x;
  }

  lemma StripClose(x: string)
    ensures Strip(Close + x) == Strip(x)
  {
    var y := Close + x;
    assert StartsClose(y) && !StartsOpen(y);
    assert y[|Close|..] == x;
  }

  /** Characters other than the escape are kept as they are. */
  lemma {:induction false} StripKeepsPlain(w: string, x: string)
    requires Esc !in w
    ensures Strip(w + x) == w + Strip(x)
    decreases |w|
  {
    if |w| > 0 {
      var y := w + x;
      assert y[0] == w[0] != Esc;
      assert Strip(y) == [y[0]] + Strip(y[1..]);
      assert y[1..] == w[1..] + x;
      assert Esc !in w[1..] by {
        forall c | c in w[1..] ensures c != Esc { assert c in w; }
      }
      StripKeepsPlain(w[1..], x);
      assert w == [w[0]] + w[1..];
    } else {
      assert w + x == x;
    }
  }

  lemma StripEscFree(x: string)
    requires Esc !in x
    ensures Strip(x) == x
  {
    StripKeepsPlain(x, "");
    assert x + "" == x;
  }

  /** An escape-free beginning of a pass's output was copied from the input. */
  lemma {:induction false} EscFreePrefixCopied(u: string, kw: string, j: nat, w: string)
    requires IsKeyword(kw) && j <= |u| && Esc !in w
    ensures StartsWith(ReplaceFrom(u, kw, j), w) ==> StartsWith(u[j..], w)
    decreases |w|
  {
    var r := ReplaceFrom(u, kw, j);
    if |w| > 0 && j < |u| {
      if MatchAt(u, kw, j) {
        assert r[0] == Esc;
        assert w[0] != Esc;
        if |r| >= |w| { assert r[..|w|][0] == r[0]; }
      } else {
        var tail := ReplaceFrom(u, kw, j + 1);
        assert r == [u[j]] + tail;
        assert Esc !in w[1..] by {
          forall c | c in w[1..] ensures c != Esc { assert c in w; }
        }
        EscFreePrefixCopied(u, kw, j + 1, w[1..]);
        if StartsWith(r, w) {
          assert r[..|w|] == [u[j]] + tail[..|w| - 1];
          assert tail[..|w| - 1] == w[1..];
          assert u[j..][..|w|] == [u[j]] + u[j + 1..][..|w| - 1];
        }
      }
    }
  }

  /** After an escape, the rest of the `Open` marker. */
  const OpenTail: string := "[0;35m"

  /** After an escape, the rest of the `Close` marker. */
  const CloseTail: string := "[0m"

  /** An escape followed by `t` starts a marker exactly when `t` holds the rest of it. */
  lemma MarkerAfterEsc(t: string)
    ensures StartsOpen([Esc] + t) <==> StartsWith(t, OpenTail)
    ensures StartsClose([Esc] + t) <==> StartsWith(t, CloseTail)
  {
    var y := [Esc] + t;
    if |t| >= |OpenTail| && StartsOpen(y) {
      assert t[..|OpenTail|] == OpenTail;
    }
    if |t| >= |CloseTail| && StartsClose(y) {
      assert t[..|CloseTail|] == CloseTail;
    }
  }

  /** No whole-word match of a keyword starts inside a marker of length `len`
      at position `i`. */
  lemma NoMatchInsideMarker(u: string, kw: string, i: nat, len: nat)
    requires IsKeyword(kw) && i <= |u|
    requires (len == |Open| && StartsOpen(u[i..])) || (len == |Close| && StartsClose(u[i..]))
    ensures forall j: nat | i <= j < i + len :: !MatchAt(u, kw, j)
  {
    forall j: nat | i <= j < i + len
      ensures !MatchAt(u, kw, j)
    {
      assert 'a' <= kw[0] <= 'z';
      assert u[j] == u[i..][j - i];
      if j + |kw| <= |u| {
        assert u[j..j + |kw|][0] == u[j];
      }
      if j == i + len - 1 {
        assert u[j - 1] == u[i..][j - 1 - i];
        assert IsWordChar(u[j - 1]);
      }
    }
  }

  /** A pass copies a marker it meets unchanged, and stripping removes it on both sides. */
  lemma StepOverMarker(u: string, kw: string, i: nat, len: nat) returns (n: nat, w: string)
    requires IsKeyword(kw) && i < |u|
    requires (len == |Open| && StartsOpen(u[i..])) || (len == |Close| && StartsClose(u[i..]))
    ensures i < n <= |u|
    ensures Strip(ReplaceFrom(u, kw, i)) == w + Strip(ReplaceFrom(u, kw, n))
    ensures Strip(u[i..]) == w + Strip(u[n..])
  {
    NoMatchInsideMarker(u, kw, i, len);
    CopiesUpToMatch(u, kw, i, i + len);
    var t := ReplaceFrom(u, kw, i + len);
    var x := u[i..i + len] + t;
    assert forall k | 0 <= k < len :: x[k] == u[i..][k];
    assert x[len..] == t;
    assert u[i..][len..] == u[i + len..];
    n, w := i + len, "";
    assert w + Strip(t) == Strip(t);
    assert w + Strip(u[n..]) == Strip(u[n..]);
  }

  /** A whole-word match is wrapped in markers that strip away. */
  lemma StripReplaceAtMatch(u: string, kw: string, i: nat, n: nat)
    requires IsKeyword(kw) && i <= |u| && MatchAt(u, kw, i) && n == i + |kw|
    ensures Strip(ReplaceFrom(u, kw, i)) == kw + Strip(ReplaceFrom(u, kw, n))
  {
    var tail := ReplaceFrom(u, kw, n);
    assert Esc !in kw by {
      forall c | c in kw ensures c != Esc { var k :| 0 <= k < |kw| && kw[k] == c; }
    }
    assert ReplaceFrom(u, kw, i) == Open + (kw + (Close + tail));
    StripOpen(kw + (Close + tail));
    StripKeepsPlain(kw, Close + tail);
    StripClose(tail);
  }

  /** The matched keyword itself is plain text. */
  lemma StripAtMatch(u: string, kw: string, i: nat, n: nat)
    requires IsKeyword(kw) && i <= |u| && MatchAt(u, kw, i) && n == i + |kw|
    ensures Strip(u[i..]) == kw + Strip(u[n..])
  {
    assert Esc !in kw by {
      forall c | c in kw ensures c != Esc { var k :| 0 <= k < |kw| && kw[k] == c; }
    }
    assert u[i..] == kw + u[i + |kw|..];
    StripKeepsPlain(kw, u[i + |kw|..]);
  }

  /** Where no marker starts and no keyword matches, a pass copies one character. */
  lemma StripReplaceAtOther(u: string, kw: string, i: nat, n: nat)
    requires IsKeyword(kw) && i < |u| && !MatchAt(u, kw, i) && n == i + 1
    requires !StartsOpen(u[i..]) && !StartsClose(u[i..])
    ensures Strip(ReplaceFrom(u, kw, i)) == [u[i]] + Strip(ReplaceFrom(u, kw, n))
    ensures Strip(u[i..]) == [u[i]] + Strip(u[n..])
  {
    assert u[i..][1..] == u[n..];
    var tail := ReplaceFrom(u, kw, n);
    var y := [u[i]] + tail;
    assert ReplaceFrom(u, kw, i) == y;
    if u[i] == Esc {
      EscFreePrefixCopied(u, kw, n, OpenTail);
      EscFreePrefixCopied(u, kw, n, CloseTail);
      assert u[i..] == [Esc] + u[n..];
      MarkerAfterEsc(u[n..]);
      MarkerAfterEsc(tail);
    }
    assert y[1..] == tail;
  }

  /** One step of a pass from position `i`: the text `w` it emits before
      resuming at `n`, which is also what the input holds there once stripped. */
  lemma StripStep(u: string, kw: string, i: nat) returns (n: nat, w: string)
    requires IsKeyword(kw) && i < |u|
    ensures i < n <= |u|
    ensures Strip(ReplaceFrom(u, kw, i)) == w + Strip(ReplaceFrom(u, kw, n))
    ensures Strip(u[i..]) == w + Strip(u[n..])
  {
    if StartsOpen(u[i..]) {
      n, w := StepOverMarker(u, kw, i, |Open|);
    } else if StartsClose(u[i..]) {
      n, w := StepOverMarker(u, kw, i, |Close|);
    } else if MatchAt(u, kw, i) {
      n, w := StepOverMatch(u, kw, i);
    } else {
      n, w := StepOverOther(u, kw, i);
    }
  }

  lemma StepOverMatch(u: string, kw: string, i: nat) returns (n: nat, w: string)
    requires IsKeyword(kw) && i < |u| && MatchAt(u, kw, i)
    ensures i < n <= |u|
    ensures Strip(ReplaceFrom(u, kw, i)) == w + Strip(ReplaceFrom(u, kw, n))
    ensures Strip(u[i..]) == w + Strip(u[n..])
  {
    n, w := i + |kw|, kw;
    StripReplaceAtMatch(u, kw, i, n);
    StripAtMatch(u, kw, i, n);
  }

  lemma StepOverOther(u: string, kw: string, i: nat) returns (n: nat, w: string)
    requires IsKeyword(kw) && i < |u| && !MatchAt(u, kw, i)
    requires !StartsOpen(u[i..]) && !StartsClose(u[i..])
    ensures i < n <= |u|
    ensures Strip(ReplaceFrom(u, kw, i)) == w + Strip(ReplaceFrom(u, kw, n))
    ensures Strip(u[i..]) == w + Strip(u[n..])
  {
    n, w := i + 1, [u[i]];
    StripReplaceAtOther(u, kw, i, n);
  }

  /** A pass only inserts markers: with the markers stripped, its output is its input. */
  lemma {:induction false} StripReplaceFrom(u: string, kw: string, i: nat)
    requires IsKeyword(kw) && i <= |u|
    ensures Strip(ReplaceFrom(u, kw, i)) == Strip(u[i..])
    decreases |u| - i
  {
    if i < |u| {
      var n, w := StripStep(u, kw, i);
      StripReplaceFrom(u, kw, n);
    }
  }

  lemma {:induction false} StripHighlightWith(text: string, kws: seq<string>)
    requires forall k | 0 <= k < |kws| :: IsKeyword(kws[k])
    ensures Strip(HighlightWith(text, kws)) == Strip(text)
    decreases |kws|
  {
    if |kws| > 0 {
      StripReplaceFrom(text, kws[0], 0);
      assert text[0..] == text;
      StripHighlightWith(ReplaceWholeWord(text, kws[0]), kws[1..]);
    }
  }

  /** Highlighting loses nothing: for text without escape characters, removing
      the colour markers from the highlighted text gives the text back. */
  lemma HighlightIsLossless(text: string)
    requires Esc !in text
    ensures Strip(HighlightProgrammingLanguage(text)) == text
  {
    KeywordsAreKeywords();
    StripHighlightWith(text, Keywords);
    StripEscFree(text);
  }
}
