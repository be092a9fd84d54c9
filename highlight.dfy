/** The keyword pass of `applySyntaxHighlighting` in markdown-viewer.js: for each
    keyword in turn, every whole-word occurrence in the code is wrapped in a
    `<span class="keyword">` element. Words are runs of `[A-Za-z0-9_]`, the
    characters of the regex class `\w` that `\b` looks at. */
module Highlight {
  import opened Text

  /** The keywords, in the order the source applies them. */
  const Keywords: seq<string> := [
    "function", "return", "if", "else", "for", "while", "switch", "case", "break",
    "const", "let", "var", "import", "export", "from", "class", "extends", "new",
    "true", "false", "null", "undefined"
  ]

  predicate IsWordChar(c: char) {
    ('A' <= c <= 'Z') || ('a' <= c <= 'z') || ('0' <= c <= '9') || c == '_'
  }

  /** A keyword: a non-empty run of word characters. */
  predicate IsWord(kw: string) {
    kw != [] && forall i :: 0 <= i < |kw| ==> IsWordChar(kw[i])
  }

  /** `\bkw\b` matches at position `i` of `code`: the keyword is there, and
      neither the character before it nor the one after it is a word
      character. */
  predicate WholeWordAt(code: string, kw: string, i: nat)
    requires i <= |code|
  {
    && StartsWith(code[i..], kw)
    && (i == 0 || !IsWordChar(code[i - 1]))
    && (i + |kw| == |code| || !IsWordChar(code[i + |kw|]))
  }

  function Span(kw: string): string {
    "<span class=\"keyword\">" + kw + "</span>"
  }

  /** What the scan emits at position `i`, and the position it goes on from. */
  datatype Emit = Emit(out: string, next: nat)

  /** At a whole-word occurrence the replace emits the element and skips the
      keyword; anywhere else it copies one character. The regex looks at the
      code as it was before the replace, so the word boundaries are those of
      `code`. */
  function WrapAt(code: string, kw: string, i: nat): (e: Emit)
    requires kw != [] && i < |code|
    ensures i < e.next <= |code|
  {
    if WholeWordAt(code, kw, i) then Emit(Span(kw), i + |kw|) else Emit([code[i]], i + 1)
  }

  /** The global replace from position `i` on, left to right. */
  function WrapFrom(code: string, kw: string, i: nat): string
    requires kw != [] && i <= |code|
    decreases |code| - i
  {
    if i == |code| then []
    else
      var e := WrapAt(code, kw, i);
      e.out + WrapFrom(code, kw, e.next)
  }

  /** `code.replace(new RegExp('\\b' + kw + '\\b', 'g'), Span(kw))`. */
  function WrapWord(code: string, kw: string): string
    requires kw != []
  {
    WrapFrom(code, kw, 0)
  }

  /** The passes for the keywords of `kws`, one after another. */
  function Highlighted(code: string, kws: seq<string>): string
    requires forall k :: 0 <= k < |kws| ==> kws[k] != []
  {
    if kws == [] then code
    else WrapWord(Highlighted(code, kws[..|kws| - 1]), kws[|kws| - 1])
  }

  lemma KeywordsAreWords()
    ensures forall k :: 0 <= k < |Keywords| ==> IsWord(Keywords[k])
  {
  }

  /** The list holds 22 different keywords, so no pass is repeated. */
  lemma KeywordsDistinct()
    ensures |Keywords| == 22
    ensures forall i, j :: 0 <= i < j < |Keywords| ==> Keywords[i] != Keywords[j]
  {
  }

  /** Inside its element the keyword is still a whole word: `>` before it and
      `<` after it are not word characters. */
  lemma SpanKeepsWholeWord(kw: string)
    requires IsWord(kw)
    ensures WholeWordAt(Span(kw), kw, |Span(kw)| - |kw| - 7)
    ensures Span(kw)[0] == '<' && Span(kw)[|Span(kw)| - 1] == '>'
  {
    var open: string := "<span class=\"keyword\">";
    assert Span(kw) == open + kw + "</span>";
    assert Span(kw)[|open|..][..|kw|] == kw;
  }

  /** One more keyword pass. */
  lemma HighlightedStep(code: string, kws: seq<string>, i: nat)
    requires forall k :: 0 <= k < |kws| ==> kws[k] != []
    requires i < |kws|
    ensures Highlighted(code, kws[..i + 1]) == WrapWord(Highlighted(code, kws[..i]), kws[i])
  {
    assert kws[..i + 1][..i] == kws[..i];
  }

  /** The source's loop over the keywords, reassigning the code. */
  method HighlightKeywords(code: string) returns (out: string)
    ensures out == Highlighted(code, Keywords)
  {
    KeywordsAreWords();
    out := code;
    for i := 0 to |Keywords|
      invariant out == Highlighted(code, Keywords[..i])
    {
      HighlightedStep(code, Keywords, i);
      out := WrapWord(out, Keywords[i]);
    }
    assert Keywords[..|Keywords|] == Keywords;
  }

  // ---------------------------------------------------------------------
  // Partners: taking the markup out again, and code without the keyword.

  /** At the start of `s`: a keyword element for `kw` gives back the bare
      keyword, any other character is copied. */
  function UnwrapAt(s: string, kw: string): (e: Emit)
    requires s != []
    ensures 0 < e.next <= |s|
  {
    if StartsWith(s, Span(kw)) then Emit(kw, |Span(kw)|) else Emit([s[0]], 1)
  }

  /** Replaces every keyword element for `kw` by the bare keyword, left to
      right. */
  function Unwrap(s: string, kw: string): string
    decreases |s|
  {
    if s == [] then []
    else
      var e := UnwrapAt(s, kw);
      e.out + Unwrap(s[e.next..], kw)
  }

  lemma UnwrapSpan(kw: string, rest: string)
    ensures Unwrap(Span(kw) + rest, kw) == kw + Unwrap(rest, kw)
  {
    var s := Span(kw) + rest;
    assert s[..|Span(kw)|] == Span(kw);
    assert UnwrapAt(s, kw) == Emit(kw, |Span(kw)|);
    assert s[|Span(kw)|..] == rest;
  }

  /** What the pass emits at one position, taken out again, is the code it
      stood for. */
  lemma UnwrapWrapAt(code: string, kw: string, i: nat, rest: string)
    requires kw != [] && i < |code| && '<' !in code
    ensures Unwrap(WrapAt(code, kw, i).out + rest, kw) == code[i..WrapAt(code, kw, i).next] + Unwrap(rest, kw)
  {
    if WholeWordAt(code, kw, i) {
      UnwrapWrapAtMatch(code, kw, i, rest);
    } else {
      UnwrapWrapAtCopy(code, kw, i, rest);
    }
  }

  lemma UnwrapWrapAtMatch(code: string, kw: string, i: nat, rest: string)
    requires kw != [] && i < |code| && WholeWordAt(code, kw, i)
    ensures Unwrap(WrapAt(code, kw, i).out + rest, kw) == code[i..WrapAt(code, kw, i).next] + Unwrap(rest, kw)
  {
    var e := WrapAt(code, kw, i);
    assert e.out == Span(kw) && e.next == i + |kw|;
    UnwrapWrapMatch(code, kw, i, rest);
  }

  lemma UnwrapWrapAtCopy(code: string, kw: string, i: nat, rest: string)
    requires kw != [] && i < |code| && !WholeWordAt(code, kw, i) && '<' !in code
    ensures Unwrap(WrapAt(code, kw, i).out + rest, kw) == code[i..WrapAt(code, kw, i).next] + Unwrap(rest, kw)
  {
    var e := WrapAt(code, kw, i);
    assert e.out == [code[i]] && e.next == i + 1;
    UnwrapWrapCopy(code, kw, i, rest);
  }

  lemma UnwrapWrapMatch(code: string, kw: string, i: nat, rest: string)
    requires i <= |code| && StartsWith(code[i..], kw)
    ensures Unwrap(Span(kw) + rest, kw) == code[i..i + |kw|] + Unwrap(rest, kw)
  {
    PrefixAt(code, kw, i);
    UnwrapSpan(kw, rest);
  }

  lemma PrefixAt(code: string, kw: string, i: nat)
    requires i <= |code| && StartsWith(code[i..], kw)
    ensures i + |kw| <= |code| && code[i..i + |kw|] == kw
  {
    assert code[i..][..|kw|] == kw;
  }

  lemma UnwrapWrapCopy(code: string, kw: string, i: nat, rest: string)
    requires i < |code| && code[i] != '<'
    ensures Unwrap([code[i]] + rest, kw) == code[i..i + 1] + Unwrap(rest, kw)
  {
    var s := [code[i]] + rest;
    assert UnwrapAt(s, kw) == Emit([code[i]], 1);
    assert s[1..] == rest;
  }

  lemma SliceSplit(s: string, i: nat, j: nat)
    requires i <= j <= |s|
    ensures s[i..] == s[i..j] + s[j..]
  {
  }

  /** In code without `<`, the pass only inserts markup: taking the keyword
      elements out again gives the code back. */
  lemma {:induction false} UnwrapWrapFrom(code: string, kw: string, i: nat)
    requires kw != [] && i <= |code| && '<' !in code
    ensures Unwrap(WrapFrom(code, kw, i), kw) == code[i..]
    decreases |code| - i
  {
    if i < |code| {
      var e := WrapAt(code, kw, i);
      var w := WrapFrom(code, kw, e.next);
      assert WrapFrom(code, kw, i) == e.out + w;
      UnwrapWrapFrom(code, kw, e.next);
      UnwrapWrapAt(code, kw, i, w);
      SliceSplit(code, i, e.next);
    }
  }

  /** The first keyword pass over escaped code loses nothing: escaped code has
      no `<`, so the markup is the only `<` in the result. */
  lemma UnwrapWrapWord(code: string, kw: string)
    requires kw != [] && '<' !in code
    ensures Unwrap(WrapWord(code, kw), kw) == code
  {
    UnwrapWrapFrom(code, kw, 0);
  }

  /** Where the keyword does not occur as a whole word, the pass copies. */
  lemma {:induction false} WrapFromWithoutMatch(code: string, kw: string, i: nat)
    requires kw != [] && i <= |code|
    requires forall j :: i <= j < |code| ==> !WholeWordAt(code, kw, j)
    ensures WrapFrom(code, kw, i) == code[i..]
    decreases |code| - i
  {
    if i < |code| {
      WrapFromWithoutMatch(code, kw, i + 1);
      assert WrapAt(code, kw, i) == Emit([code[i]], i + 1);
      assert code[i..] == [code[i]] + code[i + 1..];
    }
  }

  /** Code in which no keyword of `kws` occurs as a whole word at any stage is
      left as it is by all of their passes. */
  lemma {:induction false} HighlightedWithoutKeywords(code: string, kws: seq<string>)
    requires forall k :: 0 <= k < |kws| ==> kws[k] != []
    requires forall k, j :: 0 <= k < |kws| && 0 <= j < |code| ==> !WholeWordAt(code, kws[k], j)
    ensures Highlighted(code, kws) == code
  {
    if kws != [] {
      var init := kws[..|kws| - 1];
      assert forall k :: 0 <= k < |init| ==> init[k] == kws[k];
      HighlightedWithoutKeywords(code, init);
      WrapFromWithoutMatch(code, kws[|kws| - 1], 0);
    }
  }

  // ---------------------------------------------------------------------
  // The `class` keyword re-matches inside markup already emitted.

  /** Where the keyword does not occur as a whole word, the pass copies one
      character. */
  lemma WrapFromCopy(code: string, kw: string, i: nat)
    requires kw != [] && i < |code| && !WholeWordAt(code, kw, i)
    ensures WrapFrom(code, kw, i) == [code[i]] + WrapFrom(code, kw, i + 1)
  {
    var e := WrapAt(code, kw, i);
    assert e == Emit([code[i]], i + 1);
    WrapFromStep(code, kw, i);
  }

  lemma ConsSlice(s: string, i: nat, j: nat)
    requires i < j <= |s|
    ensures s[i..j] == [s[i]] + s[i + 1..j]
  {
  }

  lemma ConsStep(x: char, c: string, w: string, a: string, b: string)
    requires a == [x] + b && b == c + w
    ensures a == [x] + c + w
  {
  }

  /** A run of positions where the keyword does not occur as a whole word is
      copied by the pass. */
  lemma {:induction false} WrapFromCopies(code: string, kw: string, i: nat, j: nat)
    requires kw != [] && i <= j <= |code|
    requires forall x :: i <= x < j ==> !WholeWordAt(code, kw, x)
    ensures WrapFrom(code, kw, i) == code[i..j] + WrapFrom(code, kw, j)
    decreases j - i
  {
    if i < j {
      WrapFromCopy(code, kw, i);
      WrapFromCopies(code, kw, i + 1, j);
      ConsSlice(code, i, j);
      ConsStep(code[i], code[i + 1..j], WrapFrom(code, kw, j), WrapFrom(code, kw, i), WrapFrom(code, kw, i + 1));
    }
  }

  /** A whole-word occurrence is replaced, and the scan goes on after it. */
  lemma WrapFromMatch(code: string, kw: string, i: nat)
    requires kw != [] && i <= |code| && WholeWordAt(code, kw, i)
    ensures WrapFrom(code, kw, i) == Span(kw) + WrapFrom(code, kw, i + |kw|)
  {
    var e := WrapAt(code, kw, i);
    assert e == Emit(Span(kw), i + |kw|);
    WrapFromStep(code, kw, i);
  }

  /** One step of the scan, then the scan from where it goes on. */
  lemma WrapFromStep(code: string, kw: string, i: nat)
    requires kw != [] && i < |code|
    ensures WrapFrom(code, kw, i) == WrapAt(code, kw, i).out + WrapFrom(code, kw, WrapAt(code, kw, i).next)
  {
  }

  lemma WrapBetweenHead(head: string, kw: string, rest: string)
    requires kw != []
    requires forall x :: 0 <= x < |head| ==> !WholeWordAt(head + kw + rest, kw, x)
    ensures WrapWord(head + kw + rest, kw) == head + WrapFrom(head + kw + rest, kw, |head|)
  {
    var s := head + kw + rest;
    WrapFromCopies(s, kw, 0, |head|);
    assert s[0..|head|] == head;
  }

  lemma WrapBetweenMatch(head: string, kw: string, rest: string)
    requires kw != []
    requires head == [] || !IsWordChar(head[|head| - 1])
    requires rest == [] || !IsWordChar(rest[0])
    requires forall x :: |head| < x < |head + kw + rest| ==> !WholeWordAt(head + kw + rest, kw, x)
    ensures WrapFrom(head + kw + rest, kw, |head|) == Span(kw) + rest
  {
    var s := head + kw + rest;
    var i := |head|;
    assert s[i..][..|kw|] == kw;
    assert WholeWordAt(s, kw, i);
    WrapFromMatch(s, kw, i);
    WrapFromWithoutMatch(s, kw, i + |kw|);
    assert s[i + |kw|..] == rest;
  }

  /** A whole-word occurrence of the keyword that is its only whole-word
      occurrence in the code is wrapped in the keyword element, and the text
      before and after it is copied. */
  lemma WrapBetween(head: string, kw: string, rest: string)
    requires kw != []
    requires head == [] || !IsWordChar(head[|head| - 1])
    requires rest == [] || !IsWordChar(rest[0])
    requires forall x :: 0 <= x < |head + kw + rest| && x != |head| ==> !WholeWordAt(head + kw + rest, kw, x)
    ensures WrapWord(head + kw + rest, kw) == head + Span(kw) + rest
  {
    WrapBetweenHead(head, kw, rest);
    WrapBetweenMatch(head, kw, rest);
    Assoc(head, Span(kw), rest);
  }

  /** The `class` pass, run after the pass of an earlier keyword `kw`, finds
      the word `class` in that keyword's own element and wraps it again. Every
      keyword before `class` in the list is such a word. */
  lemma ClassInsideSpan(kw: string)
    requires IsWord(kw) && kw != "class"
    ensures WrapWord(Span(kw), "class") == "<span " + Span("class") + "=\"keyword\">" + kw + "</span>"
  {
    var head, rest := "<span ", "=\"keyword\">" + kw + "</span>";
    assert Span(kw) == head + "class" + rest;
    forall x | 0 <= x < |Span(kw)| && x != |head|
      ensures !WholeWordAt(Span(kw), "class", x)
    {
      ClassOnlyInAttribute(kw, x);
    }
    WrapBetween(head, "class", rest);
  }

  /** `class` is the sixteenth keyword, and the fifteen before it are words
      other than `class`, so `ClassInsideSpan` applies to each of their
      elements. */
  lemma KeywordsBeforeClass()
    ensures Keywords[15] == "class"
    ensures forall k :: 0 <= k < 15 ==> IsWord(Keywords[k]) && Keywords[k] != "class"
  {
    KeywordsAreWords();
  }

  /** In the element of a word other than `class`, the only whole-word
      `class` is the attribute name, at position 6. */
  lemma ClassOnlyInAttribute(kw: string, x: nat)
    requires IsWord(kw) && kw != "class"
    requires x < |Span(kw)| && x != 6
    ensures !WholeWordAt(Span(kw), "class", x)
  {
    if 22 <= x < 22 + |kw| {
      ClassInsideWord(kw, x);
    } else {
      NoCOutsideWord(kw, x);
      assert Span(kw)[x..][0] != "class"[0];
    }
  }

  /** Outside the word, the only `c` of an element is that of `class`. */
  lemma NoCOutsideWord(kw: string, x: nat)
    requires x < |Span(kw)| && x != 6 && !(22 <= x < 22 + |kw|)
    ensures Span(kw)[x] != 'c'
  {
    var tag, lass, attr, close := "<span ", "lass", "=\"keyword\">", "</span>";
    var s := Span(kw);
    assert s == tag + "c" + lass + attr + kw + close;
    if x < 6 {
      assert s[x] == tag[x] && tag[x] in tag;
    } else if x < 11 {
      assert s[x] == lass[x - 7] && lass[x - 7] in lass;
    } else if x < 22 {
      assert s[x] == attr[x - 11] && attr[x - 11] in attr;
    } else {
      assert s[x] == close[x - 22 - |kw|] && close[x - 22 - |kw|] in close;
    }
  }

  /** A whole-word `class` starting inside the word `kw` of its element would
      have to be all of `kw`. */
  lemma ClassInsideWord(kw: string, x: nat)
    requires IsWord(kw) && kw != "class"
    requires 22 <= x < 22 + |kw|
    ensures !WholeWordAt(Span(kw), "class", x)
  {
    var s := Span(kw);
    var open, close := "<span class=\"keyword\">", "</span>";
    assert s == open + kw + close;
    if x > 22 {
      assert s[x - 1] == kw[x - 23];
    } else if |kw| < 5 {
      assert s[x..][|kw|] == '<';
      assert "class"[|kw|] in "class";
    } else if |kw| > 5 {
      assert s[x + 5] == kw[5];
    } else {
      var y :| 0 <= y < 5 && kw[y] != "class"[y];
      assert s[x..][y] == kw[y];
    }
  }
}
