/** `escapeHtml` of markdown-viewer.js: the five HTML-special characters are
    replaced by entities, every other character is copied in order. */
module Escape {
  import opened Text

  predicate IsHtmlSpecial(c: char) {
    c == '&' || c == '<' || c == '>' || c == '"' || c == '\''
  }

  /** The replacement the source's lookup table gives one character. */
  function EscapeChar(c: char): string {
    match c
    case '&' => "&amp;"
    case '<' => "&lt;"
    case '>' => "&gt;"
    case '"' => "&quot;"
    case '\'' => "&#039;"
    case _ => [c]
  }

  /** The output never holds a raw `<`, `>`, `"` or `'`; it is exactly as long
      as the input when, and only when, the input has no special character. */
  function EscapeHtml(text: string): (r: string)
    ensures forall i :: 0 <= i < |r| ==> r[i] != '<' && r[i] != '>' && r[i] != '"' && r[i] != '\''
    ensures |r| >= |text|
    ensures |r| == |text| <==> forall i :: 0 <= i < |text| ==> !IsHtmlSpecial(text[i])
  {
    if text == [] then ""
    else
      var rest := EscapeHtml(text[1..]);
      assert forall i :: 1 <= i < |text| ==> text[i] == text[1..][i - 1];
      EscapeChar(text[0]) + rest
  }

  /** Escaping is character by character: it distributes over concatenation. */
  lemma {:induction false} EscapeHtmlAppend(a: string, b: string)
    ensures EscapeHtml(a + b) == EscapeHtml(a) + EscapeHtml(b)
  {
    if a == [] {
      assert a + b == b;
    } else {
      assert (a + b)[1..] == a[1..] + b;
      EscapeHtmlAppend(a[1..], b);
    }
  }

  /** One of the five entities starts at position `i` of `s`. */
  predicate EntityAt(s: string, i: nat)
    requires i <= |s|
  {
    var t := s[i..];
    || StartsWith(t, "&amp;") || StartsWith(t, "&lt;") || StartsWith(t, "&gt;")
    || StartsWith(t, "&quot;") || StartsWith(t, "&#039;")
  }

  /** Every `&` in the output is the start of one of the five entities: the
      text's own ampersands have all become `&amp;`. */
  lemma {:induction false} EscapedAmpersands(text: string)
    ensures forall i :: 0 <= i < |EscapeHtml(text)| && EscapeHtml(text)[i] == '&' ==> EntityAt(EscapeHtml(text), i)
  {
    if text != [] {
      EscapedAmpersands(text[1..]);
      EscapedAmpersandsStep(text[0], EscapeHtml(text[1..]));
    }
  }

  /** Putting the escape of one character in front keeps every `&` at the
      start of an entity. */
  lemma EscapedAmpersandsStep(c: char, rest: string)
    requires forall i :: 0 <= i < |rest| && rest[i] == '&' ==> EntityAt(rest, i)
    ensures forall i :: 0 <= i < |EscapeChar(c) + rest| && (EscapeChar(c) + rest)[i] == '&' ==> EntityAt(EscapeChar(c) + rest, i)
  {
    var e := EscapeChar(c);
    forall i | 0 <= i < |e + rest| && (e + rest)[i] == '&'
      ensures EntityAt(e + rest, i)
    {
      if i < |e| {
        EscapeCharAmpersand(c, rest, i);
      } else {
        EntityAtShift(e, rest, i - |e|);
      }
    }
  }

  /** Within the escape of one character, an `&` can only be the first
      character of an entity. */
  lemma EscapeCharAmpersand(c: char, rest: string, i: nat)
    requires i < |EscapeChar(c)| && EscapeChar(c)[i] == '&'
    ensures EntityAt(EscapeChar(c) + rest, i)
  {
    var e := EscapeChar(c);
    assert i == 0 && IsHtmlSpecial(c);
    assert (e + rest)[i..][..|e|] == e;
  }

  lemma EntityAtShift(a: string, b: string, i: nat)
    requires i < |b|
    ensures EntityAt(a + b, |a| + i) == EntityAt(b, i)
  {
    assert (a + b)[|a| + i..] == b[i..];
  }

  /** A text without special characters is left unchanged. */
  lemma {:induction false} EscapeHtmlPlain(text: string)
    requires forall i :: 0 <= i < |text| ==> !IsHtmlSpecial(text[i])
    ensures EscapeHtml(text) == text
  {
    if text != [] {
      EscapeHtmlPlain(text[1..]);
      assert [text[0]] + text[1..] == text;
    }
  }

  /** Decodes the five entities `escapeHtml` emits, left to right; any other
      character (a lone `&` included) is copied. */
  function Unescape(s: string): string {
    if s == [] then ""
    else if s[0] != '&' then [s[0]] + Unescape(s[1..])
    else if StartsWith(s, "&amp;") then "&" + Unescape(s[5..])
    else if StartsWith(s, "&lt;") then "<" + Unescape(s[4..])
    else if StartsWith(s, "&gt;") then ">" + Unescape(s[4..])
    else if StartsWith(s, "&quot;") then "\"" + Unescape(s[6..])
    else if StartsWith(s, "&#039;") then "'" + Unescape(s[6..])
    else "&" + Unescape(s[1..])
  }

  /** Decoding an entity, followed by anything, gives its character back, then
      the decoding of what follows. */
  lemma UnescapeEntity(entity: string, c: char, rest: string)
    requires (entity, c) in {("&amp;", '&'), ("&lt;", '<'), ("&gt;", '>'), ("&quot;", '"'), ("&#039;", '\'')}
    ensures Unescape(entity + rest) == [c] + Unescape(rest)
  {
    var s := entity + rest;
    assert s[..|entity|] == entity && s[|entity|..] == rest;
    assert s[0] == '&' && s[1] == entity[1];
  }

  /** Decoding the escape of one character, followed by anything, gives that
      character back, then the decoding of the rest. */
  lemma UnescapeEscapeChar(c: char, rest: string)
    ensures Unescape(EscapeChar(c) + rest) == [c] + Unescape(rest)
  {
    if IsHtmlSpecial(c) {
      UnescapeEntity(EscapeChar(c), c, rest);
    } else {
      assert (EscapeChar(c) + rest)[1..] == rest;
    }
  }

  /** Nothing is lost by escaping: decoding the entities gives the text back. */
  lemma {:induction false} UnescapeEscapeHtml(text: string)
    ensures Unescape(EscapeHtml(text)) == text
  {
    if text != [] {
      UnescapeEscapeHtml(text[1..]);
      UnescapeEscapeChar(text[0], EscapeHtml(text[1..]));
      assert [text[0]] + text[1..] == text;
    }
  }
}
