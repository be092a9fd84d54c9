/** The line-level rules of `markdownToHtml` in markdown-viewer.js: headings,
    horizontal rules, paragraphs, blockquotes and the merging of adjacent
    blockquotes. Each regular-expression pass is written as a scan over the
    lines of the document (the text split on line feeds). A `\s` that may
    run across line feeds is followed explicitly: it swallows whole blank
    lines (`NextNonBlank`). */
module Blocks {
  import opened Text

  /** The document as lines, and back. */
  function Lines(markdown: string): seq<string> {
    Split(markdown, '\n')
  }

  function Unlines(lines: seq<string>): string {
    Join(lines, '\n')
  }

  // ---------------------------------------------------------------------
  // Headings: `^### (.*$)`, then `^## (.*$)`, then `^# (.*$)`.

  /** One heading pass on one line: a line that begins with the marker (hashes
      and one space) becomes the heading element holding the rest of it. */
  function HeadingLine(marker: string, tag: string, line: string): string {
    if StartsWith(line, marker) then "<" + tag + ">" + line[|marker|..] + "</" + tag + ">" else line
  }

  function HeadingPass(marker: string, tag: string, lines: seq<string>): seq<string> {
    seq(|lines|, k requires 0 <= k < |lines| => HeadingLine(marker, tag, lines[k]))
  }

  function HeadingDoc(marker: string, tag: string, markdown: string): string {
    Unlines(HeadingPass(marker, tag, Lines(markdown)))
  }

  /** What the three heading passes, run in the source's order, do to one line:
      the longest marker wins and a line is rewritten at most once. */
  function HeadingsOf(line: string): string {
    if StartsWith(line, "### ") then "<h3>" + line[4..] + "</h3>"
    else if StartsWith(line, "## ") then "<h2>" + line[3..] + "</h2>"
    else if StartsWith(line, "# ") then "<h1>" + line[2..] + "</h1>"
    else line
  }

  function AllHeadingsPass(lines: seq<string>): seq<string> {
    seq(|lines|, k requires 0 <= k < |lines| => HeadingsOf(lines[k]))
  }

  /** A line that begins with `<` is not touched by any heading pass. */
  lemma {:induction false} HeadingLineOfTag(marker: string, tag: string, line: string)
    requires marker != [] && marker[0] == '#'
    requires line != [] && line[0] == '<'
    ensures HeadingLine(marker, tag, line) == line
  {
  }

  lemma {:induction false} HeadingLineStart(marker: string, tag: string, line: string)
    requires StartsWith(line, marker)
    ensures HeadingLine(marker, tag, line)[0] == '<'
  {
  }

  /** Running `###`, `##` and `#` in turn is the classification `HeadingsOf`:
      a heading already emitted starts with `<` and is not matched again. */
  lemma {:induction false} HeadingPassesClassify(line: string)
    ensures HeadingLine("# ", "h1", HeadingLine("## ", "h2", HeadingLine("### ", "h3", line))) == HeadingsOf(line)
  {
    var l3 := HeadingLine("### ", "h3", line);
    var l2 := HeadingLine("## ", "h2", l3);
    if StartsWith(line, "### ") {
      HeadingLineStart("### ", "h3", line);
      HeadingLineOfTag("## ", "h2", l3);
      HeadingLineOfTag("# ", "h1", l3);
      assert HeadingsOf(line) == l3;
    } else if StartsWith(line, "## ") {
      HeadingLineStart("## ", "h2", line);
      HeadingLineOfTag("# ", "h1", l2);
      assert HeadingsOf(line) == l2;
    } else {
      assert l2 == line;
    }
  }

  /** A line without a line feed stays without one through a heading pass. */
  lemma HeadingLineNoNewline(marker: string, tag: string, line: string)
    requires '\n' !in line && '\n' !in tag
    ensures '\n' !in HeadingLine(marker, tag, line)
  {
    if StartsWith(line, marker) {
      var rest := line[|marker|..];
      assert forall c :: c in rest ==> c in line;
    }
  }

  lemma HeadingPassNoNewlines(marker: string, tag: string, lines: seq<string>)
    requires NoNewlines(lines) && '\n' !in tag
    ensures NoNewlines(HeadingPass(marker, tag, lines))
  {
    forall k | 0 <= k < |lines| ensures '\n' !in HeadingPass(marker, tag, lines)[k] {
      HeadingLineNoNewline(marker, tag, lines[k]);
    }
  }

  /** The three heading passes over a whole document rewrite each of its lines
      by `HeadingsOf`, and keep the number of lines. */
  lemma HeadingDocs(markdown: string)
    ensures HeadingDoc("# ", "h1", HeadingDoc("## ", "h2", HeadingDoc("### ", "h3", markdown)))
         == Unlines(AllHeadingsPass(Lines(markdown)))
  {
    var lines := Lines(markdown);
    var p3 := HeadingPass("### ", "h3", lines);
    HeadingPassNoNewlines("### ", "h3", lines);
    SplitJoin(p3, '\n');
    assert HeadingDoc("### ", "h3", markdown) == Unlines(p3);
    var p2 := HeadingPass("## ", "h2", p3);
    HeadingPassNoNewlines("## ", "h2", p3);
    SplitJoin(p2, '\n');
    assert HeadingDoc("## ", "h2", Unlines(p3)) == Unlines(p2);
    var p1 := HeadingPass("# ", "h1", p2);
    assert HeadingDoc("# ", "h1", Unlines(p2)) == Unlines(p1);
    forall k | 0 <= k < |lines| ensures p1[k] == HeadingsOf(lines[k]) {
      HeadingPassesClassify(lines[k]);
    }
    assert p1 == AllHeadingsPass(lines);
  }

  // ---------------------------------------------------------------------
  // Horizontal rules: `^\s*[\-=_]{3,}\s*$` with the `m` flag.

  predicate IsRuleChar(c: char) {
    c == '-' || c == '=' || c == '_'
  }

  /** The line matches `\s*[\-=_]{3,}\s*` from here on: `run` rule
      characters have been read, and `closed` says that white space has
      already followed them. */
  predicate RuleScan(s: string, run: nat, closed: bool) {
    if s == [] then run >= 3
    else if IsSpace(s[0]) then RuleScan(s[1..], run, closed || run > 0)
    else IsRuleChar(s[0]) && !closed && RuleScan(s[1..], run + 1, false)
  }

  /** A rule line: white space, three or more of `-`, `=`, `_`, white space. */
  predicate IsRuleLine(line: string) {
    RuleScan(line, 0, false)
  }

  /** A line that begins with a non-space character other than a rule
      character is not a rule line. */
  lemma NotRuleLine(line: string)
    requires line != [] && !IsSpace(line[0]) && !IsRuleChar(line[0])
    ensures !IsRuleLine(line)
  {
  }

  lemma {:induction false} BlankNotRuleScan(line: string)
    requires IsBlank(line)
    ensures !RuleScan(line, 0, false)
  {
    if line != [] {
      BlankNotRuleScan(line[1..]);
    }
  }

  lemma BlankNotRuleLine(line: string)
    requires IsBlank(line)
    ensures !IsRuleLine(line)
  {
    BlankNotRuleScan(line);
  }

  /** What a rule match tried at the start of line `k` does. */
  datatype RuleMatch =
    | NoRule
      /** Lines `k` up to `next - 1` become `<hr>`; when `glued`, the match
          ended at the start of the empty line `next`, where the next match is
          tried, so the output of line `next` continues the `<hr>` line. */
    | Rule(next: nat, glued: bool)

  /** A match begins at the start of `k`, runs over blank lines to a rule line
      `m`, and then over the blank lines after it up to the line feed before
      the next non-blank line `n` (or to the end of the text): lines `k` to
      `n - 1` are replaced. When line `n - 1` is an empty line after the rule,
      the match ends at a line start. */
  function RuleAt(lines: seq<string>, k: nat): (r: RuleMatch)
    requires k < |lines|
    ensures r.Rule? ==> k < r.next <= |lines| && (r.glued ==> r.next < |lines|)
    ensures r.Rule? <==> NextNonBlank(lines, k) < |lines| && IsRuleLine(lines[NextNonBlank(lines, k)])
  {
    var m := NextNonBlank(lines, k);
    if m < |lines| && IsRuleLine(lines[m]) then
      var n := NextNonBlank(lines, m + 1);
      if n - 1 > m && lines[n - 1] == [] then Rule(n - 1, true) else Rule(n, false)
    else NoRule
  }

  /** The rule pass from the start of line `k`. */
  function RulePass(lines: seq<string>, k: nat): (r: seq<string>)
    requires k <= |lines|
    ensures |r| <= |lines| - k
    ensures k < |lines| ==> |r| >= 1
    decreases |lines| - k
  {
    if k == |lines| then []
    else
      match RuleAt(lines, k)
      case NoRule => [lines[k]] + RulePass(lines, k + 1)
      case Rule(next, glued) =>
        var rest := RulePass(lines, next);
        if glued then ["<hr>" + rest[0]] + rest[1..] else ["<hr>"] + rest
  }

  lemma HrLine(rest: string)
    ensures !IsRuleLine("<hr>" + rest)
  {
    NotRuleLine("<hr>" + rest);
  }

  predicate RuleFree(lines: seq<string>) {
    forall j :: 0 <= j < |lines| ==> !IsRuleLine(lines[j])
  }

  /** A line where no match starts is not a rule line. */
  lemma NoRuleAt(lines: seq<string>, k: nat)
    requires k < |lines| && RuleAt(lines, k).NoRule?
    ensures !IsRuleLine(lines[k])
  {
    if IsBlank(lines[k]) {
      BlankNotRuleLine(lines[k]);
    }
  }

  lemma ConsLine(x: string, rest: seq<string>)
    requires !IsRuleLine(x) && '\n' !in x && RuleFree(rest) && NoNewlines(rest)
    ensures RuleFree([x] + rest) && NoNewlines([x] + rest)
  {
    forall j | 1 <= j < |[x] + rest| ensures ([x] + rest)[j] == rest[j - 1] {
    }
  }

  /** The `<hr>` line the rule becomes, alone or continued. */
  lemma HrLines(rest: seq<string>, glued: bool)
    requires (glued ==> |rest| >= 1) && RuleFree(rest) && NoNewlines(rest)
    ensures var r := if glued then ["<hr>" + rest[0]] + rest[1..] else ["<hr>"] + rest;
      RuleFree(r) && NoNewlines(r)
  {
    HrLine("");
    assert "<hr>" + "" == "<hr>";
    if glued {
      HrLine(rest[0]);
      assert '\n' !in rest[0];
      ConsLine("<hr>" + rest[0], rest[1..]);
    } else {
      ConsLine("<hr>", rest);
    }
  }

  /** Every rule line is replaced: no line of the output is a rule line, and
      no line feed is introduced. */
  lemma {:induction false} RulePassRemovesRules(lines: seq<string>, k: nat)
    requires k <= |lines|
    requires NoNewlines(lines)
    ensures RuleFree(RulePass(lines, k)) && NoNewlines(RulePass(lines, k))
    decreases |lines| - k
  {
    if k < |lines| {
      match RuleAt(lines, k)
      case NoRule =>
        RulePassRemovesRules(lines, k + 1);
        NoRuleAt(lines, k);
        ConsLine(lines[k], RulePass(lines, k + 1));
      case Rule(next, glued) =>
        RulePassRemovesRules(lines, next);
        HrLines(RulePass(lines, next), glued);
    }
  }

  /** Lines without a rule line pass through unchanged. */
  lemma {:induction false} RulePassWithoutRules(lines: seq<string>, k: nat)
    requires k <= |lines|
    requires forall j :: k <= j < |lines| ==> !IsRuleLine(lines[j])
    ensures RulePass(lines, k) == lines[k..]
    decreases |lines| - k
  {
    if k < |lines| {
      assert RuleAt(lines, k).NoRule?;
      RulePassWithoutRules(lines, k + 1);
      assert lines[k..] == [lines[k]] + lines[k + 1..];
    }
  }

  /** Running the rule pass a second time changes nothing. */
  lemma RulePassIdempotent(lines: seq<string>)
    requires NoNewlines(lines)
    ensures RulePass(RulePass(lines, 0), 0) == RulePass(lines, 0)
  {
    var r := RulePass(lines, 0);
    RulePassRemovesRules(lines, 0);
    assert forall j :: 0 <= j < |r| ==> !IsRuleLine(r[j]);
    RulePassWithoutRules(r, 0);
    assert r[0..] == r;
  }

  function RuleDoc(markdown: string): string {
    Unlines(RulePass(Lines(markdown), 0))
  }

  // ---------------------------------------------------------------------
  // Paragraphs: `^\s*(\n)?(.+)` with the `m` flag, kept when the content
  // already begins a block element.

  /** The lines one match replaces by `out`, the scan going on at `next`. */
  datatype Step = Step(out: seq<string>, next: nat)

  /** The eight prefixes the source treats as already block-level. */
  predicate IsBlockStart(content: string) {
    || StartsWith(content, "<h") || StartsWith(content, "<ul") || StartsWith(content, "<ol")
    || StartsWith(content, "<li") || StartsWith(content, "<blockquote") || StartsWith(content, "<pre")
    || StartsWith(content, "<hr") || StartsWith(content, "<table")
  }

  function Paragraph(content: string): string {
    "<p>" + content + "</p>"
  }

  /** Content kept as a block starts with `<`, and a paragraph the pass has
      made is not itself one of the eight block starts. */
  lemma BlockStartIsTag(content: string)
    ensures IsBlockStart(content) ==> content != [] && content[0] == '<'
    ensures !IsBlockStart(Paragraph(content))
  {
    var p := Paragraph(content);
    assert p[0] == '<' && p[1] == 'p' && p[2] == '>';
  }

  /** The last non-empty line among `k..hi - 1`, or `k - 1` when they are all
      empty. */
  function LastFilled(lines: seq<string>, k: nat, hi: nat): (q: int)
    requires k <= hi <= |lines|
    ensures k - 1 <= q < hi
    ensures q >= k ==> lines[q] != []
    ensures forall j :: q < j < hi ==> lines[j] == []
    decreases hi
  {
    if hi == k then k - 1
    else if lines[hi - 1] != [] then hi - 1
    else LastFilled(lines, k, hi - 1)
  }

  /** The paragraph match tried at the start of line `k`. It runs over blank
      lines to the first non-blank line `m` and takes its content, the line
      without its leading white space: lines `k..m` are kept when that content
      begins a block element and become one `<p>` otherwise. When only blank
      lines are left, the regex backtracks to the last character that is not a
      line feed, so the lines up to the last non-empty one become a paragraph
      of that single character, and the empty lines after it stay. */
  function ParagraphAt(lines: seq<string>, k: nat): (s: Step)
    requires k < |lines|
    ensures k < s.next <= |lines| && 1 <= |s.out| <= s.next - k
  {
    var m := NextNonBlank(lines, k);
    if m < |lines| then
      var content := TrimStart(lines[m]);
      if IsBlockStart(content) then Step(lines[k..m + 1], m + 1) else Step([Paragraph(content)], m + 1)
    else
      var q := LastFilled(lines, k, |lines|);
      if q < k then Step(lines[k..], |lines|)
      else Step([Paragraph([lines[q][|lines[q]| - 1]])] + lines[q + 1..], |lines|)
  }

  /** The paragraph pass from the start of line `k`. */
  function ParagraphPass(lines: seq<string>, k: nat): (r: seq<string>)
    requires k <= |lines|
    ensures |r| <= |lines| - k
    ensures k < |lines| ==> |r| >= 1
    decreases |lines| - k
  {
    if k == |lines| then []
    else
      var s := ParagraphAt(lines, k);
      s.out + ParagraphPass(lines, s.next)
  }

  /** A line after the paragraph pass: blank, or its first non-space
      character is `<`. */
  predicate TagLine(line: string) {
    IsBlank(line) || (TrimStart(line) != [] && TrimStart(line)[0] == '<')
  }

  predicate TagLines(lines: seq<string>) {
    forall j :: 0 <= j < |lines| ==> TagLine(lines[j])
  }

  lemma ParagraphIsTagLine(content: string)
    ensures TagLine(Paragraph(content))
  {
    TrimOfNonSpaceStart(Paragraph(content));
  }

  lemma {:induction false} ParagraphNoNewline(content: string)
    requires '\n' !in content
    ensures '\n' !in Paragraph(content)
  {
  }

  /** A suffix of a line holds no line feed the line does not hold. */
  lemma TrimStartNoNewline(line: string)
    requires '\n' !in line
    ensures '\n' !in TrimStart(line)
  {
    var t := TrimStart(line);
    assert forall c :: c in t ==> c in line;
  }

  lemma {:induction false} AppendLines(a: seq<string>, b: seq<string>)
    requires TagLines(a) && TagLines(b) && NoNewlines(a) && NoNewlines(b)
    ensures TagLines(a + b) && NoNewlines(a + b)
  {
    forall j | 0 <= j < |a + b| ensures TagLine((a + b)[j]) && '\n' !in (a + b)[j] {
      if j >= |a| {
        assert (a + b)[j] == b[j - |a|];
      }
    }
  }

  /** What one paragraph match emits is blank or begins with `<`. */
  lemma ParagraphAtTagLines(lines: seq<string>, k: nat)
    requires k < |lines| && NoNewlines(lines)
    ensures TagLines(ParagraphAt(lines, k).out) && NoNewlines(ParagraphAt(lines, k).out)
  {
    if NextNonBlank(lines, k) < |lines| {
      if IsBlockStart(TrimStart(lines[NextNonBlank(lines, k)])) {
        ParagraphAtBlockStart(lines, k);
      } else {
        ParagraphAtParagraph(lines, k);
      }
    } else if LastFilled(lines, k, |lines|) < k {
      ParagraphAtBlankEnd(lines, k);
    } else {
      ParagraphAtLastCharacter(lines, k);
    }
  }

  lemma ParagraphAtBlockStart(lines: seq<string>, k: nat)
    requires k < |lines| && NoNewlines(lines)
    requires NextNonBlank(lines, k) < |lines| && IsBlockStart(TrimStart(lines[NextNonBlank(lines, k)]))
    ensures TagLines(ParagraphAt(lines, k).out) && NoNewlines(ParagraphAt(lines, k).out)
  {
    var m := NextNonBlank(lines, k);
    assert ParagraphAt(lines, k).out == lines[k..m + 1];
    BlockStartIsTag(TrimStart(lines[m]));
    BlankThenTag(lines, k, m);
    KeptTagLines(lines, k, m + 1);
  }

  lemma BlankThenTag(lines: seq<string>, k: nat, m: nat)
    requires k <= m < |lines| && TagLine(lines[m])
    requires forall j :: k <= j < m ==> IsBlank(lines[j])
    ensures forall j :: k <= j < m + 1 ==> TagLine(lines[j])
  {
  }

  lemma ParagraphAtParagraph(lines: seq<string>, k: nat)
    requires k < |lines| && NoNewlines(lines)
    requires NextNonBlank(lines, k) < |lines| && !IsBlockStart(TrimStart(lines[NextNonBlank(lines, k)]))
    ensures TagLines(ParagraphAt(lines, k).out) && NoNewlines(ParagraphAt(lines, k).out)
  {
    var m := NextNonBlank(lines, k);
    var content := TrimStart(lines[m]);
    assert ParagraphAt(lines, k).out == [Paragraph(content)];
    ParagraphIsTagLine(content);
    TrimStartNoNewline(lines[m]);
    ParagraphNoNewline(content);
  }

  lemma ParagraphAtBlankEnd(lines: seq<string>, k: nat)
    requires k < |lines| && NoNewlines(lines)
    requires NextNonBlank(lines, k) == |lines| && LastFilled(lines, k, |lines|) < k
    ensures TagLines(ParagraphAt(lines, k).out) && NoNewlines(ParagraphAt(lines, k).out)
  {
    assert ParagraphAt(lines, k).out == lines[k..];
    assert forall j :: k <= j < |lines| ==> TagLine(lines[j]);
    KeptTagLines(lines, k, |lines|);
    assert lines[k..|lines|] == lines[k..];
  }

  lemma ParagraphAtLastCharacter(lines: seq<string>, k: nat)
    requires k < |lines| && NoNewlines(lines)
    requires NextNonBlank(lines, k) == |lines| && LastFilled(lines, k, |lines|) >= k
    ensures TagLines(ParagraphAt(lines, k).out) && NoNewlines(ParagraphAt(lines, k).out)
  {
    var q := LastFilled(lines, k, |lines|);
    assert ParagraphAt(lines, k).out == [Paragraph([lines[q][|lines[q]| - 1]])] + lines[q + 1..];
    TrailingTagLines(lines, q);
  }

  /** Lines the paragraph pass keeps as they are. */
  lemma KeptTagLines(lines: seq<string>, k: nat, n: nat)
    requires NoNewlines(lines) && k <= n <= |lines|
    requires forall j :: k <= j < n ==> TagLine(lines[j])
    ensures TagLines(lines[k..n]) && NoNewlines(lines[k..n])
  {
    forall j | 0 <= j < n - k ensures TagLine(lines[k..n][j]) && '\n' !in lines[k..n][j] {
      assert lines[k..n][j] == lines[k + j];
    }
  }

  /** The lines the last-character paragraph at the end of the text leaves. */
  lemma TrailingTagLines(lines: seq<string>, q: nat)
    requires NoNewlines(lines) && q < |lines| && lines[q] != []
    requires forall j :: q < j < |lines| ==> lines[j] == []
    ensures var out := [Paragraph([lines[q][|lines[q]| - 1]])] + lines[q + 1..];
      TagLines(out) && NoNewlines(out)
  {
    var c := lines[q][|lines[q]| - 1];
    var out := [Paragraph([c])] + lines[q + 1..];
    assert c in lines[q];
    ParagraphIsTagLine([c]);
    ParagraphNoNewline([c]);
    forall j | 0 <= j < |out| ensures TagLine(out[j]) && '\n' !in out[j] {
      if j >= 1 {
        assert out[j] == lines[q + j];
      }
    }
  }

  /** After the paragraph pass every line is blank or begins (past white
      space) with `<`, and no line feed is introduced. */
  lemma {:induction false} ParagraphPassTagLines(lines: seq<string>, k: nat)
    requires k <= |lines|
    requires NoNewlines(lines)
    ensures TagLines(ParagraphPass(lines, k)) && NoNewlines(ParagraphPass(lines, k))
    decreases |lines| - k
  {
    if k < |lines| {
      var s := ParagraphAt(lines, k);
      ParagraphAtTagLines(lines, k);
      ParagraphPassTagLines(lines, s.next);
      AppendLines(s.out, ParagraphPass(lines, s.next));
    }
  }

  /** A non-blank line where a match starts is kept exactly when its content
      begins a block element; otherwise it is replaced by `<p>content</p>`. */
  lemma ParagraphLine(lines: seq<string>, k: nat)
    requires k < |lines| && !IsBlank(lines[k])
    ensures ParagraphPass(lines, k)[0] == lines[k] <==> IsBlockStart(TrimStart(lines[k]))
    ensures !IsBlockStart(TrimStart(lines[k])) ==> ParagraphPass(lines, k)[0] == Paragraph(TrimStart(lines[k]))
  {
    var content := TrimStart(lines[k]);
    var s := ParagraphAt(lines, k);
    assert ParagraphPass(lines, k) == s.out + ParagraphPass(lines, s.next);
    if IsBlockStart(content) {
      assert s.out == lines[k..k + 1];
    } else {
      assert s.out == [Paragraph(content)];
      assert |Paragraph(content)| == |content| + 7;
    }
  }

  function ParagraphDoc(markdown: string): string {
    Unlines(ParagraphPass(Lines(markdown), 0))
  }

  // ---------------------------------------------------------------------
  // Blockquotes: `^\s*>\s+(.*$)` with the `m` flag.

  function Quote(content: string): string {
    "<blockquote>" + content + "</blockquote>"
  }

  /** The blockquote match tried at the start of line `k`. It runs over blank
      lines to the first non-blank line `m`, which must begin (past white
      space) with `>`. What follows the `>` must start with white space: when
      the rest of line `m` is not blank the quote holds that rest without its
      leading white space; when it is blank, the white space runs on over the
      following blank lines and the quote holds the next non-blank line
      without its leading white space, or nothing at the end of the text. No
      match leaves line `k` as it is. */
  function BlockquoteAt(lines: seq<string>, k: nat): (s: Step)
    requires k < |lines|
    ensures k < s.next <= |lines| && 1 <= |s.out| <= s.next - k
  {
    var m := NextNonBlank(lines, k);
    var t := if m < |lines| then TrimStart(lines[m]) else "";
    if m < |lines| && t[0] == '>' then
      var rest := t[1..];
      if !IsBlank(rest) then
        if IsSpace(rest[0]) then Step([Quote(TrimStart(rest))], m + 1)
        else Step([lines[k]], k + 1)
      else if rest != [] || m + 1 < |lines| then
        var n := NextNonBlank(lines, m + 1);
        if n < |lines| then Step([Quote(TrimStart(lines[n]))], n + 1)
        else Step([Quote("")], |lines|)
      else Step([lines[k]], k + 1)
    else Step([lines[k]], k + 1)
  }

  /** The blockquote pass from the start of line `k`. */
  function BlockquotePass(lines: seq<string>, k: nat): (r: seq<string>)
    requires k <= |lines|
    ensures |r| <= |lines| - k
    decreases |lines| - k
  {
    if k == |lines| then []
    else
      var s := BlockquoteAt(lines, k);
      s.out + BlockquotePass(lines, s.next)
  }

  /** No match starts at a blank line or a line that begins with `<`. */
  lemma BlockquoteAtTagLine(lines: seq<string>, k: nat)
    requires k < |lines|
    requires forall j :: k <= j < |lines| ==> TagLine(lines[j])
    ensures BlockquoteAt(lines, k) == Step([lines[k]], k + 1)
  {
  }

  /** Lines that are blank or begin with `<` never start a blockquote match:
      the pass leaves them all as they are. */
  lemma {:induction false} BlockquotePassOfTagLines(lines: seq<string>, k: nat)
    requires k <= |lines|
    requires forall j :: k <= j < |lines| ==> TagLine(lines[j])
    ensures BlockquotePass(lines, k) == lines[k..]
    decreases |lines| - k
  {
    if k < |lines| {
      var s := BlockquoteAt(lines, k);
      BlockquotePassStep(lines, k);
      BlockquoteAtTagLine(lines, k);
      assert s.out == [lines[k]] && s.next == k + 1;
      var r := BlockquotePass(lines, k + 1);
      BlockquotePassOfTagLines(lines, k + 1);
      ConsRest(lines, k, r);
    }
  }

  lemma ConsRest(lines: seq<string>, k: nat, r: seq<string>)
    requires k < |lines| && r == lines[k + 1..]
    ensures [lines[k]] + r == lines[k..]
  {
  }

  /** One match, then the pass from where it ended. */
  lemma BlockquotePassStep(lines: seq<string>, k: nat)
    requires k < |lines|
    ensures BlockquotePass(lines, k) == BlockquoteAt(lines, k).out + BlockquotePass(lines, BlockquoteAt(lines, k).next)
  {
  }

  /** The pieces of a line `> content` that a blockquote match looks at. */
  lemma QuoteLineParts(content: string)
    requires content != [] && !IsSpace(content[0])
    ensures var line := "> " + content;
      && !IsBlank(line) && TrimStart(line) == line && line[0] == '>'
      && !IsBlank(line[1..]) && IsSpace(line[1..][0]) && TrimStart(line[1..]) == content
  {
    var line := "> " + content;
    assert line[1..] == " " + content;
    assert line[1..][1..] == content;
    assert !IsBlank(line[1..]) by {
      assert line[1..][1] == content[0];
    }
    assert !IsBlank(line) by {
      assert line[0] == '>';
    }
    TrimStartOfNonSpace(content);
  }

  /** A line `> content`, with content that starts with a non-space character,
      becomes a blockquote of the content, and the match takes that line only. */
  lemma QuoteLine(lines: seq<string>, k: nat, content: string)
    requires k < |lines| && lines[k] == "> " + content
    requires content != [] && !IsSpace(content[0])
    ensures BlockquoteAt(lines, k) == Step([Quote(content)], k + 1)
  {
    QuoteLineParts(content);
    assert NextNonBlank(lines, k) == k;
  }

  function BlockquoteDoc(markdown: string): string {
    Unlines(BlockquotePass(Lines(markdown), 0))
  }

  // ---------------------------------------------------------------------
  // Merging: `<\/blockquote>\s*<blockquote>` becomes `<br>`, left to right.

  /** Where the text resumes after a closing tag, white space (line feeds
      included) and an opening tag at the start of `s`, if they are there. */
  function MergeAt(s: string): (r: Option<nat>)
    ensures r.Some? ==> 0 < r.value <= |s|
  {
    if StartsWith(s, "</blockquote>") then
      var u := TrimStart(s[13..]);
      if StartsWith(u, "<blockquote>") then Some(|s| - |u| + 12) else None
    else None
  }

  /** The replacement scans left to right, trying a match at each position. */
  function MergeQuotes(s: string): string
    decreases |s|
  {
    if s == [] then []
    else
      match MergeAt(s)
      case Some(j) => "<br>" + MergeQuotes(s[j..])
      case None => [s[0]] + MergeQuotes(s[1..])
  }

  /** Text without `<` is copied by the merge. */
  lemma {:induction false} MergeQuotesPlain(x: string, rest: string)
    requires '<' !in x
    ensures MergeQuotes(x + rest) == x + MergeQuotes(rest)
  {
    if x != [] {
      var s := x + rest;
      assert s[0] == x[0];
      assert MergeAt(s).None?;
      assert s[1..] == x[1..] + rest;
      MergeQuotesPlain(x[1..], rest);
      assert [x[0]] + x[1..] == x;
    } else {
      assert x + rest == rest;
    }
  }

  /** A closing tag, white space and an opening tag become one `<br>`. */
  lemma MergeQuotesJoins(space: string, rest: string)
    requires IsBlank(space)
    ensures MergeQuotes("</blockquote>" + space + "<blockquote>" + rest) == "<br>" + MergeQuotes(rest)
  {
    var open := "<blockquote>";
    var s := "</blockquote>" + space + open + rest;
    assert s[13..] == space + (open + rest);
    TrimStartAfterBlank(space, open + rest);
    assert MergeAt(s) == Some(|s| - |open + rest| + 12);
    assert s[|s| - |open + rest| + 12..] == rest;
  }

  /** A closing tag that no opening tag follows is copied. */
  lemma MergeQuotesLastClose()
    ensures MergeQuotes("</blockquote>") == "</blockquote>"
  {
    var close := "</blockquote>";
    assert TrimStart(close[13..]) == [];
    assert MergeAt(close).None?;
    MergeQuotesPlain(close[1..], "");
    assert close[1..] + "" == close[1..];
    assert [close[0]] + close[1..] == close;
  }

  /** A `<` that does not open a closing tag is copied. */
  lemma MergeQuotesCopy(s: string)
    requires |s| >= 2 && s[1] != '/'
    ensures MergeQuotes(s) == [s[0]] + MergeQuotes(s[1..])
  {
    assert !StartsWith(s, "</blockquote>");
  }

  /** Two quote lines, one after the other, come out as one blockquote whose
      parts are separated by `<br>`. */
  lemma MergeTwoQuotes(a: string, b: string)
    requires '<' !in a && '<' !in b
    ensures MergeQuotes(Quote(a) + "\n" + Quote(b)) == "<blockquote>" + a + "<br>" + b + "</blockquote>"
  {
    var open, close := "<blockquote>", "</blockquote>";
    var x := open[1..] + a;
    var tail := b + close;
    var rest := close + "\n" + open + tail;
    var s := Quote(a) + "\n" + Quote(b);
    assert s == [open[0]] + (x + rest);
    MergeQuotesCopy(s);
    assert s[1..] == x + rest;
    MergeQuotesPlain(x, rest);
    MergeQuotesJoins("\n", tail);
    MergeQuotesPlain(b, close);
    MergeQuotesLastClose();
    calc {
      MergeQuotes(s);
      [open[0]] + (x + MergeQuotes(rest));
      [open[0]] + (x + ("<br>" + tail));
      { Regroup(open, a, "<br>" + tail); }
      open + a + ("<br>" + (b + close));
      { Reassociate(open, a, "<br>", b, close); }
      open + a + "<br>" + b + close;
    }
  }

  lemma Reassociate(p: string, a: string, q: string, b: string, c: string)
    ensures p + a + (q + (b + c)) == p + a + q + b + c
  {
  }

  lemma Regroup(o: string, a: string, y: string)
    requires |o| >= 1
    ensures [o[0]] + ((o[1..] + a) + y) == o + a + y
  {
    assert [o[0]] + o[1..] == o;
  }
}
