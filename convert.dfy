/** `markdownToHtml` of markdown-viewer.js, restricted to the passes this model
    covers: the three heading passes, horizontal rules, tables, paragraphs,
    blockquotes, and the merging of adjacent blockquotes. The source runs the
    blockquote pass after the paragraph pass, where it can never match
    (`QuoteLineAsWritten`); `MarkdownToHtmlCorrected` runs it first. */
module Convert {
  import opened Text
  import opened Blocks
  import Tables

  /** What the covered passes compute in the source's order. The three heading
      passes act as one classification of each line (`HeadingDocs`), and the
      blockquote pass, which runs after the paragraph pass, never finds
      anything to replace (`BlockquoteDocOfParagraphDoc`), so it does not
      appear. */
  function AsWritten(markdown: string): string {
    var headed := Unlines(AllHeadingsPass(Lines(markdown)));
    MergeQuotes(ParagraphDoc(Tables.ProcessMarkdownTables(RuleDoc(headed))))
  }

  /** The same passes with the blockquote pass moved before the paragraph pass,
      where it can see the `>` that the paragraph pass otherwise wraps. */
  function Corrected(markdown: string): string {
    var headed := Unlines(AllHeadingsPass(Lines(markdown)));
    MergeQuotes(ParagraphDoc(BlockquoteDoc(Tables.ProcessMarkdownTables(RuleDoc(headed)))))
  }

  /** The converter as written: it reassigns the text once per pass, in the
      source's order, and so computes `AsWritten`. */
  method MarkdownToHtml(markdown: string) returns (html: string)
    ensures html == AsWritten(markdown)
  {
    html := markdown;
    html := HeadingDoc("### ", "h3", html);
    html := HeadingDoc("## ", "h2", html);
    html := HeadingDoc("# ", "h1", html);
    HeadingDocs(markdown);
    html := RuleDoc(html);
    html := Tables.ProcessMarkdownTables(html);
    html := ParagraphDoc(html);
    BlockquoteDocOfParagraphDoc(Tables.ProcessMarkdownTables(RuleDoc(Unlines(AllHeadingsPass(Lines(markdown))))));
    html := BlockquoteDoc(html);
    html := MergeQuotes(html);
  }

  /** The converter with the blockquote pass moved before the paragraph pass,
      which computes `Corrected`. */
  method MarkdownToHtmlCorrected(markdown: string) returns (html: string)
    ensures html == Corrected(markdown)
  {
    html := markdown;
    html := HeadingDoc("### ", "h3", html);
    html := HeadingDoc("## ", "h2", html);
    html := HeadingDoc("# ", "h1", html);
    HeadingDocs(markdown);
    html := RuleDoc(html);
    html := Tables.ProcessMarkdownTables(html);
    html := BlockquoteDoc(html);
    html := ParagraphDoc(html);
    html := MergeQuotes(html);
  }

  /** After the paragraph pass every line is blank or begins with `<`, so the
      blockquote pass that follows it leaves the text as it is. */
  lemma BlockquoteDocOfParagraphDoc(markdown: string)
    ensures BlockquoteDoc(ParagraphDoc(markdown)) == ParagraphDoc(markdown)
  {
    var lines := Lines(markdown);
    var p := ParagraphPass(lines, 0);
    ParagraphPassTagLines(lines, 0);
    SplitJoin(p, '\n');
    BlockquotePassOfTagLines(p, 0);
    assert p[0..] == p;
  }

  /** A text without a line feed is one line. */
  lemma OneLine(line: string)
    requires '\n' !in line
    ensures Lines(line) == [line] && Unlines([line]) == line
  {
    SplitNoSeparator(line, '\n');
  }

  /** The passes before the paragraph pass leave a line `> content` alone. */
  lemma QuoteLineBeforeParagraphs(content: string)
    requires content != [] && !IsSpace(content[0]) && '\n' !in content
    ensures var line := "> " + content;
      Tables.ProcessMarkdownTables(RuleDoc(Unlines(AllHeadingsPass(Lines(line))))) == line
  {
    var line := "> " + content;
    OneLine(line);
    assert AllHeadingsPass([line]) == [line];
    assert RulePass([line], 0) == [line] by {
      NotRuleLine(line);
      RulePassWithoutRules([line], 0);
    }
    Tables.ProcessMarkdownTablesWithoutTables(line);
  }

  /** Text without `<` and a closing `</p>` come through the merge unchanged. */
  lemma MergeQuotesParagraph(x: string)
    requires '<' !in x
    ensures MergeQuotes(Paragraph(x)) == Paragraph(x)
  {
    var close := "</p>";
    var tail := "p>" + x;
    assert Paragraph(x) == "<" + (tail + close);
    MergeQuotesCopy(Paragraph(x));
    assert Paragraph(x)[1..] == tail + close;
    MergeQuotesPlain(tail, close);
    assert !StartsWith(close, "</blockquote>");
    assert close[1..] == "/p>" + "";
    MergeQuotesPlain("/p>", "");
  }

  /** A one-line text is made a paragraph exactly when it does not begin a
      block element. */
  lemma ParagraphDocOneLine(line: string)
    requires '\n' !in line && line != [] && !IsSpace(line[0])
    ensures ParagraphDoc(line) == if IsBlockStart(line) then line else Paragraph(line)
  {
    OneLine(line);
    TrimStartOfNonSpace(line);
    ParagraphLine([line], 0);
    var s := ParagraphAt([line], 0);
    assert s.next == 1 && |s.out| == 1;
    assert ParagraphPass([line], 0) == s.out;
    var out := if IsBlockStart(line) then line else Paragraph(line);
    assert '\n' !in out;
    OneLine(out);
  }

  /** The blockquote pass turns a one-line text `> content` into a blockquote
      of the content. */
  lemma BlockquoteDocOneLine(content: string)
    requires content != [] && !IsSpace(content[0]) && '\n' !in content
    ensures BlockquoteDoc("> " + content) == Quote(content)
  {
    var line := "> " + content;
    OneLine(line);
    QuoteLine([line], 0, content);
    assert BlockquotePass([line], 0) == [Quote(content)] + BlockquotePass([line], 1);
    QuoteIsBlockStart(content);
    OneLine(Quote(content));
  }

  lemma QuoteIsBlockStart(content: string)
    requires '\n' !in content
    ensures IsBlockStart(Quote(content)) && !IsSpace(Quote(content)[0]) && '\n' !in Quote(content)
  {
  }

  lemma QuoteLineIsNoBlockStart(content: string)
    ensures !IsBlockStart("> " + content) && !IsSpace(("> " + content)[0])
  {
  }

  /** As written, a quote line `> content` comes out as a paragraph holding
      the `>`, not as a blockquote. */
  lemma QuoteLineAsWritten(content: string)
    requires content != [] && !IsSpace(content[0]) && '\n' !in content && '<' !in content
    ensures AsWritten("> " + content) == Paragraph("> " + content)
  {
    var line := "> " + content;
    QuoteLineBeforeParagraphs(content);
    QuoteLineIsNoBlockStart(content);
    ParagraphDocOneLine(line);
    MergeQuotesParagraph(line);
  }

  /** With the blockquote pass first, a quote line `> content` becomes a
      blockquote of the content. */
  lemma QuoteLineCorrected(content: string)
    requires content != [] && !IsSpace(content[0]) && '\n' !in content && '<' !in content
    ensures Corrected("> " + content) == Quote(content)
  {
    var line := "> " + content;
    var q := Quote(content);
    QuoteLineBeforeParagraphs(content);
    BlockquoteDocOneLine(content);
    QuoteIsBlockStart(content);
    ParagraphDocOneLine(q);
    MergeOneQuote(content);
  }

  /** A single blockquote comes through the merge unchanged. */
  lemma MergeOneQuote(content: string)
    requires '<' !in content
    ensures MergeQuotes(Quote(content)) == Quote(content)
  {
    var open, close := "<blockquote>", "</blockquote>";
    var x := open[1..] + content;
    var q := Quote(content);
    assert q == [open[0]] + (x + close);
    MergeQuotesCopy(q);
    assert q[1..] == x + close;
    MergeQuotesPlain(x, close);
    MergeQuotesLastClose();
  }
}
