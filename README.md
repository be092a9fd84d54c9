# A verified model of the Markdown viewer's converter

`markdown-viewer.js` renders the project's documentation pages in the
browser. It fetches a Markdown file and converts it to HTML with a chain of
regular-expression replacements (`markdownToHtml`). It renders GitHub-style
pipe tables (`processMarkdownTables`) and wraps keywords in code blocks
(`applySyntaxHighlighting`), escaping the code first (`escapeHtml`). On long
pages it adds a table of contents that links to the `h2` and `h3` headings
(`addTableOfContents`).

This project models that core in Dafny, one module per concern:

- `Text`: JavaScript's string primitives as the converter uses them. These are
  the `\s` class (also what `trim` strips), `startsWith`/`endsWith`,
  `split` on one character, `join`, and decimal rendering of an index.
- `Escape`: `escapeHtml`, with its inverse (decoding the five entities) as its
  partner.
- `Tables`: `processMarkdownTables`.
  - Cells come from `split('|').slice(1, -1)` and `trim`.
  - Alignment comes from the colons of the delimiter row, and past the last
    alignment the style text reads `undefined`.
  - The header and body loops are methods proved against the HTML functions.
  - The table regex is read as a grammar over the document's lines, including
    the `\s*\n` that swallows blank lines after a row and the `\s*` after the
    delimiter row's opening `|`, which can carry that row onto a later line.
- `Toc`: `addTableOfContents` as a method over an array of headings. It
  overwrites each heading's id and returns the list entries. Beside it sit the
  `length > 1000` guard and the choice of where the table goes among the
  content's children.
- `Blocks`: the line-level passes of `markdownToHtml`. Each `/gm` replacement
  is a left-to-right scan over the lines.
  - The passes are the three heading passes, the horizontal rule, the
    paragraph pass, the blockquote pass and the `<br>` merge of adjacent
    blockquotes.
  - Where a `\s` in the pattern can run across line feeds, the scan follows it
    over blank lines.
- `Convert`: `markdownToHtml` restricted to those passes. `MarkdownToHtml`
  runs them in the source's order and computes `AsWritten`.
  `MarkdownToHtmlCorrected` runs the blockquote pass before the paragraph
  pass, because in the source's order blockquotes are never produced (see
  Findings).
- `Highlight`: the keyword pass of `applySyntaxHighlighting`. It runs one
  whole-word global replace per keyword, in the source's keyword order, each
  on the output of the previous one.

A pass that changes the document is stated over its lines. A `Step` or
`RuleMatch` value says what one match at the start of a line replaces and
where the scan goes on.

## Model

| member | source | states |
|---|---|---|
| Escape.EscapeChar | markdown-viewer.js:257-263 | the lookup table: each of `&`, `<`, `>`, `"`, `'` becomes its entity (`&#039;` for the apostrophe), and every other character is kept |
| Escape.EscapeHtml | markdown-viewer.js:256-266 | the output has no raw `<`, `>`, `"` or `'`; it is never shorter than the input, and it is exactly as long only when the input has none of the five special characters |
| Escape.EscapeHtmlAppend | markdown-viewer.js:265 | escaping works character by character, so it distributes over concatenation |
| Escape.EscapeHtmlPlain | markdown-viewer.js:265 | text without `&<>"'` comes back unchanged |
| Escape.UnescapeEntity | markdown-viewer.js:257-263 | each of the five entities of the table decodes to its own character |
| Escape.UnescapeEscapeChar | markdown-viewer.js:257-265 | decoding the replacement of any one character gives that character back |
| Escape.UnescapeEscapeHtml | markdown-viewer.js:256-266 | escaping loses nothing: decoding the entities gives the original text back |
| Escape.EscapedAmpersands | markdown-viewer.js:256-266 | every `&` in the output is the start of one of the five entities: the text's own ampersands have all become `&amp;` |
| Tables.RawCells | markdown-viewer.js:194 | `split('|').slice(1, -1)` gives one cell fewer than the row has pipes, and no cell holds a pipe |
| Tables.Cells | markdown-viewer.js:194 | `.map(cell => cell.trim())`: the raw cells, each trimmed, in order |
| Tables.CellsBetweenPipes | markdown-viewer.js:194 | for a row between boundary pipes, the cells are the pieces between them, rejoining them with pipes rebuilds the row, and each rendered cell is its raw cell trimmed |
| Tables.TwoCellRow | markdown-viewer.js:194 | the row `|a|b|` has exactly the cells `a` and `b` |
| Tables.AlignmentOf | markdown-viewer.js:198-203 | a delimiter cell is trimmed, then `center` if it starts and ends with `:`, else `right` if it ends with `:`, else `left` |
| Tables.Alignments | markdown-viewer.js:197-203 | one alignment per raw cell of the delimiter row, in order |
| Tables.AlignmentOfColons | markdown-viewer.js:198-203 | a trimmed cell with colons at both ends is `center`, with a trailing colon only `right`, and any other cell (a leading colon alone included) `left`; each in both directions |
| Tables.LeadingColonIsLeft | markdown-viewer.js:200-202 | `:---` is left-aligned |
| Tables.TrailingColonIsRight | markdown-viewer.js:201 | `---:` is right-aligned |
| Tables.TwoColumnAlignments | markdown-viewer.js:198-203 | a two-column delimiter row gives the alignments of its two cells, in order |
| Tables.AlignText | markdown-viewer.js:208 | the text of `${alignments[index]}`: the alignment's name, or `undefined` past the end of the list |
| Tables.CellTag | markdown-viewer.js:208-220 | one `th` or `td` element with the style `text-align: <alignment>` around the cell text |
| Tables.HeaderHtml | markdown-viewer.js:206-210 | `<thead><tr>`, one `th` per header cell styled with its alignment, `</tr></thead>` |
| Tables.RowHtml | markdown-viewer.js:218-223 | `<tr>`, one `td` per trimmed cell of the row styled with its alignment, `</tr>` |
| Tables.BodyHtml | markdown-viewer.js:213-225 | `<tbody>`, the `RowHtml` of each non-blank row in order, `</tbody>` |
| Tables.TableHtml | markdown-viewer.js:190-227 | `<table>`, the header from row 0 with the alignments from row 1, the body from the rows after them, `</table>` |
| Tables.BodyRows | markdown-viewer.js:216 | `if (!row.trim()) continue;`: the non-blank rows, in their order (the counts are stated by `BodyRowsMultiset` and `BodyRowsCount`) |
| Tables.AppendCells | markdown-viewer.js:207-209 | the `forEach` over the cells appends, in order, one tag per cell, styled with that cell's alignment or `undefined` |
| Tables.CellTagsStep | markdown-viewer.js:208 | one more turn appends exactly the next cell's tag |
| Tables.RenderHeader | markdown-viewer.js:206-210 | the header section is `<thead><tr>`, the header cells' `th` tags, then `</tr></thead>` |
| Tables.RenderRow | markdown-viewer.js:218-223 | a body row is `<tr>`, one `td` per trimmed cell, then `</tr>` |
| Tables.BodyRowsAreNonBlankRows | markdown-viewer.js:214-216 | the rendered rows are the non-blank rows: a row is rendered if and only if it is not blank, and none is added |
| Tables.BodyRowsMultiset | markdown-viewer.js:214-216 | a blank row is never rendered, and each non-blank row is rendered exactly as many times as it occurs among the rows |
| Tables.BodyRowsCount | markdown-viewer.js:214-216 | exactly as many rows are rendered as there are non-blank rows |
| Tables.BodySoFarIsBody | markdown-viewer.js:213-224 | what the loop has built before row `i` is the body of rows 2 to `i - 1` with the blank rows skipped |
| Tables.BodyLoopStep | markdown-viewer.js:216-223 | with the source's test `!row.trim()`, a blank row leaves the body as it is and any other row adds its `<tr>` |
| Tables.RenderBody | markdown-viewer.js:213-225 | the body loop yields `<tbody>`, the `<tr>` of each non-blank row from the third on, then `</tbody>` |
| Tables.RenderTable | markdown-viewer.js:190-227 | the table is the header built from row 0, the alignments from row 1 and the body from the remaining rows |
| Tables.PipeRow | markdown-viewer.js:187 | `\|(.*)\|\s*` on one line: it begins with `|` and its last non-space character is another `|` |
| Tables.DelimiterTail | markdown-viewer.js:187 | `[-:]+[-\| :]*\|\s*`: a `-` or `:`, then only `-`, `|`, space or `:` up to a last `|`, then white space |
| Tables.DelimiterEnd | markdown-viewer.js:187 | the delimiter row ends on its own line unless only white space follows its opening `|`; then the `\s*` runs across line feeds and the row ends at the next non-blank line |
| Tables.DelimiterAt | markdown-viewer.js:187 | a delimiter row opens with `|` at the start of a line, and what follows the white space after that `|` is a `DelimiterTail` on a line followed by a line feed |
| Tables.TableAt | markdown-viewer.js:187 | a table starts at a header row followed by a line feed; past blank lines comes the delimiter row, and past blank lines again a first body row followed by a line feed |
| Tables.LoneBarDelimiter | markdown-viewer.js:187 | the lines of `|a|\n|\n---|\n|b|\n` hold a table whose delimiter row opens with a `|` alone on the second line and ends on the third; its body starts at the fourth |
| Tables.FirstBodyRow | markdown-viewer.js:187 | where a table starts, the first body row comes after the header and the delimiter row, and it is a pipe row followed by a line feed |
| Tables.LastBodyRow | markdown-viewer.js:187 | the greedy `(\|.*\|\s*\n)+` ends at a pipe row followed by a line feed, and past it and the blank lines after it comes no further such row (`MoreRows` is false) |
| Tables.MoreRows | markdown-viewer.js:187 | the greedy `+` takes another row: past the current row and the blank lines after it comes a pipe row followed by a line feed |
| Tables.MoreRowsIff | markdown-viewer.js:187 | another row follows exactly when some later line is a pipe row with a line feed after it and only blank lines come between |
| Tables.MatchEnd | markdown-viewer.js:187 | the match ends after the last body row, and everything it swallows past that row is blank |
| Tables.TrimEndOfMatch | markdown-viewer.js:190 | trimming the match drops the blank lines after the last body row and that row's trailing white space |
| Tables.TableRows | markdown-viewer.js:190 | `table.trim().split('\n')`: at least one row, none holding a line feed, and joined with line feeds they give back the trimmed match |
| Tables.TableRowsShape | markdown-viewer.js:190 | `table.trim().split('\n')` gives the matched lines up to the last body row, that row with its trailing white space removed |
| Tables.MatchedTable | markdown-viewer.js:187-228 | a match covers at least three lines (header, delimiter, a body row) and stops before the last line |
| Tables.NoTableAtMatchEnd | markdown-viewer.js:187-189 | no table starts at the line where a match ended, so the scan loses nothing by going on after it |
| Tables.TablePass | markdown-viewer.js:185-229 | the pass never adds lines, and a table replaces at least three lines by one |
| Tables.ProcessMarkdownTables | markdown-viewer.js:185-229 | the document's lines after the table pass, joined again with line feeds |
| Tables.TablePassWithoutTables | markdown-viewer.js:189 | lines where no table starts pass through unchanged |
| Tables.ProcessMarkdownTablesWithoutTables | markdown-viewer.js:185-229 | a document without a table is returned as it is |
| Toc.HeadingId | markdown-viewer.js:90 | the id `heading-` followed by the decimal digits of the index |
| Toc.TocEntry | markdown-viewer.js:93-101 | the list item for one heading: a link to `#` plus its id, the heading's text, and the indent exactly for `h3` |
| Toc.TocEntryLinks | markdown-viewer.js:90-96 | two entries link to the same place only when they stand at the same index, and an entry does not depend on the heading's old id |
| Toc.Entries | markdown-viewer.js:89-105 | one list item per heading, in order, linking to `#heading-<index>` with the heading's text, indented for `h3` |
| Toc.WithIds | markdown-viewer.js:89-91 | the headings with heading `i`'s id set to `heading-i` and nothing else changed |
| Toc.WantsToc | markdown-viewer.js:83 | a table of contents is built only for more than two headings |
| Toc.AddTableOfContents | markdown-viewer.js:82-106 | with more than two headings, heading `i` gets the id `heading-i` and entry `i` links to it with that heading's text, indented exactly for `h3`; with two or fewer nothing is changed and no table is built |
| Toc.AddTableOfContentsIfLong | markdown-viewer.js:66-68 | the table of contents is built only for Markdown longer than 1000 characters, and then as above |
| Toc.EntriesLinkToHeadings | markdown-viewer.js:89-105 | one entry per heading, in order; entry `i` links to `#` plus heading `i`'s new id, shows its text and is indented exactly when it is an `h3` |
| Toc.HeadingIdsDistinct | markdown-viewer.js:90 | different positions get different ids |
| Toc.WithIdsDistinct | markdown-viewer.js:89-91 | after the pass no two headings share an id, so each link has exactly one target |
| Toc.HeadingIdIndex | markdown-viewer.js:90 | an id is `heading-` followed by the decimal digits of the heading's index, which can be read back |
| Toc.WithIdsIdempotent | markdown-viewer.js:89-91 | assigning the ids again changes nothing, and the entries do not depend on the old ids |
| Toc.PlaceToc | markdown-viewer.js:108-113 | the table of contents goes right after the title when the title has a next sibling, and first otherwise; the other children keep their order |
| Toc.PlaceTocKeepsChildren | markdown-viewer.js:108-113 | removing the table of contents from the result gives the old children back |
| Blocks.HeadingLine | markdown-viewer.js:131-133 | one heading pass on one line: a line that begins with the marker becomes the element around the rest of the line |
| Blocks.HeadingDoc | markdown-viewer.js:131-133 | one heading pass over the whole document, line by line |
| Blocks.HeadingsOf | markdown-viewer.js:131-133 | the longest marker at the start of the line decides: `### ` gives `h3`, `## ` `h2`, `# ` `h1`, and any other line is kept |
| Blocks.HeadingPassesClassify | markdown-viewer.js:131-133 | the three passes in turn rewrite a line at most once, and the longest marker wins (`### ` before `## ` before `# `) |
| Blocks.HeadingLineOfTag | markdown-viewer.js:132-133 | a line already turned into a heading element is not matched by a later heading pass |
| Blocks.HeadingDocs | markdown-viewer.js:131-133 | over a whole document, the three passes rewrite each line on its own and keep the number of lines |
| Blocks.RuleScan | markdown-viewer.js:157 | reads `\s*[\-=_]{3,}\s*` left to right: white space, a run of at least three rule characters, white space, and nothing else |
| Blocks.IsRuleLine | markdown-viewer.js:157 | a whole line matching the rule pattern |
| Blocks.NotRuleLine | markdown-viewer.js:157 | a line whose first character is neither white space nor `-`, `=`, `_` is not a rule |
| Blocks.BlankNotRuleLine | markdown-viewer.js:157 | a blank line is not a rule (it needs three rule characters) |
| Blocks.RuleAt | markdown-viewer.js:157 | a rule match starts at a line exactly when the next non-blank line is a rule line |
| Blocks.RuleDoc | markdown-viewer.js:157 | the rule pass over the document's lines, joined again |
| Blocks.RulePass | markdown-viewer.js:157 | the pass never adds lines and keeps at least one |
| Blocks.RulePassRemovesRules | markdown-viewer.js:157 | no line of the output is a rule line, and no line feed is introduced |
| Blocks.RulePassWithoutRules | markdown-viewer.js:157 | lines without a rule line pass through unchanged |
| Blocks.RulePassIdempotent | markdown-viewer.js:157 | running the rule pass again changes nothing |
| Blocks.LastFilled | markdown-viewer.js:163 | the last non-empty line of a range, all lines after it being empty; the line the pattern backtracks to when only white space is left |
| Blocks.IsBlockStart | markdown-viewer.js:164-171 | the eight prefixes `<h`, `<ul`, `<ol`, `<li`, `<blockquote`, `<pre`, `<hr`, `<table` that keep a line out of a paragraph |
| Blocks.BlockStartIsTag | markdown-viewer.js:164-174 | kept content always starts with `<`, and a paragraph the pass makes (`<p>`) is not itself one of the eight block starts |
| Blocks.ParagraphAt | markdown-viewer.js:163-175 | one paragraph match consumes at least one line and emits at least one line, never more than it consumes |
| Blocks.ParagraphPass | markdown-viewer.js:163-175 | the paragraph pass from a line start: one match after another, never more lines out than in, and at least one line out when any line is left |
| Blocks.ParagraphDoc | markdown-viewer.js:163-175 | the paragraph pass over the document's lines, joined again |
| Blocks.ParagraphLine | markdown-viewer.js:164-174 | a non-blank line is kept exactly when its content (past leading white space) starts with one of the eight block prefixes; otherwise it becomes `<p>content</p>` |
| Blocks.ParagraphAtTagLines | markdown-viewer.js:163-175 | every line one paragraph match emits is blank or starts with `<` |
| Blocks.ParagraphPassTagLines | markdown-viewer.js:163-175 | after the paragraph pass every line is blank or starts (past white space) with `<`, and no line feed is introduced |
| Blocks.BlockquoteAt | markdown-viewer.js:178 | one blockquote match at a line start: past blank lines, a line beginning (past white space) with `>` and white space becomes a blockquote of the text after them; the match consumes at least the lines it replaces |
| Blocks.BlockquotePass | markdown-viewer.js:178 | the blockquote pass from a line start, never more lines out than in |
| Blocks.BlockquoteDoc | markdown-viewer.js:178 | the blockquote pass over the document's lines, joined again |
| Blocks.BlockquotePassOfTagLines | markdown-viewer.js:178 | lines that are blank or start with `<` never start a blockquote match, so the pass leaves them all as they are |
| Blocks.QuoteLine | markdown-viewer.js:178 | a line `> content` becomes `<blockquote>content</blockquote>`, and the match takes that line only |
| Blocks.MergeAt | markdown-viewer.js:179 | a merge match at a position: `</blockquote>`, white space (line feeds included), `<blockquote>`, and where the text resumes after it |
| Blocks.MergeQuotes | markdown-viewer.js:179 | the global replace of each merge match by `<br>`, left to right, other characters copied |
| Blocks.MergeQuotesJoins | markdown-viewer.js:179 | a closing tag, white space (line feeds included) and an opening tag become one `<br>` |
| Blocks.MergeQuotesPlain | markdown-viewer.js:179 | text without `<` is copied by the merge |
| Blocks.MergeTwoQuotes | markdown-viewer.js:178-179 | two blockquote lines in a row come out as one blockquote whose parts are separated by `<br>` |
| Convert.AsWritten | markdown-viewer.js:131-179 | the covered passes in the source's order: headings, rules, tables, paragraphs, then the merge (the blockquote pass, which has no effect there, left out) |
| Convert.Corrected | markdown-viewer.js:131-179 | the covered passes with the blockquote pass before the paragraph pass |
| Convert.MarkdownToHtml | markdown-viewer.js:118-182 | the converter as written: the covered passes, each reassigning the text, in the source's order (blockquotes after paragraphs); its result is `AsWritten`, the blockquote pass having no effect there |
| Convert.MarkdownToHtmlCorrected | markdown-viewer.js:118-182 | the same passes with the blockquote pass moved before the paragraph pass (see Findings); its result is `Corrected` |
| Convert.BlockquoteDocOfParagraphDoc | markdown-viewer.js:163-178 | run after the paragraph pass, the blockquote pass leaves every document unchanged |
| Convert.QuoteLineAsWritten | markdown-viewer.js:163-179 | as written, the one-line document `> content` becomes `<p>> content</p>`, not a blockquote |
| Convert.QuoteLineCorrected | markdown-viewer.js:163-179 | with the blockquote pass before the paragraph pass, `> content` becomes `<blockquote>content</blockquote>` |
| Convert.MergeOneQuote | markdown-viewer.js:179 | a single blockquote comes through the merge unchanged |
| Highlight.WholeWordAt | markdown-viewer.js:242 | `\bkw\b` matches at a position: the keyword is there, with no word character right before or right after it |
| Highlight.Keywords | markdown-viewer.js:235-239 | the 22 keywords in the source's order |
| Highlight.KeywordsDistinct | markdown-viewer.js:235-239 | the list holds 22 keywords, no two the same, so no keyword pass runs twice |
| Highlight.Span | markdown-viewer.js:243 | the replacement `<span class="keyword">kw</span>` |
| Highlight.SpanKeepsWholeWord | markdown-viewer.js:243 | inside its element the keyword is still a whole word, between `>` and `<`, and the element starts with `<` and ends with `>` |
| Highlight.WrapAt | markdown-viewer.js:242-243 | at a whole-word occurrence the replace emits the keyword element and skips the keyword; elsewhere it copies one character |
| Highlight.WrapFrom | markdown-viewer.js:242-243 | the global replace from a position on, left to right |
| Highlight.WrapWord | markdown-viewer.js:242-243 | the global replace of one keyword over the whole code |
| Highlight.Highlighted | markdown-viewer.js:241-244 | the passes of a list of keywords, each on the output of the previous one |
| Highlight.HighlightKeywords | markdown-viewer.js:235-244 | the loop applies the whole-word replace for each of the 22 keywords in the source's order, each pass on the previous pass's output |
| Highlight.KeywordsAreWords | markdown-viewer.js:235-239 | every keyword is a non-empty run of `\w` characters, so `\b` around it is a word boundary |
| Highlight.UnwrapWrapWord | markdown-viewer.js:242-243 | on code without `<` (code that `escapeHtml` produced), taking the keyword elements out of one pass's output gives the code back |
| Highlight.WrapFromWithoutMatch | markdown-viewer.js:242-243 | where the keyword never occurs as a whole word, the pass copies the code |
| Highlight.HighlightedWithoutKeywords | markdown-viewer.js:241-244 | code in which no keyword ever occurs as a whole word is left unchanged by all the passes |
| Highlight.WrapBetween | markdown-viewer.js:242-243 | a whole-word occurrence that is the keyword's only whole-word occurrence in the code is wrapped in `<span class="keyword">`, and the text before and after it is copied |
| Highlight.ClassInsideSpan | markdown-viewer.js:237-243 | for every word other than `class`, the `class` pass finds the word `class` in that word's own `<span class="keyword">` element and wraps it again |
| Highlight.KeywordsBeforeClass | markdown-viewer.js:236-238 | `class` is the sixteenth keyword and the fifteen before it are words other than `class`, so each of their elements is re-wrapped |
| Highlight.ClassOnlyInAttribute | markdown-viewer.js:242-243 | in the element of a word other than `class`, the only whole-word `class` is the attribute name |

## Left out

- Fetching the file, DOM construction and error display
  (markdown-viewer.js:1-78) are browser I/O and are left out. The styles
  (markdown-viewer.js:268-383) are static CSS. start-docs.js is not part of
  this model.
- Convert.MarkdownToHtml covers only the heading, horizontal-rule, table,
  paragraph and blockquote passes. These passes are left out of the chain:
  - fenced code blocks (markdown-viewer.js:120-125);
  - inline code (128);
  - bold and italic (136-137);
  - lists and their nesting fix-up (140-148);
  - links (151) and images (154).

  Each is one more regular-expression replacement that a full regex engine
  would be needed to state. The passes modelled run in the source's order,
  with these removed; Convert.MarkdownToHtmlCorrected moves the blockquote
  pass (see Findings).
- Highlight.HighlightKeywords covers only the keyword loop. The string and
  comment passes (markdown-viewer.js:247, 250) depend on lazy and
  back-referencing regex matching and are left out.
- Toc.AddTableOfContents takes the headings as an array of values. It does
  not model `querySelectorAll`, the creation of the list elements, or the
  `textContent` of nested markup.
- Toc.AddTableOfContentsIfLong compares the number of characters with 1000.
  JavaScript counts UTF-16 code units, so a text with characters outside the
  Basic Multilingual Plane can differ.
- Toc.PlaceToc models the children of the content element as a sequence. The
  title is given by its position, and text nodes count as children as they do
  in the DOM.
- Text.IsSpace has JavaScript's `\s` set. The document is cut into lines only
  at `\n`. JavaScript's `^` and `$` with the `m` flag also stop at `\r`,
  U+2028 and U+2029, which is not modelled, so those characters are treated as
  ordinary white space inside a line.
- Blocks.ParagraphAt models backtracking only in its one observable case. The
  pattern `^\s*(\n)?(.+)` is stated by its effect at each line start. When
  only white space is left, the model keeps the backtracking to the last
  character, and no other backtracking.

## Findings

| source | as written | input that shows it | evidently intended | confidence | as-written member | corrected member |
|---|---|---|---|---|---|---|
| markdown-viewer.js:163-179 | the blockquote pass runs after the paragraph pass, which has already turned every non-blank line that does not begin a block element into `<p>…</p>`; no line can then begin with `>`, and the blockquote pass never matches | the document `> quoted` comes out as `<p>> quoted</p>` | `> quoted` becomes `<blockquote>quoted</blockquote>`, and adjacent quote lines merge with `<br>`, which needs the blockquote pass before the paragraph pass | high (proved on the model; not executed) | Convert.QuoteLineAsWritten | Convert.QuoteLineCorrected |
