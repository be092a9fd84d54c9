/** `processMarkdownTables` of markdown-viewer.js: pipe tables in the style of
    GitHub Flavored Markdown, rendered to `<table><thead>…</thead><tbody>…</tbody></table>`. */
module Tables {
  import opened Text

  datatype Alignment = Left | Center | Right

  /** The word the source writes into `text-align`. */
  function AlignmentName(a: Alignment): string {
    match a
    case Left => "left"
    case Center => "center"
    case Right => "right"
  }

  /** `row.split('|').slice(1, -1)`: every piece but the first and the last. */
  function RawCells(row: string): (r: seq<string>)
    ensures |r| == if Count(row, '|') >= 1 then Count(row, '|') - 1 else 0
    ensures forall k :: 0 <= k < |r| ==> '|' !in r[k]
  {
    var pieces := Split(row, '|');
    if |pieces| <= 2 then [] else pieces[1..|pieces| - 1]
  }

  /** The trimmed cells of a row. */
  function Cells(row: string): seq<string> {
    seq(|RawCells(row)|, k requires 0 <= k < |RawCells(row)| => Trim(RawCells(row)[k]))
  }

  lemma {:induction false} SplitSnocSeparator(t: string, d: char)
    ensures Split(t + [d], d) == Split(t, d) + [""]
  {
    if t == [] {
      assert ([d] + [])[1..] == [];
      assert [] + [d] == [d];
    } else {
      assert (t + [d])[1..] == t[1..] + [d];
      SplitSnocSeparator(t[1..], d);
    }
  }

  /** For a row that begins and ends with `|`, the raw cells are exactly the
      pipe-free pieces of the text between the boundary pipes: there is one fewer
      cell than there are pipes, and putting the pipes back gives the row. */
  lemma CellsBetweenPipes(row: string)
    requires |row| >= 2 && row[0] == '|' && row[|row| - 1] == '|'
    ensures RawCells(row) == Split(row[1..|row| - 1], '|')
    ensures |Cells(row)| == |RawCells(row)| == Count(row, '|') - 1
    ensures row == "|" + Join(RawCells(row), '|') + "|"
    ensures forall k :: 0 <= k < |Cells(row)| ==> Cells(row)[k] == Trim(RawCells(row)[k])
  {
    var mid := row[1..|row| - 1];
    assert row == "|" + mid + "|";
    SplitPiped(mid);
    var pieces := Split(row, '|');
    assert pieces[1..|pieces| - 1] == Split(mid, '|');
    JoinSplit(mid, '|');
  }

  /** The pieces of `|mid|`: an empty piece, those of `mid`, an empty piece. */
  lemma SplitPiped(mid: string)
    ensures Split("|" + mid + "|", '|') == [""] + Split(mid, '|') + [""]
  {
    assert "|" + mid + "|" == "" + ['|'] + (mid + ['|']);
    SplitAfterPiece("", '|', mid + ['|']);
    SplitSnocSeparator(mid, '|');
  }

  /** The alignment a delimiter cell asks for (the source trims it first). */
  function AlignmentOf(cell: string): Alignment {
    var t := Trim(cell);
    if StartsWith(t, ":") && EndsWith(t, ":") then Center
    else if EndsWith(t, ":") then Right
    else Left
  }

  /** Colons at both ends of the trimmed cell give `center`, a trailing colon
      alone `right`, and anything else, a leading colon alone included,
      `left`. */
  lemma AlignmentOfColons(cell: string)
    ensures AlignmentOf(cell) == Center <==> StartsWith(Trim(cell), ":") && EndsWith(Trim(cell), ":")
    ensures AlignmentOf(cell) == Right <==> !StartsWith(Trim(cell), ":") && EndsWith(Trim(cell), ":")
    ensures AlignmentOf(cell) == Left <==> !EndsWith(Trim(cell), ":")
  {
  }

  /** One alignment per cell of the delimiter row. */
  function Alignments(delimiterRow: string): seq<Alignment> {
    AlignmentsOf(RawCells(delimiterRow))
  }

  function AlignmentsOf(cells: seq<string>): seq<Alignment> {
    seq(|cells|, k requires 0 <= k < |cells| => AlignmentOf(cells[k]))
  }

  /** `${alignments[index]}`: past the end of the list JavaScript prints
      `undefined`. */
  function AlignText(aligns: seq<Alignment>, index: nat): string {
    if index < |aligns| then AlignmentName(aligns[index]) else "undefined"
  }

  /** The markup of one header (`th`) or body (`td`) cell. */
  function CellTag(tag: string, cell: string, align: string): string {
    "<" + tag + " style=\"text-align: " + align + "\">" + cell + "</" + tag + ">"
  }

  /** The cells of a row, one tag each, in order, the k-th styled with the k-th
      alignment. */
  function CellTags(tag: string, cells: seq<string>, aligns: seq<Alignment>): seq<string> {
    seq(|cells|, k requires 0 <= k < |cells| => CellTag(tag, cells[k], AlignText(aligns, k)))
  }

  function HeaderHtml(cells: seq<string>, aligns: seq<Alignment>): string {
    "<thead><tr>" + Concat(CellTags("th", cells, aligns)) + "</tr></thead>"
  }

  function RowHtml(row: string, aligns: seq<Alignment>): string {
    "<tr>" + Concat(CellTags("td", Cells(row), aligns)) + "</tr>"
  }

  /** The body rows that are rendered: the non-blank ones, those whose trimmed
      text is not empty (`TrimEmptyIffBlank`). */
  function BodyRows(rows: seq<string>): seq<string> {
    if rows == [] then []
    else
      var last := rows[|rows| - 1];
      BodyRows(rows[..|rows| - 1]) + (if IsBlank(last) then [] else [last])
  }

  function RowTags(rows: seq<string>, aligns: seq<Alignment>): seq<string> {
    seq(|rows|, k requires 0 <= k < |rows| => RowHtml(rows[k], aligns))
  }

  function BodyHtml(rows: seq<string>, aligns: seq<Alignment>): string {
    "<tbody>" + Concat(RowTags(BodyRows(rows), aligns)) + "</tbody>"
  }

  /** The table for its rows: the first is the header, the second gives the
      alignments, the rest are the body. */
  function TableHtml(rows: seq<string>): string
    requires |rows| >= 2
  {
    var aligns := Alignments(rows[1]);
    "<table>" + HeaderHtml(Cells(rows[0]), aligns) + BodyHtml(rows[2..], aligns) + "</table>"
  }

  /** The rendered body rows are the non-blank rows, in order: a row is kept
      exactly when it is not blank, and none is added. */
  lemma {:induction false} BodyRowsAreNonBlankRows(rows: seq<string>)
    ensures |BodyRows(rows)| <= |rows|
    ensures forall r :: r in BodyRows(rows) <==> r in rows && !IsBlank(r)
  {
    if rows != [] {
      var init, last := rows[..|rows| - 1], rows[|rows| - 1];
      BodyRowsAreNonBlankRows(init);
      assert rows == init + [last];
      assert BodyRows(rows) == BodyRows(init) + (if IsBlank(last) then [] else [last]);
    }
  }

  /** A blank row is never rendered, and each non-blank row is rendered as
      many times as it occurs. */
  lemma {:induction false} BodyRowsMultiset(rows: seq<string>)
    ensures forall r :: multiset(BodyRows(rows))[r] == if IsBlank(r) then 0 else multiset(rows)[r]
  {
    if rows != [] {
      var init, last := rows[..|rows| - 1], rows[|rows| - 1];
      BodyRowsMultiset(init);
      assert rows == init + [last];
      assert multiset(rows) == multiset(init) + multiset{last};
    }
  }

  /** As many rows are rendered as there are non-blank rows. */
  lemma {:induction false} BodyRowsCount(rows: seq<string>)
    ensures |BodyRows(rows)| == |NonBlankIndices(rows)|
  {
    if rows != [] {
      var init := rows[..|rows| - 1];
      BodyRowsCount(init);
      NonBlankIndicesInit(rows);
      var before := NonBlankIndices(init);
      if !IsBlank(rows[|rows| - 1]) {
        assert |before + {|init|}| == |before| + 1;
      }
    }
  }

  /** The positions of the non-blank rows. */
  function NonBlankIndices(rows: seq<string>): set<nat> {
    set k: nat | k < |rows| && !IsBlank(rows[k])
  }

  /** The non-blank positions of all rows but the last, plus the last's when
      it is not blank. */
  lemma NonBlankIndicesInit(rows: seq<string>)
    requires rows != []
    ensures |rows| - 1 !in NonBlankIndices(rows[..|rows| - 1])
    ensures NonBlankIndices(rows) == NonBlankIndices(rows[..|rows| - 1])
      + (if IsBlank(rows[|rows| - 1]) then {} else {|rows| - 1})
  {
    var init := rows[..|rows| - 1];
    assert forall k :: 0 <= k < |init| ==> init[k] == rows[k];
  }

  /** Appends one tag per cell (the source's `cells.forEach`). */
  method AppendCells(prefix: string, tag: string, cells: seq<string>, aligns: seq<Alignment>)
    returns (html: string)
    ensures html == prefix + Concat(CellTags(tag, cells, aligns))
  {
    html := prefix;
    for k := 0 to |cells|
      invariant html == prefix + Concat(CellTags(tag, cells, aligns)[..k])
    {
      CellTagsStep(prefix, tag, cells, aligns, k);
      html := html + CellTag(tag, cells[k], AlignText(aligns, k));
    }
    assert CellTags(tag, cells, aligns)[..|cells|] == CellTags(tag, cells, aligns);
  }

  /** One more turn of the `forEach` appends the next cell's tag. */
  lemma CellTagsStep(prefix: string, tag: string, cells: seq<string>, aligns: seq<Alignment>, k: nat)
    requires k < |cells|
    ensures prefix + Concat(CellTags(tag, cells, aligns)[..k]) + CellTag(tag, cells[k], AlignText(aligns, k))
         == prefix + Concat(CellTags(tag, cells, aligns)[..k + 1])
  {
    var tags := CellTags(tag, cells, aligns);
    ConcatSnoc(tags[..k], tags[k]);
    assert tags[..k + 1] == tags[..k] + [tags[k]];
    Assoc(prefix, Concat(tags[..k]), tags[k]);
  }

  /** Builds the header section, as the source accumulates `headerHtml`. */
  method RenderHeader(cells: seq<string>, aligns: seq<Alignment>) returns (html: string)
    ensures html == HeaderHtml(cells, aligns)
  {
    html := AppendCells("<thead><tr>", "th", cells, aligns);
    html := html + "</tr></thead>";
  }

  lemma BodyRowsSnoc(rows: seq<string>, row: string)
    ensures IsBlank(row) ==> BodyRows(rows + [row]) == BodyRows(rows)
    ensures !IsBlank(row) ==> BodyRows(rows + [row]) == BodyRows(rows) + [row]
  {
    assert (rows + [row])[..|rows|] == rows;
  }

  lemma RowTagsSnoc(rows: seq<string>, row: string, aligns: seq<Alignment>)
    ensures RowTags(rows + [row], aligns) == RowTags(rows, aligns) + [RowHtml(row, aligns)]
  {
  }

  /** The `<tr>`s of the rows from the third up to (not including) row `i`,
      blank rows skipped: what the source's loop has built before row `i`. */
  function BodySoFar(rows: seq<string>, i: nat, aligns: seq<Alignment>): string
    requires 2 <= i <= |rows|
    decreases i
  {
    if i == 2 then ""
    else
      var row := rows[i - 1];
      BodySoFar(rows, i - 1, aligns) + (if IsBlank(row) then "" else RowHtml(row, aligns))
  }

  /** The loop's partial body is the body of the rows seen so far. */
  lemma {:induction false} BodySoFarIsBody(rows: seq<string>, i: nat, aligns: seq<Alignment>)
    requires 2 <= i <= |rows|
    ensures BodySoFar(rows, i, aligns) == Concat(RowTags(BodyRows(rows[2..i]), aligns))
    decreases i
  {
    if i == 2 {
      assert rows[2..2] == [];
    } else {
      var before, row := rows[2..i - 1], rows[i - 1];
      BodySoFarIsBody(rows, i - 1, aligns);
      SliceSnoc(rows, 2, i - 1);
      BodyHtmlSnoc(before, row, aligns);
    }
  }

  /** One more row adds its `<tr>` to the body, unless it is blank. */
  lemma BodyHtmlSnoc(before: seq<string>, row: string, aligns: seq<Alignment>)
    ensures Concat(RowTags(BodyRows(before + [row]), aligns))
      == Concat(RowTags(BodyRows(before), aligns)) + (if IsBlank(row) then "" else RowHtml(row, aligns))
  {
    var done := BodyRows(before);
    BodyRowsSnoc(before, row);
    if !IsBlank(row) {
      RowTagsSnoc(done, row, aligns);
      ConcatSnoc(RowTags(done, aligns), RowHtml(row, aligns));
    } else {
      assert Concat(RowTags(done, aligns)) + "" == Concat(RowTags(done, aligns));
    }
  }

  lemma BodySoFarAll(rows: seq<string>, aligns: seq<Alignment>)
    requires |rows| >= 2
    ensures "<tbody>" + BodySoFar(rows, |rows|, aligns) + "</tbody>" == BodyHtml(rows[2..], aligns)
  {
    BodySoFarIsBody(rows, |rows|, aligns);
    assert rows[2..|rows|] == rows[2..];
  }

  /** The loop's step, stated with the source's test `!row.trim()`: a blank
      row leaves the body as it is, any other row adds its `<tr>`. */
  lemma BodyLoopStep(rows: seq<string>, i: nat, aligns: seq<Alignment>, html: string)
    requires 2 <= i < |rows|
    requires html == "<tbody>" + BodySoFar(rows, i, aligns)
    ensures Trim(rows[i]) == [] ==> html == "<tbody>" + BodySoFar(rows, i + 1, aligns)
    ensures Trim(rows[i]) != [] ==> html + RowHtml(rows[i], aligns) == "<tbody>" + BodySoFar(rows, i + 1, aligns)
  {
    var d, r := BodySoFar(rows, i, aligns), RowHtml(rows[i], aligns);
    BodySoFarNext(rows, i, aligns);
    TrimEmptyIffBlank(rows[i]);
    BodyStepCases(Trim(rows[i]) == [], html, d, r, BodySoFar(rows, i + 1, aligns));
  }

  /** One more turn of the loop adds row `i`'s piece. */
  lemma BodySoFarNext(rows: seq<string>, i: nat, aligns: seq<Alignment>)
    requires 2 <= i < |rows|
    ensures BodySoFar(rows, i + 1, aligns)
      == BodySoFar(rows, i, aligns) + (if IsBlank(rows[i]) then "" else RowHtml(rows[i], aligns))
  {
  }

  lemma BodyStepCases(blank: bool, html: string, d: string, r: string, next: string)
    requires html == "<tbody>" + d
    requires next == d + (if blank then "" else r)
    ensures blank ==> html == "<tbody>" + next
    ensures !blank ==> html + r == "<tbody>" + next
  {
    if blank {
      assert d + "" == d;
    } else {
      Assoc("<tbody>", d, r);
    }
  }

  lemma SliceSnoc(rows: seq<string>, a: nat, b: nat)
    requires a <= b < |rows|
    ensures rows[a..b + 1] == rows[a..b] + [rows[b]]
  {
  }

  /** Builds one body row: `<tr>`, one `<td>` per cell, `</tr>`. */
  method RenderRow(row: string, aligns: seq<Alignment>) returns (html: string)
    ensures html == RowHtml(row, aligns)
  {
    html := AppendCells("<tr>", "td", Cells(row), aligns);
    html := html + "</tr>";
  }

  /** Builds the body section from the rows after the second, skipping blank
      rows, as the source accumulates `bodyHtml`. */
  method RenderBody(rows: seq<string>, aligns: seq<Alignment>) returns (html: string)
    requires |rows| >= 2
    ensures html == BodyHtml(rows[2..], aligns)
  {
    html := "<tbody>";
    var i := 2;
    while i < |rows|
      invariant 2 <= i <= |rows|
      invariant html == "<tbody>" + BodySoFar(rows, i, aligns)
    {
      var row := rows[i];
      BodyLoopStep(rows, i, aligns, html);
      if Trim(row) == [] {
        i := i + 1;
        continue;
      }
      var rowHtml := RenderRow(row, aligns);
      html := html + rowHtml;
      i := i + 1;
    }
    BodySoFarAll(rows, aligns);
    html := html + "</tbody>";
  }

  /** The replacement the source computes for one matched table. */
  method RenderTable(rows: seq<string>) returns (html: string)
    requires |rows| >= 2
    ensures html == TableHtml(rows)
  {
    var headerCells := Cells(rows[0]);
    var aligns := Alignments(rows[1]);
    var headerHtml := RenderHeader(headerCells, aligns);
    var bodyHtml := RenderBody(rows, aligns);
    html := "<table>" + headerHtml + bodyHtml + "</table>";
  }

  /** A cell with a leading colon only, such as `:---`, is left-aligned. */
  lemma LeadingColonIsLeft()
    ensures AlignmentOf(":---") == Left
  {
    TrimOfNonSpaceEnds(":---");
  }

  /** A cell with a trailing colon only, such as `---:`, is right-aligned. */
  lemma TrailingColonIsRight()
    ensures AlignmentOf("---:") == Right
  {
    TrimOfNonSpaceEnds("---:");
  }

  /** A row of two cells. */
  lemma TwoCellRow(a: string, b: string)
    requires '|' !in a && '|' !in b
    ensures RawCells("|" + a + "|" + b + "|") == [a, b]
  {
    var row := "|" + a + "|" + b + "|";
    assert row == "" + ['|'] + (a + ['|'] + (b + ['|'] + ""));
    SplitAfterPiece(b, '|', "");
    SplitAfterPiece(a, '|', b + ['|'] + "");
    SplitAfterPiece("", '|', a + ['|'] + (b + ['|'] + ""));
    assert Split(row, '|') == ["", a, b, ""];
  }

  /** The alignments of a two-column delimiter row are those of its two
      cells, in order; with `LeadingColonIsLeft` and `TrailingColonIsRight`,
      the row `|:---|---:|` gives a left and then a right column. */
  lemma TwoColumnAlignments(a: string, b: string)
    requires '|' !in a && '|' !in b
    ensures Alignments("|" + a + "|" + b + "|") == [AlignmentOf(a), AlignmentOf(b)]
  {
    TwoCellRow(a, b);
    AlignmentsOfTwoCells(a, b);
  }

  lemma AlignmentsOfTwoCells(a: string, b: string)
    ensures AlignmentsOf([a, b]) == [AlignmentOf(a), AlignmentOf(b)]
  {
    var cells := [a, b];
    AlignmentsOfAt(cells, 0);
    AlignmentsOfAt(cells, 1);
    PairOf(AlignmentsOf(cells), AlignmentOf(a), AlignmentOf(b));
  }

  lemma PairOf(al: seq<Alignment>, x: Alignment, y: Alignment)
    requires |al| == 2 && al[0] == x && al[1] == y
    ensures al == [x, y]
  {
  }

  lemma AlignmentsOfAt(cells: seq<string>, k: nat)
    requires k < |cells|
    ensures |AlignmentsOf(cells)| == |cells| && AlignmentsOf(cells)[k] == AlignmentOf(cells[k])
  {
  }

  // ---------------------------------------------------------------------
  // Finding the tables in a document, seen as its lines (split on '\n').

  /** A header or body row as the table regex accepts it: it begins with `|`,
      and its last non-space character is a second `|`. */
  predicate PipeRow(line: string) {
    var t := TrimEnd(line);
    |t| >= 2 && t[0] == '|' && t[|t| - 1] == '|'
  }

  /** What the delimiter row of the regex holds after its opening `|` and the
      white space that follows it: a `-` or `:`, then only `-`, `|`, space or
      `:` up to a last `|`, then white space. */
  predicate DelimiterTail(s: string) {
    var t := TrimEnd(s);
    && |t| >= 2 && (t[0] == '-' || t[0] == ':') && t[|t| - 1] == '|'
    && forall c :: c in t ==> c == '-' || c == '|' || c == ' ' || c == ':'
  }

  /** The line on which a delimiter row that opens with the `|` at the start
      of line `j` ends. The `\s*` after that `|` runs across line feeds, so
      when only white space follows the `|` the row goes on at the next
      non-blank line. */
  function DelimiterEnd(lines: seq<string>, j: nat): (d: nat)
    requires j < |lines| && lines[j] != []
    ensures j <= d <= |lines|
    ensures d != j ==> IsBlank(lines[j][1..]) && d == NextNonBlank(lines, j + 1)
    ensures d == j ==> !IsBlank(lines[j][1..])
  {
    if IsBlank(lines[j][1..]) then NextNonBlank(lines, j + 1) else j
  }

  /** The delimiter row of the regex opens at line `j` and ends, followed by a
      line feed, at line `DelimiterEnd(lines, j)`. */
  predicate DelimiterAt(lines: seq<string>, j: nat) {
    && j < |lines| && lines[j] != [] && lines[j][0] == '|'
    && var d := DelimiterEnd(lines, j);
    && d < |lines| - 1
    && DelimiterTail(if d == j then TrimStart(lines[j][1..]) else TrimStart(lines[d]))
  }

  /** A table starts at line `i`: a header row, then (past blank lines, which
      the regex's `\s*\n` swallows) a delimiter row, then a body row, each of
      them followed by a line feed. */
  predicate TableAt(lines: seq<string>, i: nat) {
    && i < |lines| - 1 && PipeRow(lines[i])
    && var j := NextNonBlank(lines, i + 1);
    && DelimiterAt(lines, j)
    && var k := NextNonBlank(lines, DelimiterEnd(lines, j) + 1);
    && k < |lines| - 1 && PipeRow(lines[k])
  }

  function FirstBodyRow(lines: seq<string>, i: nat): (k: nat)
    requires TableAt(lines, i)
    ensures i < k < |lines| - 1 && PipeRow(lines[k])
  {
    NextNonBlank(lines, DelimiterEnd(lines, NextNonBlank(lines, i + 1)) + 1)
  }

  /** Past row `k` and the blank lines after it comes another pipe row
      followed by a line feed. */
  predicate MoreRows(lines: seq<string>, k: nat)
    requires k < |lines|
  {
    var n := NextNonBlank(lines, k + 1);
    n < |lines| - 1 && PipeRow(lines[n])
  }

  /** Another row follows row `k` exactly when some later line is a pipe row
      with a line feed after it and only blank lines come between. */
  lemma MoreRowsIff(lines: seq<string>, k: nat)
    requires k < |lines|
    ensures MoreRows(lines, k) <==>
      exists n :: k < n < |lines| - 1 && PipeRow(lines[n]) && forall j :: k < j < n ==> IsBlank(lines[j])
  {
    if exists n :: k < n < |lines| - 1 && PipeRow(lines[n]) && forall j :: k < j < n ==> IsBlank(lines[j]) {
      var n :| k < n < |lines| - 1 && PipeRow(lines[n]) && forall j :: k < j < n ==> IsBlank(lines[j]);
      assert lines[n] != [] && !IsSpace(lines[n][0]);
      assert NextNonBlank(lines, k + 1) == n;
    }
    if MoreRows(lines, k) {
      var n := NextNonBlank(lines, k + 1);
      assert k < n < |lines| - 1 && PipeRow(lines[n]);
    }
  }

  /** The greedy `(\|.*\|\s*\n)+`: body rows go on while the next non-blank
      line is a pipe row followed by a line feed, so none follows the last. */
  function LastBodyRow(lines: seq<string>, k: nat): (last: nat)
    requires k < |lines| - 1 && PipeRow(lines[k])
    ensures k <= last < |lines| - 1 && PipeRow(lines[last])
    ensures !MoreRows(lines, last)
    decreases |lines| - k
  {
    if MoreRows(lines, k) then LastBodyRow(lines, NextNonBlank(lines, k + 1)) else k
  }

  /** The line at whose start the match ends: the last body row's `\s*\n`
      swallows the blank lines after it up to the last line feed before the
      next non-blank line, or before the end of the text. */
  function MatchEnd(lines: seq<string>, last: nat): (e: nat)
    requires last < |lines| - 1
    ensures last < e <= |lines| - 1
    ensures forall j :: last < j < e ==> IsBlank(lines[j])
  {
    var n := NextNonBlank(lines, last + 1);
    if n < |lines| then n else |lines| - 1
  }

  /** `table.trim().split('\n')` for the matched text, lines `from` to `end - 1`
      each with its line feed. */
  function TableRows(matched: seq<string>): (rows: seq<string>)
    ensures rows != [] && forall k :: 0 <= k < |rows| ==> '\n' !in rows[k]
    ensures Join(rows, '\n') == Trim(Join(matched, '\n') + "\n")
  {
    var table := Trim(Join(matched, '\n') + "\n");
    JoinSplit(table, '\n');
    Split(table, '\n')
  }

  /** Trimming the end of the matched text drops the blank lines after the
      last body row and that row's trailing white space. */
  lemma TrimEndOfMatch(lines: seq<string>, i: nat, last: nat, e: nat)
    requires i < last < e <= |lines|
    requires !IsBlank(lines[last])
    requires forall j :: last < j < e ==> IsBlank(lines[j])
    ensures TrimEnd(Join(lines[i..e], '\n') + "\n") == Join(lines[i..last], '\n') + "\n" + TrimEnd(lines[last])
  {
    var a, a' := lines[i..last + 1], lines[i..last];
    var nl: string := "\n";
    SliceSnoc(lines, i, last);
    JoinSnoc(a', lines[last], '\n');
    TrimEndOfBlankTail(lines, i, last, e);
    TrimEndAppend(Join(a', '\n') + nl, lines[last]);
  }

  /** The line feed after the last row and the blank lines after it are
      white space that trimming the end drops. */
  lemma TrimEndOfBlankTail(lines: seq<string>, i: nat, last: nat, e: nat)
    requires i <= last < e <= |lines|
    requires forall j :: last < j < e ==> IsBlank(lines[j])
    ensures TrimEnd(Join(lines[i..e], '\n') + "\n") == TrimEnd(Join(lines[i..last + 1], '\n'))
  {
    var a, b := lines[i..last + 1], lines[last + 1..e];
    var nl: string := "\n";
    if b == [] {
      assert lines[i..e] == a;
      assert IsBlank(nl);
      TrimEndAppendBlank(Join(a, '\n'), nl);
    } else {
      assert lines[i..e] == a + b;
      JoinAppend(a, b, '\n');
      JoinBlank(b, '\n');
      var tail := nl + Join(b, '\n') + nl;
      BlankBetweenNewlines(Join(b, '\n'));
      assert Join(lines[i..e], '\n') + nl == Join(a, '\n') + tail;
      TrimEndAppendBlank(Join(a, '\n'), tail);
    }
  }

  lemma BlankBetweenNewlines(m: string)
    requires IsBlank(m)
    ensures IsBlank("\n" + m + "\n")
  {
    var tail := "\n" + m + "\n";
    forall x | 0 <= x < |tail| ensures IsSpace(tail[x]) {
      if 0 < x < |tail| - 1 {
        assert tail[x] == m[x - 1];
      }
    }
  }

  /** The rows the source renders for a match are its lines up to the last
      body row, that one with its trailing white space trimmed; blank lines
      inside the match stay (and are skipped as body rows). */
  lemma TableRowsShape(lines: seq<string>, i: nat, last: nat, e: nat)
    requires NoNewlines(lines)
    requires i < last < e <= |lines|
    requires lines[i] != [] && !IsSpace(lines[i][0])
    requires !IsBlank(lines[last])
    requires forall j :: last < j < e ==> IsBlank(lines[j])
    ensures TableRows(lines[i..e]) == lines[i..last] + [TrimEnd(lines[last])]
  {
    var a' := lines[i..last];
    var nl: string := "\n";
    TrimEndOfMatch(lines, i, last, e);
    var trimmed := Join(a', '\n') + nl + TrimEnd(lines[last]);
    JoinHead(a', '\n');
    TrimStartOfNonSpace(trimmed);
    var rows := a' + [TrimEnd(lines[last])];
    JoinSnoc(a', TrimEnd(lines[last]), '\n');
    RowsNoNewlines(lines, i, last);
    SplitJoin(rows, '\n');
  }

  /** A join begins with the first character of its first piece. */
  lemma JoinHead(a: seq<string>, d: char)
    requires |a| >= 1 && a[0] != []
    ensures Join(a, d) != [] && Join(a, d)[0] == a[0][0]
  {
    if |a| > 1 {
      assert Join(a, d) == a[0] + [d] + Join(a[1..], d);
    }
  }

  /** The rows of a match hold no line feed. */
  lemma RowsNoNewlines(lines: seq<string>, i: nat, last: nat)
    requires NoNewlines(lines) && i <= last < |lines|
    ensures forall x :: 0 <= x < |lines[i..last] + [TrimEnd(lines[last])]| ==> '\n' !in (lines[i..last] + [TrimEnd(lines[last])])[x]
  {
    var rows := lines[i..last] + [TrimEnd(lines[last])];
    forall x | 0 <= x < |rows| ensures '\n' !in rows[x] {
      if x == |rows| - 1 {
        var t := TrimEnd(lines[last]);
        assert t == lines[last][..|t|];
      } else {
        assert rows[x] == lines[i + x];
      }
    }
  }

  /** One table found at line `i`: its HTML and the line at which the match
      ends. */
  function MatchedTable(lines: seq<string>, i: nat): (r: (string, nat))
    requires NoNewlines(lines) && TableAt(lines, i)
    ensures i + 3 <= r.1 < |lines|
  {
    var last := LastBodyRow(lines, FirstBodyRow(lines, i));
    var e := MatchEnd(lines, last);
    TableRowsShape(lines, i, last, e);
    (TableHtml(TableRows(lines[i..e])), e)
  }

  /** The table pass over lines `i..`: each table becomes one line, its HTML
      followed by the line at which its match ended (the replacement has no
      line feed of its own). The pass never adds lines, and a table replaces
      at least three lines (header, delimiter, a body row) by one. */
  function TablePass(lines: seq<string>, i: nat): (r: seq<string>)
    requires NoNewlines(lines) && i <= |lines|
    ensures |r| <= |lines| - i
    ensures i < |lines| && TableAt(lines, i) ==> |r| <= |lines| - i - 3
    decreases |lines| - i
  {
    if i == |lines| then []
    else if TableAt(lines, i) then
      var m := MatchedTable(lines, i);
      [m.0 + lines[m.1]] + TablePass(lines, m.1 + 1)
    else
      [lines[i]] + TablePass(lines, i + 1)
  }

  /** The scan goes on after a match without looking for a table at the line
      where the match ended: none can start there, since the greedy body rows
      would have taken that line. */
  lemma NoTableAtMatchEnd(lines: seq<string>, i: nat)
    requires NoNewlines(lines) && TableAt(lines, i)
    ensures !TableAt(lines, MatchedTable(lines, i).1)
  {
    var last := LastBodyRow(lines, FirstBodyRow(lines, i));
    assert MatchedTable(lines, i).1 == MatchEnd(lines, last);
  }

  /** A delimiter row whose opening `|` stands alone on its line: the lines
      of the text `|a|\n|\n---|\n|b|\n` hold a table, whose delimiter row ends on the
      third line and whose one body row is the fourth. */
  lemma LoneBarDelimiter()
    ensures TableAt(["|a|", "|", "---|", "|b|", ""], 0)
    ensures DelimiterEnd(["|a|", "|", "---|", "|b|", ""], 1) == 2
    ensures FirstBodyRow(["|a|", "|", "---|", "|b|", ""], 0) == 3
  {
    var lines := ["|a|", "|", "---|", "|b|", ""];
    PipeRowOf(lines[0]);
    PipeRowOf(lines[3]);
    NonBlankLine(lines, 1);
    NonBlankLine(lines, 2);
    NonBlankLine(lines, 3);
    assert lines[1][1..] == [];
    assert DelimiterEnd(lines, 1) == 2;
    DashTail();
  }

  /** A line that begins and ends with `|` is a pipe row. */
  lemma PipeRowOf(line: string)
    requires |line| >= 2 && line[0] == '|' && line[|line| - 1] == '|'
    ensures PipeRow(line)
  {
    assert TrimEnd(line) == line;
  }

  /** A line that begins with a non-space character is where the search for
      a non-blank line stops. */
  lemma NonBlankLine(lines: seq<string>, j: nat)
    requires j < |lines| && lines[j] != [] && !IsSpace(lines[j][0])
    ensures NextNonBlank(lines, j) == j
  {
  }

  lemma DashTail()
    ensures TrimStart("---|") == "---|" && DelimiterTail("---|")
  {
    var t: string := "---|";
    TrimStartOfNonSpace(t);
    assert TrimEnd(t) == t;
    assert forall c :: c in t ==> c == '-' || c == '|';
  }

  /** `processMarkdownTables`. */
  function ProcessMarkdownTables(markdown: string): string {
    Join(TablePass(Split(markdown, '\n'), 0), '\n')
  }

  /** Lines where no table starts pass through unchanged. */
  lemma {:induction false} TablePassWithoutTables(lines: seq<string>, i: nat)
    requires NoNewlines(lines) && i <= |lines|
    requires forall x :: i <= x < |lines| ==> !TableAt(lines, x)
    ensures TablePass(lines, i) == lines[i..]
    decreases |lines| - i
  {
    if i < |lines| {
      TablePassWithoutTables(lines, i + 1);
      assert lines[i..] == [lines[i]] + lines[i + 1..];
    }
  }

  /** A document with no table is returned unchanged. */
  lemma ProcessMarkdownTablesWithoutTables(markdown: string)
    requires forall x :: !TableAt(Split(markdown, '\n'), x)
    ensures ProcessMarkdownTables(markdown) == markdown
  {
    var lines := Split(markdown, '\n');
    TablePassWithoutTables(lines, 0);
    assert lines[0..] == lines;
    JoinSplit(markdown, '\n');
  }
}
