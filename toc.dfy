/** `addTableOfContents` of markdown-viewer.js, over an abstract list of the
    page's `h2` and `h3` headings in document order: each heading gets the id
    `heading-<index>` and one entry of the table of contents that links to it. */
module Toc {
  import opened Text

  datatype Level = H2 | H3

  /** A heading element: its tag, its text and its `id` attribute. */
  datatype Heading = Heading(level: Level, text: string, id: string)

  /** A list item of the table of contents: the link target, the link text,
      and whether the item carries the `padding-left: 20px` indent. */
  datatype Entry = Entry(href: string, text: string, indented: bool)

  /** The id given to the heading at `index`. */
  function HeadingId(index: nat): string {
    "heading-" + NatToString(index)
  }

  /** The list item made for the heading at `index`. */
  function TocEntry(h: Heading, index: nat): Entry {
    Entry("#" + HeadingId(index), h.text, h.level == H3)
  }

  /** Two entries link to the same place only when they stand at the same
      index, and an entry does not depend on the id its heading had before. */
  lemma TocEntryLinks(h: Heading, g: Heading, i: nat, j: nat)
    ensures TocEntry(h, i).href == TocEntry(g, j).href <==> i == j
    ensures TocEntry(h.(id := g.id), i) == TocEntry(h, i)
  {
    if i != j {
      HeadingIdsDistinct(i, j);
      assert TocEntry(h, i).href[1..] == HeadingId(i);
      assert TocEntry(g, j).href[1..] == HeadingId(j);
    }
  }

  /** The table of contents for the headings, one entry per heading. */
  function Entries(hs: seq<Heading>): seq<Entry> {
    seq(|hs|, k requires 0 <= k < |hs| => TocEntry(hs[k], k))
  }

  /** The headings after their ids have been assigned. */
  function WithIds(hs: seq<Heading>): seq<Heading> {
    seq(|hs|, k requires 0 <= k < |hs| => hs[k].(id := HeadingId(k)))
  }

  /** A table of contents is built only for more than two headings. */
  predicate WantsToc(count: nat) {
    count > 2
  }

  /** The source's `forEach` over the headings: it overwrites each heading's id
      and appends its list item. With two headings or fewer nothing happens. */
  method AddTableOfContents(headings: array<Heading>) returns (toc: Option<seq<Entry>>)
    modifies headings
    ensures toc.Some? <==> WantsToc(headings.Length)
    ensures toc.Some? ==> toc.value == Entries(old(headings[..])) && headings[..] == WithIds(old(headings[..]))
    ensures toc.None? ==> headings[..] == old(headings[..])
  {
    if headings.Length <= 2 {
      return None;
    }
    var entries: seq<Entry> := [];
    for index := 0 to headings.Length
      invariant |entries| == index
      invariant forall k :: 0 <= k < index ==> entries[k] == TocEntry(old(headings[k]), k)
      invariant forall k :: 0 <= k < index ==> headings[k] == old(headings[k]).(id := HeadingId(k))
      invariant forall k :: index <= k < headings.Length ==> headings[k] == old(headings[k])
    {
      var id := HeadingId(index);
      headings[index] := headings[index].(id := id);
      var item := Entry("#" + id, headings[index].text, headings[index].level == H3);
      entries := entries + [item];
    }
    return Some(entries);
  }

  /** The guard around the call: the table of contents is only attempted when
      the Markdown text is longer than 1000 characters. */
  method AddTableOfContentsIfLong(markdown: string, headings: array<Heading>) returns (toc: Option<seq<Entry>>)
    modifies headings
    ensures toc.Some? <==> |markdown| > 1000 && WantsToc(headings.Length)
    ensures toc.Some? ==> toc.value == Entries(old(headings[..])) && headings[..] == WithIds(old(headings[..]))
    ensures toc.None? ==> headings[..] == old(headings[..])
  {
    if |markdown| > 1000 {
      toc := AddTableOfContents(headings);
    } else {
      toc := None;
    }
  }

  /** Entry `i` links to the id heading `i` receives, shows that heading's text,
      and is indented exactly when the heading is an `h3`; the entries are in
      document order, one per heading. */
  lemma EntriesLinkToHeadings(hs: seq<Heading>)
    ensures |Entries(hs)| == |WithIds(hs)| == |hs|
    ensures forall i :: 0 <= i < |hs| ==>
      && Entries(hs)[i].href == "#" + WithIds(hs)[i].id
      && Entries(hs)[i].text == WithIds(hs)[i].text == hs[i].text
      && (Entries(hs)[i].indented <==> hs[i].level == H3)
      && WithIds(hs)[i].level == hs[i].level
  {
  }

  /** Different positions get different ids. */
  lemma {:induction false} HeadingIdsDistinct(i: nat, j: nat)
    requires i != j
    ensures HeadingId(i) != HeadingId(j)
  {
    NatToStringInjective(i, j);
    var p := "heading-";
    assert HeadingId(i)[|p|..] == NatToString(i);
    assert HeadingId(j)[|p|..] == NatToString(j);
  }

  /** After the pass, no two headings share an id, so every link has exactly
      one target. */
  lemma WithIdsDistinct(hs: seq<Heading>)
    ensures forall i, j :: 0 <= i < j < |hs| ==> WithIds(hs)[i].id != WithIds(hs)[j].id
  {
    forall i, j | 0 <= i < j < |hs|
      ensures WithIds(hs)[i].id != WithIds(hs)[j].id
    {
      HeadingIdsDistinct(i, j);
    }
  }

  /** The index can be read back from an id. */
  lemma HeadingIdIndex(index: nat)
    ensures StartsWith(HeadingId(index), "heading-")
    ensures IsDigits(HeadingId(index)[8..]) && DigitsValue(HeadingId(index)[8..]) == index
  {
    assert HeadingId(index)[8..] == NatToString(index);
    DigitsValueOfNatToString(index);
  }

  /** Assigning the ids again changes nothing: the ids depend only on the
      positions, not on the ids the headings had before. */
  lemma WithIdsIdempotent(hs: seq<Heading>)
    ensures WithIds(WithIds(hs)) == WithIds(hs)
    ensures Entries(WithIds(hs)) == Entries(hs)
  {
  }

  // ---------------------------------------------------------------------
  // Where the table of contents goes among the children of the content
  // element.

  /** `insertBefore(toc, title.nextSibling)` when the title is found and has a
      next sibling, `insertBefore(toc, firstChild)` otherwise. `title` is the
      position of the `.file-title` child, if there is one. The result is the
      old children with the table of contents inserted at one position: right
      after the title, or first. */
  function PlaceToc<T>(children: seq<T>, title: Option<nat>, toc: T): (r: seq<T>)
    requires title.Some? ==> title.value < |children|
    ensures exists p :: 0 <= p <= |children| && r == children[..p] + [toc] + children[p..]
    ensures title.Some? && title.value + 1 < |children| ==> r[title.value + 1] == toc && r[..title.value + 1] == children[..title.value + 1]
    ensures !(title.Some? && title.value + 1 < |children|) ==> r[0] == toc && r[1..] == children
  {
    if title.Some? && title.value + 1 < |children| then
      var p := title.value + 1;
      children[..p] + [toc] + children[p..]
    else
      assert children == children[..0] + children[0..];
      [toc] + children
  }

  /** Removing the table of contents again gives the children back: the
      placement moves nothing else. */
  lemma {:induction false} PlaceTocKeepsChildren<T>(children: seq<T>, title: Option<nat>, toc: T)
    requires title.Some? ==> title.value < |children|
    ensures |PlaceToc(children, title, toc)| == |children| + 1
    ensures
      var r := PlaceToc(children, title, toc);
      var p := if title.Some? && title.value + 1 < |children| then title.value + 1 else 0;
      r[p] == toc && r[..p] + r[p + 1..] == children
  {
    var r := PlaceToc(children, title, toc);
    if title.Some? && title.value + 1 < |children| {
      var p := title.value + 1;
      assert r[p + 1..] == children[p..];
    }
  }
}
