/**
 * The citation block the chat handler appends to every generated answer:
 * retrieved documents are grouped by `source` in first-seen order, each
 * group's pages are collected into a set, and each group is rendered as one
 * numbered Markdown line with a percent-encoded link.
 */
module Citations {
  import opened Common
  import opened Strings
  import opened PageSort
  import opened PercentEncoding

  /** The metadata of one retrieved document: its `source` and its optional `page`. */
  datatype SourceDocument = SourceDocument(source: string, page: Option<int>)

  /** `doc.metadata.get("page", 1)`. */
  function PageOf(d: SourceDocument): (page: int) {
    d.page.GetOr(1)
  }

  /** One entry of the `sources` dict: a source and the pages of its set, each listed once. */
  datatype SourceGroup = SourceGroup(source: string, pages: seq<int>)

  /** What separates the answer from the citation lines; it is emitted even with no sources. */
  const SourcesHeader: string := "\n\n**Sources:**\n"

  /** The distinct sources among the retrieved documents. */
  ghost function DocSources(docs: seq<SourceDocument>): set<string> {
    set k | 0 <= k < |docs| :: docs[k].source
  }

  /** The pages retrieved for source `s`, with the default page 1 for documents without one. */
  ghost function PagesFor(docs: seq<SourceDocument>, s: string): set<int> {
    set k | 0 <= k < |docs| && docs[k].source == s :: PageOf(docs[k])
  }

  /** The position at which `s` is first seen among the documents (`|docs|` when never). */
  function FirstIndex(docs: seq<SourceDocument>, s: string): (k: nat)
    ensures k <= |docs|
    decreases |docs|
  {
    if |docs| == 0 then 0
    else if docs[0].source == s then 0
    else 1 + FirstIndex(docs[1..], s)
  }

  /** The sources of the groups, in order: the keys of the `sources` dict. */
  function Sources(groups: seq<SourceGroup>): (r: seq<string>)
    ensures |r| == |groups|
    ensures forall i :: 0 <= i < |groups| ==> r[i] == groups[i].source
  {
    seq(|groups|, i requires 0 <= i < |groups| => groups[i].source)
  }

  /** The position of the group for `s`, or `|groups|` when there is none yet. */
  function FindGroup(groups: seq<SourceGroup>, s: string): (k: nat)
    ensures k <= |groups|
    ensures k < |groups| ==> groups[k].source == s
    ensures k == |groups| ==> s !in Sources(groups)
    decreases |groups|
  {
    if |groups| == 0 then 0
    else if groups[0].source == s then 0
    else
      assert Sources(groups) == [groups[0].source] + Sources(groups[1..]);
      1 + FindGroup(groups[1..], s)
  }

  /** `pages.add(p)` on the page set of one group. */
  function AddPage(pages: seq<int>, p: int): (r: seq<int>)
    ensures Elems(r) == Elems(pages) + {p}
  {
    if p in pages then pages else pages + [p]
  }

  /** One iteration of the grouping loop: a new source opens a group at the end. */
  function AddDocument(groups: seq<SourceGroup>, d: SourceDocument): (r: seq<SourceGroup>)
    ensures |r| == |groups| + 1 <==> d.source !in Sources(groups)
    ensures |r| == |groups| || |r| == |groups| + 1
    ensures Sources(r)[..|groups|] == Sources(groups)
  {
    var k := FindGroup(groups, d.source);
    if k == |groups| then groups + [SourceGroup(d.source, [PageOf(d)])]
    else groups[k := groups[k].(pages := AddPage(groups[k].pages, PageOf(d)))]
  }

  /** The `sources` dict after the loop over all retrieved documents, in insertion order. */
  function GroupBySource(docs: seq<SourceDocument>): (groups: seq<SourceGroup>)
    ensures |groups| <= |docs|
    decreases |docs|
  {
    if |docs| == 0 then []
    else AddDocument(GroupBySource(docs[..|docs| - 1]), docs[|docs| - 1])
  }

  lemma DocSourcesSnoc(pre: seq<SourceDocument>, d: SourceDocument)
    ensures DocSources(pre + [d]) == DocSources(pre) + {d.source}
  {
    var docs := pre + [d];
    assert docs[|pre|].source == d.source;
    forall s | s in DocSources(pre)
      ensures s in DocSources(docs)
    {
      var k :| 0 <= k < |pre| && pre[k].source == s;
      assert docs[k] == pre[k];
    }
  }

  lemma PagesForSnoc(pre: seq<SourceDocument>, d: SourceDocument, s: string)
    ensures PagesFor(pre + [d], s) == PagesFor(pre, s) + (if d.source == s then {PageOf(d)} else {})
  {
    var docs := pre + [d];
    assert docs[|pre|] == d;
    forall p | p in PagesFor(pre, s)
      ensures p in PagesFor(docs, s)
    {
      var k :| 0 <= k < |pre| && pre[k].source == s && PageOf(pre[k]) == p;
      assert docs[k] == pre[k];
    }
    forall p | p in PagesFor(docs, s)
      ensures p in PagesFor(pre, s) + (if d.source == s then {PageOf(d)} else {})
    {
      var k :| 0 <= k < |docs| && docs[k].source == s && PageOf(docs[k]) == p;
      if k < |pre| {
        assert docs[k] == pre[k];
      }
    }
  }

  lemma {:induction false} FirstIndexSnoc(pre: seq<SourceDocument>, d: SourceDocument, s: string)
    ensures s in DocSources(pre) ==> FirstIndex(pre + [d], s) == FirstIndex(pre, s) < |pre|
    ensures s !in DocSources(pre) && d.source == s ==> FirstIndex(pre + [d], s) == |pre|
    decreases |pre|
  {
    if |pre| > 0 {
      assert (pre + [d])[1..] == pre[1..] + [d];
      FirstIndexSnoc(pre[1..], d, s);
      if pre[0].source != s {
        assert DocSources(pre) == {pre[0].source} + DocSources(pre[1..]) by {
          DocSourcesSnoc([], pre[0]);
          assert pre == [pre[0]] + pre[1..];
          forall t | t in DocSources(pre)
            ensures t in {pre[0].source} + DocSources(pre[1..])
          {
            var k :| 0 <= k < |pre| && pre[k].source == t;
            if k > 0 {
              assert pre[1..][k - 1] == pre[k];
            }
          }
          forall t | t in DocSources(pre[1..])
            ensures t in DocSources(pre)
          {
            var k :| 0 <= k < |pre[1..]| && pre[1..][k].source == t;
            assert pre[k + 1] == pre[1..][k];
          }
        }
      } else {
        assert pre[0].source in DocSources(pre);
      }
    } else {
      assert pre + [d] == [d];
      assert DocSources(pre) == {};
    }
  }

  /** No source has two groups. */
  ghost predicate DistinctSources(groups: seq<SourceGroup>) {
    forall i, j :: 0 <= i < j < |groups| ==> groups[i].source != groups[j].source
  }

  /** The groups are for exactly the retrieved sources. */
  ghost predicate CoversSources(groups: seq<SourceGroup>, docs: seq<SourceDocument>) {
    && (forall i :: 0 <= i < |groups| ==> groups[i].source in DocSources(docs))
    && (forall k :: 0 <= k < |docs| ==> docs[k].source in Sources(groups))
  }

  /** Each group holds exactly the pages retrieved for its source. */
  ghost predicate PagesMatch(groups: seq<SourceGroup>, docs: seq<SourceDocument>) {
    forall i :: 0 <= i < |groups| ==> Elems(groups[i].pages) == PagesFor(docs, groups[i].source)
  }

  /** Groups are ordered by where their source is first seen. */
  ghost predicate FirstSeenOrder(groups: seq<SourceGroup>, docs: seq<SourceDocument>) {
    forall i, j :: 0 <= i < j < |groups| ==> FirstIndex(docs, groups[i].source) < FirstIndex(docs, groups[j].source)
  }

  /** Which sources have a group, in which order, and with which pages. */
  ghost predicate GroupsMatch(groups: seq<SourceGroup>, docs: seq<SourceDocument>) {
    && DistinctSources(groups)
    && CoversSources(groups, docs)
    && PagesMatch(groups, docs)
    && FirstSeenOrder(groups, docs)
    && |groups| == |DocSources(docs)|
  }

  lemma NotYetSeen(groups: seq<SourceGroup>, pre: seq<SourceDocument>, s: string)
    requires CoversSources(groups, pre)
    requires s !in Sources(groups)
    ensures s !in DocSources(pre)
  {
    forall k | 0 <= k < |pre| ensures pre[k].source != s {
      assert pre[k].source in Sources(groups);
    }
  }

  lemma NewSourceOrder(groups: seq<SourceGroup>, pre: seq<SourceDocument>, d: SourceDocument)
    requires FirstSeenOrder(groups, pre) && CoversSources(groups, pre)
    requires d.source !in DocSources(pre)
    ensures FirstSeenOrder(groups + [SourceGroup(d.source, [PageOf(d)])], pre + [d])
  {
    var docs := pre + [d];
    var r := groups + [SourceGroup(d.source, [PageOf(d)])];
    FirstIndexSnoc(pre, d, d.source);
    forall i | 0 <= i < |groups|
      ensures FirstIndex(docs, r[i].source) == FirstIndex(pre, groups[i].source) < |pre|
    {
      FirstIndexSnoc(pre, d, groups[i].source);
    }
  }

  lemma NewSourcePages(groups: seq<SourceGroup>, pre: seq<SourceDocument>, d: SourceDocument)
    requires PagesMatch(groups, pre) && CoversSources(groups, pre)
    requires d.source !in DocSources(pre)
    ensures PagesMatch(groups + [SourceGroup(d.source, [PageOf(d)])], pre + [d])
  {
    var docs := pre + [d];
    var s := d.source;
    var r := groups + [SourceGroup(s, [PageOf(d)])];
    forall i | 0 <= i < |groups|
      ensures Elems(r[i].pages) == PagesFor(docs, r[i].source)
    {
      PagesForSnoc(pre, d, groups[i].source);
    }
    PagesForSnoc(pre, d, s);
    assert PagesFor(pre, s) == {} by {
      forall k | 0 <= k < |pre| ensures pre[k].source != s {
        assert pre[k].source in DocSources(pre);
      }
    }
    assert Elems([PageOf(d)]) == {PageOf(d)};
  }

  lemma NewSourceCovers(groups: seq<SourceGroup>, pre: seq<SourceDocument>, d: SourceDocument)
    requires CoversSources(groups, pre)
    ensures CoversSources(groups + [SourceGroup(d.source, [PageOf(d)])], pre + [d])
  {
    var docs := pre + [d];
    var s := d.source;
    var r := groups + [SourceGroup(s, [PageOf(d)])];
    DocSourcesSnoc(pre, d);
    forall k | 0 <= k < |docs| ensures docs[k].source in Sources(r) {
      if k < |pre| {
        assert docs[k] == pre[k];
        var i :| 0 <= i < |groups| && Sources(groups)[i] == pre[k].source;
        assert Sources(r)[i] == pre[k].source;
      } else {
        assert Sources(r)[|groups|] == s;
      }
    }
  }

  lemma NewSourceMatches(groups: seq<SourceGroup>, pre: seq<SourceDocument>, d: SourceDocument)
    requires GroupsMatch(groups, pre)
    requires d.source !in Sources(groups)
    ensures GroupsMatch(groups + [SourceGroup(d.source, [PageOf(d)])], pre + [d])
  {
    NotYetSeen(groups, pre, d.source);
    DocSourcesSnoc(pre, d);
    NewSourceOrder(groups, pre, d);
    NewSourcePages(groups, pre, d);
    NewSourceCovers(groups, pre, d);
  }

  /** Adding a page to an existing group keeps which sources have groups, and their order. */
  lemma KnownSourceCovers(groups: seq<SourceGroup>, pre: seq<SourceDocument>, d: SourceDocument, k: nat)
    requires GroupsMatch(groups, pre)
    requires k < |groups| && groups[k].source == d.source
    ensures var r := groups[k := groups[k].(pages := AddPage(groups[k].pages, PageOf(d)))];
            && Sources(r) == Sources(groups)
            && DistinctSources(r)
            && CoversSources(r, pre + [d])
            && |r| == |DocSources(pre + [d])|
  {
    var docs := pre + [d];
    var r := groups[k := groups[k].(pages := AddPage(groups[k].pages, PageOf(d)))];
    DocSourcesSnoc(pre, d);
    assert DocSources(docs) == DocSources(pre);
    assert Sources(r) == Sources(groups);
    forall j | 0 <= j < |docs| ensures docs[j].source in Sources(r) {
      if j < |pre| {
        assert docs[j] == pre[j];
      } else {
        assert Sources(r)[k] == d.source;
      }
    }
  }

  /** Adding a page to an existing group keeps first-seen order and gives it exactly its retrieved pages. */
  lemma KnownSourceOrderAndPages(groups: seq<SourceGroup>, pre: seq<SourceDocument>, d: SourceDocument, k: nat)
    requires GroupsMatch(groups, pre)
    requires k < |groups| && groups[k].source == d.source
    ensures var r := groups[k := groups[k].(pages := AddPage(groups[k].pages, PageOf(d)))];
            PagesMatch(r, pre + [d]) && FirstSeenOrder(r, pre + [d])
  {
    var docs := pre + [d];
    var r := groups[k := groups[k].(pages := AddPage(groups[k].pages, PageOf(d)))];
    forall i | 0 <= i < |groups|
      ensures FirstIndex(docs, r[i].source) == FirstIndex(pre, groups[i].source)
      ensures Elems(r[i].pages) == PagesFor(docs, r[i].source)
    {
      assert groups[i].source in DocSources(pre);
      FirstIndexSnoc(pre, d, groups[i].source);
      PagesForSnoc(pre, d, groups[i].source);
    }
  }

  lemma KnownSourceMatches(groups: seq<SourceGroup>, pre: seq<SourceDocument>, d: SourceDocument, k: nat)
    requires GroupsMatch(groups, pre)
    requires k < |groups| && groups[k].source == d.source
    ensures GroupsMatch(groups[k := groups[k].(pages := AddPage(groups[k].pages, PageOf(d)))], pre + [d])
  {
    KnownSourceCovers(groups, pre, d, k);
    KnownSourceOrderAndPages(groups, pre, d, k);
  }


  lemma AddDocumentMatches(groups: seq<SourceGroup>, pre: seq<SourceDocument>, d: SourceDocument)
    requires GroupsMatch(groups, pre)
    ensures GroupsMatch(AddDocument(groups, d), pre + [d])
  {
    var k := FindGroup(groups, d.source);
    if k == |groups| {
      NewSourceMatches(groups, pre, d);
    } else {
      KnownSourceMatches(groups, pre, d, k);
    }
  }

  /**
   * The grouping loop yields one group per distinct source, in first-seen
   * order, each holding exactly the pages retrieved for its source.
   */
  lemma {:induction false} GroupBySourceCorrect(docs: seq<SourceDocument>)
    ensures GroupsMatch(GroupBySource(docs), docs)
    decreases |docs|
  {
    if |docs| == 0 {
      assert DocSources(docs) == {};
    } else {
      var pre := docs[..|docs| - 1];
      var d := docs[|docs| - 1];
      GroupBySourceCorrect(pre);
      assert pre + [d] == docs;
      AddDocumentMatches(GroupBySource(pre), pre, d);
    }
  }

  /** The string forms of the page numbers, `map(str, pages)`. */
  function PageStrings(pages: seq<int>): (r: seq<string>)
    ensures |r| == |pages|
  {
    seq(|pages|, i requires 0 <= i < |pages| => IntToString(pages[i]))
  }

  /** One citation line, given the group's pages already sorted. */
  function FormatLine(number: int, source: string, sortedPages: seq<int>, baseUrl: string): (line: string) {
    IntToString(number) + ". [" + source + "](" + baseUrl + "/documents/" + Quote(source) + "), Page Number: "
      + Join(", ", PageStrings(sortedPages))
  }

  /** The `source_info` list: the line of the i-th group carries the number i + 1. */
  function CitationLines(groups: seq<SourceGroup>, baseUrl: string): (lines: seq<string>)
    ensures |lines| == |groups|
  {
    seq(|groups|, i requires 0 <= i < |groups| => FormatLine(i + 1, groups[i].source, Sort(groups[i].pages), baseUrl))
  }

  /** The final answer text: the generated answer, the header, then one line per source. */
  function Render(answer: string, docs: seq<SourceDocument>, baseUrl: string): (text: string)
    ensures answer + SourcesHeader <= text
  {
    answer + SourcesHeader + Join("\n", CitationLines(GroupBySource(docs), baseUrl))
  }

  /** A line renders its group's pages as any ascending duplicate-free list of them, since there is only one. */
  lemma LineOfGroup(groups: seq<SourceGroup>, baseUrl: string, i: nat, ps: seq<int>)
    requires i < |groups|
    requires StrictlyIncreasing(ps) && Elems(ps) == Elems(groups[i].pages)
    ensures CitationLines(groups, baseUrl)[i] == FormatLine(i + 1, groups[i].source, ps, baseUrl)
  {
    var sorted := Sort(groups[i].pages);
    StrictlyIncreasingUnique(sorted, ps);
    assert CitationLines(groups, baseUrl)[i] == FormatLine(i + 1, groups[i].source, sorted, baseUrl);
  }

  /**
   * Line i of the rendered block cites the i-th source in first-seen order,
   * with its link and with the ascending, duplicate-free list of its pages;
   * there are exactly as many lines as distinct sources.
   */
  lemma CitationLinesCorrect(docs: seq<SourceDocument>, baseUrl: string)
    ensures |CitationLines(GroupBySource(docs), baseUrl)| == |DocSources(docs)|
    ensures forall i, ps :: 0 <= i < |GroupBySource(docs)| && StrictlyIncreasing(ps)
                            && Elems(ps) == PagesFor(docs, GroupBySource(docs)[i].source) ==>
              CitationLines(GroupBySource(docs), baseUrl)[i] == FormatLine(i + 1, GroupBySource(docs)[i].source, ps, baseUrl)
  {
    var groups := GroupBySource(docs);
    GroupBySourceCorrect(docs);
    assert PagesMatch(groups, docs);
    forall i, ps | 0 <= i < |groups| && StrictlyIncreasing(ps) && Elems(ps) == PagesFor(docs, groups[i].source)
      ensures CitationLines(groups, baseUrl)[i] == FormatLine(i + 1, groups[i].source, ps, baseUrl)
    {
      LineOfGroup(groups, baseUrl, i, ps);
    }
  }

  /** With nothing retrieved the header is still there, followed by no lines. */
  lemma NoDocumentsStillHasHeader(answer: string, baseUrl: string)
    ensures Render(answer, [], baseUrl) == answer + "\n\n**Sources:**\n"
  {
  }

  /** The pieces after the first in a ", "-joined page list. */
  function ParseLaterPages(pieces: seq<string>): (pages: Option<seq<int>>)
    decreases |pieces|
  {
    if |pieces| == 0 then Some([])
    else if |pieces[0]| >= 1 && pieces[0][0] == ' ' then
      match (ParseInt(pieces[0][1..]), ParseLaterPages(pieces[1..]))
      case (Some(p), Some(rest)) => Some([p] + rest)
      case _ => None
    else None
  }

  /** Reads a "Page Number:" list such as "1, 2, 10" back into its numbers. */
  function ParsePageList(s: string): (pages: Option<seq<int>>) {
    var pieces := Split(s, ',');
    match (ParseInt(pieces[0]), ParseLaterPages(pieces[1..]))
    case (Some(p), Some(rest)) => Some([p] + rest)
    case _ => None
  }

  lemma {:induction false} ParseLaterPagesRoundTrip(pieces: seq<string>, xs: seq<int>)
    requires |pieces| == |xs|
    requires forall i :: 0 <= i < |xs| ==> pieces[i] == " " + IntToString(xs[i])
    ensures ParseLaterPages(pieces) == Some(xs)
    decreases |xs|
  {
    if |xs| > 0 {
      assert pieces[0][1..] == IntToString(xs[0]);
      IntToStringRoundTrip(xs[0]);
      ParseLaterPagesRoundTrip(pieces[1..], xs[1..]);
      assert [xs[0]] + xs[1..] == xs;
    }
  }

  lemma PageListPieces(pages: seq<int>)
    requires |pages| >= 1
    ensures |Split(Join(", ", PageStrings(pages)), ',')| == |pages|
    ensures Split(Join(", ", PageStrings(pages)), ',')[0] == IntToString(pages[0])
    ensures forall i :: 1 <= i < |pages| ==> Split(Join(", ", PageStrings(pages)), ',')[i] == " " + IntToString(pages[i])
  {
    var strs := PageStrings(pages);
    forall i | 0 <= i < |strs| ensures ',' !in strs[i] {
      IntToStringAvoids(pages[i], ',');
    }
    assert [','] + " " == ", ";
    SplitJoin(',', " ", strs);
  }

  /** A rendered "Page Number:" list reads back as the pages it was rendered from. */
  lemma PageListRoundTrip(pages: seq<int>)
    requires |pages| >= 1
    ensures ParsePageList(Join(", ", PageStrings(pages))) == Some(pages)
  {
    var pieces := Split(Join(", ", PageStrings(pages)), ',');
    PageListPieces(pages);
    ParseLaterPagesRoundTrip(pieces[1..], pages[1..]);
    IntToStringRoundTrip(pages[0]);
    assert [pages[0]] + pages[1..] == pages;
  }

  lemma FormatLineOneLine(number: int, source: string, sortedPages: seq<int>, baseUrl: string)
    requires '\n' !in source && '\n' !in baseUrl
    ensures '\n' !in FormatLine(number, source, sortedPages, baseUrl)
  {
    var num := IntToString(number);
    assert '\n' !in num by {
      IntToStringAvoids(number, '\n');
    }
    var strs := PageStrings(sortedPages);
    var pageList := Join(", ", strs);
    assert '\n' !in pageList by {
      forall i | 0 <= i < |strs| ensures '\n' !in strs[i] {
        IntToStringAvoids(sortedPages[i], '\n');
      }
      JoinAvoids(", ", strs, '\n');
    }
    var quoted := Quote(source);
    var line := num + ". [";
    assert '\n' !in line;
    line := line + source + "](";
    assert '\n' !in line;
    line := line + baseUrl + "/documents/";
    assert '\n' !in line;
    line := line + quoted + "), Page Number: ";
    assert '\n' !in line;
    line := line + pageList;
    assert FormatLine(number, source, sortedPages, baseUrl) == line;
  }

  /** No citation line contains a line break when no source and not the base URL does. */
  lemma CitationLinesOneLine(groups: seq<SourceGroup>, baseUrl: string)
    requires forall k :: 0 <= k < |groups| ==> '\n' !in groups[k].source
    requires '\n' !in baseUrl
    ensures forall i :: 0 <= i < |groups| ==> '\n' !in CitationLines(groups, baseUrl)[i]
  {
    forall i | 0 <= i < |groups| ensures '\n' !in CitationLines(groups, baseUrl)[i] {
      FormatLineOneLine(i + 1, groups[i].source, Sort(groups[i].pages), baseUrl);
    }
  }

  /**
   * When neither the file names nor the base URL contain a newline, the block
   * after the header splits into exactly the citation lines, one per source.
   */
  lemma CitationBlockSplitsIntoLines(docs: seq<SourceDocument>, baseUrl: string)
    requires forall k :: 0 <= k < |docs| ==> '\n' !in docs[k].source
    requires '\n' !in baseUrl
    requires |docs| >= 1
    ensures Split(Join("\n", CitationLines(GroupBySource(docs), baseUrl)), '\n') == CitationLines(GroupBySource(docs), baseUrl)
    ensures |Split(Join("\n", CitationLines(GroupBySource(docs), baseUrl)), '\n')| == |DocSources(docs)|
  {
    var groups := GroupBySource(docs);
    GroupBySourceCorrect(docs);
    assert docs[0].source in DocSources(docs);
    forall i | 0 <= i < |groups| ensures '\n' !in groups[i].source {
      assert groups[i].source in DocSources(docs);
    }
    CitationLinesOneLine(groups, baseUrl);
    SplitJoinBare('\n', CitationLines(groups, baseUrl));
  }


  /** An example: source `a` on page `p` and then on a lower page `q`, then another source `b` without a page. */
  function ExampleDocs(a: string, b: string, p: int, q: int): seq<SourceDocument> {
    [SourceDocument(a, Some(p)), SourceDocument(a, Some(q)), SourceDocument(b, None)]
  }

  /** The example groups as `a` with pages `p, q` in arrival order, then `b` with the default page 1. */
  lemma ExampleGrouping(a: string, b: string, p: int, q: int)
    requires a != b && q < p
    ensures GroupBySource(ExampleDocs(a, b, p, q)) == [SourceGroup(a, [p, q]), SourceGroup(b, [1])]
  {
    var docs := ExampleDocs(a, b, p, q);
    var one := [SourceGroup(a, [p])];
    var two := [SourceGroup(a, [p, q])];
    assert docs[..1][..0] == [];
    assert GroupBySource(docs[..1]) == AddDocument([], docs[0]);
    assert AddDocument([], docs[0]) == one;
    assert docs[..2][..1] == docs[..1];
    assert GroupBySource(docs[..2]) == AddDocument(one, docs[1]);
    assert FindGroup(one, a) == 0;
    assert AddPage([p], q) == [p, q];
    assert AddDocument(one, docs[1]) == two;
    assert GroupBySource(docs) == AddDocument(two, docs[2]);
    assert FindGroup(two, b) == 1;
  }

  lemma ExampleSort(p: int, q: int)
    requires q < p
    ensures Sort([p, q]) == [q, p]
  {
    assert [p, q][..1] == [p];
    assert Sort([p]) == [p];
  }

  /** The example's lines: `a` first with pages `q, p` although `p` came first, then `b` on the default page. */
  lemma ExampleCitations(a: string, b: string, p: int, q: int, baseUrl: string)
    requires a != b && q < p
    ensures CitationLines(GroupBySource(ExampleDocs(a, b, p, q)), baseUrl)
         == [FormatLine(1, a, [q, p], baseUrl), FormatLine(2, b, [1], baseUrl)]
  {
    var groups := GroupBySource(ExampleDocs(a, b, p, q));
    ExampleGrouping(a, b, p, q);
    ExampleSort(p, q);
    PageSortOfOne();
    var lines := CitationLines(groups, baseUrl);
    assert |lines| == 2;
    assert lines[0] == FormatLine(1, a, [q, p], baseUrl);
    assert lines[1] == FormatLine(2, b, [1], baseUrl);
  }

  lemma PageSortOfOne()
    ensures Sort([1]) == [1]
  {
    assert [1][..0] == [];
  }
}
