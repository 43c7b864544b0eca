/**
 * `extract_table_of_contents` end to end (main.py:95-220): find the contents
 * page, collect its navigation links, clean and classify every label, resolve
 * the page ranges and add the `subject_range` column. Opening the document
 * and PyMuPDF's text and link extraction are replaced by the page records of
 * `Document`; the page count is the number of pages.
 */
module Extraction {
  import opened Wrappers
  import opened Text
  import opened Labels
  import opened Document
  import opened Outline

  /** The returned DataFrame: the rows of `toc_entries` and, row by row, the `subject_range` column. */
  datatype Table = Table(rows: seq<Row>, subjectRange: seq<string>)

  // ---------------------------------------------------------------------------
  // From links to entries (main.py:146-161)

  /** One row of `toc_data` after the three `apply` calls, as an element of `entries`. */
  function ToEntry(raw: RawEntry): Entry {
    var text := CleanText(raw.text);
    Entry(Classify(text), text, RemoveSectionPrefix(text), raw.target)
  }

  /**
   * An entry carries the cleaned label, free of dot leaders and stripped; it
   * is a Section exactly when the label contains "SECTION" in any case; its
   * cleaned subject is stripped and no longer than the label, and a Subject's
   * is the label itself.
   */
  lemma EntryOfLink(raw: RawEntry)
    ensures var e := ToEntry(raw);
      e.start == raw.target &&
      e.text == CleanText(raw.text) && NoDoubleDot(e.text) && IsStripped(e.text) &&
      (e.kind == Section <==> Contains(Upper(e.text), "SECTION")) &&
      IsStripped(e.cleaned) && |e.cleaned| <= |e.text| &&
      (e.kind == Subject ==> e.cleaned == e.text)
  {
    if Classify(CleanText(raw.text)) == Subject {
      SubjectCleanedIsLabel(raw.text);
    }
  }

  /** `entries`: the converted rows of `toc_data`, in order. */
  function EntriesOf(tocData: seq<RawEntry>): (es: seq<Entry>)
    ensures |es| == |tocData|
  {
    if tocData == [] then [] else EntriesOf(tocData[..|tocData| - 1]) + [ToEntry(tocData[|tocData| - 1])]
  }

  lemma EntriesOfStep(tocData: seq<RawEntry>, i: nat)
    requires i < |tocData|
    ensures EntriesOf(tocData[..i + 1]) == EntriesOf(tocData[..i]) + [ToEntry(tocData[i])]
  {
    assert tocData[..i + 1][..i] == tocData[..i];
  }

  /** Entry `i` is the conversion of link `i`. */
  lemma {:induction false} EntriesOfAt(tocData: seq<RawEntry>, i: nat)
    requires i < |tocData|
    ensures EntriesOf(tocData)[i] == ToEntry(tocData[i])
    decreases |tocData|
  {
    if i < |tocData| - 1 {
      EntriesOfAt(tocData[..|tocData| - 1], i);
    }
  }

  /** The `for _, row in df.iterrows()` loop that builds `entries` (main.py:154-161). */
  method BuildEntries(tocData: seq<RawEntry>) returns (entries: seq<Entry>)
    ensures entries == EntriesOf(tocData)
  {
    entries := [];
    for i := 0 to |tocData|
      invariant entries == EntriesOf(tocData[..i])
    {
      EntriesOfStep(tocData, i);
      entries := entries + [ToEntry(tocData[i])];
    }
    assert tocData[..|tocData|] == tocData;
  }

  // ---------------------------------------------------------------------------
  // subject_range (main.py:218-219)

  /**
   * `ending_page_number` as pandas writes it with `astype(str)`: a column
   * holding a `None` is a float column, so its numbers gain ".0" and the
   * missing value reads "nan".
   */
  function EndText(end: Option<int>, floatColumn: bool): string {
    if end.None? then "nan" else IntText(end.value) + (if floatColumn then ".0" else "")
  }

  /** Some row of the table has no ending page. */
  predicate HasOpenRow(rows: seq<Row>) {
    exists i :: 0 <= i < |rows| && rows[i].end.None?
  }

  /** The `subject_range` column: `"<start> - <end>"` for every row. */
  function SubjectRanges(rows: seq<Row>): seq<string> {
    seq(|rows|, i requires 0 <= i < |rows| => IntText(rows[i].start) + " - " + EndText(rows[i].end, HasOpenRow(rows)))
  }

  /** The run of decimal digits at the head of `s`. */
  function LeadingDigits(s: string): (r: string)
    ensures |r| <= |s| && r == s[..|r|]
    ensures forall i :: 0 <= i < |r| ==> IsDigit(r[i])
    ensures |r| < |s| ==> !IsDigit(s[|r|])
  {
    if s != [] && IsDigit(s[0]) then [s[0]] + LeadingDigits(s[1..]) else []
  }

  lemma {:induction false} LeadingDigitsOfNumber(d: string, t: string)
    requires forall i :: 0 <= i < |d| ==> IsDigit(d[i])
    requires t != [] && !IsDigit(t[0])
    ensures LeadingDigits(d + t) == d
    decreases |d|
  {
    if d == [] {
      assert d + t == t;
    } else {
      assert (d + t)[1..] == d[1..] + t;
      LeadingDigitsOfNumber(d[1..], t);
    }
  }

  /**
   * The `subject_range` text gives back the row's pages: its leading digits
   * are the starting page and, in a table without open rows, the digits after
   * `" - "` are the ending page.
   */
  lemma SubjectRangeReadsBack(rows: seq<Row>, i: nat)
    requires i < |rows| && rows[i].start >= 0
    ensures var t := SubjectRanges(rows)[i];
      DigitsValue(LeadingDigits(t)) == rows[i].start && |LeadingDigits(t)| + 3 <= |t| &&
      (rows[i].end.Some? && rows[i].end.value >= 0 && !HasOpenRow(rows) ==>
        DigitsValue(t[|LeadingDigits(t)| + 3..]) == rows[i].end.value)
  {
    var t := SubjectRanges(rows)[i];
    var s := NatText(rows[i].start);
    assert t == s + (" - " + EndText(rows[i].end, HasOpenRow(rows)));
    LeadingDigitsOfNumber(s, " - " + EndText(rows[i].end, HasOpenRow(rows)));
    NatTextRoundTrip(rows[i].start);
    if rows[i].end.Some? && rows[i].end.value >= 0 && !HasOpenRow(rows) {
      assert t[|s| + 3..] == NatText(rows[i].end.value);
      NatTextRoundTrip(rows[i].end.value);
    }
  }

  // ---------------------------------------------------------------------------
  // The whole function

  /** The rows the page-range pass leaves, for a document of `pageCount` pages. */
  function ResolvedRows(es: seq<Entry>, pageCount: int): seq<Row> {
    seq(|es|, j requires 0 <= j < |es| => ResolvedRow(es, pageCount, j))
  }

  /** What `extract_table_of_contents` returns for a document with these pages: `None` or the table. */
  function TableOf(pages: seq<Page>): Option<Table> {
    var anchor := AnchorPage(pages);
    if anchor.None? then None
    else
      var tocData := WalkEntries(pages, anchor.value);
      if tocData == [] then None
      else
        var rows := ResolvedRows(EntriesOf(tocData), |pages|);
        Some(Table(rows, SubjectRanges(rows)))
  }

  /** `extract_table_of_contents` (main.py:95-220). */
  method ExtractTableOfContents(pages: seq<Page>) returns (table: Option<Table>)
    ensures table == TableOf(pages)
  {
    var anchor := FindAnchor(pages);
    if anchor.None? {
      return None;
    }
    var tocData := CollectLinks(pages, anchor.value);
    if tocData == [] {
      return None;
    }
    var entries := BuildEntries(tocData);
    var rows := ResolvePageRanges(entries, |pages|);
    assert rows == ResolvedRows(entries, |pages|);
    table := Some(Table(rows, SubjectRanges(rows)));
  }

  // ---------------------------------------------------------------------------
  // Properties of the result

  /** Without a page mentioning contents among the first six, there is no table. */
  lemma NoContentsPageNoTable(pages: seq<Page>)
    requires forall i :: 0 <= i < ScanLimit(|pages|) ==> !MentionsContents(pages[i].text)
    ensures TableOf(pages).None?
  {
    assert AnchorFrom(pages, 0).None?;
  }

  /**
   * A table has one row per kept link, in link order: the row carries the
   * cleaned link text and starts at the link's target page, which is
   * positive; a row is a Section exactly when its label contains "SECTION" in
   * any case, and a Subject keeps its label as its cleaned subject; the last
   * row ends at the last page of the document.
   */
  lemma TableFollowsLinks(pages: seq<Page>)
    requires TableOf(pages).Some?
    ensures var anchor := AnchorPage(pages);
      var rows := TableOf(pages).value.rows;
      anchor.Some? &&
      |rows| == |WalkEntries(pages, anchor.value)| > 0 &&
      |TableOf(pages).value.subjectRange| == |rows| &&
      rows[|rows| - 1].end == Some(|pages|) &&
      forall j :: 0 <= j < |rows| ==>
        var raw := WalkEntries(pages, anchor.value)[j];
        rows[j].subject == CleanText(raw.text) &&
        rows[j].start == raw.target > 0 &&
        (rows[j].kind == Section <==> Contains(Upper(rows[j].subject), "SECTION")) &&
        (rows[j].kind == Subject ==> rows[j].cleanedSubject == rows[j].subject)
  {
    var anchor := AnchorPage(pages);
    var tocData := WalkEntries(pages, anchor.value);
    var es := EntriesOf(tocData);
    var rows := ResolvedRows(es, |pages|);
    assert TableOf(pages).value.rows == rows;
    LastRowEndsAtPageCount(es, |pages|);
    CollectedRows(pages, anchor.value, WalkEnd(pages, anchor.value));
    forall j | 0 <= j < |rows|
      ensures rows[j].subject == CleanText(tocData[j].text) && rows[j].start == tocData[j].target > 0
      ensures rows[j].kind == Section <==> Contains(Upper(rows[j].subject), "SECTION")
      ensures rows[j].kind == Subject ==> rows[j].cleanedSubject == rows[j].subject
    {
      assert tocData[j] in tocData;
      RowKeepsEntry(es, |pages|, j);
      EntriesOfAt(tocData, j);
      EntryOfLink(tocData[j]);
    }
  }

}
