/**
 * The page-range resolution pass of `extract_table_of_contents`
 * (main.py:154-216): the cleaned entries become the rows of `toc_entries`,
 * and every row receives an ending page and the page range of the section
 * it belongs to.
 *
 * The pass is a loop that appends rows and updates earlier rows in place; it
 * is modelled as the method `ResolvePageRanges` over a sequence of rows and
 * proved equal, row by row, to the closed form `ResolvedRow`, which says
 * directly which page ends each row and which pages bound its section.
 */
module Outline {
  import opened Wrappers
  import opened Labels

  /** One element of `entries`: type, cleaned label, label without its prefix, 1-based starting page. */
  datatype Entry = Entry(kind: EntryType, text: string, cleaned: string, start: int)

  /**
   * `section_range`, the f-string `f"{start}-{end}"`: its first page is
   * absent (`None`) only when no Section was ever seen.
   */
  datatype Span = Span(lo: Option<int>, hi: int)

  /** One dict of `toc_entries`. */
  datatype Row = Row(
    kind: EntryType,
    subject: string,
    cleanedSubject: string,
    start: int,
    end: Option<int>,
    section: Option<string>,
    sectionRange: Option<Span>)

  function Max(a: int, b: int): (r: int)
    ensures r >= a && r >= b && (r == a || r == b)
  {
    if a >= b then a else b
  }

  // ---------------------------------------------------------------------------
  // Where the sections are

  function KindsOf(es: seq<Entry>): seq<EntryType> {
    seq(|es|, i requires 0 <= i < |es| => es[i].kind)
  }

  /** The last Section among the first `k` entries. */
  function LastSectionBefore(kinds: seq<EntryType>, k: nat): (r: Option<nat>)
    requires k <= |kinds|
    ensures r.Some? ==> r.value < k && kinds[r.value] == Section
    ensures r.Some? ==> forall i :: r.value < i < k ==> kinds[i] == Subject
    ensures r.None? ==> forall i :: 0 <= i < k ==> kinds[i] == Subject
  {
    if k == 0 then None
    else if kinds[k - 1] == Section then Some(k - 1)
    else
      var r := LastSectionBefore(kinds, k - 1);
      assert kinds[k - 1] == Subject;
      r
  }

  /** The first Section after entry `j`. */
  function FirstSectionAfter(kinds: seq<EntryType>, j: nat): (r: Option<nat>)
    requires j < |kinds|
    ensures r.Some? ==> j < r.value < |kinds| && kinds[r.value] == Section
    ensures r.Some? ==> forall i :: j < i < r.value ==> kinds[i] == Subject
    ensures r.None? ==> forall i :: j < i < |kinds| ==> kinds[i] == Subject
    decreases |kinds| - j
  {
    if j + 1 == |kinds| then None
    else if kinds[j + 1] == Section then Some(j + 1)
    else
      var r := FirstSectionAfter(kinds, j + 1);
      assert kinds[j + 1] == Subject;
      r
  }

  /** `current_section` once the first `k` entries are processed. */
  function SectionLabel(es: seq<Entry>, k: nat): Option<string>
    requires k <= |es|
  {
    var s := LastSectionBefore(KindsOf(es), k);
    if s.Some? then Some(es[s.value].text) else None
  }

  /** `current_section_start` once the first `k` entries are processed. */
  function SectionStart(es: seq<Entry>, k: nat): Option<int>
    requires k <= |es|
  {
    var s := LastSectionBefore(KindsOf(es), k);
    if s.Some? then Some(es[s.value].start) else None
  }

  /** The Section entry row `j` belongs to: itself when it is a Section. */
  function OwnerOf(es: seq<Entry>, j: nat): Option<nat>
    requires j < |es|
  {
    LastSectionBefore(KindsOf(es), j + 1)
  }

  // ---------------------------------------------------------------------------
  // The closed form

  /**
   * The ending page the pass gives a row that has a successor: the successor's
   * start minus one, but never before its own start when the successor is a
   * Subject; when the successor is a Section, only a row that belongs to a
   * section is closed.
   */
  function EndAfter(es: seq<Entry>, j: nat): Option<int>
    requires j + 1 < |es|
  {
    if es[j + 1].kind == Subject then Some(Max(es[j].start, es[j + 1].start - 1))
    else if OwnerOf(es, j).Some? then Some(es[j + 1].start - 1)
    else None
  }

  /** The section range of row `j` once the first `k` entries are processed. */
  function RangeAt(es: seq<Entry>, k: nat, j: nat): Option<Span>
    requires j < k <= |es|
  {
    var o := OwnerOf(es, j);
    var m := FirstSectionAfter(KindsOf(es), j);
    if o.Some? && m.Some? && m.value < k then Some(Span(Some(es[o.value].start), es[m.value].start - 1))
    else None
  }

  /** Row `j` of `toc_entries` once the first `k` entries are processed. */
  function RowAt(es: seq<Entry>, k: nat, j: nat): Row
    requires j < k <= |es|
  {
    Row(es[j].kind, es[j].text, es[j].cleaned, es[j].start,
        if j + 1 < k then EndAfter(es, j) else None,
        SectionLabel(es, j + 1),
        RangeAt(es, k, j))
  }

  /**
   * Row `j` as the pass leaves it, for a document of `pageCount` pages. The
   * last row ends at the last page. A row of a section spans, as its section
   * range, from the section's first page to the page before the next section,
   * or to the last page. The rows before the first section have no section
   * range, unless there is no section at all: then they all get one that
   * ends at the last page and has no first page.
   */
  function ResolvedRow(es: seq<Entry>, pageCount: int, j: nat): Row
    requires j < |es|
  {
    var o := OwnerOf(es, j);
    var m := FirstSectionAfter(KindsOf(es), j);
    var range :=
      if o.Some? then Some(Span(Some(es[o.value].start), if m.Some? then es[m.value].start - 1 else pageCount))
      else if LastSectionBefore(KindsOf(es), |es|).None? then Some(Span(None, pageCount))
      else None;
    Row(es[j].kind, es[j].text, es[j].cleaned, es[j].start,
        if j + 1 < |es| then EndAfter(es, j) else Some(pageCount),
        SectionLabel(es, j + 1),
        range)
  }

  // ---------------------------------------------------------------------------
  // Closing rows

  /** Set the ending page if it is still missing. */
  function CloseEnd(r: Row, hi: int): Row {
    r.(end := if r.end.None? then Some(hi) else r.end)
  }

  /** Set the ending page and the section range where they are still missing. */
  function Close(r: Row, hi: int, range: Span): Row {
    r.(end := if r.end.None? then Some(hi) else r.end,
       sectionRange := if r.sectionRange.None? then Some(range) else r.sectionRange)
  }

  /** `[i for i, e in enumerate(toc_entries) if e["subject_section"] == current_section]` */
  function GroupIndices(rows: seq<Row>, group: Option<string>): (r: seq<nat>)
    ensures forall t :: 0 <= t < |r| ==> r[t] < |rows| && rows[r[t]].section == group
    ensures forall i :: 0 <= i < |rows| && rows[i].section == group ==> i in r
    ensures forall s, t :: 0 <= s < t < |r| ==> r[s] < r[t]
  {
    if rows == [] then []
    else
      var init := GroupIndices(rows[..|rows| - 1], group);
      if rows[|rows| - 1].section == group then init + [|rows| - 1] else init
  }

  /**
   * The closing of the previous section when a Section entry arrives
   * (main.py:168-176): the last row of the group first gets its ending page,
   * then every row of the group gets the missing ending page and range.
   */
  method CloseSection(rows: seq<Row>, current: string, hi: int, range: Span) returns (closed: seq<Row>)
    ensures |closed| == |rows|
    ensures forall i :: 0 <= i < |rows| ==>
      closed[i] == if rows[i].section == Some(current) then Close(rows[i], hi, range) else rows[i]
  {
    var sameSec := GroupIndices(rows, Some(current));
    closed := rows;
    if sameSec != [] {
      var lastI := sameSec[|sameSec| - 1];
      if closed[lastI].end.None? {
        closed := closed[lastI := closed[lastI].(end := Some(hi))];
      }
      for t := 0 to |sameSec|
        invariant |closed| == |rows|
        invariant forall i :: 0 <= i < |rows| ==>
          closed[i] == if i in sameSec[..t] then Close(rows[i], hi, range)
                       else if i == lastI then CloseEnd(rows[i], hi) else rows[i]
      {
        var i2 := sameSec[t];
        closed := closed[i2 := Close(closed[i2], hi, range)];
        assert sameSec[..t + 1] == sameSec[..t] + [i2];
      }
      assert sameSec[..|sameSec|] == sameSec;
    }
  }

  /**
   * The close-out after the loop (main.py:202-216): the last row ends at the
   * last page, and every row of the last row's section gets the missing
   * ending page and the range from `start` to the last page.
   */
  method CloseOut(rows: seq<Row>, pageCount: int, start: Option<int>) returns (closed: seq<Row>)
    requires rows != []
    ensures |closed| == |rows|
    ensures forall i :: 0 <= i < |rows| ==>
      closed[i] == if rows[i].section == rows[|rows| - 1].section then Close(rows[i], pageCount, Span(start, pageCount)) else rows[i]
  {
    closed := rows;
    var last := |closed| - 1;
    if closed[last].end.None? {
      closed := closed[last := closed[last].(end := Some(pageCount))];
    }
    var lastSec := closed[last].section;
    for i := 0 to |closed|
      invariant |closed| == |rows|
      invariant forall j :: 0 <= j < |rows| ==>
        closed[j] == if j < i && rows[j].section == lastSec then Close(rows[j], pageCount, Span(start, pageCount))
                     else if j == last then CloseEnd(rows[j], pageCount) else rows[j]
    {
      if closed[i].section == lastSec {
        closed := closed[i := Close(closed[i], pageCount, Span(start, pageCount))];
      }
    }
  }

  // ---------------------------------------------------------------------------
  // The pass

  /** The loop over `entries` and the close-out (main.py:162-216), for a document of `pageCount` pages. */
  method ResolvePageRanges(es: seq<Entry>, pageCount: int) returns (rows: seq<Row>)
    ensures |rows| == |es|
    ensures forall j :: 0 <= j < |es| ==> rows[j] == ResolvedRow(es, pageCount, j)
  {
    rows := [];
    var currentSection: Option<string> := None;
    var currentSectionStart: Option<int> := None;
    for k := 0 to |es|
      invariant RowsAt(es, k, rows)
      invariant currentSection == SectionLabel(es, k)
      invariant currentSectionStart == SectionStart(es, k)
    {
      var entry := es[k];
      ghost var before := rows;
      if entry.kind == Section {
        if currentSection.Some? {
          var hi := entry.start - 1;
          rows := CloseSection(rows, currentSection.value, hi, Span(currentSectionStart, hi));
        }
        SectionStep(es, k, before, rows);
        currentSection := Some(entry.text);
        currentSectionStart := Some(entry.start);
      } else {
        if rows != [] && rows[|rows| - 1].end.None? {
          var prevStart := rows[|rows| - 1].start;
          rows := rows[|rows| - 1 := rows[|rows| - 1].(end := Some(Max(prevStart, entry.start - 1)))];
        }
        SubjectStep(es, k, before, rows);
      }
      rows := rows + [Row(entry.kind, entry.text, entry.cleaned, entry.start, None, currentSection, None)];
    }
    if rows != [] {
      ghost var before := rows;
      rows := CloseOut(rows, pageCount, currentSectionStart);
      CloseOutStep(es, pageCount, before, rows);
    }
  }

  /** `rows` is `toc_entries` once the first `k` entries are processed. */
  predicate RowsAt(es: seq<Entry>, k: nat, rows: seq<Row>)
    requires k <= |es|
  {
    |rows| == k && forall j :: 0 <= j < k ==> rows[j] == RowAt(es, k, j)
  }

  /** The rows before entry `k` once entry `k` is processed (a Section), before its own row is appended. */
  lemma SectionStep(es: seq<Entry>, k: nat, before: seq<Row>, after: seq<Row>)
    requires k < |es| && es[k].kind == Section && RowsAt(es, k, before)
    requires SectionLabel(es, k).Some? ==> |after| == k && forall i :: 0 <= i < k ==>
      after[i] == if before[i].section == SectionLabel(es, k)
                  then Close(before[i], es[k].start - 1, Span(SectionStart(es, k), es[k].start - 1)) else before[i]
    requires SectionLabel(es, k).None? ==> after == before
    ensures RowsAt(es, k + 1, after + [Row(es[k].kind, es[k].text, es[k].cleaned, es[k].start, None, SectionLabel(es, k + 1), None)])
    ensures SectionLabel(es, k + 1) == Some(es[k].text) && SectionStart(es, k + 1) == Some(es[k].start)
  {
    forall j | 0 <= j < k
      ensures after[j] == RowAt(es, k + 1, j)
    {
      SectionStepRow(es, k, j);
    }
    NewRow(es, k);
  }

  /** The rows before entry `k` once entry `k` is processed (a Subject), before its own row is appended. */
  lemma SubjectStep(es: seq<Entry>, k: nat, before: seq<Row>, after: seq<Row>)
    requires k < |es| && es[k].kind == Subject && RowsAt(es, k, before)
    requires k > 0 ==> after == before[k - 1 := before[k - 1].(end := Some(Max(before[k - 1].start, es[k].start - 1)))]
    requires k == 0 ==> after == before
    ensures RowsAt(es, k + 1, after + [Row(es[k].kind, es[k].text, es[k].cleaned, es[k].start, None, SectionLabel(es, k + 1), None)])
    ensures SectionLabel(es, k + 1) == SectionLabel(es, k) && SectionStart(es, k + 1) == SectionStart(es, k)
  {
    forall j | 0 <= j < k
      ensures after[j] == RowAt(es, k + 1, j)
    {
      SubjectStepRow(es, k, j);
    }
    NewRow(es, k);
  }

  /** The close-out turns the rows of the whole loop into the closed form. */
  lemma CloseOutStep(es: seq<Entry>, pageCount: int, before: seq<Row>, after: seq<Row>)
    requires es != [] && RowsAt(es, |es|, before)
    requires |after| == |es| && forall i :: 0 <= i < |es| ==>
      after[i] == if before[i].section == before[|es| - 1].section
                  then Close(before[i], pageCount, Span(SectionStart(es, |es|), pageCount)) else before[i]
    ensures forall j :: 0 <= j < |es| ==> after[j] == ResolvedRow(es, pageCount, j)
  {
    forall j | 0 <= j < |es|
      ensures after[j] == ResolvedRow(es, pageCount, j)
    {
      CloseOutRow(es, pageCount, j);
    }
  }

  // ---------------------------------------------------------------------------
  // One step of the pass, row by row

  lemma LastSectionIs(kinds: seq<EntryType>, k: nat, o: nat)
    requires o < k <= |kinds| && kinds[o] == Section
    requires forall i :: o < i < k ==> kinds[i] == Subject
    ensures LastSectionBefore(kinds, k) == Some(o)
  {
  }

  lemma FirstSectionIs(kinds: seq<EntryType>, j: nat, m: nat)
    requires j < m < |kinds| && kinds[m] == Section
    requires forall i :: j < i < m ==> kinds[i] == Subject
    ensures FirstSectionAfter(kinds, j) == Some(m)
  {
  }

  /** The row appended for entry `k` is open, has no range and carries the current section. */
  lemma NewRow(es: seq<Entry>, k: nat)
    requires k < |es|
    ensures RowAt(es, k + 1, k) == Row(es[k].kind, es[k].text, es[k].cleaned, es[k].start, None, SectionLabel(es, k + 1), None)
    ensures es[k].kind == Subject ==> SectionLabel(es, k + 1) == SectionLabel(es, k) && SectionStart(es, k + 1) == SectionStart(es, k)
    ensures es[k].kind == Section ==> SectionLabel(es, k + 1) == Some(es[k].text) && SectionStart(es, k + 1) == Some(es[k].start)
  {
  }

  /** A Subject entry closes the row just before it, and only that row. */
  lemma SubjectStepRow(es: seq<Entry>, k: nat, j: nat)
    requires j < k < |es| && es[k].kind == Subject
    ensures RowAt(es, k + 1, j) ==
      if j == k - 1 then RowAt(es, k, j).(end := Some(Max(es[j].start, es[k].start - 1))) else RowAt(es, k, j)
  {
  }

  /**
   * A Section entry closes the rows of the current section (by label) that
   * are still open, and changes no other row.
   */
  lemma SectionStepRow(es: seq<Entry>, k: nat, j: nat)
    requires j < k < |es| && es[k].kind == Section
    ensures RowAt(es, k + 1, j) ==
      if SectionLabel(es, k).Some? && RowAt(es, k, j).section == SectionLabel(es, k)
      then Close(RowAt(es, k, j), es[k].start - 1, Span(SectionStart(es, k), es[k].start - 1))
      else RowAt(es, k, j)
  {
    var kinds := KindsOf(es);
    var o := OwnerOf(es, j);
    var m := FirstSectionAfter(kinds, j);
    assert kinds[k] == es[k].kind;
    assert m.Some? && m.value <= k;
    if o.Some? && m.value == k {
      LastSectionIs(kinds, k, o.value);
    }
  }

  /** The close-out closes exactly the rows of the last row's section. */
  lemma CloseOutRow(es: seq<Entry>, pageCount: int, j: nat)
    requires j < |es|
    ensures ResolvedRow(es, pageCount, j) ==
      if RowAt(es, |es|, j).section == SectionLabel(es, |es|)
      then Close(RowAt(es, |es|, j), pageCount, Span(SectionStart(es, |es|), pageCount))
      else RowAt(es, |es|, j)
  {
    var kinds := KindsOf(es);
    var o := OwnerOf(es, j);
    var m := FirstSectionAfter(kinds, j);
    if o.Some? && m.None? {
      LastSectionIs(kinds, |es|, o.value);
    }
  }

  // ---------------------------------------------------------------------------
  // What the resolved rows satisfy

  /** Starting pages strictly increase along the entries and none lies past the last page. */
  predicate IncreasingStarts(es: seq<Entry>, pageCount: int) {
    (forall i, i' :: 0 <= i < i' < |es| ==> es[i].start < es[i'].start) &&
    (forall i :: 0 <= i < |es| ==> es[i].start <= pageCount)
  }

  /**
   * A row stays without an ending page exactly when it belongs to no section
   * and the next entry is a Section: the Subjects before the first Section,
   * other than a last one, are never closed.
   */
  lemma OpenRowsAreOrphans(es: seq<Entry>, pageCount: int, j: nat)
    requires j < |es|
    ensures ResolvedRow(es, pageCount, j).end.None? <==>
      j + 1 < |es| && es[j + 1].kind == Section && ResolvedRow(es, pageCount, j).section.None?
  {
  }

  /** A row belongs to no section exactly when no Section entry comes at or before it. */
  lemma SectionlessRows(es: seq<Entry>, pageCount: int, j: nat)
    requires j < |es|
    ensures ResolvedRow(es, pageCount, j).section.None? <==> forall i :: 0 <= i <= j ==> es[i].kind == Subject
  {
    var kinds := KindsOf(es);
    assert forall i :: 0 <= i <= j ==> kinds[i] == es[i].kind;
    if LastSectionBefore(kinds, j + 1).None? {
      assert forall i :: 0 <= i <= j ==> kinds[i] == Subject;
    }
  }

  /** The rows keep the entries' order, types, labels and starting pages. */
  lemma RowKeepsEntry(es: seq<Entry>, pageCount: int, j: nat)
    requires j < |es|
    ensures var r := ResolvedRow(es, pageCount, j);
      r.kind == es[j].kind && r.subject == es[j].text && r.cleanedSubject == es[j].cleaned && r.start == es[j].start
  {
  }

  /** The last row always ends at the last page of the document. */
  lemma LastRowEndsAtPageCount(es: seq<Entry>, pageCount: int)
    requires es != []
    ensures ResolvedRow(es, pageCount, |es| - 1).end == Some(pageCount)
  {
  }

  /** A row followed by a Subject ends on the page before it, but never before its own start. */
  lemma SubjectSuccessorCloses(es: seq<Entry>, pageCount: int, j: nat)
    requires j + 1 < |es| && es[j + 1].kind == Subject
    ensures ResolvedRow(es, pageCount, j).end == Some(Max(es[j].start, es[j + 1].start - 1))
    ensures ResolvedRow(es, pageCount, j).end.value >= es[j].start
  {
  }

  /**
   * When each entry starts after the one before it, every closed row ends on
   * the page before the next entry, except the last row, which ends at the
   * last page; so no row ends before it starts.
   */
  lemma ConsecutiveRows(es: seq<Entry>, pageCount: int, j: nat)
    requires j < |es| && IncreasingStarts(es, pageCount)
    ensures var r := ResolvedRow(es, pageCount, j);
      r.end.Some? ==>
        r.start <= r.end.value && r.end.value == (if j + 1 < |es| then es[j + 1].start - 1 else pageCount)
  {
    if j + 1 < |es| {
      assert es[j].start < es[j + 1].start;
    }
  }

  /**
   * When each entry starts after the one before it, a row with a section
   * range lies inside it: the range starts no later and ends no earlier than
   * the row.
   */
  lemma RangeCoversRow(es: seq<Entry>, pageCount: int, j: nat)
    requires j < |es| && IncreasingStarts(es, pageCount)
    ensures var r := ResolvedRow(es, pageCount, j);
      r.sectionRange.Some? ==>
        r.end.Some? && r.end.value <= r.sectionRange.value.hi &&
        (r.sectionRange.value.lo.Some? ==> r.sectionRange.value.lo.value <= r.start)
  {
    var kinds := KindsOf(es);
    var o := OwnerOf(es, j);
    var m := FirstSectionAfter(kinds, j);
    var r := ResolvedRow(es, pageCount, j);
    if o.Some? && o.value < j {
      assert es[o.value].start < es[j].start;
    }
    if j + 1 < |es| {
      assert es[j].start < es[j + 1].start;
      if m.Some? && j + 1 < m.value {
        assert es[j + 1].start < es[m.value].start;
      }
      if o.None? && r.sectionRange.Some? {
        assert kinds[j + 1] == Subject;
      }
    }
  }

  /** Every row of one section carries the same section range. */
  lemma SectionRowsShareRange(es: seq<Entry>, pageCount: int, s: nat, j: nat)
    requires s <= j < |es| && es[s].kind == Section
    requires forall i :: s < i <= j ==> es[i].kind == Subject
    ensures ResolvedRow(es, pageCount, j).section == Some(es[s].text)
    ensures ResolvedRow(es, pageCount, j).sectionRange == ResolvedRow(es, pageCount, s).sectionRange
  {
    var kinds := KindsOf(es);
    LastSectionIs(kinds, j + 1, s);
    LastSectionIs(kinds, s + 1, s);
    var m := FirstSectionAfter(kinds, j);
    if m.Some? {
      FirstSectionIs(kinds, s, m.value);
    }
  }

  /**
   * A row that belongs to a section and is followed by a Section ends on the
   * page before that Section's start, whatever its own start: when the two
   * entries share a page, the row ends before it starts. A row before the
   * first Section is not closed this way (`OpenRowsAreOrphans`).
   */
  lemma SectionSuccessorCloses(es: seq<Entry>, pageCount: int, j: nat)
    requires j + 1 < |es| && es[j + 1].kind == Section
    requires ResolvedRow(es, pageCount, j).section.Some?
    ensures ResolvedRow(es, pageCount, j).end == Some(es[j + 1].start - 1)
    ensures es[j + 1].start == es[j].start ==> ResolvedRow(es, pageCount, j).end.value < es[j].start
  {
    assert OwnerOf(es, j).Some?;
  }

  /**
   * A section with two Subjects, followed by a second section: the Section
   * row itself ends where its first Subject starts, the Subjects end before
   * the next entry, all three carry the range 5-11, and the last section runs
   * to the last page.
   */
  lemma TwoSectionScenario(pageCount: int)
    ensures var es := [Entry(Section, "SECTION I: GENERAL", "GENERAL", 5), Entry(Subject, "1.1 Overview", "1.1 Overview", 5),
                       Entry(Subject, "1.2 Risks", "1.2 Risks", 9), Entry(Section, "SECTION II: FINANCE", "FINANCE", 12)];
      var rows := seq(4, j requires 0 <= j < 4 => ResolvedRow(es, pageCount, j));
      rows[0].end == Some(5) && rows[1].end == Some(8) && rows[2].end == Some(11) && rows[3].end == Some(pageCount) &&
      (forall j :: 0 <= j < 3 ==> rows[j].sectionRange == Some(Span(Some(5), 11)) && rows[j].section == Some("SECTION I: GENERAL")) &&
      rows[3].sectionRange == Some(Span(Some(12), pageCount)) && rows[3].section == Some("SECTION II: FINANCE")
  {
    var es := [Entry(Section, "SECTION I: GENERAL", "GENERAL", 5), Entry(Subject, "1.1 Overview", "1.1 Overview", 5),
               Entry(Subject, "1.2 Risks", "1.2 Risks", 9), Entry(Section, "SECTION II: FINANCE", "FINANCE", 12)];
    var kinds := KindsOf(es);
    assert kinds == [Section, Subject, Subject, Section];
    forall j | 0 <= j < 3
      ensures ResolvedRow(es, pageCount, j).sectionRange == Some(Span(Some(5), 11))
      ensures ResolvedRow(es, pageCount, j).section == Some("SECTION I: GENERAL")
    {
      LastSectionIs(kinds, j + 1, 0);
      FirstSectionIs(kinds, j, 3);
    }
  }

}
