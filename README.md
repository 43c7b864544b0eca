# DRHP splitter: table-of-contents extraction and splitting, in Dafny

This project models the core of the DRHP Splitter app (`main.py`). The app
reads the table of contents of a draft red herring prospectus from its
internal navigation links. It turns those links into an outline of Sections
and Subjects, gives every row a page range, and lets the user tick rows and
download each ticked row's pages as its own PDF, or all of them merged.

The model covers these parts of `main.py`, one Dafny module each:

- `Text`: the Python string operations the code relies on. These are
  `str.strip()`, `upper()`, `lower()`, the `in` test and `str(int)`, all over
  ASCII.
- `Labels`: `clean_text`, which is `re.sub(r'\.{2,}.*', '', txt).strip()`;
  the Section/Subject classification; and `remove_section_prefix`, which is
  `^SECTION\s*[IVXLCD]+\s*:?` ignoring case.
- `Document`: a PDF as a sequence of pages, each with its text and its links.
  It holds the search for the contents page among the first six pages, and
  the walk that collects the navigation links of the contents pages. Both
  are methods with loops, proved equal to recursive reference functions.
- `Outline`: the page-range pass over the entries (main.py:162-216). The
  pass appends rows and closes earlier rows in place. It is modelled as a
  method over a sequence of rows and proved equal, row by row, to
  `ResolvedRow`, a closed form that says directly which page ends each row
  and which pages bound its section. The properties of the outline are
  lemmas about that closed form.
- `Extraction`: `extract_table_of_contents` end to end, plus the
  `subject_range` column.
- `Selection`:
  - the `mapping` / `child2parent` loop;
  - `get_indent_level`;
  - the two checkbox callbacks, modelled as a class whose map field stands
    for `st.session_state`;
  - `final_selection`;
  - the export file names and 0-based page numbers.
  A row's checkbox key `toc_<idx>` is the row index `idx`.
- `Splitter`: `extract_pdf_pages`, `merge_pdfs` and the export loop. A
  document is the sequence of its pages, so copying pages is slicing and
  concatenation.

Some of `main.py`'s behaviour differs from what one might expect. The model follows the code:

- A row's ending page is not always at or after its starting page. A row
  that belongs to a section and is followed by a Section ends on the page
  before that Section's start, so when the two share a page the row ends
  before it starts (`Outline.SectionSuccessorCloses`). A row before the
  first Section is not closed this way: it stays open
  (`Outline.OpenRowsAreOrphans`).
  When starting pages strictly increase, no row ends before it starts
  (`Outline.ConsecutiveRows`).
- A Section row's own ending page is set by the Subject after it, like any
  other row. For example, "SECTION I: GENERAL" at page 5, followed by
  "1.1 Overview" at page 5, ends at page 5, not at 11. Its section range is
  5-11 (`Outline.TwoSectionScenario`).
- Rows before the first Section have no section, and they stay open when a
  Section follows them. When the outline has no Section at all, the
  close-out matches every row (their section is `None` on both sides). All
  rows then get a section range with no first page and the last page as
  its end, rendered "None-<n>" (`Outline.ResolvedRow`).
- The test for "table of contents" adds nothing to the test for "contents"
  (`Document.MentionsContentsIffContents`).
- The numeral class of `remove_section_prefix` also removes leading letters
  of a heading. For example, "SECTION DEFINITIONS" becomes "EFINITIONS"
  (`Labels.SectionWordEatenByNumeralClass`).
- A selected row whose ending page is missing cannot be exported: `int` of
  the missing value raises. The model returns no export for such a selection
  (`Splitter.ExportSelection`).

## Model

| member | source | states |
|---|---|---|
| Text.Strip | main.py:125 | the result of `strip()` has no white space at either end, and a string without white space at either end is returned unchanged |
| Text.StripInside | main.py:125 | the stripped text is the piece of the original that starts at its first non-space character; everything after it is white space, and it is empty exactly when the text is all white space |
| Text.UpperKeepsOccurrence | main.py:150 | an upper-case word found in a text is still found, at the same place, in the text's `upper()` |
| Text.StripIdempotent | main.py:148 | stripping twice is stripping once |
| Text.ContainsIffOccurs | main.py:106 | Python's `t in s` holds exactly when `t` occurs in `s` at some index |
| Text.ContainsTransitive | main.py:106 | a string that contains `u` contains every substring of `u` |
| Text.NatTextRoundTrip | main.py:219 | the decimal text `str` gives a natural number reads back as that number |
| Document.ScanLimit | main.py:102 | `min(6, page_count)`: never more than the page count or six, and equal to one of them |
| Document.MentionsContentsIffContents | main.py:106 | the anchor test holds exactly when the lower-cased text contains "contents" |
| Document.AnchorFrom | main.py:102-108 | the anchor found from page `i` is the first page in the scan window that mentions contents; none means no page in the window does |
| Document.FindAnchor | main.py:101-110 | the `for ... break` loop returns exactly the first page among the first six that mentions contents, or none |
| Document.NavigationLinks | main.py:119 | a link is kept exactly when it is of kind GOTO or NAMED |
| Document.NavigationLinksCounts | main.py:119 | each GOTO or NAMED link is kept as many times as it occurs, and no other link is kept |
| Document.NavigationLinksAppend | main.py:119 | the filter keeps order: filtering a list is filtering each part and joining the results |
| Document.TargetPage | main.py:126 | the 1-based target is positive exactly when the link names a page that is not negative, and 0 without a page |
| Document.KeptForIsRow | main.py:125-131 | a link adds at most one row, and the row it adds is exactly its stripped text with its 1-based target, present exactly when that text is non-empty and the target positive |
| Document.KeptFor | main.py:125-131 | a link adds at most one row, and the row's text is non-empty and stripped and its target page is positive |
| Document.KeptEntriesRows | main.py:122-133 | every row collected from a page has non-empty stripped text and a positive target, and there are no more rows than links |
| Document.KeptEntriesFrom | main.py:122-133 | a row is collected from a list of links exactly when one of the links adds it |
| Document.KeptEntriesAppend | main.py:122-133 | the rows of a list of links are those of its first part followed by those of the rest, so they follow link order |
| Document.PageEntriesFromLinks | main.py:119-133 | a page's rows are exactly the rows of its GOTO and NAMED links with non-empty stripped text and a positive 1-based target |
| Document.KeptEntriesMembers | main.py:125-131 | every link with non-empty stripped text and a positive 1-based target contributes its row |
| Document.WalkEnd | main.py:134-142 | the walk stops at the first page after the contents page that is missing or has none of "SECTION", "....", "INTRODUCTION"; every page before it has one |
| Document.MarkerIsCaseSensitive | main.py:141 | the marker test is case-sensitive and needs four dots: "Section 1 .. 2" carries no marker |
| Document.LeaderIsMarker | main.py:141 | a page with a dot leader of four or more dots carries a marker |
| Document.CollectedRows | main.py:114-142 | every collected row has non-empty stripped text and a positive target |
| Document.CollectedSplit | main.py:114-142 | the rows of a stretch of pages are those of its first part followed by those of the rest |
| Document.AppendPageLinks | main.py:119-133 | the inner loop appends exactly the page's kept navigation rows, in link order |
| Document.CollectLinks | main.py:114-142 | the `while` loop returns the rows of the pages from the contents page to the end of the walk, page after page |
| Labels.LineBreakFrom | main.py:148 | the first line break at or after `i`: none lies between, and the result is a line break or the end |
| Labels.FromLineBreak | main.py:148 | what is left of a line after a dot leader starts at a line break or is empty |
| Labels.CutLeaders | main.py:148 | the substitution leaves no `..`, never lengthens the text, changes no text without `..`, and on one line keeps exactly the prefix before the first `..`: what is cut starts with `..` and the kept part does not end with a dot |
| Labels.CleanText | main.py:147-148 | `clean_text` leaves no `..` and no white space at either end, and on text without `..` it is `strip()` |
| Labels.CutLeadersLineByLine | main.py:148 | the substitution works line by line: a line break splits it in two |
| Labels.FromLineBreakPast | main.py:148 | a dot leader deletes up to the next line break and no further |
| Labels.CleanTextIdempotent | main.py:147-149 | cleaning a cleaned label changes nothing |
| Labels.RomanRunEnd | main.py:152 | the greedy run of `[IVXLCD]` letters, in either case |
| Labels.SectionPrefixLength | main.py:152 | the pattern matches exactly when the text starts with "SECTION" in any case, then optional white space, then a numeral letter; a match is that word followed by white space, numeral letters and at most a final colon |
| Labels.SectionPrefixIs | main.py:151-152 | for every label the pattern matches, the match takes the word, the longest white-space run, the longest numeral run, the longest white-space run and a colon right after; `remove_section_prefix` strips what follows |
| Labels.RemoveSectionPrefix | main.py:151-152 | the result is stripped and no longer than the label, and a label the pattern does not match is only stripped |
| Labels.Classify | main.py:150 | a label containing "SECTION" is a Section |
| Labels.IntersectionIsSection | main.py:150 | the test is a substring test: "INTERSECTION" is a Section |
| Labels.SubjectLabelUnchanged | main.py:150-153 | a stripped label without "SECTION" in any case keeps its text |
| Labels.SubjectCleanedIsLabel | main.py:147-153 | a Subject's `Cleaned Text` is its `Link Text` |
| Labels.PrefixedLabelIsSection | main.py:150-152 | a label whose prefix is removed is always classified as a Section |
| Labels.SectionNumeralRemoved | main.py:152 | "SECTION I: GENERAL" becomes "GENERAL" |
| Labels.SectionWordEatenByNumeralClass | main.py:152 | as written, "SECTION DEFINITIONS" becomes "EFINITIONS" |
| Labels.LowerCasePrefixRemoved | main.py:152 | case is ignored: "Section iv  Risk Factors" becomes "Risk Factors" |
| Outline.LastSectionBefore | main.py:163-179 | `current_section` after `k` entries is the last Section among them; all later ones are Subjects, and with none all are Subjects |
| Outline.FirstSectionAfter | main.py:166-177 | the first Section after a row, with only Subjects between; with none, only Subjects follow |
| Outline.GroupIndices | main.py:168 | `same_sec` lists, in increasing order, exactly the rows whose `subject_section` is the current label |
| Outline.CloseSection | main.py:167-177 | each row of the closed section gets the missing ending page and range; every other row is unchanged |
| Outline.CloseOut | main.py:202-216 | the last row and every row of its section get the missing ending page (the page count) and range; the others are unchanged |
| Outline.ResolvePageRanges | main.py:162-216 | the loop leaves one row per entry, and row `j` equals the closed form `ResolvedRow` |
| Outline.SectionStep | main.py:166-188 | after a Section entry, the rows are the closed form over one more entry |
| Outline.SubjectStep | main.py:189-201 | after a Subject entry, the rows are the closed form over one more entry |
| Outline.CloseOutStep | main.py:202-216 | the close-out turns the loop's rows into the closed form |
| Outline.SubjectStepRow | main.py:190-192 | a Subject closes the row just before it at `max(prev_start, start - 1)`, and no other row |
| Outline.SectionStepRow | main.py:167-177 | a Section closes the open rows of the current section, by label, and no other row |
| Outline.CloseOutRow | main.py:208-216 | the close-out changes exactly the rows of the last row's section |
| Outline.OpenRowsAreOrphans | main.py:165-216 | a row keeps no ending page exactly when it belongs to no section and a Section follows it |
| Outline.SectionlessRows | main.py:163-199 | a row has no section exactly when no Section entry comes at or before it |
| Outline.RowKeepsEntry | main.py:180-200 | rows keep their entry's type, label, cleaned label and starting page, in order |
| Outline.LastRowEndsAtPageCount | main.py:202-209 | the last row always ends at the page count |
| Outline.SubjectSuccessorCloses | main.py:190-192 | a row followed by a Subject ends at `max(start, next start - 1)`, never before its own start |
| Outline.ConsecutiveRows | main.py:162-216 | with strictly increasing starts, a closed row ends on the page before the next entry (the last row at the page count), never before it starts |
| Outline.RangeCoversRow | main.py:172-216 | with strictly increasing starts, a row with a section range lies inside it |
| Outline.SectionRowsShareRange | main.py:173-216 | every row of one section carries that section's label and the same section range |
| Outline.SectionSuccessorCloses | main.py:166-177 | a row that belongs to a section and is followed by a Section ends on the page before that Section's start; when both start on one page, the row ends before it starts |
| Outline.TwoSectionScenario | main.py:162-216 | two sections, the first with two Subjects: the rows end at 5, 8, 11 and the page count, and ranges are 5-11 and 12 to the page count |
| Extraction.EntryOfLink | main.py:147-161 | an entry carries the cleaned label and the target page; it is a Section exactly when the label contains "SECTION" in any case, and a Subject's cleaned label is its label |
| Extraction.EntriesOfAt | main.py:154-161 | entry `i` is the conversion of link row `i` |
| Extraction.BuildEntries | main.py:154-161 | the `iterrows` loop builds exactly the converted rows, in order |
| Extraction.LeadingDigits | main.py:219 | the leading run of digits of a text |
| Extraction.SubjectRangeReadsBack | main.py:219 | the leading digits of `subject_range` are the starting page; without open rows, the digits after " - " are the ending page |
| Extraction.ExtractTableOfContents | main.py:95-226 | returns `None` without a contents page or without collected links, and otherwise the table `TableOf` describes |
| Extraction.NoContentsPageNoTable | main.py:101-113 | without a page mentioning contents among the first six, there is no table |
| Extraction.TableFollowsLinks | main.py:114-219 | the table has one row per collected link, in link order, with the cleaned text, a positive start, Section exactly for "SECTION" labels, and the last row ending at the page count |
| Selection.DigitRunEnd | main.py:370 | the greedy run of digits `\d+` |
| Selection.GroupsEnd | main.py:370 | the greedy repetition `(\.\d+)*`: each character is a digit or a dot followed by a digit, and no further group follows |
| Selection.NumberingLength | main.py:370 | `^(\d+(\.\d+)+)` matches exactly when the text opens with digits, a dot and a digit; the match starts and ends with a digit, holds a dot, consists of digits and dots followed by digits, and is the longest such prefix |
| Selection.CountOf | main.py:372 | `count` is the number of occurrences of the character |
| Selection.IndentLevel | main.py:367-373 | the level is 0 exactly for Sections; a Subject's level is the number of dots in its leading numbering, or 1 without one |
| Selection.TwoPartNumbering | main.py:370-372 | "1.2 Risks" has level 1 |
| Selection.ThreePartNumbering | main.py:370-372 | "1.1.1 Objects" has level 2 |
| Selection.TrailingDotIsNoNumbering | main.py:370-373 | "1. Introduction" is no numbering: level 1 |
| Selection.ChildrenOf | main.py:348-356 | the list of a row holds exactly the Subjects whose last Section before them is that row |
| Selection.ChildrenInOrder | main.py:355 | children are listed in row order |
| Selection.NoChildrenYet | main.py:350-358 | a row lists none of the rows up to itself, and a Subject lists none at all |
| Selection.ChildrenAreContiguous | main.py:348-356 | a Section's children are exactly the rows after it up to the next Section or the end |
| Selection.BuildMapping | main.py:338-358 | `mapping` keys exactly the Sections and the Subjects before the first Section, each with its children; `child2parent` maps exactly the other Subjects to their Section, and each is in its parent's list |
| Selection.Get | main.py:261 | a checkbox reads as checked exactly when its key is stored and true |
| Selection.WithChildren | main.py:255-258 | after the parent callback every child has the parent's value and every other key is unchanged |
| Selection.WithParentSynced | main.py:260-264 | after the child callback the parent is checked exactly when every child is (a missing child counts as unchecked); nothing else changes |
| Selection.ParentChangeIsStable | main.py:255-264 | the child callback right after the parent callback changes nothing |
| Selection.UncheckedChildClearsParent | main.py:260-264 | an unchecked child unchecks its parent |
| Selection.Session.OnParentChange | main.py:255-258 | the loop over `child_keys` leaves the state `WithChildren` describes |
| Selection.Session.OnChildChange | main.py:260-264 | leaves the state `WithParentSynced` describes |
| Selection.SelectedRows | main.py:424 | `final_selection` holds exactly the checked rows, in increasing order |
| Selection.FileName | main.py:435-438 | the name ends in ".pdf", has no space, `/` or `\`, and for a non-empty label is its first 50 characters with each unsafe one replaced by `_` |
| Selection.SafeLabelIsFileName | main.py:435-438 | a short label without unsafe characters is the name without ".pdf" |
| Selection.EmptyLabelNamedByPage | main.py:436-437 | an empty label gives "section_<start page + 1>.pdf", and the number reads back |
| Selection.ZeroBasedSpan | main.py:431-432 | the 0-based pages are one less than the row's pages, and exist only when the row has an ending page |
| Splitter.ExtractPages | main.py:228-235 | the new document holds the pages `first` to `last` of the source, in order, `last - first + 1` of them |
| Splitter.ConcatAppend | main.py:237-250 | merging two lists of documents gives the merge of the first followed by the merge of the second |
| Splitter.ConcatLength | main.py:237-250 | the merge has as many pages as the documents merged |
| Splitter.MergedPage | main.py:241-244 | page `j` of document `i` is page `TotalPages(chunks[..i]) + j` of the merge |
| Splitter.MergeDocuments | main.py:237-250 | no documents give `None`; otherwise the result is all pages, one document after the other |
| Splitter.ExportFile | main.py:429-439 | a row exports exactly when it has an ending page and its span lies within the document; the file holds those pages and is named `FileName` |
| Splitter.ExportSelection | main.py:427-441 | no export when some selected row cannot be exported; otherwise one file per selected row in selection order, and the merge of their pages |
| Splitter.MergedFollowsSelection | main.py:429-441 | in the merged download, the pages of each selected row follow those of the rows before it and are that row's pages of the document |

## Left out

- Streamlit widgets, layout, messages and `st.stop()` are left out. So are
  the file upload, the URL fetch (`fetch_pdf_from_webpage`), `temp.pdf`, the
  byte buffers and the ZIP download: they are I/O.
- `clear_old_checkboxes` and the session-state keys other than the `toc_`
  checkboxes are left out, because they handle the UI's lifecycle.
- PyMuPDF is left out: opening a document, `get_text` and `get_links` become
  the page records given to `Document`. The clip rectangle is replaced by the
  link's clip text, and the page count is the number of pages.
- The `try`/`except` fallbacks are left out. These are the pages and links
  skipped on an exception, and `doc_page_count = 9999`; the page records
  cannot fail.
- Sorting the outline with `sort_values("starting_page_number")` is left
  out. Pandas uses an unstable quicksort, so the model takes the rows in
  sorted order as its input. The `mapping`, `final_selection` and export
  are stated over those rows.
- Splitter.ExportFile: PyMuPDF's behaviour for a reversed or out-of-range
  page span is not modelled; such a row gives no file.
- Splitter.ExportSelection: the crash of `int()` on a missing ending page
  is modelled as no export. The exception propagating into Streamlit is not
  modelled.
- `subject_range` (main.py:219): only the two pandas renderings the table can
  produce are modelled: integers, and floats with ".0" and "nan" when some
  ending page is missing.
- Text.Strip, Labels.RemoveSectionPrefix, Selection.IndentLevel: white
  space, case mapping and `\d` are those of ASCII. Unicode white space,
  case rules and digits are not modelled.
- Outline.ResolvePageRanges: `section_range` is kept as its two numbers
  (`Span`) instead of the f-string. The absent first page stands for the
  text "None".
