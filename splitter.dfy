/**
 * The export of the selected rows (main.py:228-250 and 424-438): every
 * selected row becomes a document holding its pages, named after its
 * cleaned subject, and the documents are merged into one. A document is the
 * sequence of its pages; PyMuPDF's page copying becomes slicing and
 * concatenation, and the byte buffers are left out.
 */
module Splitter {
  import opened Wrappers
  import opened Outline
  import opened Selection

  /** `extract_pdf_pages`: the pages `first` to `last` (0-based, both included) of `doc`, in order. */
  function ExtractPages<P>(doc: seq<P>, first: int, last: int): (r: seq<P>)
    requires 0 <= first <= last < |doc|
    ensures |r| == last - first + 1
    ensures forall i :: 0 <= i < |r| ==> r[i] == doc[first + i]
  {
    doc[first..last + 1]
  }

  /** The documents of `chunks` one after the other. */
  function Concat<P>(chunks: seq<seq<P>>): (r: seq<P>)
  {
    if chunks == [] then [] else Concat(chunks[..|chunks| - 1]) + chunks[|chunks| - 1]
  }

  /** The number of pages in all of `chunks`. */
  function TotalPages<P>(chunks: seq<seq<P>>): nat
  {
    if chunks == [] then 0 else TotalPages(chunks[..|chunks| - 1]) + |chunks[|chunks| - 1]|
  }

  /** Merging two lists of documents merges their merges. */
  lemma {:induction false} ConcatAppend<P>(a: seq<seq<P>>, b: seq<seq<P>>)
    ensures Concat(a + b) == Concat(a) + Concat(b)
    ensures TotalPages(a + b) == TotalPages(a) + TotalPages(b)
    decreases |b|
  {
    if b == [] {
      assert a + b == a;
    } else {
      var b' := b[..|b| - 1];
      assert (a + b)[..|a + b| - 1] == a + b';
      ConcatAppend(a, b');
    }
  }

  /** The merged document has as many pages as the documents merged. */
  lemma {:induction false} ConcatLength<P>(chunks: seq<seq<P>>)
    ensures |Concat(chunks)| == TotalPages(chunks)
  {
    if chunks != [] {
      ConcatLength(chunks[..|chunks| - 1]);
    }
  }

  /**
   * Page `j` of document `i` is page `TotalPages(chunks[..i]) + j` of the
   * merge: every document is copied whole, in order, right after the ones
   * before it.
   */
  lemma MergedPage<P>(chunks: seq<seq<P>>, i: nat, j: nat)
    requires i < |chunks| && j < |chunks[i]|
    ensures TotalPages(chunks[..i]) + j < |Concat(chunks)|
    ensures Concat(chunks)[TotalPages(chunks[..i]) + j] == chunks[i][j]
  {
    var before, rest := chunks[..i], chunks[i + 1..];
    assert chunks == before + [chunks[i]] + rest;
    ConcatAppend(before + [chunks[i]], rest);
    ConcatAppend(before, [chunks[i]]);
    assert Concat([chunks[i]]) == chunks[i] by {
      assert [chunks[i]][..0] == [];
    }
    ConcatLength(before);
  }

  /** `merge_pdfs`: nothing for no documents, otherwise their pages one document after the other. */
  method MergeDocuments<P>(chunks: seq<seq<P>>) returns (merged: Option<seq<P>>)
    ensures merged.None? <==> chunks == []
    ensures merged.Some? ==> merged.value == Concat(chunks)
  {
    if |chunks| == 0 {
      return None;
    }
    var mergedDoc := [];
    for t := 0 to |chunks|
      invariant mergedDoc == Concat(chunks[..t])
    {
      assert chunks[..t + 1][..t] == chunks[..t];
      mergedDoc := mergedDoc + chunks[t];
    }
    assert chunks[..|chunks|] == chunks;
    merged := Some(mergedDoc);
  }

  /** One entry of `sub_pdfs`: the file name and the pages of a selected row. */
  datatype ExportedFile<P> = ExportedFile(name: string, pages: seq<P>)

  /**
   * The file a row exports, or none when it cannot be exported: its ending
   * page is missing, or its span does not lie within the document in order.
   */
  function ExportFile<P>(doc: seq<P>, row: Row): (f: Option<ExportedFile<P>>)
    ensures f.Some? ==> row.end.Some? && 1 <= row.start <= row.end.value <= |doc|
    ensures f.Some? ==> |f.value.pages| == row.end.value - row.start + 1
    ensures f.Some? ==> forall i :: 0 <= i < |f.value.pages| ==> f.value.pages[i] == doc[row.start - 1 + i]
    ensures f.Some? ==> f.value.name == FileName(row.cleanedSubject, row.start - 1)
    ensures row.end.Some? && 1 <= row.start <= row.end.value <= |doc| ==> f.Some?
  {
    var span := ZeroBasedSpan(row.start, row.end);
    if span.None? || !(0 <= span.value.first <= span.value.last < |doc|) then None
    else Some(ExportedFile(FileName(row.cleanedSubject, span.value.first), ExtractPages(doc, span.value.first, span.value.last)))
  }

  /** What the download section offers: the separate files and their merge. */
  datatype Export<P> = Export(files: seq<ExportedFile<P>>, merged: Option<seq<P>>)

  /** The page lists of the files, in order. */
  function PagesOf<P>(files: seq<ExportedFile<P>>): seq<seq<P>> {
    seq(|files|, k requires 0 <= k < |files| => files[k].pages)
  }

  /**
   * The loop over `final_selection` and the call to `merge_pdfs`: one file per
   * selected row in selection order and the merge of their pages; nothing
   * when some selected row cannot be exported.
   */
  method ExportSelection<P>(doc: seq<P>, rows: seq<Row>, selection: seq<nat>) returns (result: Option<Export<P>>)
    requires forall k :: 0 <= k < |selection| ==> selection[k] < |rows|
    ensures result.None? <==> exists k :: 0 <= k < |selection| && ExportFile(doc, rows[selection[k]]).None?
    ensures result.Some? ==> |result.value.files| == |selection|
    ensures result.Some? ==> forall k :: 0 <= k < |selection| ==> Some(result.value.files[k]) == ExportFile(doc, rows[selection[k]])
    ensures result.Some? ==> result.value.merged == if selection == [] then None else Some(Concat(PagesOf(result.value.files)))
  {
    var subPdfs: seq<ExportedFile<P>> := [];
    for i := 0 to |selection|
      invariant |subPdfs| == i
      invariant forall k :: 0 <= k < i ==> Some(subPdfs[k]) == ExportFile(doc, rows[selection[k]])
    {
      var row := rows[selection[i]];
      var file := ExportFile(doc, row);
      if file.None? {
        return None;
      }
      subPdfs := subPdfs + [file.value];
    }
    var merged := MergeDocuments(PagesOf(subPdfs));
    result := Some(Export(subPdfs, merged));
  }

  /**
   * In the merged download, the pages of each selected row follow those of
   * the rows selected before it and are the row's pages of the document.
   */
  lemma MergedFollowsSelection<P>(doc: seq<P>, files: seq<ExportedFile<P>>, rows: seq<Row>, selection: seq<nat>, k: nat, j: nat)
    requires |files| == |selection| && k < |selection| && selection[k] < |rows|
    requires Some(files[k]) == ExportFile(doc, rows[selection[k]])
    requires j < |files[k].pages|
    ensures var chunks := PagesOf(files);
      TotalPages(chunks[..k]) + j < |Concat(chunks)| &&
      Concat(chunks)[TotalPages(chunks[..k]) + j] == doc[rows[selection[k]].start - 1 + j]
  {
    MergedPage(PagesOf(files), k, j);
  }

}
