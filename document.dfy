/**
 * The document as `extract_table_of_contents` sees it through PyMuPDF: a
 * sequence of pages, each with its text and its hyperlinks. The two loops
 * that read it are modelled here: the search for the contents page among the
 * first pages (main.py:101-113) and the walk that collects the navigation
 * links of the contents pages (main.py:114-145).
 */
module Document {
  import opened Wrappers
  import opened Text

  /** PyMuPDF's link kinds (`fitz.LINK_*`). */
  datatype LinkKind = NoLink | Goto | Uri | Launch | Named | GotoR

  /**
   * One entry of `page.get_links()`: its kind, the page text under its
   * rectangle (`page.get_text("text", clip=rect)`, before stripping) and its
   * 0-based `"page"` key when present.
   */
  datatype Link = Link(kind: LinkKind, clipText: string, page: Option<int>)

  datatype Page = Page(text: string, links: seq<Link>)

  /** One row of `toc_data`: the stripped link text and the 1-based target page. */
  datatype RawEntry = RawEntry(text: string, target: int)

  // ---------------------------------------------------------------------------
  // The contents page

  /** At most this many leading pages are searched for the contents page. */
  const ScanWindow: nat := 6

  /** `min(6, page_count)` */
  function ScanLimit(pageCount: nat): (r: nat)
    ensures r <= pageCount && r <= ScanWindow
    ensures r == pageCount || r == ScanWindow
  {
    if pageCount < ScanWindow then pageCount else ScanWindow
  }

  /** `"contents" in text.lower() or "table of contents" in text.lower()` */
  predicate MentionsContents(text: string) {
    Contains(Lower(text), "contents") || Contains(Lower(text), "table of contents")
  }

  /** The second test of the disjunction adds nothing: "contents" alone decides. */
  lemma MentionsContentsIffContents(text: string)
    ensures MentionsContents(text) <==> Contains(Lower(text), "contents")
  {
    if Contains(Lower(text), "table of contents") {
      assert OccursAt("table of contents", "contents", 9);
      OccursContains("table of contents", "contents", 9);
      ContainsTransitive(Lower(text), "table of contents", "contents");
    }
  }

  /** The first page from `i` on, within the scan window, that mentions contents. */
  function AnchorFrom(pages: seq<Page>, i: nat): (r: Option<nat>)
    requires i <= ScanLimit(|pages|)
    ensures r.Some? ==> i <= r.value < ScanLimit(|pages|) && MentionsContents(pages[r.value].text)
    ensures r.Some? ==> forall j :: i <= j < r.value ==> !MentionsContents(pages[j].text)
    ensures r.None? ==> forall j :: i <= j < ScanLimit(|pages|) ==> !MentionsContents(pages[j].text)
    decreases ScanLimit(|pages|) - i
  {
    if i == ScanLimit(|pages|) then None
    else if MentionsContents(pages[i].text) then Some(i)
    else AnchorFrom(pages, i + 1)
  }

  /** The 0-based contents page: the least page among the first six that mentions contents. */
  function AnchorPage(pages: seq<Page>): Option<nat> {
    AnchorFrom(pages, 0)
  }

  /** The `for page_num in range(min(6, doc.page_count))` loop with its `break` (main.py:101-110). */
  method FindAnchor(pages: seq<Page>) returns (anchor: Option<nat>)
    ensures anchor == AnchorPage(pages)
  {
    anchor := None;
    for pageNum := 0 to ScanLimit(|pages|)
      invariant AnchorFrom(pages, pageNum) == AnchorPage(pages)
    {
      if MentionsContents(pages[pageNum].text) {
        anchor := Some(pageNum);
        break;
      }
    }
  }

  // ---------------------------------------------------------------------------
  // The links of one page

  /** `l["kind"] in (fitz.LINK_GOTO, fitz.LINK_NAMED)` */
  predicate IsNavigation(l: Link) {
    l.kind == Goto || l.kind == Named
  }

  /** The list comprehension that keeps the navigation links of a page, in order (main.py:119). */
  function NavigationLinks(links: seq<Link>): (r: seq<Link>)
    ensures |r| <= |links|
    ensures forall l :: l in r <==> l in links && IsNavigation(l)
  {
    if links == [] then []
    else (if IsNavigation(links[0]) then [links[0]] else []) + NavigationLinks(links[1..])
  }

  /** Each navigation link is kept as often as it occurs, and no other link is. */
  lemma {:induction false} NavigationLinksCounts(links: seq<Link>)
    ensures forall l :: multiset(NavigationLinks(links))[l] == if IsNavigation(l) then multiset(links)[l] else 0
    decreases |links|
  {
    if links != [] {
      var h := if IsNavigation(links[0]) then [links[0]] else [];
      NavigationLinksCounts(links[1..]);
      assert links == [links[0]] + links[1..];
      assert multiset(NavigationLinks(links)) == multiset(h) + multiset(NavigationLinks(links[1..]));
    }
  }

  /** The filter keeps the order of the links: it works on each part of a list separately. */
  lemma {:induction false} NavigationLinksAppend(a: seq<Link>, b: seq<Link>)
    ensures NavigationLinks(a + b) == NavigationLinks(a) + NavigationLinks(b)
    decreases |a|
  {
    if a != [] {
      var h := if IsNavigation(a[0]) then [a[0]] else [];
      assert (a + b)[0] == a[0] && (a + b)[1..] == a[1..] + b;
      assert NavigationLinks(a + b) == h + NavigationLinks(a[1..] + b);
      NavigationLinksAppend(a[1..], b);
      assert NavigationLinks(a) == h + NavigationLinks(a[1..]);
      SeqAssoc(h, NavigationLinks(a[1..]), NavigationLinks(b));
    } else {
      assert a + b == b;
    }
  }

  /** `link.get("page", -1) + 1`: the 1-based target, 0 when the link names no page. */
  function TargetPage(l: Link): (t: int)
    ensures t > 0 <==> l.page.Some? && l.page.value >= 0
    ensures l.page.None? ==> t == 0
  {
    (if l.page.Some? then l.page.value else -1) + 1
  }

  /** `e` is the row link `l` adds: its stripped text, non-empty, and its 1-based target, positive. */
  predicate IsRowOf(e: RawEntry, l: Link) {
    Strip(l.clipText) != [] && TargetPage(l) > 0 && e == RawEntry(Strip(l.clipText), TargetPage(l))
  }

  /** The row one link contributes: none unless its stripped text is non-empty and its target positive. */
  function KeptFor(l: Link): (r: seq<RawEntry>)
    ensures |r| <= 1
    ensures forall e :: e in r ==> e.text != [] && IsStripped(e.text) && e.target > 0
  {
    var text := Strip(l.clipText);
    if text != [] && TargetPage(l) > 0 then [RawEntry(text, TargetPage(l))] else []
  }

  /** A link adds at most one row, and the row it adds is exactly its own. */
  lemma KeptForIsRow(l: Link, e: RawEntry)
    ensures |KeptFor(l)| <= 1
    ensures e in KeptFor(l) <==> IsRowOf(e, l)
  {
  }

  /** The rows the body of `for link in links` appends for the links `ls` (main.py:122-133). */
  function KeptEntries(ls: seq<Link>): seq<RawEntry> {
    if ls == [] then [] else KeptEntries(ls[..|ls| - 1]) + KeptFor(ls[|ls| - 1])
  }

  /** A page adds at most one row per link, each with non-empty stripped text and a positive target. */
  lemma {:induction false} KeptEntriesRows(ls: seq<Link>)
    ensures |KeptEntries(ls)| <= |ls|
    ensures forall e :: e in KeptEntries(ls) ==> e.text != [] && IsStripped(e.text) && e.target > 0
    decreases |ls|
  {
    if ls != [] {
      KeptEntriesRows(ls[..|ls| - 1]);
    }
  }

  /** A link is kept exactly when its stripped text is non-empty and its target page is positive. */
  lemma {:induction false} KeptEntriesMembers(ls: seq<Link>, l: Link)
    requires l in ls
    ensures Strip(l.clipText) != [] && TargetPage(l) > 0 ==> RawEntry(Strip(l.clipText), TargetPage(l)) in KeptEntries(ls)
    decreases |ls|
  {
    if ls[|ls| - 1] != l {
      assert l in ls[..|ls| - 1] by {
        var k :| 0 <= k < |ls| && ls[k] == l;
        assert ls[..|ls| - 1][k] == l;
      }
      KeptEntriesMembers(ls[..|ls| - 1], l);
    }
  }

  /** A row is collected from a list of links exactly when one of the links adds it. */
  lemma {:induction false} KeptEntriesFrom(ls: seq<Link>, e: RawEntry)
    ensures e in KeptEntries(ls) <==> exists l :: l in ls && IsRowOf(e, l)
    decreases |ls|
  {
    if ls != [] {
      var init := ls[..|ls| - 1];
      var last := ls[|ls| - 1];
      KeptEntriesFrom(init, e);
      KeptForIsRow(last, e);
      assert KeptEntries(ls) == KeptEntries(init) + KeptFor(last);
      if e in KeptEntries(ls) {
        if e in KeptFor(last) {
          assert last in ls && IsRowOf(e, last);
        } else {
          var l :| l in init && IsRowOf(e, l);
          var k :| 0 <= k < |init| && init[k] == l;
          assert ls[k] == l;
        }
      }
      if l :| l in ls && IsRowOf(e, l) {
        var k :| 0 <= k < |ls| && ls[k] == l;
        if k < |ls| - 1 {
          assert init[k] == l;
        } else {
          assert e in KeptFor(last);
        }
      }
    }
  }

  /** The rows of a list of links are those of its first part followed by those of the rest. */
  lemma {:induction false} KeptEntriesAppend(a: seq<Link>, b: seq<Link>)
    ensures KeptEntries(a + b) == KeptEntries(a) + KeptEntries(b)
    decreases |b|
  {
    if b == [] {
      assert a + b == a;
    } else {
      var init := b[..|b| - 1];
      assert (a + b)[..|a + b| - 1] == a + init;
      KeptEntriesAppend(a, init);
      SeqAssoc(KeptEntries(a), KeptEntries(init), KeptFor(b[|b| - 1]));
    }
  }

  /** One turn of the loop over a page's links. */
  lemma KeptEntriesStep(before: seq<RawEntry>, ls: seq<Link>, t: nat, prev: seq<RawEntry>, next: seq<RawEntry>)
    requires t < |ls|
    requires prev == before + KeptEntries(ls[..t])
    requires next == prev + KeptFor(ls[t])
    ensures next == before + KeptEntries(ls[..t + 1])
  {
    var k := KeptEntries(ls[..t]);
    assert ls[..t + 1][..t] == ls[..t];
    assert KeptEntries(ls[..t + 1]) == k + KeptFor(ls[t]);
    SeqAssoc(before, k, KeptFor(ls[t]));
  }

  function PageEntries(p: Page): seq<RawEntry> {
    KeptEntries(NavigationLinks(p.links))
  }

  /**
   * A page's rows are exactly the rows of its GOTO and NAMED links whose
   * stripped text is non-empty and whose 1-based target is positive.
   */
  lemma PageEntriesFromLinks(p: Page, e: RawEntry)
    ensures e in PageEntries(p) <==> exists l :: l in p.links && IsNavigation(l) && IsRowOf(e, l)
  {
    KeptEntriesFrom(NavigationLinks(p.links), e);
  }

  // ---------------------------------------------------------------------------
  // The walk over the contents pages

  /** `any(kw in nxt_txt for kw in ["SECTION", "....", "INTRODUCTION"])`, case-sensitive. */
  predicate HasMarker(text: string) {
    Contains(text, "SECTION") || Contains(text, "....") || Contains(text, "INTRODUCTION")
  }

  /** The test is case-sensitive and needs four dots: a lower-case heading with a short leader is no marker. */
  lemma MarkerIsCaseSensitive()
    ensures !HasMarker("Section 1 .. 2")
  {
    var s := "Section 1 .. 2";
    forall i | 0 <= i <= |s| - 7 ensures !OccursAt(s, "SECTION", i) {
      assert s[i..i + 7][1] == s[i + 1];
    }
    forall i | 0 <= i <= |s| - 4 ensures !OccursAt(s, "....", i) {
      assert s[i..i + 4][0] == s[i];
      assert s[i..i + 4][2] == s[i + 2];
    }
    forall i | 0 <= i <= |s| - 12 ensures !OccursAt(s, "INTRODUCTION", i) {
      assert s[i..i + 12][0] == s[i];
    }
    ContainsIffOccurs(s, "SECTION");
    ContainsIffOccurs(s, "....");
    ContainsIffOccurs(s, "INTRODUCTION");
  }

  /** A dotted leader of four dots anywhere on the page, in any case of text, is a marker. */
  lemma LeaderIsMarker()
    ensures HasMarker("Risk factors ...... 12")
  {
    var s := "Risk factors ...... 12";
    assert s[13..17] == "....";
    OccursContains(s, "....", 13);
  }

  /**
   * The index just past the last page the walk visits when it has reached
   * page `p`: the next page that does not exist or carries no marker.
   */
  function WalkEnd(pages: seq<Page>, p: nat): (e: nat)
    requires p < |pages|
    ensures p < e <= |pages|
    ensures forall q :: p < q < e ==> HasMarker(pages[q].text)
    ensures e == |pages| || !HasMarker(pages[e].text)
    decreases |pages| - p
  {
    if p + 1 == |pages| || !HasMarker(pages[p + 1].text) then p + 1 else WalkEnd(pages, p + 1)
  }

  /** The rows collected from pages `a` up to (not including) `p`, page after page. */
  function Collected(pages: seq<Page>, a: nat, p: nat): seq<RawEntry>
    requires a <= p <= |pages|
    decreases p - a
  {
    if p == a then [] else Collected(pages, a, p - 1) + PageEntries(pages[p - 1])
  }

  /** Every collected row has non-empty stripped text and a positive target page. */
  lemma {:induction false} CollectedRows(pages: seq<Page>, a: nat, p: nat)
    requires a <= p <= |pages|
    ensures forall e :: e in Collected(pages, a, p) ==> e.text != [] && IsStripped(e.text) && e.target > 0
    decreases p - a
  {
    if p > a {
      CollectedRows(pages, a, p - 1);
      KeptEntriesRows(NavigationLinks(pages[p - 1].links));
      WellFormedRowsJoin(Collected(pages, a, p - 1), PageEntries(pages[p - 1]));
    }
  }

  lemma WellFormedRowsJoin(x: seq<RawEntry>, y: seq<RawEntry>)
    requires forall e :: e in x ==> e.text != [] && IsStripped(e.text) && e.target > 0
    requires forall e :: e in y ==> e.text != [] && IsStripped(e.text) && e.target > 0
    ensures forall e :: e in x + y ==> e.text != [] && IsStripped(e.text) && e.target > 0
  {
  }

  /** The walk reads pages in order: the rows of a later stretch of pages follow those of an earlier one. */
  lemma {:induction false} CollectedSplit(pages: seq<Page>, a: nat, m: nat, p: nat)
    requires a <= m <= p <= |pages|
    ensures Collected(pages, a, p) == Collected(pages, a, m) + Collected(pages, m, p)
    decreases p - m
  {
    if p > m {
      CollectedSplit(pages, a, m, p - 1);
      var page := PageEntries(pages[p - 1]);
      assert Collected(pages, a, p) == Collected(pages, a, p - 1) + page;
      assert Collected(pages, m, p) == Collected(pages, m, p - 1) + page;
      SeqAssoc(Collected(pages, a, m), Collected(pages, m, p - 1), PageEntries(pages[p - 1]));
    }
  }

  /** `toc_data` as the walk from the contents page `anchor` leaves it. */
  function WalkEntries(pages: seq<Page>, anchor: nat): seq<RawEntry>
    requires anchor < |pages|
  {
    Collected(pages, anchor, WalkEnd(pages, anchor))
  }

  /** The inner `for link in links` loop: the page's rows appended to `tocData` (main.py:119-133). */
  method AppendPageLinks(tocData: seq<RawEntry>, page: Page) returns (extended: seq<RawEntry>)
    ensures extended == tocData + PageEntries(page)
  {
    extended := tocData;
    var links := NavigationLinks(page.links);
    for t := 0 to |links|
      invariant extended == tocData + KeptEntries(links[..t])
    {
      ghost var prev := extended;
      var link := links[t];
      var linkText := Strip(link.clipText);
      var targetPage := TargetPage(link);
      if linkText != [] && targetPage > 0 {
        extended := extended + [RawEntry(linkText, targetPage)];
        assert KeptFor(link) == [RawEntry(linkText, targetPage)];
      } else {
        assert KeptFor(link) == [];
      }
      KeptEntriesStep(tocData, links, t, prev, extended);
    }
    assert links[..|links|] == links;
  }

  lemma CollectedStep(pages: seq<Page>, a: nat, p: nat, tocData: seq<RawEntry>)
    requires a <= p < |pages|
    requires tocData == Collected(pages, a, p) + PageEntries(pages[p])
    ensures tocData == Collected(pages, a, p + 1)
  {
  }

  /** A marked page before the end of the walk keeps the walk going. */
  lemma WalkContinues(pages: seq<Page>, anchor: nat, p: nat)
    requires anchor < p < |pages| && p <= WalkEnd(pages, anchor) && HasMarker(pages[p].text)
    ensures p < WalkEnd(pages, anchor)
  {
  }

  /** The walk ends at the first page after the contents page that is missing or unmarked. */
  lemma WalkStops(pages: seq<Page>, anchor: nat, p: nat)
    requires anchor < |pages| && anchor < p <= WalkEnd(pages, anchor)
    requires p == |pages| || !HasMarker(pages[p].text)
    ensures p == WalkEnd(pages, anchor)
  {
  }

  /** The `while page_num < doc.page_count` loop (main.py:114-142). */
  method CollectLinks(pages: seq<Page>, anchor: nat) returns (tocData: seq<RawEntry>)
    requires anchor < |pages|
    ensures tocData == WalkEntries(pages, anchor)
  {
    tocData := [];
    var pageNum := anchor;
    ghost var end := WalkEnd(pages, anchor);
    while pageNum < |pages|
      invariant anchor <= pageNum < end
      invariant tocData == Collected(pages, anchor, pageNum)
      decreases |pages| - pageNum
    {
      tocData := AppendPageLinks(tocData, pages[pageNum]);
      CollectedStep(pages, anchor, pageNum, tocData);
      pageNum := pageNum + 1;
      if pageNum >= |pages| {
        break;
      }
      if !HasMarker(pages[pageNum].text) {
        break;
      }
      WalkContinues(pages, anchor, pageNum);
    }
    WalkStops(pages, anchor, pageNum);
  }

}
