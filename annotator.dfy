/**
 * The per-site pass over the PDF (process_pdf_for_site): for every page, for
 * every identifier of the site's number_dict, the rectangles the text search
 * finds are expanded by the margins and annotated; pages with at least one
 * match are kept, and if anything matched, a new document made of the kept
 * pages in ascending order is saved.
 *
 * Both application variants run the same pass; they differ only in which
 * boundary pages are always kept, which is the parameter keepLast: in
 * fortune_automation_tools it is highlight_type == 'uan', in uan_highlight it
 * is always true.
 *
 * page.search_for is an oracle: page index and identifier give the
 * rectangles found. Coordinates, colours, widths and opacity are reals;
 * floating-point rounding is not modelled.
 */
module Annotator {
  import opened Wrappers

  /** A rectangle in page coordinates. */
  datatype Rect = Rect(x0: real, y0: real, x1: real, y1: real)

  datatype Rgb = Rgb(r: real, g: real, b: real)

  /** A colour as the applications pass it: red, green, blue, alpha. */
  datatype Rgba = Rgba(r: real, g: real, b: real, a: real) {
    /** color[:3], the part the annotations use. */
    function Channels(): Rgb {
      Rgb.Rgb(r, g, b)
    }
  }

  /** How far an annotation box reaches beyond the matched text on each side. */
  datatype Margins = Margins(left: real, right: real, top: real, bottom: real)

  /** The annotation settings of one job. mode is the user's highlight_mode text:
      "border", "highlight" and "underline" draw something, anything else nothing. */
  datatype Style = Style(
    margins: Margins,
    borderColor: Rgba,
    specialColor: Rgba,
    borderWidth: real,
    mode: string,
    opacity: real)

  /** The keyword defaults of highlight_uans_by_site. */
  const DefaultStyle := Style(Margins(1.0, 1.0, 1.0, 1.0), Rgba(1.0, 0.0, 0.0, 1.0),
                              Rgba(0.0, 0.0, 1.0, 1.0), 0.5, "border", 0.25)

  /** One key of a site's number_dict with its tag, in insertion order. */
  datatype Entry = Entry(number: string, tag: string)

  /** What is drawn for one match. A highlight box has no border (width 0);
      an underline runs from x0 to x1 at height y. */
  datatype Mark =
    | Border(box: Rect, stroke: Rgb, width: real)
    | Highlight(box: Rect, fill: Rgb, opacity: real)
    | Underline(x0: real, x1: real, y: real, color: Rgb, width: real)

  /** One annotation on the working document, with the identifier that caused it. */
  datatype Annotation = Annotation(page: nat, number: string, mark: Mark)

  /** A saved output PDF: the source page indices it holds, in order, and the
      annotations those pages carry. */
  datatype SavedPdf = SavedPdf(pages: seq<int>, annotations: seq<Annotation>)

  /** page.search_for as an oracle. */
  type Search = (nat, string) -> seq<Rect>

  // ---------------------------------------------------------------------------
  // One match

  function Expand(r: Rect, m: Margins): Rect {
    Rect(r.x0 - m.left, r.y0 - m.top, r.x1 + m.right, r.y1 + m.bottom)
  }

  /** special_color for an identifier tagged "special", border_color for any other tag. */
  function ColorFor(tag: string, style: Style): Rgba {
    if tag == "special" then style.specialColor else style.borderColor
  }

  predicate Draws(mode: string) {
    mode == "border" || mode == "highlight" || mode == "underline"
  }

  function MarkFor(r: Rect, color: Rgba, style: Style): Mark
    requires Draws(style.mode)
  {
    if style.mode == "border" then Border(Expand(r, style.margins), color.Channels(), style.borderWidth)
    else if style.mode == "highlight" then Highlight(Expand(r, style.margins), color.Channels(), style.opacity)
    else Underline(r.x0, r.x1, r.y1 + 0.5, color.Channels(), style.borderWidth)
  }

  /** With non-negative margins, a drawn box encloses the matched rectangle. */
  lemma MarkEnclosesMatch(r: Rect, color: Rgba, style: Style)
    requires Draws(style.mode) && style.mode != "underline"
    requires style.margins.left >= 0.0 && style.margins.right >= 0.0
    requires style.margins.top >= 0.0 && style.margins.bottom >= 0.0
    ensures var b := MarkFor(r, color, style).box;
            b.x0 <= r.x0 && b.y0 <= r.y0 && r.x1 <= b.x1 && r.y1 <= b.y1
  {
  }

  // ---------------------------------------------------------------------------
  // The specification of the pass, as functions of the inputs

  /** The rectangles searched for entry e on a page: none for an empty identifier. */
  function Found(page: nat, e: Entry, search: Search): seq<Rect> {
    if e.number == "" then [] else search(page, e.number)
  }

  /** The annotations added for the first rectangles of one identifier on one page. */
  function RectMarks(page: nat, e: Entry, rects: seq<Rect>, style: Style): seq<Annotation> {
    if rects == [] || !Draws(style.mode) then []
    else RectMarks(page, e, rects[..|rects| - 1], style)
         + [Annotation(page, e.number, MarkFor(rects[|rects| - 1], ColorFor(e.tag, style), style))]
  }

  /** The annotations added on one page for the first entries of the dict. */
  function PageMarks(page: nat, dict: seq<Entry>, search: Search, style: Style): seq<Annotation> {
    if dict == [] then []
    else
      var e := dict[|dict| - 1];
      PageMarks(page, dict[..|dict| - 1], search, style) + RectMarks(page, e, Found(page, e, search), style)
  }

  /** page_matches: the number of rectangles found on a page, over all entries. */
  function PageHits(page: nat, dict: seq<Entry>, search: Search): nat {
    if dict == [] then 0
    else PageHits(page, dict[..|dict| - 1], search) + |Found(page, dict[|dict| - 1], search)|
  }

  /** The annotations added on the first n pages. */
  function DocMarks(n: nat, dict: seq<Entry>, search: Search, style: Style): seq<Annotation> {
    if n == 0 then [] else DocMarks(n - 1, dict, search, style) + PageMarks(n - 1, dict, search, style)
  }

  /** total_matches over the first n pages. */
  function DocHits(n: nat, dict: seq<Entry>, search: Search): nat {
    if n == 0 then 0 else DocHits(n - 1, dict, search) + PageHits(n - 1, dict, search)
  }

  /** The pages among the first n with at least one match. */
  function MatchedPages(n: nat, dict: seq<Entry>, search: Search): set<int> {
    set p: int | 0 <= p < n && PageHits(p, dict, search) > 0
  }

  /** The pages always kept: page 0, and len(doc) - 1 when keepLast. */
  function BoundaryPages(n: nat, keepLast: bool): set<int> {
    {0} + (if keepLast then {n - 1} else {})
  }

  /** pages_to_keep of a document with n pages. */
  function KeptPages(n: nat, dict: seq<Entry>, search: Search, keepLast: bool): set<int> {
    BoundaryPages(n, keepLast) + MatchedPages(n, dict, search)
  }

  /** sorted(s) for a set of integers in lo..hi-1. */
  function Ascending(s: set<int>, lo: int, hi: int): (r: seq<int>)
    requires forall x :: x in s ==> lo <= x < hi
    ensures forall i, j :: 0 <= i < j < |r| ==> r[i] < r[j]
    ensures forall x :: x in s <==> x in r
    ensures forall i :: 0 <= i < |r| ==> lo <= r[i] < hi
    decreases hi - lo
  {
    if lo >= hi then [] else (if lo in s then [lo] else []) + Ascending(s - {lo}, lo + 1, hi)
  }

  /** A document with a match has a page, and then every kept page is one of its pages. */
  lemma KeptWithinDocument(n: nat, dict: seq<Entry>, search: Search, keepLast: bool)
    requires DocHits(n, dict, search) > 0
    ensures n > 0
    ensures forall x :: x in KeptPages(n, dict, search, keepLast) ==> 0 <= x < n
  {
  }

  /** The file the pass saves, or None when nothing matched. */
  function SavedFor(n: nat, dict: seq<Entry>, search: Search, style: Style, keepLast: bool): Option<SavedPdf> {
    if DocHits(n, dict, search) == 0 then None
    else
      KeptWithinDocument(n, dict, search, keepLast);
      Some(SavedPdf(Ascending(KeptPages(n, dict, search, keepLast), 0, n), DocMarks(n, dict, search, style)))
  }

  // ---------------------------------------------------------------------------
  // The pass itself

  /** The innermost loop: one annotation per rectangle found for entry e on the page,
      in the style's mode; nothing for a mode that draws nothing. */
  method MarkRects(page: nat, e: Entry, rects: seq<Rect>, style: Style) returns (marks: seq<Annotation>)
    ensures marks == RectMarks(page, e, rects, style)
  {
    marks := [];
    var color := ColorFor(e.tag, style);
    for k := 0 to |rects|
      invariant marks == RectMarks(page, e, rects[..k], style)
    {
      assert rects[..k + 1][..k] == rects[..k];
      if style.mode == "border" {
        marks := marks + [Annotation(page, e.number, Border(Expand(rects[k], style.margins), color.Channels(), style.borderWidth))];
      } else if style.mode == "highlight" {
        marks := marks + [Annotation(page, e.number, Highlight(Expand(rects[k], style.margins), color.Channels(), style.opacity))];
      } else if style.mode == "underline" {
        marks := marks + [Annotation(page, e.number, Underline(rects[k].x0, rects[k].x1, rects[k].y1 + 0.5, color.Channels(), style.borderWidth))];
      }
    }
    assert rects[..|rects|] == rects;
  }

  /** The loop over the dict for one page: its annotations and page_matches. */
  method ScanPage(page: nat, dict: seq<Entry>, search: Search, style: Style)
    returns (marks: seq<Annotation>, pageMatches: nat)
    ensures marks == PageMarks(page, dict, search, style)
    ensures pageMatches == PageHits(page, dict, search)
  {
    marks := [];
    pageMatches := 0;
    for j := 0 to |dict|
      invariant marks == PageMarks(page, dict[..j], search, style)
      invariant pageMatches == PageHits(page, dict[..j], search)
    {
      var e := dict[j];
      assert dict[..j + 1][..j] == dict[..j];
      if e.number != "" {
        var rects := search(page, e.number);
        var added := MarkRects(page, e, rects, style);
        marks := marks + added;
        pageMatches := pageMatches + |rects|;
      }
    }
    assert dict[..|dict|] == dict;
  }

  /** The page loop of process_pdf_for_site: the annotations, pages_to_keep
      (first page, last page when kept, pages with a match) and total_matches. */
  method ScanDocument(pageCount: nat, search: Search, dict: seq<Entry>, style: Style, keepLast: bool)
    returns (annotations: seq<Annotation>, pagesToKeep: set<int>, total: nat)
    ensures annotations == DocMarks(pageCount, dict, search, style)
    ensures total == DocHits(pageCount, dict, search)
    ensures pagesToKeep == KeptPages(pageCount, dict, search, keepLast)
  {
    annotations := [];
    total := 0;
    pagesToKeep := {0};
    if keepLast {
      pagesToKeep := pagesToKeep + {pageCount - 1};
    }
    for page := 0 to pageCount
      invariant annotations == DocMarks(page, dict, search, style)
      invariant total == DocHits(page, dict, search)
      invariant pagesToKeep == BoundaryPages(pageCount, keepLast) + MatchedPages(page, dict, search)
    {
      var marks, pageMatches := ScanPage(page, dict, search, style);
      annotations := annotations + marks;
      if pageMatches > 0 {
        pagesToKeep := pagesToKeep + {page};
      }
      total := total + pageMatches;
      MatchedPagesStep(page, dict, search);
    }
  }

  /** One more page joins the matched pages exactly when it had a match. */
  lemma MatchedPagesStep(page: nat, dict: seq<Entry>, search: Search)
    ensures MatchedPages(page + 1, dict, search)
            == MatchedPages(page, dict, search) + (if PageHits(page, dict, search) > 0 then {page} else {})
  {
  }

  /** process_pdf_for_site on a document of pageCount pages. Besides the saved file
      it returns the annotations made on the working document, pages_to_keep and
      total_matches. */
  method ProcessPdfForSite(pageCount: nat, search: Search, dict: seq<Entry>, style: Style, keepLast: bool)
    returns (saved: Option<SavedPdf>, annotations: seq<Annotation>, pagesToKeep: set<int>, total: nat)
    ensures annotations == DocMarks(pageCount, dict, search, style)
    ensures total == DocHits(pageCount, dict, search)
    ensures pagesToKeep == KeptPages(pageCount, dict, search, keepLast)
    ensures saved == SavedFor(pageCount, dict, search, style, keepLast)
    ensures saved.Some? <==> total > 0
  {
    annotations, pagesToKeep, total := ScanDocument(pageCount, search, dict, style, keepLast);
    if total > 0 {
      KeptWithinDocument(pageCount, dict, search, keepLast);
      var order := Ascending(pagesToKeep, 0, pageCount);
      var newDoc: seq<int> := [];
      for i := 0 to |order|
        invariant newDoc == order[..i]
      {
        newDoc := newDoc + [order[i]];
      }
      assert order[..|order|] == order;
      saved := Some(SavedPdf(newDoc, annotations));
    } else {
      saved := None;
    }
  }

  // ---------------------------------------------------------------------------
  // Properties of the pass

  lemma {:induction false} RectMarksCount(page: nat, e: Entry, rects: seq<Rect>, style: Style)
    ensures |RectMarks(page, e, rects, style)| == if Draws(style.mode) then |rects| else 0
    decreases |rects|
  {
    if rects != [] && Draws(style.mode) {
      RectMarksCount(page, e, rects[..|rects| - 1], style);
    }
  }

  lemma {:induction false} PageMarksCount(page: nat, dict: seq<Entry>, search: Search, style: Style)
    ensures |PageMarks(page, dict, search, style)| == if Draws(style.mode) then PageHits(page, dict, search) else 0
    decreases |dict|
  {
    if dict != [] {
      var e := dict[|dict| - 1];
      PageMarksCount(page, dict[..|dict| - 1], search, style);
      RectMarksCount(page, e, Found(page, e, search), style);
    }
  }

  /** One annotation per found rectangle when the mode draws, none otherwise;
      total_matches counts the rectangles whatever the mode. */
  lemma {:induction false} DocMarksCount(n: nat, dict: seq<Entry>, search: Search, style: Style)
    ensures |DocMarks(n, dict, search, style)| == if Draws(style.mode) then DocHits(n, dict, search) else 0
  {
    if n > 0 {
      DocMarksCount(n - 1, dict, search, style);
      PageMarksCount(n - 1, dict, search, style);
    }
  }

  /** Annotation a is accounted for: its identifier is a non-empty key of the dict,
      and its mark is drawn, in that key's colour, for one of the rectangles the
      search returned for that identifier on a's page. */
  ghost predicate Explained(a: Annotation, dict: seq<Entry>, search: Search, style: Style) {
    && Draws(style.mode)
    && a.number != ""
    && exists j, k :: 0 <= j < |dict| && dict[j].number == a.number
                      && 0 <= k < |search(a.page, a.number)|
                      && a.mark == MarkFor(search(a.page, a.number)[k], ColorFor(dict[j].tag, style), style)
  }

  lemma {:induction false} RectMarksExplained(page: nat, dict: seq<Entry>, j: nat, search: Search, style: Style, rects: seq<Rect>)
    requires j < |dict| && dict[j].number != ""
    requires rects <= search(page, dict[j].number)
    ensures forall a :: a in RectMarks(page, dict[j], rects, style) ==>
              a.page == page && Explained(a, dict, search, style)
    decreases |rects|
  {
    if rects != [] && Draws(style.mode) {
      var rest := rects[..|rects| - 1];
      RectMarksExplained(page, dict, j, search, style, rest);
      var k := |rects| - 1;
      assert rects[k] == search(page, dict[j].number)[k];
    }
  }

  lemma {:induction false} PageMarksExplained(page: nat, dict: seq<Entry>, m: nat, search: Search, style: Style)
    requires m <= |dict|
    ensures forall a :: a in PageMarks(page, dict[..m], search, style) ==>
              a.page == page && PageHits(page, dict[..m], search) > 0 && Explained(a, dict, search, style)
  {
    if m > 0 {
      var pre := dict[..m];
      assert pre[..m - 1] == dict[..m - 1];
      PageMarksExplained(page, dict, m - 1, search, style);
      var e := dict[m - 1];
      if e.number != "" {
        RectMarksExplained(page, dict, m - 1, search, style, search(page, e.number));
      }
      RectMarksCount(page, e, Found(page, e, search), style);
    }
  }

  /** Every annotation on the working document stems from a rectangle the search
      found for an identifier of the dict, on a page that had a match and is
      therefore kept. */
  lemma {:induction false} DocMarksExplained(n: nat, dict: seq<Entry>, search: Search, style: Style, keepLast: bool)
    ensures forall a :: a in DocMarks(n, dict, search, style) ==>
              a.page < n && a.page in KeptPages(n, dict, search, keepLast) && Explained(a, dict, search, style)
  {
    DocMarksOnMatchedPages(n, dict, search, style);
  }

  lemma DocMarksOnMatchedPages(n: nat, dict: seq<Entry>, search: Search, style: Style)
    ensures forall a :: a in DocMarks(n, dict, search, style) ==>
              a.page < n && PageHits(a.page, dict, search) > 0 && Explained(a, dict, search, style)
  {
    forall a | a in DocMarks(n, dict, search, style)
      ensures a.page < n && PageHits(a.page, dict, search) > 0 && Explained(a, dict, search, style)
    {
      DocMarkExplained(n, dict, search, style, a);
    }
  }

  /** One annotation of the first n pages: its page is among them, had a
      match, and the annotation is explained by the dict. */
  lemma DocMarkExplained(n: nat, dict: seq<Entry>, search: Search, style: Style, a: Annotation)
    requires a in DocMarks(n, dict, search, style)
    ensures a.page < n && PageHits(a.page, dict, search) > 0 && Explained(a, dict, search, style)
  {
    DocMarkPage(n, dict, search, style, a);
    var p :| 0 <= p < n && a in PageMarks(p, dict, search, style);
    PageMarkExplained(p, dict, search, style, a);
  }

  /** Every annotation of the first n pages was added on one of them. */
  lemma {:induction false} DocMarkPage(n: nat, dict: seq<Entry>, search: Search, style: Style, a: Annotation)
    requires a in DocMarks(n, dict, search, style)
    ensures exists p :: 0 <= p < n && a in PageMarks(p, dict, search, style)
  {
    if a in DocMarks(n - 1, dict, search, style) {
      DocMarkPage(n - 1, dict, search, style, a);
    } else {
      assert a in PageMarks(n - 1, dict, search, style);
    }
  }

  /** One annotation of a page: it is on that page, the page had a match, and
      the annotation is explained by the dict. */
  lemma PageMarkExplained(page: nat, dict: seq<Entry>, search: Search, style: Style, a: Annotation)
    requires a in PageMarks(page, dict, search, style)
    ensures a.page == page && PageHits(page, dict, search) > 0 && Explained(a, dict, search, style)
  {
    assert dict[..|dict|] == dict;
    PageMarksExplained(page, dict, |dict|, search, style);
  }

  /** pages_to_keep holds page 0 always and the last page when keepLast; any
      other page is kept exactly when it had a match. */
  lemma KeptPagesSpec(n: nat, dict: seq<Entry>, search: Search, keepLast: bool, p: int)
    ensures 0 in KeptPages(n, dict, search, keepLast)
    ensures keepLast ==> n - 1 in KeptPages(n, dict, search, keepLast)
    ensures p != 0 && (!keepLast || p != n - 1) ==>
              (p in KeptPages(n, dict, search, keepLast) <==> 0 <= p < n && PageHits(p, dict, search) > 0)
  {
  }

  /** With no match anywhere nothing is saved, so no output file appears. */
  lemma {:induction false} NoMatchNoFile(n: nat, dict: seq<Entry>, search: Search, style: Style, keepLast: bool)
    requires forall p: nat, e :: e in dict && e.number != "" ==> search(p, e.number) == []
    ensures SavedFor(n, dict, search, style, keepLast) == None
  {
    NoMatchZeroHits(n, dict, search);
  }

  lemma {:induction false} NoMatchZeroHits(n: nat, dict: seq<Entry>, search: Search)
    requires forall p: nat, e :: e in dict && e.number != "" ==> search(p, e.number) == []
    ensures DocHits(n, dict, search) == 0
  {
    if n > 0 {
      NoMatchZeroHits(n - 1, dict, search);
      NoMatchPageZero(n - 1, dict, search);
    }
  }

  lemma {:induction false} NoMatchPageZero(page: nat, dict: seq<Entry>, search: Search)
    requires forall p: nat, e :: e in dict && e.number != "" ==> search(p, e.number) == []
    ensures PageHits(page, dict, search) == 0
    decreases |dict|
  {
    if dict != [] {
      assert dict[|dict| - 1] in dict;
      assert forall e :: e in dict[..|dict| - 1] ==> e in dict;
      NoMatchPageZero(page, dict[..|dict| - 1], search);
    }
  }

  /** A saved file holds the kept pages once each in strictly ascending order,
      and every annotation on the working document lies on one of them. */
  lemma SavedFileSpec(n: nat, dict: seq<Entry>, search: Search, style: Style, keepLast: bool)
    requires SavedFor(n, dict, search, style, keepLast).Some?
    ensures var f := SavedFor(n, dict, search, style, keepLast).value;
            && (forall i, j :: 0 <= i < j < |f.pages| ==> f.pages[i] < f.pages[j])
            && (forall p :: p in f.pages <==> p in KeptPages(n, dict, search, keepLast))
            && 0 in f.pages
            && (forall a :: a in f.annotations ==> a.page in f.pages)
  {
    DocMarksExplained(n, dict, search, style, keepLast);
  }
}
