/** Export of the rendered resume preview as a paginated PDF. The preview is
    captured as one tall image, scaled to the page width, and placed in full
    on as many pages as the loop produces, each page showing it shifted up by
    one more page height; the file is named after the person.

    The capture library and the PDF library are not modelled: the captured
    canvas's pixel size is an input, the page size the PDF library reports is
    an input, and the PDF is the ordered list of image placements together
    with the file name it is saved under. Geometry is exact `real`
    arithmetic. */
module PdfGenerator {
  import Text
  import ResumeBuilder
  import opened Wrappers

  /** The size of one output page, in the document's units (millimetres). */
  datatype PageSize = PageSize(width: real, height: real)

  /** Nominal ISO 216 A4 portrait, in millimetres: the format the export
      asks the PDF library for. */
  const A4Portrait: PageSize := PageSize(210.0, 297.0)

  /** The captured image's size in pixels. */
  datatype Canvas = Canvas(width: nat, height: nat)

  /** One `addImage` call: the image's top-left corner on the page and its
      rendered size. */
  datatype Placement = Placement(x: real, y: real, w: real, h: real)

  /** What is saved: one image placement per page, in page order, and the
      file name. */
  datatype Pdf = Pdf(placements: seq<Placement>, fileName: string)

  /** The export's only error of its own: the preview is not in the page. */
  datatype ExportError = PreviewNotFound

  /** `imgHeight`: the image's height once scaled so that its width is the
      page width. The scaling keeps the aspect ratio. */
  function ImageHeight(c: Canvas, pageWidth: real): (h: real)
    requires c.width > 0
    ensures h * (c.width as real) == (c.height as real) * pageWidth
    ensures pageWidth >= 0.0 ==> h >= 0.0
  {
    (c.height as real) * pageWidth / (c.width as real)
  }

  /** `k` page heights of `p` stacked: what the loop has taken off the
      height left after `k` pages, one page height at a time. */
  function Offset(k: nat, p: real): (r: real)
    ensures p >= 0.0 ==> r >= 0.0
  {
    if k == 0 then 0.0 else Offset(k - 1, p) + p
  }

  /** Stacking `k` page heights is multiplying by `k`. */
  lemma {:induction false} OffsetIsProduct(k: nat, p: real)
    ensures Offset(k, p) == (k as real) * p
  {
    if k > 0 {
      OffsetIsProduct(k - 1, p);
    }
  }

  /** Each further page lies at least one page height further down. */
  lemma {:induction false} OffsetGrows(a: nat, b: nat, p: real)
    requires a < b && p > 0.0
    ensures Offset(a, p) + p <= Offset(b, p)
    decreases b
  {
    if b > a + 1 {
      OffsetGrows(a, b - 1, p);
    }
  }

  lemma OffsetMonotone(a: nat, b: nat, p: real)
    requires a <= b && p > 0.0
    ensures Offset(a, p) <= Offset(b, p)
  {
    if a < b {
      OffsetGrows(a, b, p);
    }
  }

  /** The number of pages the loop produces for an image of height `h` on
      pages of height `p`: one more than the number of whole page heights
      in `h`, so an exact multiple gets a trailing page. */
  function PageCount(h: real, p: real): (n: nat)
    requires h >= 0.0 && p > 0.0
    ensures n >= 1
    ensures Offset(n - 1, p) <= h < Offset(n, p)
  {
    var f := (h / p).Floor;
    assert 0.0 <= h / p;
    assert (f as real) * p <= h by {
      assert (f as real) <= h / p;
    }
    DivBound(h, p, (f + 1) as real);
    OffsetIsProduct(f, p);
    OffsetIsProduct(f + 1, p);
    f + 1
  }

  /** The page count is characterised without division: it is the one
      count `n` such that `n - 1` page heights fit within the image and `n`
      page heights exceed it. */
  lemma PageCountCharacterised(n: int, h: real, p: real)
    requires h >= 0.0 && p > 0.0
    ensures n == PageCount(h, p) <==> (n >= 1 && Offset(n - 1, p) <= h < Offset(n, p))
  {
    var m := PageCount(h, p);
    if n >= 1 && Offset(n - 1, p) <= h < Offset(n, p) {
      if n < m {
        OffsetMonotone(n, m - 1, p);
      } else if m < n {
        OffsetMonotone(m, n - 1, p);
      }
    }
  }

  lemma DivBound(h: real, p: real, u: real)
    requires p > 0.0 && h / p < u
    ensures h < u * p
  {
    var q := h / p;
    assert q * p == h;
    ScaleStrict(q, u, p);
  }

  lemma ScaleStrict(a: real, b: real, p: real)
    requires a < b && p > 0.0
    ensures a * p < b * p
  {
  }

  /** Two bands of one page height, starting at whole multiples of it, that
      share a row are the same band. */
  lemma SameBand(j: nat, k: nat, p: real, t: real)
    requires p > 0.0
    requires Offset(j, p) <= t < Offset(j, p) + p
    requires Offset(k, p) <= t < Offset(k, p) + p
    ensures j == k
  {
    if j < k {
      OffsetGrows(j, k, p);
    } else if k < j {
      OffsetGrows(k, j, p);
    }
  }

  /** While height is left after `n` pages, the loop is short of the page
      count. */
  lemma PageLeftMeansMore(n: nat, count: nat, h: real, p: real, left: real)
    requires p > 0.0
    requires left == h - Offset(n, p) && left >= 0.0
    requires h < Offset(count, p)
    ensures n < count
  {
    if count <= n {
      OffsetMonotone(count, n, p);
    }
  }

  /** The placement of page `k` (counting from 0): full page width, full
      image height, shifted up by `k` page heights. */
  function PlacementAt(k: nat, imgWidth: real, imgHeight: real, pageHeight: real): Placement {
    Placement(0.0, -Offset(k, pageHeight), imgWidth, imgHeight)
  }

  /** The placements as a closed form: page `k` of `PageCount` pages is
      `PlacementAt(k)`. */
  function Layout(imgWidth: real, imgHeight: real, pageHeight: real): seq<Placement>
    requires imgHeight >= 0.0 && pageHeight > 0.0
  {
    seq(PageCount(imgHeight, pageHeight), (k: int) requires 0 <= k => PlacementAt(k, imgWidth, imgHeight, pageHeight))
  }

  /** The page loop of `generatePDF`: place the image on the first page at
      offset 0, take one page height off the height left, and while the
      height left is not negative add a page with the image at offset
      `heightLeft - imgHeight`. It produces the closed-form layout: at least
      one page, the first at offset 0, every page at `x = 0` with the image
      at page width and scaled height, page `k` at offset `-k` page heights,
      and one more page than the whole page heights in the image. */
  method Paginate(canvas: Canvas, page: PageSize) returns (placements: seq<Placement>)
    requires canvas.width > 0
    requires page.width > 0.0 && page.height > 0.0
    ensures |placements| >= 1 && placements[0].y == 0.0
    ensures forall k :: 0 <= k < |placements| ==>
      && placements[k].x == 0.0
      && placements[k].w == page.width
      && placements[k].h == ImageHeight(canvas, page.width)
      && placements[k].y == -((k as real) * page.height)
    ensures |placements| == PageCount(ImageHeight(canvas, page.width), page.height)
    ensures |placements| == (ImageHeight(canvas, page.width) / page.height).Floor + 1
    ensures placements == Layout(page.width, ImageHeight(canvas, page.width), page.height)
  {
    var imgWidth := page.width;
    var imgHeight := ImageHeight(canvas, page.width);
    ghost var count := PageCount(imgHeight, page.height);

    var heightLeft := imgHeight;
    var position := 0.0;
    placements := [Placement(0.0, position, imgWidth, imgHeight)];
    heightLeft := heightLeft - page.height;

    while heightLeft >= 0.0
      invariant 1 <= |placements|
      invariant heightLeft == imgHeight - Offset(|placements|, page.height)
      invariant Offset(|placements| - 1, page.height) <= imgHeight
      invariant forall k :: 0 <= k < |placements| ==>
        placements[k] == PlacementAt(k, imgWidth, imgHeight, page.height)
      decreases count - |placements|
    {
      PageLeftMeansMore(|placements|, count, imgHeight, page.height, heightLeft);
      position := heightLeft - imgHeight;
      placements := placements + [Placement(0.0, position, imgWidth, imgHeight)];
      heightLeft := heightLeft - page.height;
    }
    PageCountCharacterised(|placements|, imgHeight, page.height);
    forall k | 0 <= k < |placements| ensures placements[k].y == -((k as real) * page.height) {
      OffsetIsProduct(k, page.height);
    }
  }

  /** An image shorter than a page fits on exactly one page. */
  lemma SinglePageWhenShort(h: real, p: real)
    requires 0.0 <= h < p
    ensures PageCount(h, p) == 1
  {
    PageCountCharacterised(1, h, p);
  }

  /** An image exactly `m` pages tall gets `m + 1` pages: the loop's
      `heightLeft >= 0` test admits a last page that lies wholly below the
      image. */
  lemma ExactMultipleAddsPage(m: nat, p: real)
    requires p > 0.0
    ensures PageCount((m as real) * p, p) == m + 1
  {
    OffsetIsProduct(m, p);
    PageCountCharacterised(m + 1, (m as real) * p, p);
  }

  /** The case of an image two pages tall: three pages. */
  lemma TwoPageHeightsGiveThreePages(p: real)
    requires p > 0.0
    ensures PageCount(2.0 * p, p) == 3
  {
    ExactMultipleAddsPage(2, p);
  }

  /** A taller image never gets fewer pages. */
  lemma PageCountMonotone(h1: real, h2: real, p: real)
    requires 0.0 <= h1 <= h2 && p > 0.0
    ensures PageCount(h1, p) <= PageCount(h2, p)
  {
    var n1 := PageCount(h1, p);
    var n2 := PageCount(h2, p);
    if n2 < n1 {
      OffsetMonotone(n2, n1 - 1, p);
    }
  }

  /** Image row `t` (measured from the image's top) falls inside the page
      that carries placement `pl`, whose visible area is `[0, pageHeight)`. */
  predicate ShowsRow(pl: Placement, pageHeight: real, t: real) {
    0.0 <= pl.y + t < pageHeight
  }

  /** The pages come in top-to-bottom order: each page shifts the image
      strictly further up than the one before. */
  lemma PagesTopToBottom(imgWidth: real, imgHeight: real, pageHeight: real, j: int, k: int)
    requires imgHeight >= 0.0 && pageHeight > 0.0
    requires 0 <= j < k < |Layout(imgWidth, imgHeight, pageHeight)|
    ensures Layout(imgWidth, imgHeight, pageHeight)[j].y > Layout(imgWidth, imgHeight, pageHeight)[k].y
  {
    OffsetGrows(j, k, pageHeight);
  }

  /** Every row of the image appears on some page... */
  lemma EveryRowOnSomePage(imgWidth: real, imgHeight: real, pageHeight: real, t: real)
    requires imgHeight >= 0.0 && pageHeight > 0.0
    requires 0.0 <= t < imgHeight
    ensures var ps := Layout(imgWidth, imgHeight, pageHeight);
      exists k :: 0 <= k < |ps| && ShowsRow(ps[k], pageHeight, t)
  {
    var ps := Layout(imgWidth, imgHeight, pageHeight);
    var k := PageCount(t, pageHeight) - 1;
    PageCountMonotone(t, imgHeight, pageHeight);
    assert ps[k].y == -Offset(k, pageHeight);
    assert ShowsRow(ps[k], pageHeight, t);
  }

  /** ...and on only one. */
  lemma EveryRowOnOnePage(imgWidth: real, imgHeight: real, pageHeight: real, t: real, j: int, k: int)
    requires imgHeight >= 0.0 && pageHeight > 0.0
    requires var ps := Layout(imgWidth, imgHeight, pageHeight);
      && 0 <= j < |ps| && 0 <= k < |ps|
      && ShowsRow(ps[j], pageHeight, t) && ShowsRow(ps[k], pageHeight, t)
    ensures j == k
  {
    var ps := Layout(imgWidth, imgHeight, pageHeight);
    assert ps[j].y == -Offset(j, pageHeight);
    assert ps[k].y == -Offset(k, pageHeight);
    SameBand(j, k, pageHeight, t);
  }

  /** The last page shows nothing of the image (the image ends at or above
      its top edge) exactly when the image height is a whole number of page
      heights. */
  lemma LastPageBlankIffExactMultiple(imgWidth: real, imgHeight: real, pageHeight: real)
    requires imgHeight >= 0.0 && pageHeight > 0.0
    ensures var ps := Layout(imgWidth, imgHeight, pageHeight);
      ps[|ps| - 1].y + imgHeight <= 0.0 <==> imgHeight == ((|ps| - 1) as real) * pageHeight
  {
    OffsetIsProduct(PageCount(imgHeight, pageHeight) - 1, pageHeight);
  }

  /** A 1000 by 3500 pixel capture on A4 portrait is 735 mm tall and takes
      three pages. */
  lemma A4Example()
    ensures ImageHeight(Canvas(1000, 3500), A4Portrait.width) == 735.0
    ensures PageCount(735.0, A4Portrait.height) == 3
  {
    PageCountCharacterised(3, 735.0, A4Portrait.height);
  }

  /** The literal file name used when there is no name, and the tail added
      after a name. */
  const DefaultFileName: string := "Resume.pdf"
  const NamedSuffix: string := "_Resume.pdf"

  /** The file name for a person called `fullName`: `Resume.pdf` when the
      name is empty, otherwise the name with each white-space run replaced
      by one underscore, followed by `_Resume.pdf`. Either way the name holds
      no white space, ends in `Resume.pdf`, and a reader sees exactly the
      name's visible characters followed by `Resume.pdf`. */
  function FileName(fullName: string): (r: string)
    ensures Text.NoWs(r)
    ensures |r| >= |DefaultFileName| && r[|r| - |DefaultFileName|..] == DefaultFileName
    ensures fullName == [] <==> r == DefaultFileName
    ensures |r| <= |fullName| + |NamedSuffix|
  {
    if fullName == [] then
      DefaultFileName
    else
      var collapsed := Text.CollapseWs(fullName);
      assert (collapsed + NamedSuffix)[|collapsed| + 1..] == DefaultFileName;
      collapsed + NamedSuffix
  }

  /** A reader of the file name sees exactly the visible characters of the
      name, in order, followed by `Resume.pdf`: collapsing loses nothing but
      white space, and the joining underscore is not visible. */
  lemma FileNameKeepsName(fullName: string)
    ensures Text.Visible(FileName(fullName)) == Text.Visible(fullName) + DefaultFileName
  {
    if fullName == [] {
      VisibleDefault();
      assert Text.Visible(fullName) + DefaultFileName == DefaultFileName;
    } else {
      CollapsedNameKeepsName(fullName);
    }
  }

  lemma CollapsedNameKeepsName(fullName: string)
    ensures Text.Visible(Text.CollapseWs(fullName) + NamedSuffix) == Text.Visible(fullName) + DefaultFileName
  {
    var collapsed := Text.CollapseWs(fullName);
    Text.CollapseKeepsVisible(fullName);
    Text.VisibleAppend(collapsed, NamedSuffix);
    VisibleTails();
  }

  /** Both fixed tails read as `Resume.pdf`. */
  lemma VisibleDefault()
    ensures Text.Visible(DefaultFileName) == DefaultFileName
  {
    Text.VisibleOfPlain(DefaultFileName);
  }

  lemma VisibleTails()
    ensures Text.Visible(DefaultFileName) == DefaultFileName
    ensures Text.Visible(NamedSuffix) == DefaultFileName
  {
    VisibleDefault();
    SuffixIsUnderscoreThenDefault();
    Text.VisibleSkipsUnderscore(DefaultFileName);
  }

  lemma SuffixIsUnderscoreThenDefault()
    ensures NamedSuffix == [Text.Underscore] + DefaultFileName
  {
  }

  /** Runs of spaces inside a name collapse to one underscore each. */
  lemma FileNameOfSpacedName()
    ensures FileName("Jane   Q. Doe") == "Jane_Q._Doe_Resume.pdf"
  {
    SpacedNameSplits();
    FileNameOfThreeWords("Jane", "   ", "Q.", " ", "Doe");
    SpacedNameJoins();
  }

  lemma SpacedNameSplits()
    ensures "Jane   Q. Doe" == "Jane" + "   " + "Q." + " " + "Doe"
  {
  }

  lemma SpacedNameJoins()
    ensures "Jane" + [Text.Underscore] + "Q." + [Text.Underscore] + "Doe" + NamedSuffix == "Jane_Q._Doe_Resume.pdf"
  {
  }

  /** The file name of a three-word name with any white space between the
      words. */
  lemma FileNameOfThreeWords(a: string, gap1: string, b: string, gap2: string, c: string)
    requires a != [] && b != [] && c != []
    requires Text.NoWs(a) && Text.NoWs(b) && Text.NoWs(c)
    requires gap1 != [] && gap2 != [] && Text.AllWs(gap1) && Text.AllWs(gap2)
    ensures FileName(a + gap1 + b + gap2 + c)
      == a + [Text.Underscore] + b + [Text.Underscore] + c + NamedSuffix
  {
    ThreeWords(a, gap1, b, gap2, c);
  }

  /** Three words separated by white-space runs collapse to the words
      joined by single underscores. */
  lemma ThreeWords(a: string, gap1: string, b: string, gap2: string, c: string)
    requires a != [] && b != [] && c != []
    requires Text.NoWs(a) && Text.NoWs(b) && Text.NoWs(c)
    requires gap1 != [] && gap2 != [] && Text.AllWs(gap1) && Text.AllWs(gap2)
    ensures Text.CollapseWs(a + gap1 + b + gap2 + c)
      == a + [Text.Underscore] + b + [Text.Underscore] + c
  {
    var u := [Text.Underscore];
    var rest := b + (gap2 + c);
    WordThenGap(b, gap2, c);
    assert rest[0] == b[0];
    WordThenGap(a, gap1, rest);
    Text.CollapseNoWs(c);
    Regroup(a, gap1, b, gap2, c);
    Regroup(a, u, b, u, c);
  }

  /** Concatenation of five pieces, regrouped to the right. */
  lemma Regroup<T>(a: seq<T>, b: seq<T>, c: seq<T>, d: seq<T>, e: seq<T>)
    ensures a + b + c + d + e == a + (b + (c + (d + e)))
  {
  }

  /** A word, a white-space run, then text starting with a visible
      character: the word, one underscore, then the collapsed rest. */
  lemma WordThenGap(w: string, gap: string, rest: string)
    requires w != [] && Text.NoWs(w)
    requires gap != [] && Text.AllWs(gap)
    requires rest != [] && !Text.IsWs(rest[0])
    ensures Text.CollapseWs(w + (gap + rest)) == w + ([Text.Underscore] + Text.CollapseWs(rest))
  {
    Text.CollapseNoWs(w);
    Text.CollapseRun(gap);
    Text.CollapseAppend(gap, rest);
    assert (gap + rest)[0] == gap[0];
    Text.CollapseAppend(w, gap + rest);
  }

  /** An empty name gives the fixed name. */
  lemma FileNameOfEmptyName()
    ensures FileName("") == "Resume.pdf"
  {
  }

  /** A name of only white space is not empty, so it still gets the
      underscore-joined form. */
  lemma FileNameOfBlankName()
    ensures FileName("  \t ") == "__Resume.pdf"
  {
    BlankNameIsRun();
    FileNameOfRun("  \t ");
    UnderscoreThenSuffix();
  }

  lemma BlankNameIsRun()
    ensures "  \t " != [] && Text.AllWs("  \t ")
  {
  }

  lemma UnderscoreThenSuffix()
    ensures [Text.Underscore] + NamedSuffix == "__Resume.pdf"
  {
  }

  /** Any name that is one white-space run becomes a lone underscore in
      front of the suffix. */
  lemma FileNameOfRun(w: string)
    requires w != [] && Text.AllWs(w)
    ensures FileName(w) == [Text.Underscore] + NamedSuffix
  {
    Text.CollapseRun(w);
  }

  /** `generatePDF(resumeData)`. When the preview element is missing the
      export fails before any page is made or any file saved; otherwise the
      captured canvas is paginated and saved under the name derived from the
      person's full name. */
  method GeneratePdf(d: ResumeBuilder.ResumeData, preview: Option<Canvas>, page: PageSize)
    returns (r: Result<Pdf, ExportError>)
    requires page.width > 0.0 && page.height > 0.0
    requires preview.Some? ==> preview.value.width > 0
    ensures preview.None? <==> r.Err?
    ensures r.Err? ==> r.error == PreviewNotFound
    ensures r.Ok? ==>
      && r.value.placements == Layout(page.width, ImageHeight(preview.value, page.width), page.height)
      && r.value.fileName == FileName(d.personalInfo.fullName)
  {
    if preview.None? {
      return Err(PreviewNotFound);
    }
    var placements := Paginate(preview.value, page);
    r := Ok(Pdf(placements, FileName(d.personalInfo.fullName)));
  }
}
