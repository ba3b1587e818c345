/** The view state of the PDF handler: the open document, the current page,
    the zoom scale and the thumbnail cache, with every operation as a pure
    transition from one state to the next.

    pdf.js is not modelled: a decoded document is the list of its pages'
    unscaled sizes together with an identity, `getPage` rejects page numbers outside 1..numPages, and
    whether a render (or any other pdf.js call) completes is an outcome the
    caller supplies. */
module PdfHandler {
  import opened Prelude
  import PdfInfo

  /** The scale a fresh handler starts with. */
  const DefaultScale: real := 1.5
  /** The scale "reset zoom" goes back to. */
  const ResetScale: real := 1.0
  const MinScale: real := 0.5
  const MaxScale: real := 5.0
  /** The factor of one zoom step. */
  const ZoomFactor: real := 1.2
  /** Margin subtracted from the container on each fitted axis. */
  const FitMargin: real := 30.0
  /** The default thumbnail box: at most this wide ... */
  const ThumbnailWidth: real := 150.0
  /** ... and at most this tall. */
  const ThumbnailHeight: real := 200.0

  type Extent = r: real | r > 0.0 witness 1.0

  /** The viewport of a page at scale 1. */
  datatype PageSize = PageSize(width: Extent, height: Extent)

  /** What pdf.js hands back for a file: its pages, and `id`, which tells
      one document object from another. Every decode yields a new object,
      even for the same bytes or the same page sizes. */
  datatype DocumentPages = DocumentPages(pages: seq<PageSize>, id: nat)

  /** A decoded document; `|pages|` is its `numPages`. */
  type Document = d: DocumentPages | |d.pages| > 0 witness DocumentPages([PageSize(1.0, 1.0)], 0)

  /** A rendered thumbnail canvas: the page it shows, its size, and the
      document it was drawn from. */
  datatype Thumbnail = Thumbnail(page: int, width: real, height: real, source: Document)

  datatype Handler = Handler(
    doc: Option<Document>,
    currentPage: int,
    totalPages: int,
    scale: real,
    fileName: string,
    fileSize: nat,
    filePath: string,
    thumbnails: map<int, Thumbnail>,
    /** The `info` dictionary of the metadata; `None` when there is none or loading it failed. */
    info: Option<PdfInfo.Info>)

  /** The handler as constructed: no document, page 1 of 0, scale 1.5, empty cache. */
  const Initial: Handler := Handler(None, 1, 0, DefaultScale, "", 0, "", map[], None)

  /** The state invariant every operation keeps: the scale is within its
      bounds; with no document the page is 1 of 0; with a document the
      page count is its number of pages and the current page lies in 1..total. */
  predicate Valid(h: Handler)
  {
    && MinScale <= h.scale <= MaxScale
    && match h.doc
       case None => h.totalPages == 0 && h.currentPage == 1
       case Some(d) => h.totalPages == |d.pages| && 1 <= h.currentPage <= h.totalPages
  }

  lemma InitialIsValid()
    ensures Valid(Initial)
    ensures Initial.scale == DefaultScale && Initial.currentPage == 1 && Initial.thumbnails == map[]
  {
  }

  /** `getPage(p)` followed by `getViewport({scale: 1})`: fails when no
      document is open (`pdfDoc` is null) or `p` is not one of its pages. */
  function PageAt(h: Handler, p: int): Option<PageSize>
  {
    if h.doc.Some? && 1 <= p <= |h.doc.value.pages| then Some(h.doc.value.pages[p - 1]) else None
  }

  predicate HasPage(h: Handler, p: int)
  {
    PageAt(h, p).Some?
  }

  // ---------------------------------------------------------------------------
  // Pages

  /** `renderPage`: the current page becomes `p` only once the render has
      completed; a failure (no document, no such page, a render error) is
      logged and leaves every field as it was. */
  function RenderPage(h: Handler, p: int, rendered: bool): (r: Handler)
    ensures rendered && HasPage(h, p) ==> r.currentPage == p
    ensures !(rendered && HasPage(h, p)) ==> r == h
    ensures r == h.(currentPage := r.currentPage)
    ensures Valid(h) ==> Valid(r)
  {
    if rendered && HasPage(h, p) then h.(currentPage := p) else h
  }

  /** `nextPage`: the page after the current one, or the current one at the
      end. It only peeks: the state is not an output. */
  function NextPage(h: Handler): (r: int)
    ensures h.currentPage <= r <= h.currentPage + 1
    ensures r == h.currentPage <==> h.currentPage >= h.totalPages
    ensures Valid(h) && h.doc.Some? ==> 1 <= r <= h.totalPages
  {
    if h.currentPage < h.totalPages then h.currentPage + 1 else h.currentPage
  }

  /** `prevPage`: the page before the current one, or the current one at the
      start. It only peeks. */
  function PrevPage(h: Handler): (r: int)
    ensures h.currentPage - 1 <= r <= h.currentPage
    ensures r == h.currentPage <==> h.currentPage <= 1
    ensures Valid(h) && h.doc.Some? ==> 1 <= r <= h.totalPages
  {
    if h.currentPage > 1 then h.currentPage - 1 else h.currentPage
  }

  /** `gotoPage`: commits and returns `n` when it lies in 1..total; otherwise
      returns the current page and changes nothing. Either way the returned
      page is the current page afterwards. */
  function GotoPage(h: Handler, n: int): (r: (Handler, int))
    ensures r.1 == r.0.currentPage
    ensures 1 <= n <= h.totalPages ==> r.1 == n
    ensures !(1 <= n <= h.totalPages) ==> r.0 == h
    ensures r.0 == h.(currentPage := r.0.currentPage)
    ensures Valid(h) ==> Valid(r.0)
  {
    if 1 <= n <= h.totalPages then (h.(currentPage := n), n) else (h, h.currentPage)
  }

  // ---------------------------------------------------------------------------
  // Zoom

  /** `Math.max(0.5, Math.min(x, 5.0))`. */
  function Clamp(x: real): (r: real)
    ensures MinScale <= r <= MaxScale
    ensures MinScale <= x <= MaxScale ==> r == x
    ensures x < MinScale ==> r == MinScale
    ensures x > MaxScale ==> r == MaxScale
  {
    MaxR(MinScale, MinR(x, MaxScale))
  }

  /** Clamping is monotone. */
  lemma ClampMonotone(x: real, y: real)
    requires x <= y
    ensures Clamp(x) <= Clamp(y)
  {
  }

  /** `zoomIn`: one step up, capped at the maximum only. From a scale in
      bounds the result is in bounds and no smaller. */
  function ZoomIn(h: Handler): (r: Handler)
    ensures r == h.(scale := r.scale)
    ensures r.scale <= MaxScale
    ensures r.scale == MaxScale || r.scale == h.scale * ZoomFactor
    ensures h.scale * ZoomFactor <= MaxScale ==> r.scale == h.scale * ZoomFactor
    ensures 0.0 <= h.scale <= MaxScale ==> h.scale <= r.scale
    ensures Valid(h) ==> Valid(r)
  {
    h.(scale := MinR(h.scale * ZoomFactor, MaxScale))
  }

  /** `zoomOut`: one step down, floored at the minimum only. From a scale in
      bounds the result is in bounds and no larger. */
  function ZoomOut(h: Handler): (r: Handler)
    ensures r == h.(scale := r.scale)
    ensures r.scale >= MinScale
    ensures r.scale == MinScale || r.scale == h.scale / ZoomFactor
    ensures h.scale / ZoomFactor >= MinScale ==> r.scale == h.scale / ZoomFactor
    ensures MinScale <= h.scale ==> r.scale <= h.scale
    ensures Valid(h) ==> Valid(r)
  {
    h.(scale := MaxR(h.scale / ZoomFactor, MinScale))
  }

  /** `resetZoom`: back to scale 1.0 whatever the scale was. */
  function ResetZoom(h: Handler): (r: Handler)
    ensures r.scale == ResetScale && r == h.(scale := ResetScale)
    ensures Valid(h) ==> Valid(r)
  {
    h.(scale := ResetScale)
  }

  /** `setScale`: the clamped request. */
  function SetScale(h: Handler, s: real): (r: Handler)
    ensures r == h.(scale := r.scale)
    ensures MinScale <= r.scale <= MaxScale
    ensures MinScale <= s <= MaxScale ==> r.scale == s
    ensures s < MinScale ==> r.scale == MinScale
    ensures s > MaxScale ==> r.scale == MaxScale
    ensures Valid(h) ==> Valid(r)
  {
    h.(scale := Clamp(s))
  }

  /** Setting a scale twice is setting it once; setting the current
      in-bounds scale changes nothing. */
  lemma SetScaleIdempotent(h: Handler, s: real)
    ensures SetScale(SetScale(h, s), s) == SetScale(h, s)
    ensures Valid(h) ==> SetScale(h, h.scale) == h
  {
  }

  /** `scale` is the widest in-bounds scale at which a page `width` wide fits
      in `avail`: it fits unless it sits at the floor, and it fills `avail`
      unless it sits at the cap. */
  predicate FitsWidth(scale: real, width: Extent, avail: real)
  {
    && MinScale <= scale <= MaxScale
    && (scale * width <= avail || scale == MinScale)
    && (scale * width >= avail || scale == MaxScale)
  }

  /** `scale` is the largest in-bounds scale at which the whole page fits in
      `availW` by `availH`: both sides fit unless it sits at the floor, and
      one side fills its room unless it sits at the cap. */
  predicate FitsPage(scale: real, size: PageSize, availW: real, availH: real)
  {
    && MinScale <= scale <= MaxScale
    && ((scale * size.width <= availW && scale * size.height <= availH) || scale == MinScale)
    && (scale * size.width >= availW || scale * size.height >= availH || scale == MaxScale)
  }

  /** Multiplying back by a positive extent: a scale at most (at least) the
      ratio `avail / w` gives at most (at least) `avail`. */
  lemma ScaleProduct(k: real, w: Extent, avail: real, s: real)
    requires k == avail / w
    ensures k * w == avail
    ensures s <= k ==> s * w <= avail
    ensures s >= k ==> s * w >= avail
  {
    if s <= k {
      assert (k - s) * w >= 0.0;
    }
    if s >= k {
      assert (s - k) * w >= 0.0;
    }
  }

  /** A larger scale gives a larger extent. */
  lemma ScaleOrder(a: real, b: real, w: Extent)
    ensures a < b ==> a * w < b * w
  {
    if a < b {
      assert (b - a) * w > 0.0;
    }
  }

  /** The clamped ratio `avail / width` is the fitted scale. */
  lemma ClampedRatioFits(width: Extent, avail: real)
    ensures FitsWidth(Clamp(avail / width), width, avail)
  {
    ScaleProduct(avail / width, width, avail, Clamp(avail / width));
  }

  /** The fitted width scale is unique: the predicate pins it down. */
  lemma FitsWidthUnique(s1: real, s2: real, width: Extent, avail: real)
    requires FitsWidth(s1, width, avail) && FitsWidth(s2, width, avail)
    ensures s1 == s2
  {
  }

  /** `fitToWidth`: with a document and its current page's geometry, the
      scale becomes the clamped ratio of the container width less the margin
      to the page width; with no document, or when the geometry query fails,
      the state is unchanged. */
  function FitToWidth(h: Handler, containerWidth: real, queryOk: bool): (r: Handler)
    ensures r == h.(scale := r.scale)
    ensures Valid(h) ==> Valid(r)
    ensures !(queryOk && HasPage(h, h.currentPage)) ==> r == h
    ensures queryOk && HasPage(h, h.currentPage) ==>
      FitsWidth(r.scale, PageAt(h, h.currentPage).value.width, containerWidth - FitMargin)
  {
    match PageAt(h, h.currentPage)
    case None => h
    case Some(size) =>
      if !queryOk then h
      else
        ClampedRatioFits(size.width, containerWidth - FitMargin);
        h.(scale := Clamp((containerWidth - FitMargin) / size.width))
  }

  /** The page-fit scale: the smaller of the two axis ratios, clamped. */
  function PageFitScale(size: PageSize, availW: real, availH: real): (s: real)
    ensures FitsPage(s, size, availW, availH)
  {
    var sx := availW / size.width;
    var sy := availH / size.height;
    var s := Clamp(MinR(sx, sy));
    ScaleProduct(sx, size.width, availW, s);
    ScaleProduct(sy, size.height, availH, s);
    s
  }

  /** The page-fit scale is unique: `FitsPage` pins it down. */
  lemma FitsPageUnique(s1: real, s2: real, size: PageSize, availW: real, availH: real)
    requires FitsPage(s1, size, availW, availH) && FitsPage(s2, size, availW, availH)
    ensures s1 == s2
  {
    ScaleOrder(s1, s2, size.width);
    ScaleOrder(s1, s2, size.height);
    ScaleOrder(s2, s1, size.width);
    ScaleOrder(s2, s1, size.height);
  }

  /** `fitToPage`: like `fitToWidth`, but the page must fit both the width and
      the height of the container (less the margin on each axis). */
  function FitToPage(h: Handler, containerWidth: real, containerHeight: real, queryOk: bool): (r: Handler)
    ensures r == h.(scale := r.scale)
    ensures Valid(h) ==> Valid(r)
    ensures !(queryOk && HasPage(h, h.currentPage)) ==> r == h
    ensures queryOk && HasPage(h, h.currentPage) ==>
      FitsPage(r.scale, PageAt(h, h.currentPage).value, containerWidth - FitMargin, containerHeight - FitMargin)
  {
    match PageAt(h, h.currentPage)
    case None => h
    case Some(size) =>
      if !queryOk then h
      else h.(scale := PageFitScale(size, containerWidth - FitMargin, containerHeight - FitMargin))
  }

  /** For the same container width and page, fitting the whole page never
      zooms in further than fitting the width alone. */
  lemma FitToPageAtMostFitToWidth(h: Handler, containerWidth: real, containerHeight: real, queryOk: bool)
    ensures FitToPage(h, containerWidth, containerHeight, queryOk).scale
            <= FitToWidth(h, containerWidth, queryOk).scale
            || !(queryOk && HasPage(h, h.currentPage))
  {
    if queryOk && HasPage(h, h.currentPage) {
      var size := PageAt(h, h.currentPage).value;
      var availW := containerWidth - FitMargin;
      var availH := containerHeight - FitMargin;
      ClampMonotone(MinR(availW / size.width, availH / size.height), availW / size.width);
    }
  }

  // ---------------------------------------------------------------------------
  // Thumbnails

  /** The thumbnail scale `min(maxWidth / w, 200 / h)`: the page shrunk or
      grown, aspect kept, until it meets one side of the maxWidth-by-200 box. */
  function ThumbnailScale(size: PageSize, maxWidth: Extent): (k: real)
    ensures k > 0.0
    ensures size.width * k <= maxWidth && size.height * k <= ThumbnailHeight
    ensures size.width * k == maxWidth || size.height * k == ThumbnailHeight
  {
    var kx := maxWidth / size.width;
    var ky := ThumbnailHeight / size.height;
    var k := MinR(kx, ky);
    ScaleProduct(kx, size.width, maxWidth, k);
    ScaleProduct(ky, size.height, ThumbnailHeight, k);
    k
  }

  /** The thumbnail scale is the only positive scale that keeps the page in
      the box and makes one side meet its limit. */
  lemma ThumbnailScaleUnique(size: PageSize, maxWidth: Extent, k: real)
    requires k > 0.0
    requires size.width * k <= maxWidth && size.height * k <= ThumbnailHeight
    requires size.width * k == maxWidth || size.height * k == ThumbnailHeight
    ensures k == ThumbnailScale(size, maxWidth)
  {
    var k0 := ThumbnailScale(size, maxWidth);
    ScaleOrder(k, k0, size.width);
    ScaleOrder(k, k0, size.height);
    ScaleOrder(k0, k, size.width);
    ScaleOrder(k0, k, size.height);
    assert size.width * k == k * size.width && size.height * k == k * size.height;
    assert size.width * k0 == k0 * size.width && size.height * k0 == k0 * size.height;
  }

  /** A thumbnail has the shape of a page when its sides are in the page's ratio. */
  predicate SameShape(t: Thumbnail, size: PageSize)
  {
    t.width * size.height == t.height * size.width
  }

  /** The thumbnail canvas rendered for page `p` of the given size. */
  function RenderThumbnail(d: Document, p: int, maxWidth: Extent): (t: Thumbnail)
    requires 1 <= p <= |d.pages|
    ensures t.page == p && t.source == d && SameShape(t, d.pages[p - 1])
    ensures 0.0 < t.width <= maxWidth && 0.0 < t.height <= ThumbnailHeight
    ensures t.width == maxWidth || t.height == ThumbnailHeight
  {
    var size := d.pages[p - 1];
    var k := ThumbnailScale(size, maxWidth);
    assert size.width * k * size.height == size.height * k * size.width;
    Thumbnail(p, size.width * k, size.height * k, d)
  }

  /** Every cached thumbnail is one of the current document's pages, drawn
      from that document with that page's shape. */
  predicate CacheCoherent(h: Handler)
  {
    forall p :: p in h.thumbnails ==>
      && HasPage(h, p)
      && h.thumbnails[p].page == p
      && h.thumbnails[p].source == h.doc.value
      && SameShape(h.thumbnails[p], PageAt(h, p).value)
  }

  /** `generateThumbnail`: a memo. A cached page is returned as stored with no
      render; a miss that renders is stored and returned; a failure (no
      document, no such page, a render error) returns null and leaves the
      cache alone. Nothing but the cache ever changes. */
  function GenerateThumbnail(h: Handler, p: int, maxWidth: Extent, rendered: bool): (r: (Handler, Option<Thumbnail>))
    ensures p in h.thumbnails ==> r == (h, Some(h.thumbnails[p]))
    ensures r.0 == h.(thumbnails := r.0.thumbnails)
    ensures r.1.None? ==> r.0 == h
    ensures r.1.Some? ==> r.0.thumbnails == h.thumbnails[p := r.1.value]
    ensures p !in h.thumbnails ==> (r.1.Some? <==> rendered && HasPage(h, p))
    ensures p !in h.thumbnails && r.1.Some? ==>
      && HasPage(h, p)
      && r.1.value == RenderThumbnail(h.doc.value, p, maxWidth)
      && r.1.value.page == p
      && r.1.value.source == h.doc.value
      && 0.0 < r.1.value.width <= maxWidth && 0.0 < r.1.value.height && r.1.value.height <= ThumbnailHeight
      && (r.1.value.width == maxWidth || r.1.value.height == ThumbnailHeight)
      && SameShape(r.1.value, PageAt(h, p).value)
    ensures CacheCoherent(h) ==> CacheCoherent(r.0)
  {
    if p in h.thumbnails then (h, Some(h.thumbnails[p]))
    else
      match PageAt(h, p)
      case None => (h, None)
      case Some(size) =>
        if !rendered then (h, None)
        else
          var t := RenderThumbnail(h.doc.value, p, maxWidth);
          (h.(thumbnails := h.thumbnails[p := t]), Some(t))
  }

  /** Asking again for a thumbnail that was produced returns the very same
      one, without rendering, whatever the second render would have done. */
  lemma ThumbnailMemo(h: Handler, p: int, maxWidth: Extent, first: bool, second: bool)
    requires GenerateThumbnail(h, p, maxWidth, first).1.Some?
    ensures var (h1, t1) := GenerateThumbnail(h, p, maxWidth, first);
            GenerateThumbnail(h1, p, maxWidth, second) == (h1, t1)
  {
  }

  /** `clearThumbnailCache`: no entries remain, nothing else changes. */
  function ClearThumbnailCache(h: Handler): (r: Handler)
    ensures r.thumbnails == map[]
    ensures r == h.(thumbnails := map[])
    ensures CacheCoherent(r)
    ensures Valid(h) ==> Valid(r)
  {
    h.(thumbnails := map[])
  }

  // ---------------------------------------------------------------------------
  // Loading

  /** `loadPDF`, as written. `fileBytes` is the length read from disk (`None`
      when reading throws), `decoded` what pdf.js makes of the bytes (`None`
      when it rejects them) and `info` the metadata outcome (`None` when
      there is none or loading it fails, which is not fatal). The second
      component says whether the load succeeded (`false` is the rethrown error).

      A successful load sets the document, the page count and page 1. It
      keeps the scale and the thumbnail cache. A decode failure has already
      overwritten the file name, size and path. */
  function LoadPdf(h: Handler, path: string, fileBytes: Option<nat>, decoded: Option<Document>,
                   info: Option<PdfInfo.Info>): (r: (Handler, bool))
    ensures r.1 <==> fileBytes.Some? && decoded.Some?
    ensures r.0.scale == h.scale && r.0.thumbnails == h.thumbnails
    ensures fileBytes.None? ==> r.0 == h
    ensures fileBytes.Some? ==>
      r.0.fileName == PdfInfo.FileName(path) && r.0.filePath == path && r.0.fileSize == fileBytes.value
    ensures !r.1 ==>
      r.0.doc == h.doc && r.0.currentPage == h.currentPage && r.0.totalPages == h.totalPages && r.0.info == h.info
    ensures r.1 ==>
      r.0.doc == decoded && r.0.currentPage == 1 && r.0.totalPages == |decoded.value.pages| && r.0.info == info
    ensures Valid(h) ==> Valid(r.0)
  {
    match fileBytes
    case None => (h, false)
    case Some(size) =>
      var named := h.(fileName := PdfInfo.FileName(path), fileSize := size, filePath := path);
      match decoded
      case None => (named, false)
      case Some(d) =>
        (named.(doc := Some(d), totalPages := |d.pages|, currentPage := 1, info := info), true)
  }

  /** The corrected load: as written, plus an emptied thumbnail cache when a
      new document replaces the old one. The handler has the means for this,
      `clearThumbnailCache` (pdf-handler.js:242-244), but nothing calls it. */
  function LoadPdfFresh(h: Handler, path: string, fileBytes: Option<nat>, decoded: Option<Document>,
                        info: Option<PdfInfo.Info>): (r: (Handler, bool))
    ensures r.1 == LoadPdf(h, path, fileBytes, decoded, info).1
    ensures r.1 ==> r.0.thumbnails == map[]
    ensures !r.1 ==> r.0 == LoadPdf(h, path, fileBytes, decoded, info).0
    ensures r.0 == LoadPdf(h, path, fileBytes, decoded, info).0.(thumbnails := r.0.thumbnails)
    ensures Valid(h) ==> Valid(r.0)
  {
    var (loaded, ok) := LoadPdf(h, path, fileBytes, decoded, info);
    if ok then (ClearThumbnailCache(loaded), true) else (loaded, false)
  }

  /** A load that fails keeps the document and the cache, so it keeps them coherent. */
  lemma FailedLoadKeepsCacheCoherent(h: Handler, r: Handler)
    requires CacheCoherent(h)
    requires r.doc == h.doc && r.thumbnails == h.thumbnails
    ensures CacheCoherent(r)
  {
    forall p | p in r.thumbnails
      ensures HasPage(r, p) && r.thumbnails[p].page == p && SameShape(r.thumbnails[p], PageAt(r, p).value)
    {
      assert PageAt(r, p) == PageAt(h, p);
    }
  }

  /** The corrected load keeps the cache coherent with the open document. */
  lemma LoadPdfFreshKeepsCacheCoherent(h: Handler, path: string, fileBytes: Option<nat>,
                                       decoded: Option<Document>, info: Option<PdfInfo.Info>)
    requires CacheCoherent(h)
    ensures CacheCoherent(LoadPdfFresh(h, path, fileBytes, decoded, info).0)
  {
    var r := LoadPdfFresh(h, path, fileBytes, decoded, info);
    if !r.1 {
      FailedLoadKeepsCacheCoherent(h, r.0);
    }
  }

  /** The load as written serves the old document's thumbnails after a new
      document is opened: a page cached for the previous document is
      answered from the cache, without a render and even when a render would
      fail, and the cache no longer belongs to the open document. */
  lemma StaleThumbnailAfterReload(h: Handler, path: string, fileBytes: nat, decoded: Document,
                                  info: Option<PdfInfo.Info>, p: int, maxWidth: Extent, rendered: bool)
    requires CacheCoherent(h) && h.doc != Some(decoded)
    requires p in h.thumbnails
    ensures var h' := LoadPdf(h, path, Some(fileBytes), Some(decoded), info).0;
      && h'.doc == Some(decoded)
      && GenerateThumbnail(h', p, maxWidth, rendered) == (h', Some(h.thumbnails[p]))
      && h.thumbnails[p].source != decoded
      && !CacheCoherent(h')
  {
    var h' := LoadPdf(h, path, Some(fileBytes), Some(decoded), info).0;
    assert h.thumbnails[p].source == h.doc.value;
    assert p in h'.thumbnails && h'.thumbnails[p].source != h'.doc.value;
  }

  /** The stale thumbnail need not even have the right shape: the thumbnail
      of a 600 x 800 portrait page is 150 x 200, which is not the shape of an
      800 x 600 landscape page. */
  lemma PortraitThumbnailOnLandscape(d: Document)
    requires d.pages[0] == PageSize(600.0, 800.0)
    ensures RenderThumbnail(d, 1, ThumbnailWidth) == Thumbnail(1, 150.0, 200.0, d)
    ensures !SameShape(RenderThumbnail(d, 1, ThumbnailWidth), PageSize(800.0, 600.0))
  {
    var k := ThumbnailScale(PageSize(600.0, 800.0), ThumbnailWidth);
    assert k == 0.25;
  }
}
