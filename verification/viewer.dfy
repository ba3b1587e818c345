/** The renderer's event handlers: the toolbar buttons, the page-jump box,
    the thumbnail sidebar, Ctrl+wheel, window resizes and opening a file,
    each as a transition of the viewer state. The state is the handler plus
    the renderer's `lastFitMode`, which remembers whether the scale was last
    chosen by fitting the width, fitting the page, or neither, so that a
    resize can fit again. */
module Viewer {
  import opened Prelude
  import PdfInfo
  import PdfHandler
  import ThumbnailSchedule

  /** `lastFitMode`: `null`, `'width'` or `'page'`. */
  datatype FitMode = NoFit | FitWidth | FitPage

  datatype State = State(handler: PdfHandler.Handler, lastFitMode: FitMode)

  /** The renderer at start-up: a fresh handler and no fit mode. */
  const Initial: State := State(PdfHandler.Initial, NoFit)

  /** The start-up state satisfies the invariant, has no document and no
      fit mode, so a resize before any file is opened changes nothing. */
  lemma InitialValid(width: real, height: real, queryOk: bool, rendered: bool)
    ensures Valid(Initial) && !HasDocument(Initial) && Initial.lastFitMode == NoFit
    ensures Step(Initial, Resize(width, height, queryOk, rendered)) == Initial
  {
    PdfHandler.InitialIsValid();
  }

  /** What the user can do once the window is up. Each render the event
      triggers is given its outcome as `rendered`; `width`/`height` are the
      container's client size and `queryOk` whether reading the current
      page's geometry succeeds. */
  datatype Event =
    | PrevClick(rendered: bool)
    | NextClick(rendered: bool)
      /** `target` is `parseInt` of the page-jump box: `None` is `NaN`. */
    | GotoClick(target: Option<int>, rendered: bool)
    | ThumbnailClick(page: int, rendered: bool)
    | ZoomInClick(rendered: bool)
    | ZoomOutClick(rendered: bool)
    | ZoomResetClick(rendered: bool)
    | FitWidthClick(width: real, queryOk: bool, rendered: bool)
    | FitPageClick(width: real, height: real, queryOk: bool, rendered: bool)
    | Wheel(ctrl: bool, deltaY: real, rendered: bool)
    | Resize(width: real, height: real, queryOk: bool, rendered: bool)

  predicate Valid(v: State)
  {
    PdfHandler.Valid(v.handler)
  }

  predicate HasDocument(v: State)
  {
    v.handler.doc.Some?
  }

  /** Re-rendering the page already shown never moves to another page,
      whether the render completes or not. */
  lemma RerenderKeepsState(h: PdfHandler.Handler, rendered: bool)
    ensures PdfHandler.RenderPage(h, h.currentPage, rendered) == h
  {
  }

  // ---------------------------------------------------------------------------
  // Paging

  /** The previous-page button: when there is a page before the current one
      it is rendered, and becomes current once the render completes. */
  function OnPrev(v: State, rendered: bool): (r: State)
    ensures r.lastFitMode == v.lastFitMode
    ensures r.handler == v.handler.(currentPage := r.handler.currentPage)
    ensures v.handler.currentPage <= 1 ==> r == v
    ensures Valid(v) && v.handler.currentPage > 1 ==>
      r.handler.currentPage == (if rendered then v.handler.currentPage - 1 else v.handler.currentPage)
    ensures Valid(v) ==> Valid(r)
  {
    var target := PdfHandler.PrevPage(v.handler);
    if target != v.handler.currentPage then v.(handler := PdfHandler.RenderPage(v.handler, target, rendered))
    else v
  }

  /** The next-page button: the mirror image of the previous-page button. */
  function OnNext(v: State, rendered: bool): (r: State)
    ensures r.lastFitMode == v.lastFitMode
    ensures r.handler == v.handler.(currentPage := r.handler.currentPage)
    ensures v.handler.currentPage >= v.handler.totalPages ==> r == v
    ensures Valid(v) && v.handler.currentPage < v.handler.totalPages ==>
      r.handler.currentPage == (if rendered then v.handler.currentPage + 1 else v.handler.currentPage)
    ensures Valid(v) ==> Valid(r)
  {
    var target := PdfHandler.NextPage(v.handler);
    if target != v.handler.currentPage then v.(handler := PdfHandler.RenderPage(v.handler, target, rendered))
    else v
  }

  /** The previous-page button undoes the next-page button whenever both
      renders complete, and so does the converse. */
  lemma PrevUndoesNext(v: State)
    requires Valid(v)
    ensures v.handler.currentPage < v.handler.totalPages ==> OnPrev(OnNext(v, true), true) == v
    ensures v.handler.currentPage > 1 ==> OnNext(OnPrev(v, true), true) == v
  {
    if v.handler.currentPage < v.handler.totalPages {
      assert OnNext(v, true).handler.currentPage == v.handler.currentPage + 1;
    }
    if v.handler.currentPage > 1 {
      assert OnPrev(v, true).handler.currentPage == v.handler.currentPage - 1;
    }
  }

  /** JavaScript truthiness of the parsed page number: `NaN` and `0` are false. */
  predicate TargetGiven(target: Option<int>)
  {
    target.Some? && target.value != 0
  }

  /** The go button: with a document and a given page number, `gotoPage`
      commits an in-range page at once, and the page it returns is rendered.
      An in-range page is current afterwards even when its render fails; an
      out-of-range one leaves everything as it was. */
  function OnGoto(v: State, target: Option<int>, rendered: bool): (r: State)
    ensures r.lastFitMode == v.lastFitMode
    ensures r.handler == v.handler.(currentPage := r.handler.currentPage)
    ensures !(TargetGiven(target) && HasDocument(v)) ==> r == v
    ensures TargetGiven(target) && HasDocument(v) && 1 <= target.value <= v.handler.totalPages ==>
      r.handler.currentPage == target.value
    ensures TargetGiven(target) && !(1 <= target.value <= v.handler.totalPages) ==> r == v
    ensures Valid(v) ==> Valid(r)
  {
    if TargetGiven(target) && HasDocument(v) then
      var (moved, page) := PdfHandler.GotoPage(v.handler, target.value);
      v.(handler := PdfHandler.RenderPage(moved, page, rendered))
    else v
  }

  /** A click on the thumbnail of page `p`: `gotoPage(p)` and then a render
      of `p` itself, with no check for a document. On a valid state the page
      becomes current exactly when it is one of the document's pages. */
  function OnThumbnail(v: State, p: int, rendered: bool): (r: State)
    ensures r.lastFitMode == v.lastFitMode
    ensures r.handler == v.handler.(currentPage := r.handler.currentPage)
    ensures Valid(v) && 1 <= p <= v.handler.totalPages ==> r.handler.currentPage == p
    ensures Valid(v) && !(1 <= p <= v.handler.totalPages) ==> r == v
    ensures Valid(v) ==> Valid(r)
  {
    var moved := PdfHandler.GotoPage(v.handler, p).0;
    v.(handler := PdfHandler.RenderPage(moved, p, rendered))
  }

  // ---------------------------------------------------------------------------
  // Zoom and fit

  /** The zoom-in button: with a document, one step up, the current page
      rendered again, and the fit mode forgotten. */
  function OnZoomIn(v: State, rendered: bool): (r: State)
    ensures !HasDocument(v) ==> r == v
    ensures HasDocument(v) ==> r.lastFitMode == NoFit && r.handler == PdfHandler.ZoomIn(v.handler)
    ensures Valid(v) ==> Valid(r)
  {
    if HasDocument(v) then
      var zoomed := PdfHandler.ZoomIn(v.handler);
      RerenderKeepsState(zoomed, rendered);
      State(PdfHandler.RenderPage(zoomed, zoomed.currentPage, rendered), NoFit)
    else v
  }

  /** The zoom-out button: with a document, one step down, the current page
      rendered again, and the fit mode forgotten. */
  function OnZoomOut(v: State, rendered: bool): (r: State)
    ensures !HasDocument(v) ==> r == v
    ensures HasDocument(v) ==> r.lastFitMode == NoFit && r.handler == PdfHandler.ZoomOut(v.handler)
    ensures Valid(v) ==> Valid(r)
  {
    if HasDocument(v) then
      var zoomed := PdfHandler.ZoomOut(v.handler);
      RerenderKeepsState(zoomed, rendered);
      State(PdfHandler.RenderPage(zoomed, zoomed.currentPage, rendered), NoFit)
    else v
  }

  /** The reset button: with a document, scale 1.0 and no fit mode. */
  function OnZoomReset(v: State, rendered: bool): (r: State)
    ensures !HasDocument(v) ==> r == v
    ensures HasDocument(v) ==>
      r.lastFitMode == NoFit && r.handler == v.handler.(scale := PdfHandler.ResetScale)
    ensures Valid(v) ==> Valid(r)
  {
    if HasDocument(v) then
      var reset := PdfHandler.ResetZoom(v.handler);
      RerenderKeepsState(reset, rendered);
      State(PdfHandler.RenderPage(reset, reset.currentPage, rendered), NoFit)
    else v
  }

  /** The fit-width button: with a document, the width fit, a render of the
      current page, and the fit mode remembered as `'width'` (even when the
      geometry query failed and the scale stayed). */
  function OnFitWidth(v: State, width: real, queryOk: bool, rendered: bool): (r: State)
    ensures !HasDocument(v) ==> r == v
    ensures HasDocument(v) ==> r.lastFitMode == FitWidth
    ensures r.handler == v.handler.(scale := r.handler.scale)
    ensures HasDocument(v) && queryOk && PdfHandler.HasPage(v.handler, v.handler.currentPage) ==>
      PdfHandler.FitsWidth(r.handler.scale, PdfHandler.PageAt(v.handler, v.handler.currentPage).value.width,
                           width - PdfHandler.FitMargin)
    ensures !(queryOk && PdfHandler.HasPage(v.handler, v.handler.currentPage)) ==> r.handler == v.handler
    ensures Valid(v) ==> Valid(r)
  {
    if HasDocument(v) then
      var fitted := PdfHandler.FitToWidth(v.handler, width, queryOk);
      RerenderKeepsState(fitted, rendered);
      State(PdfHandler.RenderPage(fitted, fitted.currentPage, rendered), FitWidth)
    else v
  }

  /** The fit-page button: as fit-width, fitting both sides, mode `'page'`. */
  function OnFitPage(v: State, width: real, height: real, queryOk: bool, rendered: bool): (r: State)
    ensures !HasDocument(v) ==> r == v
    ensures HasDocument(v) ==> r.lastFitMode == FitPage
    ensures r.handler == v.handler.(scale := r.handler.scale)
    ensures HasDocument(v) && queryOk && PdfHandler.HasPage(v.handler, v.handler.currentPage) ==>
      PdfHandler.FitsPage(r.handler.scale, PdfHandler.PageAt(v.handler, v.handler.currentPage).value,
                          width - PdfHandler.FitMargin, height - PdfHandler.FitMargin)
    ensures !(queryOk && PdfHandler.HasPage(v.handler, v.handler.currentPage)) ==> r.handler == v.handler
    ensures Valid(v) ==> Valid(r)
  {
    if HasDocument(v) then
      var fitted := PdfHandler.FitToPage(v.handler, width, height, queryOk);
      RerenderKeepsState(fitted, rendered);
      State(PdfHandler.RenderPage(fitted, fitted.currentPage, rendered), FitPage)
    else v
  }

  /** Ctrl+wheel: with a document, scrolling up zooms in and anything else
      zooms out. Unlike the buttons it leaves the fit mode as it was. */
  function OnWheel(v: State, ctrl: bool, deltaY: real, rendered: bool): (r: State)
    ensures r.lastFitMode == v.lastFitMode
    ensures !(ctrl && HasDocument(v)) ==> r == v
    ensures ctrl && HasDocument(v) && deltaY < 0.0 ==> r.handler == OnZoomIn(v, rendered).handler
    ensures ctrl && HasDocument(v) && deltaY >= 0.0 ==> r.handler == OnZoomOut(v, rendered).handler
    ensures Valid(v) ==> Valid(r)
  {
    if ctrl && HasDocument(v) then
      var zoomed := if deltaY < 0.0 then PdfHandler.ZoomIn(v.handler) else PdfHandler.ZoomOut(v.handler);
      RerenderKeepsState(zoomed, rendered);
      v.(handler := PdfHandler.RenderPage(zoomed, zoomed.currentPage, rendered))
    else v
  }

  /** A window resize: with a document and a remembered fit mode, that fit
      is applied again to the new container size and the page re-rendered;
      otherwise nothing happens. The fit mode stays as it was. */
  function OnResize(v: State, width: real, height: real, queryOk: bool, rendered: bool): (r: State)
    ensures r.lastFitMode == v.lastFitMode
    ensures r.handler == v.handler.(scale := r.handler.scale)
    ensures !HasDocument(v) || v.lastFitMode == NoFit ==> r == v
    ensures Valid(v) ==> Valid(r)
  {
    if HasDocument(v) && v.lastFitMode != NoFit then
      var fitted :=
        if v.lastFitMode == FitWidth then PdfHandler.FitToWidth(v.handler, width, queryOk)
        else PdfHandler.FitToPage(v.handler, width, height, queryOk);
      RerenderKeepsState(fitted, rendered);
      v.(handler := PdfHandler.RenderPage(fitted, fitted.currentPage, rendered))
    else v
  }

  /** A resize after a fit click does what the fit button itself would do
      at the new size, so the page keeps fitting as the window changes. */
  lemma ResizeReappliesFit(v: State, width: real, height: real, queryOk: bool, rendered: bool)
    requires HasDocument(v)
    ensures v.lastFitMode == FitWidth ==>
      OnResize(v, width, height, queryOk, rendered) == OnFitWidth(v, width, queryOk, rendered)
    ensures v.lastFitMode == FitPage ==>
      OnResize(v, width, height, queryOk, rendered) == OnFitPage(v, width, height, queryOk, rendered)
  {
  }

  /** Fitting depends only on the page and the container, not on the scale
      it starts from: a second resize to the same size changes nothing. */
  lemma ResizeIdempotent(v: State, width: real, height: real, queryOk: bool, rendered: bool)
    ensures var once := OnResize(v, width, height, queryOk, rendered);
            OnResize(once, width, height, queryOk, rendered) == once
  {
    var once := OnResize(v, width, height, queryOk, rendered);
    if HasDocument(v) && v.lastFitMode != NoFit {
      assert once.handler == v.handler.(scale := once.handler.scale);
      assert PdfHandler.PageAt(once.handler, once.handler.currentPage)
          == PdfHandler.PageAt(v.handler, v.handler.currentPage);
    }
  }

  // ---------------------------------------------------------------------------
  // Event sequences

  /** Dispatching an event to its handler. */
  function Step(v: State, e: Event): (r: State)
    ensures r.handler == v.handler.(currentPage := r.handler.currentPage, scale := r.handler.scale)
    ensures Valid(v) ==> Valid(r)
    ensures r.lastFitMode != v.lastFitMode ==>
      || ((e.ZoomInClick? || e.ZoomOutClick? || e.ZoomResetClick?) && r.lastFitMode == NoFit)
      || (e.FitWidthClick? && r.lastFitMode == FitWidth)
      || (e.FitPageClick? && r.lastFitMode == FitPage)
  {
    match e
    case PrevClick(rendered) => OnPrev(v, rendered)
    case NextClick(rendered) => OnNext(v, rendered)
    case GotoClick(target, rendered) => OnGoto(v, target, rendered)
    case ThumbnailClick(p, rendered) => OnThumbnail(v, p, rendered)
    case ZoomInClick(rendered) => OnZoomIn(v, rendered)
    case ZoomOutClick(rendered) => OnZoomOut(v, rendered)
    case ZoomResetClick(rendered) => OnZoomReset(v, rendered)
    case FitWidthClick(width, queryOk, rendered) => OnFitWidth(v, width, queryOk, rendered)
    case FitPageClick(width, height, queryOk, rendered) => OnFitPage(v, width, height, queryOk, rendered)
    case Wheel(ctrl, deltaY, rendered) => OnWheel(v, ctrl, deltaY, rendered)
    case Resize(width, height, queryOk, rendered) => OnResize(v, width, height, queryOk, rendered)
  }

  /** The events applied one after another. No event opens, closes or
      reloads a document or touches the thumbnail cache: only the current
      page and the scale move, and the state invariant holds throughout. */
  function Run(v: State, events: seq<Event>): (r: State)
    ensures r.handler == v.handler.(currentPage := r.handler.currentPage, scale := r.handler.scale)
    ensures Valid(v) ==> Valid(r)
    decreases |events|
  {
    if events == [] then v else Run(Step(v, events[0]), events[1..])
  }

  /** The fit mode only ever becomes `'width'` or `'page'` through a click on
      the matching button: if it is set at the end of a run and was not set
      that way before, the run contains such a click. */
  lemma {:induction false} FitModeNeedsFitClick(v: State, events: seq<Event>)
    ensures Run(v, events).lastFitMode == FitWidth && v.lastFitMode != FitWidth ==>
      exists k :: 0 <= k < |events| && events[k].FitWidthClick?
    ensures Run(v, events).lastFitMode == FitPage && v.lastFitMode != FitPage ==>
      exists k :: 0 <= k < |events| && events[k].FitPageClick?
    decreases |events|
  {
    if events != [] {
      var next := Step(v, events[0]);
      FitModeNeedsFitClick(next, events[1..]);
      assert Run(v, events) == Run(next, events[1..]);
      if Run(v, events).lastFitMode == FitWidth && v.lastFitMode != FitWidth {
        if next.lastFitMode == FitWidth {
          assert events[0].FitWidthClick?;
        } else {
          var k :| 0 <= k < |events[1..]| && events[1..][k].FitWidthClick?;
          assert events[k + 1].FitWidthClick?;
        }
      }
      if Run(v, events).lastFitMode == FitPage && v.lastFitMode != FitPage {
        if next.lastFitMode == FitPage {
          assert events[0].FitPageClick?;
        } else {
          var k :| 0 <= k < |events[1..]| && events[1..][k].FitPageClick?;
          assert events[k + 1].FitPageClick?;
        }
      }
    }
  }

  /** Running two event sequences one after the other is running their concatenation. */
  lemma {:induction false} RunAppend(v: State, first: seq<Event>, second: seq<Event>)
    ensures Run(v, first + second) == Run(Run(v, first), second)
    decreases |first|
  {
    if first != [] {
      assert (first + second)[0] == first[0];
      assert (first + second)[1..] == first[1..] + second;
      RunAppend(Step(v, first[0]), first[1..], second);
    } else {
      assert first + second == second;
    }
  }

  // ---------------------------------------------------------------------------
  // Opening a file

  /** JavaScript truthiness of the dialog's answer: `null` (cancelled) and
      the empty string are false. */
  predicate PathGiven(path: Option<string>)
  {
    path.Some? && path.value != ""
  }

  /** Every entry of `after` that `before` lacks is a page of `d` whose
      render completes, holding that page's rendering at the sidebar width. */
  predicate RenderedSince(before: map<int, PdfHandler.Thumbnail>, after: map<int, PdfHandler.Thumbnail>,
                          d: PdfHandler.Document, rendered: int -> bool)
  {
    forall p :: p in after && p !in before ==>
      && 1 <= p <= |d.pages| && rendered(p)
      && after[p] == PdfHandler.RenderThumbnail(d, p, PdfHandler.ThumbnailWidth)
  }

  /** What the open button does after a successful load: render page 1,
      then populate the thumbnails of the loaded document. A page already in
      the cache is shown from it without a render; any other page is shown
      exactly when its thumbnail render completes. */
  method ShowFirstPage(h: PdfHandler.Handler, firstRendered: bool, rendered: int -> bool)
    returns (h': PdfHandler.Handler, shown: seq<int>, steps: seq<ThumbnailSchedule.Step>)
    requires h.doc.Some? && h.totalPages == |h.doc.value.pages| && h.currentPage == 1
    ensures h' == h.(thumbnails := h'.thumbnails)
    ensures steps == ThumbnailSchedule.Schedule(h.totalPages)
    ensures forall p :: 1 <= p <= h.totalPages ==>
      && (p in shown <==> p in h'.thumbnails)
      && (p in h'.thumbnails <==> p in h.thumbnails || rendered(p))
    ensures RenderedSince(h.thumbnails, h'.thumbnails, h.doc.value, rendered)
    ensures forall p :: p in h.thumbnails ==> p in h'.thumbnails && h'.thumbnails[p] == h.thumbnails[p]
    ensures forall k :: 0 <= k < |shown| ==> 1 <= shown[k] <= h.totalPages
    ensures forall a, b :: 0 <= a < b < |shown| ==> shown[a] < shown[b]
    ensures PdfHandler.CacheCoherent(h) ==> PdfHandler.CacheCoherent(h')
    ensures PdfHandler.Valid(h) ==> PdfHandler.Valid(h')
  {
    var first := PdfHandler.RenderPage(h, 1, firstRendered);
    assert first == h;
    h', shown, steps := ThumbnailSchedule.GenerateThumbnails(first, rendered);
    forall p | 1 <= p <= h.totalPages
      ensures PdfHandler.HasPage(h, p)
    {
    }
  }

  /** The open button, once the dialog has answered `path`: the file is
      loaded with `loadPDF` as written; on success page 1 is rendered and
      the thumbnails are generated in the scheduled order. A failed load is
      reported and nothing further happens. The fit mode is untouched.

      The load keeps the thumbnail cache, so a page number cached for the
      previously open document is shown with that document's thumbnail (see
      `PdfHandler.StaleThumbnailAfterReload`).

      `fileBytes`, `decoded` and `info` are the load's outcomes (see
      `PdfHandler.LoadPdf`), `firstRendered` whether page 1's render
      completes and `rendered(p)` whether page `p`'s thumbnail render does. */
  method OpenFile(v: State, path: Option<string>, fileBytes: Option<nat>,
                  decoded: Option<PdfHandler.Document>, info: Option<PdfInfo.Info>,
                  firstRendered: bool, rendered: int -> bool)
    returns (r: State, shown: seq<int>, steps: seq<ThumbnailSchedule.Step>)
    ensures r.lastFitMode == v.lastFitMode
    ensures !PathGiven(path) ==> r == v && shown == [] && steps == []
    ensures PathGiven(path) && !(fileBytes.Some? && decoded.Some?) ==>
      r.handler == PdfHandler.LoadPdf(v.handler, path.value, fileBytes, decoded, info).0
      && shown == [] && steps == []
    ensures PathGiven(path) && fileBytes.Some? && decoded.Some? ==>
      && r.handler.doc == decoded
      && r.handler.currentPage == 1
      && r.handler.scale == v.handler.scale
      && steps == ThumbnailSchedule.Schedule(|decoded.value.pages|)
      && (forall p :: 1 <= p <= |decoded.value.pages| ==>
            && (p in shown <==> p in r.handler.thumbnails)
            && (p in r.handler.thumbnails <==> p in v.handler.thumbnails || rendered(p)))
      && r.handler == PdfHandler.LoadPdf(v.handler, path.value, fileBytes, decoded, info).0.(thumbnails := r.handler.thumbnails)
      && (forall p :: p in v.handler.thumbnails ==>
            p in r.handler.thumbnails && r.handler.thumbnails[p] == v.handler.thumbnails[p])
      && RenderedSince(v.handler.thumbnails, r.handler.thumbnails, decoded.value, rendered)
      && (forall k :: 0 <= k < |shown| ==> 1 <= shown[k] <= |decoded.value.pages|)
      && (forall a, b :: 0 <= a < b < |shown| ==> shown[a] < shown[b])
    ensures Valid(v) ==> Valid(r)
  {
    r, shown, steps := v, [], [];
    if PathGiven(path) {
      var (loaded, ok) := PdfHandler.LoadPdf(v.handler, path.value, fileBytes, decoded, info);
      r := r.(handler := loaded);
      if ok {
        var h;
        h, shown, steps := ShowFirstPage(loaded, firstRendered, rendered);
        r := r.(handler := h);
      }
    }
  }

  /** The open button with the corrected load, `PdfHandler.LoadPdfFresh`:
      a new document starts with an empty thumbnail cache, so a page is
      shown exactly when its own thumbnail renders, and the cache always
      belongs to the open document. */
  method OpenFileFresh(v: State, path: Option<string>, fileBytes: Option<nat>,
                       decoded: Option<PdfHandler.Document>, info: Option<PdfInfo.Info>,
                       firstRendered: bool, rendered: int -> bool)
    returns (r: State, shown: seq<int>, steps: seq<ThumbnailSchedule.Step>)
    ensures r.lastFitMode == v.lastFitMode
    ensures !PathGiven(path) ==> r == v && shown == [] && steps == []
    ensures PathGiven(path) && !(fileBytes.Some? && decoded.Some?) ==>
      r.handler == PdfHandler.LoadPdf(v.handler, path.value, fileBytes, decoded, info).0
      && shown == [] && steps == []
    ensures PathGiven(path) && fileBytes.Some? && decoded.Some? ==>
      && r.handler.doc == decoded
      && r.handler.currentPage == 1
      && r.handler.scale == v.handler.scale
      && steps == ThumbnailSchedule.Schedule(|decoded.value.pages|)
      && (forall p :: 1 <= p <= |decoded.value.pages| ==>
            (p in shown <==> rendered(p)) && (p in r.handler.thumbnails <==> rendered(p)))
      && RenderedSince(map[], r.handler.thumbnails, decoded.value, rendered)
      && r.handler == PdfHandler.LoadPdf(v.handler, path.value, fileBytes, decoded, info).0.(thumbnails := r.handler.thumbnails)
      && (forall k :: 0 <= k < |shown| ==> 1 <= shown[k] <= |decoded.value.pages|)
      && (forall a, b :: 0 <= a < b < |shown| ==> shown[a] < shown[b])
      && PdfHandler.CacheCoherent(r.handler)
    ensures PdfHandler.CacheCoherent(v.handler) ==> PdfHandler.CacheCoherent(r.handler)
    ensures Valid(v) ==> Valid(r)
  {
    r, shown, steps := v, [], [];
    if PathGiven(path) {
      var (loaded, ok) := PdfHandler.LoadPdfFresh(v.handler, path.value, fileBytes, decoded, info);
      r := r.(handler := loaded);
      if !ok {
        if PdfHandler.CacheCoherent(v.handler) {
          PdfHandler.FailedLoadKeepsCacheCoherent(v.handler, loaded);
        }
      } else {
        assert PdfHandler.CacheCoherent(loaded);
        var h;
        h, shown, steps := ShowFirstPage(loaded, firstRendered, rendered);
        r := r.(handler := h);
      }
    }
  }
}
