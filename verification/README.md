# PDF viewer view state in Dafny

This project models the view-state core of an Electron PDF viewer. It has two parts:

- **The `PDFHandler` object** (`pdf-handler.js`). It holds the open document, the current and total page counts, and a zoom scale clamped to 50%–500%. It also holds a thumbnail cache that works as a memo, and the file name, size and path. Pure helpers handle the file name of a path, the fixed-width fields of a PDF date string (`D:YYYYMMDDHHmmSS…`, section 7.9.4 of ISO 32000-1), the default-allow permission list and the details placeholders.
- **The renderer's rules** (`renderer.js`). These are:
  - the order in which thumbnails are populated: an eager block of the first `min(3, total)` pages, then a deferred run from page 4 that yields after every even page;
  - the prev/next/go/thumbnail-click commit flow;
  - the `lastFitMode` state machine (`null`, `'width'`, `'page'`), which decides what a window resize fits again.

The model is functional. The handler is an immutable record, `PdfHandler.Handler`, and each handler method is a pure transition. The scale is a `real`.

pdf.js is not modelled. In its place:

- the document is a non-empty sequence of positive page sizes, plus an identity that tells one decoded document object from another;
- `getPage` fails for a page outside the document;
- whether a render completes, and whether a geometry query succeeds, are boolean inputs (`rendered`, `queryOk`);
- reading the file and decoding it are optional inputs.

The renderer's state is `Viewer.State`: the handler plus `lastFitMode`. Each DOM event handler is a function of that state.

Modules:

- `Prelude`: `Option`, plus min/max.
- `PdfInfo`: file name, PDF dates, permissions and details fallbacks.
- `PdfHandler`: the handler state and its methods.
- `ThumbnailSchedule`: the population order, and the loops that fill the cache.
- `Viewer`: the event handlers and the open-file flow.

Two behaviours of `loadPDF` are easy to miss, and the model keeps both:

- `loadPDF` neither resets the scale nor clears the thumbnail cache (`pdf-handler.js:18-44`). The consequence is logged under Findings.
- A file that reads but fails to decode has already overwritten the file name, size and path (`pdf-handler.js:26-28`).

## Model

| member | source | states |
|---|---|---|
| PdfHandler.InitialIsValid | pdf-handler.js:5-16 | The constructed handler has no document, page 1 of 0, scale 1.5 and an empty cache, and satisfies the state invariant |
| PdfHandler.LoadPdf | pdf-handler.js:18-44 | The load succeeds exactly when the file reads and decodes. On success it sets the document, the page count and page 1. A read failure changes nothing. A decode failure still overwrites name, size and path. The scale and the thumbnail cache are always kept, and the invariant is preserved |
| PdfHandler.LoadPdfFresh | pdf-handler.js:18-44 | Corrected load: it succeeds exactly when the load as written does, and gives the same state except that a successful load empties the cache |
| PdfHandler.LoadPdfFreshKeepsCacheCoherent | pdf-handler.js:18-44 | After the corrected load, every cached thumbnail was drawn from the open document, for one of its pages, with that page's shape |
| PdfHandler.FailedLoadKeepsCacheCoherent | pdf-handler.js:40-43 | A failed load keeps the document and cache, so it keeps them coherent |
| PdfHandler.StaleThumbnailAfterReload | pdf-handler.js:18-44 | After the load as written opens a different document, any page number cached for the old one is answered with the old document's thumbnail, with no render and even when a render would fail. The cache no longer belongs to the open document |
| PdfHandler.PortraitThumbnailOnLandscape | pdf-handler.js:207-217 | The thumbnail of a 600×800 page is 150×200, which does not have the shape of an 800×600 page |
| PdfInfo.AfterLast | pdf-handler.js:26 | `split(sep).pop()`: the result has no separator, is a suffix of the input, and is preceded by a separator when shorter than the input |
| PdfInfo.FileName | pdf-handler.js:26 | The file name has no backslash or slash, is a suffix of the path, and is preceded by one of the two separators when shorter than the path |
| PdfInfo.FileNameOfJoin | pdf-handler.js:26 | A separator-free name joined to any directory with either separator is recovered exactly |
| PdfHandler.RenderPage | pdf-handler.js:46-75 | The current page becomes `p` only when the page exists and the render completes. Otherwise nothing changes. No other field ever changes, and the invariant is preserved |
| PdfHandler.NextPage | pdf-handler.js:77-81 | Peeks the current page or the one after it, and returns the current page exactly at or past the last page. On a valid state with a document the result is a page of the document |
| PdfHandler.PrevPage | pdf-handler.js:83-85 | Peeks the current page or the one before it, and returns the current page exactly at page 1 or below. On a valid state with a document the result is a page of the document |
| PdfHandler.GotoPage | pdf-handler.js:96-102 | An in-range `n` is committed and returned. Out of range, the state is untouched and the current page is returned. The returned page is always the current page afterwards |
| PdfHandler.ZoomIn | pdf-handler.js:105-108 | Only the scale changes. The new scale is at most 5.0, and is either 5.0 or 1.2 times the old one. It is exactly 1.2 times the old scale whenever that is at most 5.0. It never decreases from an in-bounds scale, and the bounds are preserved although only the top is capped |
| PdfHandler.ZoomOut | pdf-handler.js:111-114 | Only the scale changes. The new scale is at least 0.5, and is either 0.5 or the old one divided by 1.2. It is exactly the old scale divided by 1.2 whenever that is at least 0.5. It never increases, and the bounds are preserved although only the bottom is capped |
| PdfHandler.ResetZoom | pdf-handler.js:117-120 | The scale becomes 1.0 whatever it was, and nothing else changes |
| PdfHandler.Clamp | pdf-handler.js:129 | `max(0.5, min(x, 5.0))` is in bounds, is `x` when `x` is in bounds, and is the nearest bound otherwise |
| PdfHandler.ClampMonotone | pdf-handler.js:129 | Clamping preserves order |
| PdfHandler.SetScale | pdf-handler.js:128-131 | The scale becomes exactly the request clamped to [0.5, 5.0], and nothing else changes |
| PdfHandler.SetScaleIdempotent | pdf-handler.js:128-131 | Setting a scale twice is the same as setting it once. Setting the current scale of a valid state changes nothing |
| PdfHandler.ClampedRatioFits | pdf-handler.js:142-143 | The clamped ratio of available width to page width is a fitted width scale: the page fits unless the scale is at the floor, and fills the width unless it is at the cap |
| PdfHandler.FitsWidthUnique | pdf-handler.js:142-143 | At most one scale is a fitted width scale for a given page and width |
| PdfHandler.FitToWidth | pdf-handler.js:134-151 | With no document, a missing page or a failed query, the state is unchanged. Otherwise the scale fits the page width into the container width less 30. Only the scale changes, and the invariant is preserved |
| PdfHandler.PageFitScale | pdf-handler.js:162-168 | The clamped smaller axis ratio fits both sides unless the scale is at the floor, and fills one side unless it is at the cap |
| PdfHandler.FitsPageUnique | pdf-handler.js:162-168 | At most one scale is a fitted page scale for a given page and container, so the page fit is pinned down |
| PdfHandler.FitToPage | pdf-handler.js:154-176 | With no document, a missing page or a failed query, the state is unchanged. Otherwise the scale fits the whole page into the container less 30 on each axis |
| PdfHandler.FitToPageAtMostFitToWidth | pdf-handler.js:134-176 | For the same container and page, fitting the page never gives a larger scale than fitting the width |
| PdfHandler.ThumbnailScale | pdf-handler.js:211 | The thumbnail scale is positive. It keeps both sides within maxWidth by 200 and makes one side meet its limit |
| PdfHandler.ThumbnailScaleUnique | pdf-handler.js:211 | The thumbnail scale is the only positive scale that keeps the page in the box with one side meeting its limit |
| PdfHandler.RenderThumbnail | pdf-handler.js:207-217 | A rendered thumbnail is for its page of the document it was drawn from, has the page's aspect ratio, is positive and within the box, and meets the box on one side |
| PdfHandler.GenerateThumbnail | pdf-handler.js:198-239 | Works as a memo. A hit returns the stored entry with no render. A miss succeeds exactly when the page exists and renders; the result is then stored, is exactly `RenderThumbnail` of that page of the open document at the given box width, fits the box, meets it on one side and has the page's shape. A failure returns nothing and leaves the cache unchanged. Only the cache changes, and the cache stays coherent with the document |
| PdfHandler.ThumbnailMemo | pdf-handler.js:201-203 | Once a thumbnail has been produced, asking again returns the same one, whatever a second render would do |
| PdfHandler.ClearThumbnailCache | pdf-handler.js:242-244 | The cache becomes empty and nothing else changes |
| PdfInfo.FormatPdfDate | pdf-handler.js:309-327 | Six fields come back exactly for a string starting with `D:`, and they concatenate to the 14 characters after the tag (fewer for a short string). A truthy non-string is a format error. Anything else is unknown. Each field is as long as `substring` makes it: 4, 2, 2, 2, 2, 2 characters, cut short at the end of the string, so partial dates such as `D:2021` split correctly |
| PdfInfo.FormatPdfDateRoundTrip | pdf-handler.js:311-319 | Fields written after `D:`, followed by any time-zone suffix, are read back unchanged |
| PdfInfo.DateField | pdf-handler.js:292-293 | A missing date is unknown. A present one is formatted |
| PdfInfo.GrantedFrom | pdf-handler.js:335-342 | From a position on, a permission is listed exactly when it lies at or after that position and is not withheld. Listed positions appear in strictly increasing fixed order |
| PdfInfo.Granted | pdf-handler.js:331-342 | A permission is listed exactly when its key is not explicitly `false`. The list is in the fixed order with no repeats |
| PdfInfo.PermissionsInfo | pdf-handler.js:330-345 | The list is never empty. With no permission granted it is the single "no information" label. Otherwise it is the labels of the granted permissions, in order |
| PdfInfo.AllDenied | pdf-handler.js:335-345 | When all eight keys are explicitly `false`, the list is the single "no information" label |
| PdfInfo.NothingWithheld | pdf-handler.js:335-342 | With nothing withheld from a position on, every later position is listed, in order |
| PdfInfo.GrantedAll | pdf-handler.js:331-342 | When no key is explicitly `false` (in particular with no metadata), nothing is withheld |
| PdfInfo.DefaultAllow | pdf-handler.js:331-345 | When nothing is explicitly denied (in particular with no metadata), all eight labels are listed in the fixed order |
| PdfInfo.OrPlaceholder | pdf-handler.js:284-289 | `info.X \|\| placeholder` is truthy. It is the stored value when that is truthy, and the placeholder otherwise |
| PdfInfo.DocumentDetails | pdf-handler.js:268-303 | Title, author, subject, creator, producer, keywords and format version each show the stored value when truthy and their placeholder otherwise, so all are truthy. Each PDF date is unknown when missing and formatted otherwise. `encrypted` is whether `IsAcroFormPresent` is truthy. The permissions are the permission list. With no metadata every text field is its placeholder and both dates are unknown |
| ThumbnailSchedule.PhaseRequests | renderer.js:242-256 | A population loop over `first..last` requests exactly those pages, in ascending order |
| ThumbnailSchedule.PhaseShape | renderer.js:242-256 | A loop requests only pages of its range. A yielding loop yields right after each even page and nowhere else. The eager loop never yields |
| ThumbnailSchedule.Schedule | renderer.js:214-239 | The eager block followed, beyond three pages, by the deferred run requests exactly pages 1..total in order |
| ThumbnailSchedule.ScheduleYields | renderer.js:250-252 | The schedule yields exactly after the even pages beyond the eager block |
| ThumbnailSchedule.ScheduleRequestsEachPageOnce | renderer.js:221-256 | Every page 1..total is requested once, in strictly ascending order, and nothing else is requested |
| ThumbnailSchedule.VisitPage | renderer.js:223-230 | One loop iteration extends the run's effect on the cache, and its list of shown pages, by one page. An entry it adds is the sidebar-width rendering of that page of the open document |
| ThumbnailSchedule.RunPhase | renderer.js:242-258 | A loop performs its schedule and changes only the cache. Old entries are kept. A page of the range is newly cached exactly when it renders, and shown exactly when cached. Every new entry is a page of the range, and holds the sidebar-width rendering of that page of the open document. Shown pages ascend. A failed page does not stop the loop |
| ThumbnailSchedule.GenerateThumbnails | renderer.js:214-258 | Both phases together perform the whole schedule. A page of the document is shown exactly when it is cached afterwards, and cached exactly when it was cached before or renders. Old entries are kept. Every new entry is a page of the document that renders, holding the sidebar-width rendering of that page. Shown pages are pages of the document, in ascending order |
| Viewer.RerenderKeepsState | renderer.js:111 | Re-rendering the current page never changes the handler, whether or not the render completes |
| Viewer.OnPrev | renderer.js:53-60 | At page 1 the click does nothing. Otherwise the page before becomes current exactly when its render completes. Only the page changes |
| Viewer.OnNext | renderer.js:62-69 | At the last page the click does nothing. Otherwise the next page becomes current exactly when its render completes. Only the page changes |
| Viewer.PrevUndoesNext | renderer.js:53-69 | When both renders complete, previous undoes next and next undoes previous |
| Viewer.OnGoto | renderer.js:89-98 | A falsy target (`NaN`, 0) or no document leaves the state unchanged. An in-range target becomes current even when its render fails. An out-of-range target leaves the state unchanged |
| Viewer.OnThumbnail | renderer.js:293-299 | On a valid state a clicked page of the document becomes current, and any other page changes nothing |
| Viewer.OnZoomIn | renderer.js:108-115 | With a document: one zoom step up, the page stays, and the fit mode is cleared. Without one: nothing changes |
| Viewer.OnZoomOut | renderer.js:118-125 | With a document: one zoom step down, the page stays, and the fit mode is cleared. Without one: nothing changes |
| Viewer.OnZoomReset | renderer.js:128-135 | With a document: scale 1.0 and the fit mode cleared. Without one: nothing changes |
| Viewer.OnFitWidth | renderer.js:138-146 | With a document: the mode becomes `'width'`, and the scale fits the width when the page geometry is available. Only the scale changes |
| Viewer.OnFitPage | renderer.js:149-158 | With a document: the mode becomes `'page'`, and the scale fits the whole page when the page geometry is available. Only the scale changes |
| Viewer.OnWheel | renderer.js:198-211 | Ctrl+wheel with a document zooms in for a negative delta, and out otherwise, as the buttons do. It leaves the fit mode unchanged |
| Viewer.OnResize | renderer.js:339-356 | With no document or no fit mode, nothing happens. The fit mode is unchanged, and only the scale can change |
| Viewer.ResizeReappliesFit | renderer.js:339-356 | A resize in `'width'` or `'page'` mode does exactly what that fit button would do at the new size |
| Viewer.ResizeIdempotent | renderer.js:339-356 | A second resize to the same size changes nothing |
| Viewer.Step | renderer.js:53-158 | No event changes anything but the page and the scale, and every event preserves the invariant. The fit mode changes only to "none" by a zoom button, to `'width'` by fit-width, or to `'page'` by fit-page |
| Viewer.Run | renderer.js:53-356 | A sequence of events keeps the document, the file fields and the cache, and preserves the invariant |
| Viewer.FitModeNeedsFitClick | renderer.js:108-158 | A fit mode that is set after a run, and was not set before it, was set by a click on that fit button during the run |
| Viewer.RunAppend | renderer.js:53-356 | Running two event sequences one after the other is the same as running their concatenation |
| Viewer.InitialValid | renderer.js:5-16 | At start-up the viewer has a fresh handler and `lastFitMode` is `null`. That state satisfies the invariant, and a resize before any file is opened changes nothing |
| Viewer.ShowFirstPage | renderer.js:39-45 | After a load, page 1 stays current and the whole schedule runs. A page is shown exactly when it is cached afterwards, which is when it was already cached or its thumbnail renders. Cached entries are kept as they were. A new entry is a page of the document that renders, holding the sidebar-width rendering of that page |
| Viewer.OpenFile | renderer.js:28-51 | A cancelled dialog changes nothing. A failed load leaves the load's state and renders nothing. A successful load leaves every field but the cache as `loadPDF` sets it (document, page 1, file name, size, path, metadata, kept scale), keeps the fit mode, and runs the whole thumbnail schedule. A page is shown exactly when it was cached before or its thumbnail renders, and an entry cached before is shown unchanged. Every new entry is a page of the new document that renders, holding the sidebar-width rendering of that page of the new document. Shown pages are pages of the new document, in ascending order |
| Viewer.OpenFileFresh | renderer.js:28-51 | The open flow with the corrected load: every field but the cache is as `loadPDF` sets it, shown pages are pages of the new document, a page is shown, and cached, exactly when its thumbnail renders, every entry is the sidebar-width rendering of its page of the new document, and the cache always belongs to the open document |

## Left out

- `main.js`: window creation and the native file dialog. The dialog's answer is the `path` input of `Viewer.OpenFile`.
- DOM and canvas work is not modelled. This covers element text, the details modal, thumbnail placeholders, copying canvases into the sidebar, the active-thumbnail highlight and the thumbnail-sidebar toggle. A thumbnail is an opaque record of its page, its real-valued size and the document it was drawn from. Canvas sizes are not truncated to integers.
- The pdf.js calls and `fs.readFileSync`/`statSync` are outcome inputs: whether the file reads, what the bytes decode to, the metadata, and whether a render or geometry query succeeds.
- `formatFileSize`: it relies on floating-point `Math.log` and `toFixed`. The model keeps the byte count.
- `getZoomPercent`: it relies on floating-point `Math.round`.
- The `Date` construction and `toLocaleString('ko-KR')` in `formatPdfDate` and in the file-system dates. The model keeps the six extracted fields.
- `getDetailedPdfInfo`'s reads of private pdf.js fields (`_pdfInfo.version`, `_pdfInfo.linearized`), and the file-system birth and modification times.
- Information-dictionary values are strings, booleans or integers. Other JavaScript values are not modelled.
- `setTimeout` delays and async interleaving. Each event handler runs to completion before the next event. The deferred thumbnail run starts after the eager block, and a yield is a step in the sequence.
- The resize delay does not coalesce events, so each resize is a separate event.
- Floating-point rounding in the zoom and fit arithmetic. Scales are reals. When the zoom-in is not capped (scale × 1.2 ≤ 5.0), zooming in and then out restores the scale exactly in the model, while in JavaScript it may not.
- PdfHandler.SetScale: requests are modelled as finite numbers. In JavaScript a NaN request escapes the clamp, because `Math.min` and `Math.max` pass NaN through, and `zoomIn`/`zoomOut` then keep the scale NaN. No caller in renderer.js calls `setScale`.
- The model assumes a decoded document has at least one page. With zero pages the source would hold page 1 of 0 with a document open (pdf-handler.js:31-32), which `PdfHandler.Valid` excludes.
- PdfHandler.GenerateThumbnail: the box width `maxWidth` is taken to be positive. The renderer always passes the default 150.
- Document identity is an input: the model does not promise that two decodes yield different `id`s. pdf.js returns a new document object on every load, and the stale-thumbnail lemma assumes the new document differs from the old one.
- PdfInfo.FormatPdfDate: fields are cut at Unicode scalar positions, while JavaScript's `substring` cuts at UTF-16 code units, so the two differ when the first 16 characters of the date hold a character outside the Basic Multilingual Plane.
- PdfInfo.DocumentDetails: the `encrypted` flag is the truthiness of `IsAcroFormPresent`, not the value itself.

## Findings

| source | as written | input that shows it | evidently intended | confidence | as-written member | corrected member |
|---|---|---|---|---|---|---|
| pdf-handler.js:18-44 | `loadPDF` replaces the document but never clears the thumbnail cache, nothing calls `clearThumbnailCache` (pdf-handler.js:242-244), and `generateThumbnail` answers from the cache first (pdf-handler.js:201-203) | Open a document and let its page-1 thumbnail be generated. Then open a second document, even one with the same page sizes, and ask for page 1: the first document's thumbnail is returned without a render. It can even have the wrong shape: a 600×800 page gives 150×200, shown for an 800×600 page (`PdfHandler.PortraitThumbnailOnLandscape`). `Viewer.OpenFile` shows it in the sidebar | A new document starts with an empty thumbnail cache, so every cached thumbnail belongs to the open document | not executed | PdfHandler.StaleThumbnailAfterReload | PdfHandler.LoadPdfFreshKeepsCacheCoherent |
