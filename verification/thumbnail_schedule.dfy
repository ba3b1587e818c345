/** The order in which the viewer fills the thumbnail sidebar after a load:
    an eager block of the first `min(3, total)` pages, then, only when there
    are more than three pages, a deferred run from page 4 to the last page
    that yields to the interface after every even-numbered page. A page whose
    thumbnail fails is skipped in the interface and the run goes on.

    Timing is not modelled: a yield is a step in the sequence, and the
    deferred run is taken to start after the eager block has finished. */
module ThumbnailSchedule {
  import opened Prelude
  import PdfHandler

  /** How many leading pages are populated eagerly. */
  const PriorityCount: int := 3

  /** One step of a population run: ask the handler for a page's thumbnail,
      or hand control back to the interface. */
  datatype Step = Request(page: int) | Yield

  /** The pages `lo`, `lo + 1`, ..., `hi` (empty when `hi < lo`). */
  function Range(lo: int, hi: int): (r: seq<int>)
    ensures |r| == Max(0, hi - lo + 1)
    ensures forall k :: 0 <= k < |r| ==> r[k] == lo + k
    decreases if lo <= hi then hi - lo + 1 else 0
  {
    if lo > hi then [] else [lo] + Range(lo + 1, hi)
  }

  /** The pages requested by a run, in order. */
  function Requests(steps: seq<Step>): seq<int>
  {
    if steps == [] then []
    else (if steps[0].Request? then [steps[0].page] else []) + Requests(steps[1..])
  }

  lemma {:induction false} RequestsAppend(a: seq<Step>, b: seq<Step>)
    ensures Requests(a + b) == Requests(a) + Requests(b)
  {
    if a == [] {
      assert a + b == b;
    } else {
      assert (a + b)[0] == a[0];
      assert (a + b)[1..] == a[1..] + b;
      RequestsAppend(a[1..], b);
    }
  }

  /** A run over pages `first..last`: request each page in turn and, when
      `yielding`, yield after each even page. */
  function Phase(first: int, last: int, yielding: bool): seq<Step>
    decreases if first <= last then last - first + 1 else 0
  {
    if first > last then [] else PhaseHead(first, yielding) + Phase(first + 1, last, yielding)
  }

  /** A run requests the pages of its range, each once, in order. */
  lemma {:induction false} PhaseRequests(first: int, last: int, yielding: bool)
    ensures Requests(Phase(first, last, yielding)) == Range(first, last)
    decreases if first <= last then last - first + 1 else 0
  {
    if first <= last {
      PhaseRequests(first + 1, last, yielding);
      var head := PhaseHead(first, yielding);
      RequestsAppend(head, Phase(first + 1, last, yielding));
      assert Requests(head) == [first] by {
        assert head[0] == Request(first);
        assert Requests(head[1..]) == [];
      }
    }
  }

  /** A run that has emitted `done` for the pages before `i` emits the
      head of page `i` next. */
  lemma PhaseAdvance(done: seq<Step>, first: int, i: int, last: int, yielding: bool)
    requires i <= last
    requires done + Phase(i, last, yielding) == Phase(first, last, yielding)
    ensures (done + PhaseHead(i, yielding)) + Phase(i + 1, last, yielding) == Phase(first, last, yielding)
  {
    var head := PhaseHead(i, yielding);
    var tail := Phase(i + 1, last, yielding);
    assert Phase(i, last, yielding) == head + tail;
    assert (done + head) + tail == done + (head + tail);
  }

  /** The steps for one page of a run. */
  function PhaseHead(page: int, yielding: bool): seq<Step>
  {
    [Request(page)] + (if yielding && page % 2 == 0 then [Yield] else [])
  }

  /** Every page a run requests lies in `first..last`. */
  predicate RequestsWithin(r: seq<Step>, first: int, last: int)
  {
    forall k :: 0 <= k < |r| && r[k].Request? ==> first <= r[k].page <= last
  }

  /** Every yield comes right after the request of an even page. */
  predicate YieldsFollowEvenPages(r: seq<Step>)
  {
    forall k :: 0 <= k < |r| && r[k].Yield? ==> 0 < k && r[k - 1].Request? && r[k - 1].page % 2 == 0
  }

  /** The request of an even page is followed right away by a yield. */
  predicate EvenPagesThenYield(r: seq<Step>)
  {
    forall k :: 0 <= k < |r| && r[k].Request? && r[k].page % 2 == 0 ==> k + 1 < |r| && r[k + 1].Yield?
  }

  predicate NoYields(r: seq<Step>)
  {
    forall k :: 0 <= k < |r| ==> r[k].Request?
  }

  /** A run requests only pages of its range; a yielding run yields exactly
      after its even pages, and a non-yielding run never yields. */
  lemma {:induction false} PhaseShape(first: int, last: int, yielding: bool)
    ensures RequestsWithin(Phase(first, last, yielding), first, last)
    ensures yielding ==> YieldsFollowEvenPages(Phase(first, last, yielding))
    ensures yielding ==> EvenPagesThenYield(Phase(first, last, yielding))
    ensures !yielding ==> NoYields(Phase(first, last, yielding))
    decreases if first <= last then last - first + 1 else 0
  {
    if first <= last {
      PhaseShape(first + 1, last, yielding);
      var rest := Phase(first + 1, last, yielding);
      var head := PhaseHead(first, yielding);
      var r := Phase(first, last, yielding);
      assert r == head + rest;
      assert forall k :: 0 <= k < |head| ==> r[k] == head[k];
      assert forall k :: |head| <= k < |r| ==> r[k] == rest[k - |head|];
      if yielding {
        forall k | 0 <= k < |r| && r[k].Yield?
          ensures 0 < k && r[k - 1].Request? && r[k - 1].page % 2 == 0
        {
          if k >= |head| {
            assert rest[k - |head|].Yield?;
          }
        }
        forall k | 0 <= k < |r| && r[k].Request? && r[k].page % 2 == 0
          ensures k + 1 < |r| && r[k + 1].Yield?
        {
          if k >= |head| {
            assert rest[k - |head|].Request?;
          }
        }
      }
    }
  }

  /** The whole population order for a document of `total` pages: the eager
      block over 1..min(3, total), then the deferred run from the page after
      it when there are more than three pages. */
  function Schedule(total: int): (r: seq<Step>)
    ensures Requests(r) == Range(1, total)
  {
    var priority := Min(PriorityCount, total);
    var eager := Phase(1, priority, false);
    PhaseRequests(1, priority, false);
    if total > PriorityCount then
      var deferred := Phase(priority + 1, total, true);
      PhaseRequests(priority + 1, total, true);
      RequestsAppend(eager, deferred);
      assert Range(1, priority) + Range(priority + 1, total) == Range(1, total);
      eager + deferred
    else
      eager
  }

  /** The schedule yields exactly after the even pages beyond the eager
      block, and nowhere else. */
  lemma ScheduleYields(total: int)
    ensures var r := Schedule(total);
      && (forall k :: 0 <= k < |r| && r[k].Yield? ==>
            0 < k && r[k - 1].Request? && r[k - 1].page % 2 == 0 && r[k - 1].page > PriorityCount)
      && (forall k :: 0 <= k < |r| && r[k].Request? && r[k].page % 2 == 0 && r[k].page > PriorityCount ==>
            k + 1 < |r| && r[k + 1].Yield?)
  {
    var priority := Min(PriorityCount, total);
    var eager := Phase(1, priority, false);
    PhaseShape(1, priority, false);
    var r := Schedule(total);
    if total > PriorityCount {
      var deferred := Phase(priority + 1, total, true);
      PhaseShape(priority + 1, total, true);
      assert r == eager + deferred;
      assert forall k :: 0 <= k < |eager| ==> r[k] == eager[k];
      assert forall k :: |eager| <= k < |r| ==> r[k] == deferred[k - |eager|];
      forall k | 0 <= k < |r| && r[k].Yield?
        ensures 0 < k && r[k - 1].Request? && r[k - 1].page % 2 == 0 && r[k - 1].page > PriorityCount
      {
        assert k >= |eager|;
        assert deferred[k - |eager|].Yield?;
      }
      forall k | 0 <= k < |r| && r[k].Request? && r[k].page % 2 == 0 && r[k].page > PriorityCount
        ensures k + 1 < |r| && r[k + 1].Yield?
      {
        assert k >= |eager|;
        assert deferred[k - |eager|].Request?;
      }
    }
  }

  /** Every page 1..total is requested exactly once, in strictly ascending
      order, and nothing else is requested. */
  lemma ScheduleRequestsEachPageOnce(total: int)
    ensures var pages := Requests(Schedule(total));
      && (forall p :: p in pages <==> 1 <= p <= total)
      && (forall a, b :: 0 <= a < b < |pages| ==> pages[a] < pages[b])
  {
    var pages := Requests(Schedule(total));
    forall p | 1 <= p <= total ensures p in pages {
      assert pages[p - 1] == p;
    }
  }

  /** What a run has done to the handler once it has handled pages
      `first..i-1`: only the cache has changed; entries already there are
      kept; a new entry is the sidebar-width rendering of a page of the
      range whose render completes, and every such page has one; the state
      invariants still hold. */
  predicate CacheSoFar(h: PdfHandler.Handler, h': PdfHandler.Handler, first: int, i: int, rendered: int -> bool)
  {
    && h' == h.(thumbnails := h'.thumbnails)
    && (forall p :: p in h.thumbnails ==> p in h'.thumbnails && h'.thumbnails[p] == h.thumbnails[p])
    && (forall p :: p in h'.thumbnails && p !in h.thumbnails ==>
          && first <= p < i && rendered(p) && PdfHandler.HasPage(h, p)
          && h'.thumbnails[p] == PdfHandler.RenderThumbnail(h.doc.value, p, PdfHandler.ThumbnailWidth))
    && (forall p :: first <= p < i && rendered(p) && PdfHandler.HasPage(h, p) ==> p in h'.thumbnails)
    && (PdfHandler.Valid(h) ==> PdfHandler.Valid(h'))
    && (PdfHandler.CacheCoherent(h) ==> PdfHandler.CacheCoherent(h'))
  }

  /** The pages shown once pages `first..i-1` are handled: exactly the
      handled pages that are cached, in ascending order. */
  predicate ShownSoFar(h': PdfHandler.Handler, shown: seq<int>, first: int, i: int)
  {
    && (forall p :: first <= p < i ==> (p in shown <==> p in h'.thumbnails))
    && (forall k :: 0 <= k < |shown| ==> first <= shown[k] < i)
    && (forall a, b :: 0 <= a < b < |shown| ==> shown[a] < shown[b])
  }

  /** Asking for page `i` extends the cache effect of a run over
      `first..i-1` to one over `first..i`. */
  lemma CacheStep(h: PdfHandler.Handler, h': PdfHandler.Handler, first: int, i: int, rendered: int -> bool,
                  next: PdfHandler.Handler, t: Option<PdfHandler.Thumbnail>)
    requires first <= i
    requires CacheSoFar(h, h', first, i, rendered)
    requires (next, t) == PdfHandler.GenerateThumbnail(h', i, PdfHandler.ThumbnailWidth, rendered(i))
    ensures CacheSoFar(h, next, first, i + 1, rendered)
    ensures t.Some? <==> i in next.thumbnails
    ensures forall p :: p != i ==> (p in next.thumbnails <==> p in h'.thumbnails)
  {
    assert PdfHandler.PageAt(h', i) == PdfHandler.PageAt(h, i);
    assert t.Some? <==> i in h'.thumbnails || (rendered(i) && PdfHandler.HasPage(h, i));
    forall p | first <= p <= i && rendered(p) && PdfHandler.HasPage(h, p)
      ensures p in next.thumbnails
    {
      if p != i {
        assert p in h'.thumbnails;
      }
    }
  }

  /** Showing page `i` when its thumbnail came back extends the shown list
      of a run over `first..i-1` to one over `first..i`. */
  lemma ShownStep(h': PdfHandler.Handler, shown: seq<int>, first: int, i: int,
                  next: PdfHandler.Handler, shown': seq<int>)
    requires first <= i
    requires ShownSoFar(h', shown, first, i)
    requires forall p :: p != i ==> (p in next.thumbnails <==> p in h'.thumbnails)
    requires shown' == if i in next.thumbnails then shown + [i] else shown
    ensures ShownSoFar(next, shown', first, i + 1)
  {
    forall p | first <= p <= i
      ensures p in shown' <==> p in next.thumbnails
    {
      if p != i {
        assert p in shown' <==> p in shown;
      }
    }
  }

  /** One iteration of a population loop: ask the handler for page `i`'s
      thumbnail in the default box and show the page when one comes back. */
  method VisitPage(h: PdfHandler.Handler, h': PdfHandler.Handler, shown: seq<int>, first: int, i: int,
                   rendered: int -> bool)
    returns (next: PdfHandler.Handler, shown': seq<int>)
    requires first <= i
    requires CacheSoFar(h, h', first, i, rendered)
    requires ShownSoFar(h', shown, first, i)
    ensures CacheSoFar(h, next, first, i + 1, rendered)
    ensures ShownSoFar(next, shown', first, i + 1)
  {
    var r := PdfHandler.GenerateThumbnail(h', i, PdfHandler.ThumbnailWidth, rendered(i));
    var t := r.1;
    next := r.0;
    shown' := if t.Some? then shown + [i] else shown;
    CacheStep(h, h', first, i, rendered, next, t);
    ShownStep(h', shown, first, i, next, shown');
  }

  /** One population run over pages `first..last`, as the two loops of the
      viewer perform it: each page's thumbnail is asked of the handler with
      the default box, a page that comes back is shown, a page that does not
      is skipped, and the loop carries on either way. `rendered(p)` is
      whether rendering page `p` would complete. */
  method RunPhase(h: PdfHandler.Handler, first: int, last: int, yielding: bool, rendered: int -> bool)
    returns (h': PdfHandler.Handler, shown: seq<int>, steps: seq<Step>)
    ensures steps == Phase(first, last, yielding)
    ensures h' == h.(thumbnails := h'.thumbnails)
    ensures forall p :: p in h.thumbnails ==> p in h'.thumbnails && h'.thumbnails[p] == h.thumbnails[p]
    ensures forall p :: p in h'.thumbnails && p !in h.thumbnails ==>
      && first <= p <= last && rendered(p) && PdfHandler.HasPage(h, p)
      && h'.thumbnails[p] == PdfHandler.RenderThumbnail(h.doc.value, p, PdfHandler.ThumbnailWidth)
    ensures forall p :: first <= p <= last && rendered(p) && PdfHandler.HasPage(h, p) ==> p in h'.thumbnails
    ensures forall p :: first <= p <= last ==> (p in shown <==> p in h'.thumbnails)
    ensures forall k :: 0 <= k < |shown| ==> first <= shown[k] <= last
    ensures forall a, b :: 0 <= a < b < |shown| ==> shown[a] < shown[b]
    ensures PdfHandler.Valid(h) ==> PdfHandler.Valid(h')
    ensures PdfHandler.CacheCoherent(h) ==> PdfHandler.CacheCoherent(h')
  {
    h' := h;
    shown := [];
    steps := [];
    var i := first;
    assert steps + Phase(i, last, yielding) == Phase(first, last, yielding);
    while i <= last
      invariant first <= i <= Max(first, last + 1)
      invariant steps + Phase(i, last, yielding) == Phase(first, last, yielding)
      invariant CacheSoFar(h, h', first, i, rendered)
      invariant ShownSoFar(h', shown, first, i)
      decreases last - i
    {
      PhaseAdvance(steps, first, i, last, yielding);
      h', shown := VisitPage(h, h', shown, first, i, rendered);
      steps := steps + PhaseHead(i, yielding);
      i := i + 1;
    }
    assert steps + Phase(i, last, yielding) == steps;
  }

  /** `generateThumbnails` followed by `loadRemainingThumbnails`: the eager
      block, then the deferred run when there are more than three pages. A
      page of the document ends up shown exactly when its thumbnail is
      cached, which is when it was cached before or its render completes;
      every new entry is such a page's sidebar-width rendering. */
  method GenerateThumbnails(h: PdfHandler.Handler, rendered: int -> bool)
    returns (h': PdfHandler.Handler, shown: seq<int>, steps: seq<Step>)
    ensures steps == Schedule(h.totalPages)
    ensures h' == h.(thumbnails := h'.thumbnails)
    ensures forall p :: 1 <= p <= h.totalPages ==> (p in shown <==> p in h'.thumbnails)
    ensures forall p :: 1 <= p <= h.totalPages && p !in h.thumbnails ==>
      (p in h'.thumbnails <==> rendered(p) && PdfHandler.HasPage(h, p))
    ensures forall p :: p in h'.thumbnails && p !in h.thumbnails ==>
      && 1 <= p <= h.totalPages && rendered(p) && PdfHandler.HasPage(h, p)
      && h'.thumbnails[p] == PdfHandler.RenderThumbnail(h.doc.value, p, PdfHandler.ThumbnailWidth)
    ensures forall p :: p in h.thumbnails ==> p in h'.thumbnails && h'.thumbnails[p] == h.thumbnails[p]
    ensures forall k :: 0 <= k < |shown| ==> 1 <= shown[k] <= h.totalPages
    ensures forall a, b :: 0 <= a < b < |shown| ==> shown[a] < shown[b]
    ensures PdfHandler.Valid(h) ==> PdfHandler.Valid(h')
    ensures PdfHandler.CacheCoherent(h) ==> PdfHandler.CacheCoherent(h')
  {
    var total := h.totalPages;
    var priority := Min(PriorityCount, total);
    h', shown, steps := RunPhase(h, 1, priority, false, rendered);
    if total > PriorityCount {
      var h2, shown2, steps2 := RunPhase(h', priority + 1, total, true, rendered);
      assert forall a, b :: 0 <= a < |shown| <= b < |shown| + |shown2| ==>
        (shown + shown2)[a] < (shown + shown2)[b];
      h', shown, steps := h2, shown + shown2, steps + steps2;
    }
  }
}
