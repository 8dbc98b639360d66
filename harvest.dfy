/** `fetch_manga_links_chunk`: one chunk of listing pages harvested in one
    browser session, with the whole chunk retried when the session fails. */
module Harvest {
  import opened Wrappers
  import opened Listing

  /** `max_retries`: the retry counter's ceiling. */
  const MaxRetries: nat := 10

  /** How the attempt to turn to `current_page + 1` ends: the
      `LoadListMangaPage` button is missing (`find_element` raises), the
      page indicator never shows the new number (the wait times out), or
      the indicator confirms the transition. */
  datatype Transition = NoNextButton | TransitionTimeout | Confirmed

  /** What the driver shows on one listing page: the `.tiptip a` anchors
      (None when scraping them raises) and how turning the page ends. */
  datatype PageView = PageView(anchors: Option<seq<Anchor>>, next: Transition)

  /** One browser session: whether launching the driver, loading the listing
      and jumping to `start_page` succeed, what each listing page shows, and
      whether `driver.quit()` returns normally. */
  datatype Session = Session(setupOk: bool, site: int -> PageView, quitOk: bool)

  /** The session opened for the chunk starting at a page, at a retry count. */
  type Browser = (int, nat) -> Session

  /** The pagination loop's outcome: the collected links, the final
      `current_page`, and how many pages were visited (a page whose scrape
      raised counts as visited, though it yields no links). */
  datatype Harvested = Harvested(links: seq<LinkRecord>, cursor: int, pages: nat)

  /** The page is scraped and the transition to the next one confirmed. */
  predicate Advances(v: PageView) {
    v.anchors.Some? && v.next == Confirmed
  }

  predicate AdvancesAt(site: int -> PageView, page: int) {
    Advances(site(page))
  }

  /** The links one page contributes: none when scraping it raises. */
  function PageLinks(v: PageView): seq<LinkRecord> {
    if v.anchors.Some? then LinksOf(v.anchors.value) else []
  }

  /** The links each listing page contributes. */
  function LinksByPage(site: int -> PageView): int -> seq<LinkRecord> {
    p => PageLinks(site(p))
  }

  /** `links(first) + ... + links(first + n - 1)`, page after page. */
  function ConcatPages(links: int -> seq<LinkRecord>, first: int, n: nat): seq<LinkRecord> {
    if n == 0 then [] else ConcatPages(links, first, n - 1) + links(first + n - 1)
  }

  /** The links of `n` consecutive pages from `first`, in page order. */
  function VisitedLinks(site: int -> PageView, first: int, n: nat): seq<LinkRecord> {
    ConcatPages(LinksByPage(site), first, n)
  }

  /** The `while has_next_page and current_page <= end_page` loop, from
      `page` on. */
  function Paginate(site: int -> PageView, page: int, end: int): (h: Harvested)
    ensures page <= end ==> 1 <= h.pages <= end - page + 1
    ensures page > end ==> h == Harvested([], page, 0)
    decreases end - page
  {
    if page > end then Harvested([], page, 0)
    else
      var v := site(page);
      match v.anchors
      case None => Harvested([], page, 1)
      case Some(anchors) =>
        if v.next == Confirmed then
          var rest := Paginate(site, page + 1, end);
          Harvested(LinksOf(anchors) + rest.links, rest.cursor, rest.pages + 1)
        else Harvested(LinksOf(anchors), page, 1)
  }

  /** The pages visited are `start .. start + pages - 1`, never past
      `end_page`; every page but the last advanced; the loop stopped either
      on a failure at the last page (the cursor stays there) or after
      confirming the step past `end_page`; and the links are the visited
      pages' links in page order. */
  lemma {:induction false} PaginateShape(site: int -> PageView, start: int, end: int)
    ensures var h := Paginate(site, start, end);
            && h.links == VisitedLinks(site, start, h.pages)
            && (h.pages == 0 <==> start > end)
            && (forall p :: start <= p < start + h.pages - 1 ==> AdvancesAt(site, p))
            && (h.pages == 0 ==> h.cursor == start)
            && (h.pages > 0 && AdvancesAt(site, start + h.pages - 1) ==>
                  h.cursor == start + h.pages == end + 1)
            && (h.pages > 0 && !AdvancesAt(site, start + h.pages - 1) ==>
                  h.cursor == start + h.pages - 1)
    decreases end - start
  {
    var h := Paginate(site, start, end);
    if start <= end {
      var v := site(start);
      if Advances(v) {
        PaginateShape(site, start + 1, end);
        var rest := Paginate(site, start + 1, end);
        ConcatPagesShift(LinksByPage(site), start, rest.pages);
        assert LinksByPage(site)(start) == LinksOf(v.anchors.value);
      } else {
        assert h.links == PageLinks(v) == LinksByPage(site)(start);
        assert ConcatPages(LinksByPage(site), start, 1) == [] + LinksByPage(site)(start);
      }
    }
  }

  /** Splitting the first page off a run of pages. */
  lemma {:induction false} ConcatPagesShift(links: int -> seq<LinkRecord>, first: int, n: nat)
    ensures ConcatPages(links, first, n + 1) == links(first) + ConcatPages(links, first + 1, n)
  {
    if n > 0 {
      ConcatPagesShift(links, first, n - 1);
      assert first + 1 + n - 1 == first + n;
    }
  }

  /** The pagination loop as the source runs it: scrape the current page,
      keep its links, then try to turn to the next page; any failure clears
      `has_next_page` and keeps what was collected. */
  method HarvestPages(site: int -> PageView, start: int, end: int)
      returns (links: seq<LinkRecord>, cursor: int)
    ensures links == Paginate(site, start, end).links
    ensures cursor == Paginate(site, start, end).cursor
    ensures start <= cursor && (start <= end ==> cursor <= end + 1)
  {
    links := [];
    cursor := start;
    var hasNextPage := true;
    ghost var whole := Paginate(site, start, end);
    assert [] + whole.links == whole.links;
    while hasNextPage && cursor <= end
      invariant start <= cursor && (start <= end ==> cursor <= end + 1)
      invariant Resume(site, links, cursor, end, hasNextPage) == (whole.cursor, whole.links)
      decreases end - cursor, hasNextPage
    {
      var view := site(cursor);
      match view.anchors {
        case None =>
          assert links + Paginate(site, cursor, end).links == links;
          hasNextPage := false;
        case Some(anchors) =>
          var pageLinks := FetchMangaLinks(anchors);
          ghost var rest := Paginate(site, cursor, end);
          if view.next != Confirmed {
            assert rest.links == pageLinks && rest.cursor == cursor;
          } else {
            ghost var after := Paginate(site, cursor + 1, end);
            assert rest.links == pageLinks + after.links;
            assert links + rest.links == (links + pageLinks) + after.links;
          }
          links := links + pageLinks;
          if view.next == Confirmed {
            cursor := cursor + 1;
          } else {
            hasNextPage := false;
          }
      }
    }
  }

  /** What the loop will have returned, given the state at the loop head. */
  ghost function Resume(site: int -> PageView, links: seq<LinkRecord>, cursor: int, end: int, hasNextPage: bool): (int, seq<LinkRecord>)
  {
    if hasNextPage then
      var rest := Paginate(site, cursor, end);
      (rest.cursor, links + rest.links)
    else (cursor, links)
  }

  /** One call of `fetch_manga_links_chunk`'s `try` body: None when any
      step raises (setup, or `driver.quit()` after the loop; a raising
      `quit` discards the harvested links), else the harvested links. */
  function Attempt(session: Session, start: int, end: int): (r: Option<seq<LinkRecord>>)
    ensures r.Some? <==> session.setupOk && session.quitOk
    ensures r.Some? ==> r.value == Paginate(session.site, start, end).links
  {
    if !session.setupOk then None
    else
      var h := Paginate(session.site, start, end);
      if session.quitOk then Some(h.links) else None
  }

  /** A chunk's retry loop run to its end: the links it returns and the
      number of browser sessions it opened on the way. */
  datatype ChunkRun = ChunkRun(links: seq<LinkRecord>, sessions: nat)

  /** `fetch_manga_links_chunk(start_page, end_page, retries)`: one attempt
      per session; a failed attempt is retried while `retries < max_retries`,
      and the last failure gives `[]`. */
  function RunChunk(browser: Browser, start: int, end: int, retries: nat): ChunkRun
    decreases MaxRetries - retries
  {
    match Attempt(browser(start, retries), start, end)
    case Some(links) => ChunkRun(links, 1)
    case None =>
      if retries < MaxRetries then
        var rest := RunChunk(browser, start, end, retries + 1);
        ChunkRun(rest.links, rest.sessions + 1)
      else ChunkRun([], 1)
  }

  /** What `fetch_manga_links_chunk` returns. */
  function FetchChunk(browser: Browser, start: int, end: int, retries: nat): seq<LinkRecord> {
    RunChunk(browser, start, end, retries).links
  }

  /** The number of sessions `fetch_manga_links_chunk` opens. */
  function AttemptsMade(browser: Browser, start: int, end: int, retries: nat): nat {
    RunChunk(browser, start, end, retries).sessions
  }

  /** The sessions a chunk opens are exactly those for retry counts
      `retries .. retries + AttemptsMade - 1`: any browser that agrees on
      them yields the same links after the same number of sessions. */
  lemma {:induction false} RunChunkConsults(b1: Browser, b2: Browser, start: int, end: int, retries: nat)
    requires forall k: nat :: retries <= k < retries + AttemptsMade(b1, start, end, retries) ==> b1(start, k) == b2(start, k)
    ensures RunChunk(b1, start, end, retries) == RunChunk(b2, start, end, retries)
    decreases MaxRetries - retries
  {
    assert b1(start, retries) == b2(start, retries);
    if Attempt(b1(start, retries), start, end).None? && retries < MaxRetries {
      RunChunkConsults(b1, b2, start, end, retries + 1);
    }
  }

  predicate Succeeds(browser: Browser, start: int, end: int, k: nat) {
    Attempt(browser(start, k), start, end).Some?
  }

  /** At most `max_retries + 1 - retries` sessions are opened for a chunk
      (eleven from a first call), and at least one. */
  lemma {:induction false} AttemptsBounded(browser: Browser, start: int, end: int, retries: nat)
    requires retries <= MaxRetries
    ensures 1 <= AttemptsMade(browser, start, end, retries) <= MaxRetries + 1 - retries
    decreases MaxRetries - retries
  {
    if !Succeeds(browser, start, end, retries) && retries < MaxRetries {
      AttemptsBounded(browser, start, end, retries + 1);
    }
  }

  /** When every attempt from `retries` up to `max_retries` fails, the chunk
      yields `[]` after opening every one of those sessions. */
  lemma {:induction false} FetchChunkExhausted(browser: Browser, start: int, end: int, retries: nat)
    requires retries <= MaxRetries
    requires forall k :: retries <= k <= MaxRetries ==> !Succeeds(browser, start, end, k)
    ensures FetchChunk(browser, start, end, retries) == []
    ensures AttemptsMade(browser, start, end, retries) == MaxRetries + 1 - retries
    decreases MaxRetries - retries
  {
    assert !Succeeds(browser, start, end, retries);
    if retries < MaxRetries {
      FetchChunkExhausted(browser, start, end, retries + 1);
    }
  }

  /** When attempt `k` is the first to succeed, the chunk yields exactly
      that attempt's links, after `k - retries + 1` sessions. */
  lemma {:induction false} FetchChunkFirstSuccess(browser: Browser, start: int, end: int, retries: nat, k: nat)
    requires retries <= k <= MaxRetries
    requires Succeeds(browser, start, end, k)
    requires forall j :: retries <= j < k ==> !Succeeds(browser, start, end, j)
    ensures FetchChunk(browser, start, end, retries) == Paginate(browser(start, k).site, start, end).links
    ensures AttemptsMade(browser, start, end, retries) == k - retries + 1
    decreases k - retries
  {
    if retries < k {
      assert !Succeeds(browser, start, end, retries);
      FetchChunkFirstSuccess(browser, start, end, retries + 1, k);
    }
  }

  /** Everything a chunk yields is well formed. */
  lemma {:induction false} FetchChunkWellFormed(browser: Browser, start: int, end: int, retries: nat)
    ensures AllWellFormed(FetchChunk(browser, start, end, retries))
    decreases MaxRetries - retries
  {
    var session := browser(start, retries);
    if Attempt(session, start, end).Some? {
      PaginateWellFormed(session.site, start, end);
    } else if retries < MaxRetries {
      FetchChunkWellFormed(browser, start, end, retries + 1);
    }
  }

  lemma {:induction false} PaginateWellFormed(site: int -> PageView, page: int, end: int)
    ensures AllWellFormed(Paginate(site, page, end).links)
    decreases end - page
  {
    if page <= end && site(page).anchors.Some? {
      LinksOfWellFormed(site(page).anchors.value);
      if site(page).next == Confirmed {
        PaginateWellFormed(site, page + 1, end);
      }
    }
  }
}
