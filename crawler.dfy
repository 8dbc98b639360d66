/** `main` without the exports: harvest every chunk's links, then fetch the
    details of each harvested link. */
module Crawler {
  import opened Wrappers
  import opened Text
  import opened Selection
  import opened Listing
  import opened Harvest
  import opened Chunks
  import opened Details

  /** The two stages in sequence, with the source's constants. The links
      are always harvested (chunk failures are caught); the details are None
      when the detail stage's session fails to launch or to quit, which ends
      the program. Every detail record points back at a harvested link, so
      every record's link is absolute. */
  method Crawl(browser: Browser, session: DetailSession)
      returns (links: seq<LinkRecord>, details: Option<seq<DetailRecord>>)
    ensures links == Gather(ChunkLinks(browser), ChunkPlan(0, TotalPages, ChunkSize))
    ensures AllWellFormed(links)
    ensures details.Some? <==> session.setupOk && session.quitOk
    ensures details.Some? ==> details.value == ExtractAll(links, session.load, |links|)
    ensures details.Some? ==>
              forall k :: 0 <= k < |details.value| ==> StartsWith(details.value[k].link, "http")
  {
    links := FetchAllMangaLinks(browser, TotalPages, ChunkSize);
    details := FetchMangaDetails(links, session);
    if details.Some? {
      ExtractAllSelects(links, session.load, |links|);
      forall k | 0 <= k < |details.value|
        ensures StartsWith(details.value[k].link, "http")
      {
        var idx := Selected(|links|, Loads(session.load));
        assert WellFormed(links[idx[k]]);
      }
    }
  }
}
