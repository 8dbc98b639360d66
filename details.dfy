/** `fetch_manga_details`: every harvested link's detail page visited once,
    a record extracted from each page that loads, failed pages skipped. */
module Details {
  import opened Wrappers
  import opened Text
  import opened Selection
  import opened Listing

  /** The alias placeholder used when a page shows at most one highlighted span. */
  const NoAlias: String := "Khong co ten khac"
  /** The separator `', '.join` puts between parts. */
  const Separator: String := ", "

  /** What the driver reads from one detail page. `Failed` stands for any
      exception before the record is complete: navigation, the wait for the
      `h1` heading timing out, or a missing summary, `#PageViews` or
      `#LikeCount` element. Otherwise the raw texts: the heading, the author
      anchors, the genre anchors, the summary, the two counters and the
      highlighted `span.color-red` elements, in document order. */
  datatype DetailView =
    | Failed
    | Loaded(heading: String, authors: seq<String>, genres: seq<String>, summary: String,
             pageViews: String, likeCount: String, spans: seq<String>)

  /** The one browser session of the detail stage: whether launching the
      driver succeeds, what visiting the `i`-th link shows, and whether
      `driver.quit()` returns normally. Neither step is inside a `try`, so
      either failing raises out of `fetch_manga_details`. */
  datatype DetailSession = DetailSession(setupOk: bool, load: nat -> DetailView, quitOk: bool)

  /** One extracted detail record; counters stay display strings. */
  datatype DetailRecord = DetailRecord(
    name: String, author: String, genre: String, summary: String,
    pageViews: String, likeCount: String, status: String, anotherName: String,
    link: String)

  /** `span_color_red[-1].text.strip() if span_color_red else ''` */
  function Status(spans: seq<String>): String {
    if spans != [] then Strip(spans[|spans| - 1]) else ""
  }

  /** `', '.join(...span_color_red[:-1]) if len(span_color_red) > 1 else 'Khong co ten khac'` */
  function AnotherName(spans: seq<String>): String {
    if |spans| > 1 then Join(StripAll(spans[..|spans| - 1]), Separator) else NoAlias
  }

  /** The status/alias heuristic, case by case: no span gives an empty
      status and the placeholder; one span is the status and the alias is
      the placeholder; with more, the last span is the status and the
      earlier ones, joined, are the alias, so that alias, separator and
      status together are exactly all the spans joined. */
  lemma {:induction false} StatusAliasSplit(spans: seq<String>)
    ensures |spans| == 0 ==> Status(spans) == "" && AnotherName(spans) == NoAlias
    ensures |spans| == 1 ==> Status(spans) == Strip(spans[0]) && AnotherName(spans) == NoAlias
    ensures |spans| > 1 ==>
              && Status(spans) == Strip(spans[|spans| - 1])
              && AnotherName(spans) + Separator + Status(spans) == Join(StripAll(spans), Separator)
  {
    if |spans| > 1 {
      var n := |spans|;
      var init := StripAll(spans[..n - 1]);
      assert StripAll(spans) == init + [Strip(spans[n - 1])];
      JoinSnoc(init, Strip(spans[n - 1]), Separator);
    }
  }

  /** The record built from a loaded page for `link`. */
  function Extract(view: DetailView, link: String): DetailRecord
    requires view.Loaded?
  {
    DetailRecord(
      Strip(view.heading),
      Join(StripAll(view.authors), Separator),
      Join(StripAll(view.genres), Separator),
      Strip(view.summary),
      Strip(view.pageViews),
      Strip(view.likeCount),
      Status(view.spans),
      AnotherName(view.spans),
      link)
  }

  /** The records for the first `n` links, where `load(i)` is what visiting
      `links[i]` shows. */
  function ExtractAll(links: seq<LinkRecord>, load: nat -> DetailView, n: nat): seq<DetailRecord>
    requires n <= |links|
  {
    if n == 0 then []
    else
      ExtractAll(links, load, n - 1)
        + (if load(n - 1).Loaded? then [Extract(load(n - 1), links[n - 1].link)] else [])
  }

  /** The positions whose detail page loaded. */
  function Loads(load: nat -> DetailView): nat -> bool {
    (i: nat) => load(i).Loaded?
  }

  /** The output is an order-preserving subsequence of the links: one record
      per link whose page loaded, in link order, each carrying that link;
      links whose page failed are skipped. */
  lemma {:induction false} ExtractAllSelects(links: seq<LinkRecord>, load: nat -> DetailView, n: nat)
    requires n <= |links|
    ensures var idx := Selected(n, Loads(load));
            |ExtractAll(links, load, n)| == |idx|
            && forall k :: 0 <= k < |idx| ==>
                 load(idx[k]).Loaded?
                 && ExtractAll(links, load, n)[k] == Extract(load(idx[k]), links[idx[k]].link)
                 && ExtractAll(links, load, n)[k].link == links[idx[k]].link
  {
    if n > 0 {
      ExtractAllSelects(links, load, n - 1);
      assert Loads(load)(n - 1) == load(n - 1).Loaded?;
    }
  }

  /** `fetch_manga_details`: launches the driver, visits the links in order
      and appends a record for each page that loads (a failure skips that
      link only), then quits the driver. None stands for the exception that
      escapes when the launch or `quit()` raises; the records are then lost. */
  method FetchMangaDetails(links: seq<LinkRecord>, session: DetailSession)
      returns (result: Option<seq<DetailRecord>>)
    ensures result.Some? <==> session.setupOk && session.quitOk
    ensures result.Some? ==> result.value == ExtractAll(links, session.load, |links|)
    ensures result.Some? ==> |result.value| <= |links|
  {
    if !session.setupOk {
      return None;
    }
    var details := [];
    for i := 0 to |links|
      invariant details == ExtractAll(links, session.load, i)
      invariant |details| <= i
    {
      var view := session.load(i);
      if view.Loaded? {
        details := details + [Extract(view, links[i].link)];
      }
    }
    if !session.quitOk {
      return None;
    }
    result := Some(details);
  }
}
