# blogtruyenmoi crawler — a Dafny model of its decision logic

The crawler is one Python script (`main.py`). It drives a headless browser through the
paginated catalogue of blogtruyenmoi.com. It collects a `{title, link}` pair for every
manga listed, then visits each link and extracts a detail record. This project models the
decisions the script makes between browser calls:

- how the 1301 listing pages are cut into chunks of 50 (`fetch_all_manga_links`);
- how one page's anchors become records (`fetch_manga_links`): empty `href`s dropped,
  relative links made absolute, titles stripped and cut at trailing colons;
- the pagination loop of one chunk, which stops on the first failure and keeps the partial
  results (`fetch_manga_links_chunk`, lines 48-69);
- the retry of a whole chunk, with the counter capped at `max_retries = 10`;
- the detail loop, which skips pages that fail, and its "last highlighted span is the
  status, the earlier ones are aliases" rule (`fetch_manga_details`).

Every browser call is replaced by an oracle given as a parameter:

- `Listing.Anchor` is one `.tiptip a` element: its `href` (absent or present) and its text.
- `Harvest.PageView` is one listing page. Its anchors are `None` when scraping raises.
  Turning to the next page ends as `NoNextButton`, `TransitionTimeout` or `Confirmed`.
- `Harvest.Session` is one browser session. It records whether setup succeeds, what each
  page shows, and whether `driver.quit()` returns normally.
- `Harvest.Browser` gives the session opened for a chunk start page at a retry count.
- `Details.DetailView` is one detail page: `Failed`, or the raw texts it shows.
- `Details.DetailSession` is the detail stage's one browser session. It records whether
  launching the driver succeeds, what visiting the `i`-th link shows (`load(i)`), and
  whether `driver.quit()` returns normally.

Modules follow the script's parts:

- `Text` models `strip`, `rstrip`, `startswith` and `join`.
- `Selection` holds the order-preserving filter that both append loops share.
- `Listing`, `Harvest`, `Chunks` and `Details` model the four functions.
- `Crawler` models `main` without the exports.

Loops are methods, and each is proved equal to a recursive specification function. The
facts the script relies on are then lemmas about those functions.

## Model

| member | source | states |
|---|---|---|
| Text.TrimRightSpec | main.py:24 | `rstrip(chars)` keeps a prefix, removes only those characters, and the result does not end with one |
| Text.TrimLeftSpec | main.py:24 | the leading half of `strip()` keeps a suffix, removes only the given characters, and the result does not start with one |
| Text.StripSpec | main.py:24 | `strip()` returns a slice of the text; only whitespace is removed, only from the two ends; the result neither starts nor ends with whitespace |
| Text.JoinSnoc | main.py:118 | `sep.join(parts + [x])` is `sep.join(parts) + sep + x` for non-empty `parts` |
| Selection.Selected | main.py:20-26 | the kept positions are increasing and below `n`; a position is kept if and only if it passes the test |
| Listing.AbsoluteLinkSpec | main.py:25 | the link always starts with `http`; it is unchanged exactly when it already started with `http`, otherwise it is the origin plus the link; normalising twice equals normalising once |
| Listing.CleanTitleSpec | main.py:24 | the title is a prefix of the stripped text; only colons follow it there; it does not end with `:` and does not start with whitespace |
| Listing.CleanTitleKeepsInnerSpace | main.py:24 | stripping before cutting colons leaves whitespace: `"Title :"` becomes `"Title "` |
| Listing.LinksOf | main.py:17-27 | a page yields no more records than it has anchors |
| Listing.LinksOfWellFormed | main.py:20-26 | every record of a page has a link starting with `http` and a title not ending with `:` |
| Listing.LinksOfSelects | main.py:19-26 | the records are exactly the anchors with a non-empty `href`, in anchor order, each normalised |
| Listing.FetchMangaLinks | main.py:17-27 | the append loop returns exactly the page's records |
| Harvest.Paginate | main.py:48-69 | from a page at or before `end_page`, between 1 and `end_page - page + 1` pages are visited (a page whose scrape raised counts, with no links); past `end_page`, no page is visited and the cursor stays put |
| Harvest.PaginateShape | main.py:49-69 | the pages visited run contiguously from `start_page` and never pass `end_page`; every page but the last advanced. The loop stops on a failure at the last page, with the cursor left there, or after the confirmed step past `end_page`. The links are the visited pages' links in page order |
| Harvest.ConcatPagesShift | main.py:55 | the links of a run of pages are the first page's links followed by the rest's |
| Harvest.HarvestPages | main.py:48-69 | the `while` loop returns the specified links and final `current_page`, with `start_page <= current_page <= end_page + 1` |
| Harvest.RunChunkConsults | main.py:29-80 | the sessions a chunk opens are exactly those for retry counts `retries` up to `retries + AttemptsMade - 1`; a browser agreeing on those gives the same links after the same number of sessions |
| Harvest.AttemptsBounded | main.py:73-80 | a chunk opens at least 1 and at most `max_retries + 1 - retries` sessions, so 11 from a first call |
| Harvest.FetchChunkExhausted | main.py:29-80 | when every attempt up to `max_retries` fails, the chunk yields `[]` after trying all of them |
| Harvest.FetchChunkFirstSuccess | main.py:29-77 | when attempt `k` is the first whose setup and `quit()` both succeed, the chunk yields exactly that session's pagination links, after `k - retries + 1` sessions |
| Harvest.PaginateWellFormed | main.py:52-55 | every link the pagination loop collects is well formed |
| Harvest.FetchChunkWellFormed | main.py:72-80 | every link a chunk yields, retried or not, is well formed |
| Chunks.ChunkPlanClosedForm | main.py:84-86 | chunk `j` is `[i + j*size + 1, min(i + j*size + size, total)]`, and there are `ceil((total - i) / size)` chunks |
| Chunks.ChunkPlanTiles | main.py:84-86 | the chunks tile `1..total_pages`: `ceil(total / size)` of them, the first starting at 1 and the last ending at `total`; each starts right after the previous one ends and holds 1 to `chunk_size` pages |
| Chunks.SourceChunkPlan | main.py:84-86 | with 1301 pages in chunks of 50 there are 27 chunks, and the last is the single page 1301 |
| Chunks.GatherSnoc | main.py:88-90 | gathering one more chunk appends exactly that chunk's links |
| Chunks.GatherAppend | main.py:83-93 | gathering two runs of chunks is gathering each, concatenated in order |
| Chunks.GatherWellFormed | main.py:83-93 | every gathered link is well formed |
| Chunks.FetchAllMangaLinks | main.py:82-93 | the `range` loop returns the chunks' results concatenated in chunk order, nothing added, every link well formed |
| Details.StatusAliasSplit | main.py:116-118 | zero spans give status `''` and the placeholder; one span is the status with the placeholder as alias; with more, the last span is the status, and alias, `", "` and status rebuild all the spans joined |
| Details.ExtractAllSelects | main.py:104-132 | the records are an order-preserving subsequence of the links: one per link whose page loaded, each carrying its source link |
| Details.FetchMangaDetails | main.py:95-135 | records are returned exactly when the driver launches and quits normally (otherwise the exception escapes); they are then the specified records, no more than there are links |
| Crawler.Crawl | main.py:146-150 | the two stages in sequence: the links are always the gathered chunk results; details exist exactly when the detail session launches and quits normally, and then every record's link starts with `http` |

## Left out

- Browser plumbing is replaced by the oracles above: `Options`, `ChromeDriverManager`,
  `webdriver.Chrome`, `driver.get`, `execute_script`, `WebDriverWait`, the CSS selectors
  and `driver.quit()` (main.py:31-46, 96-101, 106-116, 134). Their success or failure is
  kept as `Session.setupOk`/`quitOk` and `DetailSession.setupOk`/`quitOk`.
- A failure of the detail stage's launch or `quit()` raises out of `main`. `Crawler.Crawl`
  returns the harvested links with no details in that case. `manga_links.json` has then
  already been written, and the two detail files never are; file output is left out.
- Timeouts and waiting are left out because they block in real time. A wait that times out
  is an oracle outcome (`TransitionTimeout`, `Failed`, a failed session setup).
- The wait for the page indicator compares text by substring. That detail belongs to the
  driver, so the model does not capture it; `Confirmed` stands for a wait that returned.
- The `else` branch at main.py:65-66 cannot run, because `find_element` raises instead of
  returning a falsy value. `NoNextButton` takes the `except` path, and both stop the loop.
- `print` logging is left out, including the single "failed after N retries" message.
  The `isinstance` check at main.py:89-92 is left out because a chunk always yields a list.
- JSON and Excel export (`save_to_json`, `save_to_excel`, main.py:137-144) are file I/O
  through library serialisers and are not modelled.
- `main` is modelled without its three save calls.
- The `h1` heading in a `DetailView` is the heading's text. Whether an element exists is
  part of `Failed`.
- `Harvest.Browser` keys sessions by chunk start page and retry count. `load` keys detail
  pages by position in the link list. The real outcomes depend on time. Any such outcome
  is one of these oracles, but the model says nothing about how outcomes correlate.
- `Text.IsSpace` lists Python's `str.isspace` characters explicitly. Selenium's own text
  normalisation before `strip()` is not modelled.
- `Chunks.FetchAllMangaLinks` takes `total_pages` and `chunk_size` as parameters
  (`Crawler.Crawl` passes 1301 and 50). A `chunk_size` of 0 makes `range` raise, so the
  method requires a positive size.
