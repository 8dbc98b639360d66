/** `fetch_all_manga_links`: the listing's pages split into fixed-size
    chunks, each harvested on its own, the results concatenated. */
module Chunks {
  import opened Listing
  import opened Harvest

  /** `total_pages` */
  const TotalPages: int := 1301
  /** `chunk_size` */
  const ChunkSize: int := 50

  /** The inclusive page range `[start_page, end_page]` of one chunk. */
  datatype Chunk = Chunk(start: int, end: int)

  function Min(a: int, b: int): int {
    if a <= b then a else b
  }

  /** The chunks `for i in range(i, total, size)` visits:
      `start_page = i + 1`, `end_page = min(i + chunk_size, total_pages)`. */
  function ChunkPlan(i: int, total: int, size: int): seq<Chunk>
    requires size > 0
    decreases total - i
  {
    if i >= total then [] else [Chunk(i + 1, Min(i + size, total))] + ChunkPlan(i + size, total, size)
  }

  /** The closed form of the plan: chunk `j` starts at `i + j * size + 1`
      and ends at `min(i + j * size + size, total)`; there are
      `ceil((total - i) / size)` of them. */
  lemma {:induction false} ChunkPlanClosedForm(i: int, total: int, size: int)
    requires size > 0
    ensures var plan := ChunkPlan(i, total, size);
            && |plan| == (if i >= total then 0 else (total - i + size - 1) / size)
            && forall j :: 0 <= j < |plan| ==>
                 plan[j] == Chunk(i + j * size + 1, Min(i + j * size + size, total))
    decreases total - i
  {
    if i < total {
      var plan := ChunkPlan(i, total, size);
      var rest := ChunkPlan(i + size, total, size);
      ChunkPlanClosedForm(i + size, total, size);
      CeilStep(total - i, size);
      forall j | 1 <= j < |plan|
        ensures plan[j] == Chunk(i + j * size + 1, Min(i + j * size + size, total))
      {
        assert plan[j] == rest[j - 1];
        assert (i + size) + (j - 1) * size == i + j * size;
      }
    }
  }

  /** `ceil(x / size)` drops by one when `size` pages are taken off `x`. */
  lemma CeilStep(x: int, size: int)
    requires size > 0 && x > 0
    ensures (x + size - 1) / size == 1 + (if x <= size then 0 else (x - 1) / size)
  {
    if x > size {
      assert (x + size - 1) / size == ((x - 1) + size) / size;
      DivPlusOne(x - 1, size);
    }
  }

  lemma DivPlusOne(a: int, b: int)
    requires b > 0 && a >= 0
    ensures (a + b) / b == a / b + 1
  {
    var q, r := a / b, a % b;
    assert (q + 1) * b == q * b + b;
    DivUnique(a + b, b, q + 1, r);
  }

  /** Division is determined by quotient and remainder. */
  lemma DivUnique(x: int, b: int, q: int, r: int)
    requires b > 0 && x == q * b + r && 0 <= r < b
    ensures x / b == q
  {
    var q', r' := x / b, x % b;
    assert x == q' * b + r' && 0 <= r' < b;
    if q' > q {
      MulMonotone(1, q' - q, b);
    } else if q' < q {
      MulMonotone(1, q - q', b);
    }
  }

  /** With `n = ceil(total / size)`: `(n - 1) * size < total <= n * size`. */
  lemma CeilBounds(total: int, size: int)
    requires size > 0 && total >= 1
    ensures var n := (total + size - 1) / size;
            n >= 1 && (n - 1) * size < total <= n * size
  {
    var n, r := (total + size - 1) / size, (total + size - 1) % size;
    assert total + size - 1 == n * size + r && 0 <= r < size;
    assert (n - 1) * size == n * size - size;
    if n < 1 {
      MulMonotone(n, 0, size);
    }
  }

  /** `j * size` grows with `j`. */
  lemma MulMonotone(j: int, k: int, size: int)
    requires 0 <= j <= k && size > 0
    ensures j * size <= k * size
  {
  }

  /** The chunks tile the pages `1 .. total` exactly: there are
      `ceil(total / size)` of them, the first starts at page 1, the last
      ends at `total`, each starts right after the previous one ends, and
      each holds between 1 and `size` pages. */
  lemma ChunkPlanTiles(total: int, size: int)
    requires size > 0 && total >= 1
    ensures var plan := ChunkPlan(0, total, size);
            && |plan| == (total + size - 1) / size
            && plan[0].start == 1
            && plan[|plan| - 1].end == total
            && (forall j :: 0 <= j < |plan| - 1 ==> plan[j + 1].start == plan[j].end + 1)
            && (forall j :: 0 <= j < |plan| ==> 1 <= plan[j].end - plan[j].start + 1 <= size)
  {
    var plan := ChunkPlan(0, total, size);
    ChunkPlanClosedForm(0, total, size);
    CeilBounds(total, size);
    var n := |plan|;
    forall j | 0 <= j < n
      ensures j * size < total
    {
      MulMonotone(j, n - 1, size);
    }
    forall j | 0 <= j < n - 1
      ensures plan[j + 1].start == plan[j].end + 1
    {
      assert (j + 1) * size == j * size + size;
      assert (j + 1) * size < total;
    }
  }

  /** With the source's constants: 27 chunks, the last one the single
      page 1301. */
  lemma SourceChunkPlan()
    ensures |ChunkPlan(0, TotalPages, ChunkSize)| == 27
    ensures ChunkPlan(0, TotalPages, ChunkSize)[26] == Chunk(1301, 1301)
  {
    ChunkPlanClosedForm(0, TotalPages, ChunkSize);
  }

  /** The links each chunk yields: `fetch_manga_links_chunk(start, end)`. */
  function ChunkLinks(browser: Browser): Chunk -> seq<LinkRecord> {
    (c: Chunk) => FetchChunk(browser, c.start, c.end, 0)
  }

  /** The chunks' results concatenated in chunk order. */
  function Gather(results: Chunk -> seq<LinkRecord>, plan: seq<Chunk>): seq<LinkRecord> {
    if plan == [] then [] else Gather(results, plan[..|plan| - 1]) + results(plan[|plan| - 1])
  }

  lemma GatherSnoc(results: Chunk -> seq<LinkRecord>, done: seq<Chunk>, c: Chunk)
    ensures Gather(results, done + [c]) == Gather(results, done) + results(c)
  {
    assert (done + [c])[..|done|] == done;
  }

  /** Gathering two runs of chunks is gathering each, in order. */
  lemma {:induction false} GatherAppend(results: Chunk -> seq<LinkRecord>, a: seq<Chunk>, b: seq<Chunk>)
    ensures Gather(results, a + b) == Gather(results, a) + Gather(results, b)
    decreases |b|
  {
    if b != [] {
      var init := b[..|b| - 1];
      assert (a + b)[..|a + b| - 1] == a + init;
      GatherAppend(results, a, init);
    } else {
      assert a + b == a;
    }
  }

  /** Every link gathered has an absolute URL and a colon-free title end. */
  lemma {:induction false} GatherWellFormed(browser: Browser, plan: seq<Chunk>)
    ensures AllWellFormed(Gather(ChunkLinks(browser), plan))
  {
    if plan != [] {
      GatherWellFormed(browser, plan[..|plan| - 1]);
      var c := plan[|plan| - 1];
      FetchChunkWellFormed(browser, c.start, c.end, 0);
    }
  }

  /** `fetch_all_manga_links`: one chunk per step of
      `range(0, total_pages, chunk_size)`, each chunk's links appended. */
  method FetchAllMangaLinks(browser: Browser, total: int, size: int) returns (all: seq<LinkRecord>)
    requires size > 0
    ensures all == Gather(ChunkLinks(browser), ChunkPlan(0, total, size))
    ensures AllWellFormed(all)
  {
    all := [];
    var i := 0;
    ghost var done: seq<Chunk> := [];
    while i < total
      invariant i >= 0
      invariant done + ChunkPlan(i, total, size) == ChunkPlan(0, total, size)
      invariant all == Gather(ChunkLinks(browser), done)
      decreases total - i
    {
      var startPage := i + 1;
      var endPage := Min(i + size, total);
      var chunkLinks := FetchChunk(browser, startPage, endPage, 0);
      ghost var c := Chunk(startPage, endPage);
      ghost var rest := ChunkPlan(i + size, total, size);
      assert ChunkPlan(i, total, size) == [c] + rest;
      assert done + ([c] + rest) == (done + [c]) + rest;
      GatherSnoc(ChunkLinks(browser), done, c);
      done := done + [c];
      all := all + chunkLinks;
      i := i + size;
    }
    assert ChunkPlan(i, total, size) == [];
    assert done == ChunkPlan(0, total, size);
    GatherWellFormed(browser, done);
  }
}
