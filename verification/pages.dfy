/** The page loop (`for i in range(start_page, end_page)`): every listing page
    in the range is fetched, its cells are filtered, and the candidates are
    downloaded before the next page. Fetching a page is a parameter `listing`
    from page index to the page's cells; downloading is recorded as appending
    the page's candidates to the run's download list. */
module Pages {
  import opened Cells
  import opened Text
  import opened RowFilter

  /** Python's `range(start, end)`: the integers from `start` up to but not
      including `end`, empty when `start >= end`. */
  function PageRange(start: int, end: int): seq<int>
    decreases end - start
  {
    if end <= start then [] else PageRange(start, end - 1) + [end - 1]
  }

  /** The range counts up from `start` one page at a time and stops before `end`. */
  lemma {:induction false} PageRangeSpec(start: int, end: int)
    ensures |PageRange(start, end)| == if start < end then end - start else 0
    ensures forall k :: 0 <= k < |PageRange(start, end)| ==> PageRange(start, end)[k] == start + k
    decreases end - start
  {
    if start < end {
      PageRangeSpec(start, end - 1);
    }
  }

  /** A page is visited exactly when it lies in `[start, end)`. */
  lemma PageRangeMembership(start: int, end: int, p: int)
    ensures p in PageRange(start, end) <==> start <= p < end
  {
    PageRangeSpec(start, end);
    if start <= p < end {
      assert PageRange(start, end)[p - start] == p;
    }
  }

  /** The candidates of one listing page, as a function of the page index. */
  function PageLinks(listing: int -> seq<Cell>, hold: string, year: string): int -> seq<Link> {
    p => Filter(listing(p), hold, year)
  }

  /** The candidates downloaded over `pages`, page by page in visiting order,
      when page `p` yields `perPage(p)`. */
  function Downloads(pages: seq<int>, perPage: int -> seq<Link>): seq<Link> {
    if pages == [] then []
    else Downloads(pages[..|pages| - 1], perPage) + perPage(pages[|pages| - 1])
  }

  /** Pages are processed independently: the downloads of a run split at any
      page boundary. */
  lemma {:induction false} DownloadsAppend(p: seq<int>, q: seq<int>, perPage: int -> seq<Link>)
    ensures Downloads(p + q, perPage) == Downloads(p, perPage) + Downloads(q, perPage)
    decreases |q|
  {
    if q == [] {
      assert p + q == p;
    } else {
      var init := q[..|q| - 1];
      DownloadsAppend(p, init, perPage);
      var pq := p + q;
      assert pq[..|pq| - 1] == p + init;
      assert pq[|pq| - 1] == q[|q| - 1];
      ConcatAssoc(Downloads(p, perPage), Downloads(init, perPage), perPage(q[|q| - 1]));
    }
  }

  /** The page loop: visit `start, start + 1, ..., end - 1`, filter each page's
      cells and download its candidates before moving on. There is no early
      exit. */
  method Crawl(start: int, end: int, listing: int -> seq<Cell>, hold: string, year: string)
    returns (visited: seq<int>, downloads: seq<Link>)
    ensures visited == PageRange(start, end)
    ensures downloads == Downloads(visited, PageLinks(listing, hold, year))
  {
    visited, downloads := [], [];
    var i := start;
    while i < end
      invariant start <= i && (i <= end || i == start)
      invariant visited == PageRange(start, i)
      invariant downloads == Downloads(visited, PageLinks(listing, hold, year))
      decreases end - i
    {
      var cells := listing(i);
      var links := ProcessTableData(cells, hold, year);
      var next := visited + [i];
      assert next[..|next| - 1] == visited;
      assert links == PageLinks(listing, hold, year)(i);
      visited := next;
      downloads := downloads + links;
      i := i + 1;
    }
  }
}
