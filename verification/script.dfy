/** The earlier free-function version of the scraper (bin/images.py): the same
    sanitiser and row filter with the patterns fixed at "Hold" and "-21-", and a
    page loop that stops before page 120. */
module Script {
  import opened Cells
  import opened RowFilter
  import opened Pages

  const Hold: string := "Hold"
  const YearPattern: string := "-21-"
  const EndPage: int := 120

  /** `process_table_data` with the hard-coded patterns. */
  method ProcessTableData(cells: seq<Cell>) returns (links: seq<Link>)
    ensures links == Filter(cells, Hold, YearPattern)
    ensures forall l :: l in links <==>
      exists i :: Selected(cells, i, Hold, YearPattern) && l == LinkFor(cells, i)
  {
    links := RowFilter.ProcessTableData(cells, Hold, YearPattern);
    forall l {
      FilterMembership(cells, Hold, YearPattern, l);
    }
  }

  /** `main`'s page loop: visit pages `startPage` up to but not including 120,
      downloading each page's candidates before the next; status 0. */
  method Run(startPage: int, listing: int -> seq<Cell>)
    returns (visited: seq<int>, downloads: seq<Link>, status: int)
    ensures visited == PageRange(startPage, EndPage)
    ensures forall p :: p in visited <==> startPage <= p < EndPage
    ensures downloads == Downloads(visited, PageLinks(listing, Hold, YearPattern))
    ensures status == 0
  {
    visited, downloads := Crawl(startPage, EndPage, listing, Hold, YearPattern);
    forall p {
      PageRangeMembership(startPage, EndPage, p);
    }
    status := 0;
  }

  /** The pages visited are `startPage, ..., 119` in order, none at all from
      page 120 on. */
  lemma VisitedPages(startPage: int)
    ensures startPage >= EndPage ==> PageRange(startPage, EndPage) == []
    ensures startPage < EndPage ==>
      |PageRange(startPage, EndPage)| == 120 - startPage &&
      PageRange(startPage, EndPage)[0] == startPage &&
      PageRange(startPage, EndPage)[|PageRange(startPage, EndPage)| - 1] == 119
  {
    PageRangeSpec(startPage, EndPage);
  }

  /** Both fixed patterns are literal text. */
  lemma PatternsAreLiteral()
    ensures IsLiteral(Hold) && IsLiteral(YearPattern)
  {
  }
}
