/** The object-based version of the scraper (images.py): a `RescuePortal`
    holding the command-line arguments. The hold string and the year token come
    from those arguments, with defaults "Hold" and "-24-", and the page loop
    stops before page 45. */
module Portal {
  import opened Cells
  import opened RowFilter
  import opened Pages

  const DefaultHold: string := "Hold"
  const DefaultYearPattern: string := "-24-"
  const EndPage: int := 45

  class RescuePortal {
    /** The parsed command-line arguments, by option name. */
    const args: map<string, string>

    constructor (args: map<string, string>)
      ensures this.args == args
    {
      this.args := args;
    }

    /** `self.args.get("--hold", "Hold")`. */
    function HoldString(): string {
      if "--hold" in args then args["--hold"] else DefaultHold
    }

    /** `self.args.get("--year-pattern", "-24-")`. */
    function YearPattern(): string {
      if "--year-pattern" in args then args["--year-pattern"] else DefaultYearPattern
    }

    /** `process_table_data` with the patterns taken from the arguments. The
        model reads patterns as literal text, so it speaks only of arguments
        free of regular-expression metacharacters. */
    method ProcessTableData(cells: seq<Cell>) returns (links: seq<Link>)
      requires IsLiteral(HoldString()) && IsLiteral(YearPattern())
      ensures links == Filter(cells, HoldString(), YearPattern())
      ensures forall l :: l in links <==>
        exists i :: Selected(cells, i, HoldString(), YearPattern()) && l == LinkFor(cells, i)
    {
      links := RowFilter.ProcessTableData(cells, HoldString(), YearPattern());
      forall l {
        FilterMembership(cells, HoldString(), YearPattern(), l);
      }
    }

    /** `run`: visit pages `startPage` up to but not including 45, downloading
        each page's candidates before the next; the run reports status 0. */
    method Run(startPage: int, listing: int -> seq<Cell>)
      returns (visited: seq<int>, downloads: seq<Link>, status: int)
      requires IsLiteral(HoldString()) && IsLiteral(YearPattern())
      ensures visited == PageRange(startPage, EndPage)
      ensures forall p :: p in visited <==> startPage <= p < EndPage
      ensures downloads == Downloads(visited, PageLinks(listing, HoldString(), YearPattern()))
      ensures status == 0
    {
      visited, downloads := Crawl(startPage, EndPage, listing, HoldString(), YearPattern());
      forall p {
        PageRangeMembership(startPage, EndPage, p);
      }
      status := 0;
    }
  }

  /** Without `--hold` and `--year-pattern` the defaults apply, and both are
      literal text, so the prefix and substring reading of `re.match` is exact
      for them. */
  lemma DefaultsAreLiteral(portal: RescuePortal)
    requires "--hold" !in portal.args && "--year-pattern" !in portal.args
    ensures portal.HoldString() == "Hold" && portal.YearPattern() == "-24-"
    ensures IsLiteral(portal.HoldString()) && IsLiteral(portal.YearPattern())
  {
  }
}
