/** The scraper's view of a listing page: the `<td>` cells in document order,
    each reduced to what the row filter reads from it, and the download
    candidates the filter produces. */
module Cells {

  datatype Option<T> = None | Some(value: T)

  /** The first `<a>` element inside a cell; `href` is `None` when that element
      carries no `href` attribute. */
  datatype Anchor = Anchor(href: Option<string>)

  /** A table cell: its text (`get_text()`) and its first `<a>` element
      (`find("a")`), if any. Later anchors are never consulted. */
  datatype Cell = Cell(text: string, firstAnchor: Option<Anchor>)

  /** A download candidate: the animal's detail-page reference and the file
      name its photo is saved under. */
  datatype Link = Link(href: string, filename: string)

  /** The cell's first anchor exists and carries an `href`. */
  predicate HasHref(c: Cell) {
    c.firstAnchor.Some? && c.firstAnchor.value.href.Some?
  }

  /** That `href`. */
  function Href(c: Cell): string
    requires HasHref(c)
  {
    c.firstAnchor.value.href.value
  }
}
