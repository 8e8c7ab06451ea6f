/**
 * A rendered and parsed page, reduced to what the scrapers read from it.
 * CSS selector matching and text collection are done by the HTML parser;
 * here their results are given.
 */
module Dom {

  /**
   * An element, by the two texts the scrapers take from it:
   * `flatText` is `get_text()` (text nodes joined with nothing) and
   * `lineText` is `get_text(separator="\n")` (joined with newlines).
   */
  datatype Element = Element(flatText: string, lineText: string)

  /**
   * A parsed page. `firstMatch[sel]` is the first element matching the
   * selector `sel` (what `select_one(sel)` and `find(sel)` return), absent
   * when nothing matches; `divs` are all `div` elements in document order
   * (what `find_all("div")` returns).
   */
  datatype Soup = Soup(firstMatch: map<string, Element>, divs: seq<Element>)
}
