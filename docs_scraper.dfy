/**
 * The older scraper (`main.py`): links under `/docs/` only, a required URL
 * filter, the first `<article>` as the page text, and a title derived from
 * the URL for each section.
 */
module DocsScraper {
  import opened Wrappers
  import opened Text
  import opened Dom
  import opened Pipeline

  /** `FILTER_PATH = args.filter_path.strip("/")`. */
  function FilterPath(arg: string): (filter: string)
    ensures filter == [] || (filter[0] != '/' && filter[|filter| - 1] != '/')
    // the argument with the `/` at either end removed
    ensures StripOf(arg, filter, IsSlash)
  {
    Trim(arg, IsSlash)
  }

  /** `extract_text(soup)`: the stripped text of the first `<article>`, with no minimum length. */
  function ExtractArticle(soup: Option<Soup>): (text: string)
    ensures (soup.None? || "article" !in soup.value.firstMatch) ==> text == ""
    // whatever its length: the article's text with the surrounding whitespace removed
    ensures soup.Some? && "article" in soup.value.firstMatch ==>
              StripOf(soup.value.firstMatch["article"].lineText, text, IsSpace)
  {
    if soup.Some? && "article" in soup.value.firstMatch then
      Strip(soup.value.firstMatch["article"].lineText)
    else ""
  }

  /** What is removed from a URL to make its title: `BASE_URL + "/docs/" + FILTER_PATH + "/"`. */
  function TitlePrefix(base: string, filter: string): (p: string)
    ensures p != []
  {
    base + "/docs/" + filter + "/"
  }

  /**
   * `url.replace(BASE_URL + f"/docs/{FILTER_PATH}/", "").replace("-", " ").title()`.
   */
  function SectionTitle(url: string, base: string, filter: string): (title: string)
    ensures '-' !in title
  {
    var rest := ReplaceAll(url, TitlePrefix(base, filter), "");
    var spaced := ReplaceAll(rest, "-", " ");
    ReplaceCharRemoves(rest, '-', " ");
    var title := Title(spaced);
    forall i | 0 <= i < |title| ensures title[i] != '-' {
      TitleAt(spaced, i);
    }
    title
  }

  /**
   * The title of a page directly under the filtered docs path is its slug
   * with dashes turned into spaces, title-cased.
   */
  lemma TitleOfDocsPage(base: string, filter: string, slug: string)
    requires !Contains(slug, TitlePrefix(base, filter))
    ensures SectionTitle(TitlePrefix(base, filter) + slug, base, filter) == Title(ReplaceAll(slug, "-", " "))
  {
    var p := TitlePrefix(base, filter);
    ReplaceLeading(p, slug, "");
    ReplaceAbsent(slug, p, "");
    assert "" + slug == slug;
  }

  /** The heading of a section: the title, then the URL, each on a line of its own. */
  function Heading(base: string, filter: string, u: string): (h: string)
    // a title line holding no `-`, then the URL
    ensures var t := |h| - |u| - 2; 0 <= t && '-' !in h[..t] && h[t..] == "\n" + u + "\n"
  {
    var title := SectionTitle(u, base, filter);
    var h := title + "\n" + u + "\n";
    assert h[..|title|] == title && h[|title|..] == "\n" + u + "\n";
    h
  }

  /** What `main.py` fixes from its arguments. */
  function Settings(baseArg: string, filterArg: string): (cfg: Config)
    ensures cfg.base == BaseUrl(baseArg) && cfg.filter == FilterPath(filterArg)
    // links are discovered on the `/docs` page and kept when they lie under `/docs/`
    ensures cfg.hubUrl == cfg.base + "/docs" && cfg.linkPrefix == cfg.base + "/docs/"
  {
    var base := BaseUrl(baseArg);
    var filter := FilterPath(filterArg);
    Config(base, filter, base + "/docs", base + "/docs/", u => Contains(u, filter), u => Heading(base, filter, u))
  }

  /**
   * Every URL a fresh resolution lists lies under `/docs/` and contains the
   * filter (the empty filter is contained in every URL).
   */
  lemma ResolvedUnderDocs(urls: seq<string>, hrefs: seq<Option<string>>, baseArg: string, filterArg: string)
    requires Resolves(urls, hrefs, Settings(baseArg, filterArg))
    ensures forall u :: u in urls ==> StartsWith(u, BaseUrl(baseArg) + "/docs/") && Contains(u, FilterPath(filterArg))
  {
  }

  /**
   * What `fetch_page` gets on a miss: the page rendered and its article
   * text extracted, `None` when the browser raised.
   */
  function PageText(render: string -> Option<Soup>, url: string): (t: Option<string>)
    ensures t.None? <==> render(url).None?
    ensures t.Some? ==> t.value == ExtractArticle(render(url))
  {
    if render(url).Some? then Some(ExtractArticle(render(url))) else None
  }
}
