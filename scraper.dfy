/**
 * The general scraper (`scraper.py`): links anywhere under the base URL,
 * an optional URL filter, and a cascade of content selectors with a
 * minimum length.
 */
module Scraper {
  import opened Wrappers
  import opened Text
  import opened Dom
  import opened Corpus
  import opened Pipeline

  /** A candidate text is accepted only when it is longer than this. */
  const MinLength := 50

  /** The built-in selectors, in the order they are tried. */
  const FallbackSelectors: seq<string> :=
    ["article", "div.col-content", "div.markdown-body", "section.main-content", "div.doc-content", "main"]

  /** `FILTER_PATH`: the `--filter-path` argument without its surrounding `/`, or `""` when absent or empty. */
  function FilterPath(arg: Option<string>): (filter: string)
    ensures filter == [] || (filter[0] != '/' && filter[|filter| - 1] != '/')
    ensures (arg.None? || arg.value == "") ==> filter == ""
    // otherwise the argument with the `/` at either end removed
    ensures arg.Some? && arg.value != "" ==> StripOf(arg.value, filter, IsSlash)
  {
    if arg.None? || arg.value == "" then "" else Trim(arg.value, IsSlash)
  }

  /** The URL filter of `get_all_urls`: `not FILTER_PATH or FILTER_PATH in url`. */
  predicate KeepUrl(u: string, filter: string): (keep: bool)
    // the filter occurs somewhere in the URL; the empty filter occurs in every URL
    ensures keep <==> exists i: nat :: OccursAt(u, filter, i)
  {
    ContainsIffOccurs(u, filter);
    assert filter == "" ==> OccursAt(u, filter, 0);
    filter == "" || Contains(u, filter)
  }

  /** The heading of a section: the URL on a line of its own. */
  function Heading(u: string): (h: string)
    ensures |h| == |u| + 1 && StartsWith(h, u) && h[|u|] == '\n'
  {
    u + "\n"
  }

  /** What `scraper.py` fixes from its arguments. */
  function Settings(baseArg: string, filterArg: Option<string>): (cfg: Config)
    ensures cfg.base == BaseUrl(baseArg) && cfg.filter == FilterPath(filterArg)
    // links are discovered on the base URL and kept when they start with it
    ensures cfg.hubUrl == cfg.base && cfg.linkPrefix == cfg.base
  {
    var base := BaseUrl(baseArg);
    var filter := FilterPath(filterArg);
    Config(base, filter, base, base, u => KeepUrl(u, filter), Heading)
  }

  /**
   * Every URL a fresh resolution lists lies under the base URL, and contains
   * the filter when one was given.
   */
  lemma ResolvedUnderBase(urls: seq<string>, hrefs: seq<Option<string>>, baseArg: string,
                          filterArg: Option<string>)
    requires Resolves(urls, hrefs, Settings(baseArg, filterArg))
    ensures forall u :: u in urls ==> StartsWith(u, BaseUrl(baseArg)) && Some(u) in hrefs
    ensures forall u :: u in urls ==> FilterPath(filterArg) == "" || Contains(u, FilterPath(filterArg))
  {
  }

  /** An element's text as `get_text(separator="\n").strip()` gives it. */
  function TextOf(e: Element): (t: string)
    ensures StripOf(e.lineText, t, IsSpace)
  {
    Strip(e.lineText)
  }

  /** The candidate `select_one(selector)` gives: the text of its first match, if any. */
  function SelectOne(soup: Soup, selector: string): (c: Option<string>)
    ensures c.Some? <==> selector in soup.firstMatch
    ensures c.Some? ==> StripOf(soup.firstMatch[selector].lineText, c.value, IsSpace)
  {
    if selector in soup.firstMatch then Some(TextOf(soup.firstMatch[selector])) else None
  }

  /** The candidates of a list of selectors, in order. */
  function SelectEach(soup: Soup, selectors: seq<string>): (cs: seq<Option<string>>)
    ensures |cs| == |selectors|
    ensures forall i :: 0 <= i < |selectors| ==> cs[i] == SelectOne(soup, selectors[i])
  {
    if selectors == [] then [] else [SelectOne(soup, selectors[0])] + SelectEach(soup, selectors[1..])
  }

  /**
   * `max(divs, key=lambda d: len(d.get_text()))`: the index of the first div
   * whose unseparated text is longest.
   */
  function LargestDiv(divs: seq<Element>): (k: nat)
    requires divs != []
    ensures k < |divs|
    ensures forall j :: 0 <= j < |divs| ==> |divs[j].flatText| <= |divs[k].flatText|
    ensures forall j :: 0 <= j < k ==> |divs[j].flatText| < |divs[k].flatText|
    decreases |divs|
  {
    if |divs| == 1 then 0
    else
      var k := LargestDiv(divs[..|divs| - 1]);
      if |divs[|divs| - 1].flatText| > |divs[k].flatText| then |divs| - 1 else k
  }

  /** The last-resort candidate: the separated, stripped text of the largest div. */
  function LargestDivText(divs: seq<Element>): (c: Option<string>)
    ensures c.Some? <==> divs != []
    // the text of the first div whose unseparated text is longest
    ensures c.Some? ==> exists k :: 0 <= k < |divs| && c.value == TextOf(divs[k])
                                   && (forall j :: 0 <= j < |divs| ==> |divs[j].flatText| <= |divs[k].flatText|)
                                   && (forall j :: 0 <= j < k ==> |divs[j].flatText| < |divs[k].flatText|)
  {
    if divs == [] then None else Some(TextOf(divs[LargestDiv(divs)]))
  }

  /**
   * The candidates of `extract_text` in the order it tries them: the
   * custom selector's first match (none without a custom selector), the
   * first match of each built-in selector, then the largest div.
   */
  function Candidates(soup: Soup, custom: Option<string>): (cs: seq<Option<string>>)
    ensures |cs| == 8
  {
    [if custom.Some? && custom.value != "" then SelectOne(soup, custom.value) else None]
    + SelectEach(soup, FallbackSelectors)
    + [LargestDivText(soup.divs)]
  }

  /** The candidates one by one. */
  lemma CandidatesAt(soup: Soup, custom: Option<string>)
    ensures var cs := Candidates(soup, custom);
            && cs[0] == (if custom.Some? && custom.value != "" then SelectOne(soup, custom.value) else None)
            && (forall i :: 1 <= i < 7 ==> cs[i] == SelectOne(soup, FallbackSelectors[i - 1]))
            && cs[7] == LargestDivText(soup.divs)
  {
    var first := if custom.Some? && custom.value != "" then SelectOne(soup, custom.value) else None;
    var each := SelectEach(soup, FallbackSelectors);
    var cs := [first] + each + [LargestDivText(soup.divs)];
    assert Candidates(soup, custom) == cs;
    assert forall i :: 1 <= i < 7 ==> cs[i] == each[i - 1];
  }

  /** A candidate `extract_text` accepts: present and longer than 50 characters. */
  predicate Qualifies(c: Option<string>) {
    c.Some? && |c.value| > MinLength
  }

  /** The early-return cascade: the first candidate that qualifies, or `""`. */
  function FirstQualifying(cs: seq<Option<string>>): (r: string)
    ensures r == "" <==> forall k :: 0 <= k < |cs| ==> !Qualifies(cs[k])
    ensures r != "" ==> exists k :: 0 <= k < |cs| && cs[k] == Some(r) && Qualifies(cs[k])
                                    && forall j :: 0 <= j < k ==> !Qualifies(cs[j])
  {
    if cs == [] then ""
    else if Qualifies(cs[0]) then cs[0].value
    else
      var r := FirstQualifying(cs[1..]);
      assert forall k :: 1 <= k < |cs| ==> cs[k] == cs[1..][k - 1];
      r
  }

  /** The cascade returns the candidate at `k` when it is the first that qualifies. */
  lemma {:induction false} FirstQualifyingAt(cs: seq<Option<string>>, k: nat)
    requires k < |cs| && Qualifies(cs[k])
    requires forall j :: 0 <= j < k ==> !Qualifies(cs[j])
    ensures FirstQualifying(cs) == cs[k].value
    decreases k
  {
    if k > 0 {
      assert cs[1..][k - 1] == cs[k];
      FirstQualifyingAt(cs[1..], k - 1);
    }
  }

  /**
   * `extract_text(soup, custom_selector)`; `None` is a falsy soup. A custom
   * selector here is one the selector engine accepts (see `PageText`).
   */
  function ExtractText(soup: Option<Soup>, custom: Option<string>): (text: string)
    ensures text == "" || |text| > MinLength
    ensures soup.None? ==> text == ""
  {
    if soup.None? then "" else FirstQualifying(Candidates(soup.value, custom))
  }

  /** A custom selector whose first match qualifies decides the result. */
  lemma CustomSelectorFirst(soup: Soup, custom: string)
    requires custom != "" && Qualifies(SelectOne(soup, custom))
    ensures ExtractText(Some(soup), Some(custom)) == TextOf(soup.firstMatch[custom])
  {
  }

  /**
   * Unless a custom selector already decided, an `<article>` longer than 50
   * characters decides the result: it is the first built-in selector.
   */
  lemma ArticleFirst(soup: Soup, custom: Option<string>)
    requires custom.None? || custom.value == "" || !Qualifies(SelectOne(soup, custom.value))
    requires Qualifies(SelectOne(soup, "article"))
    ensures ExtractText(Some(soup), custom) == TextOf(soup.firstMatch["article"])
  {
    var cs := Candidates(soup, custom);
    CandidatesAt(soup, custom);
    assert !Qualifies(cs[0]);
    assert FallbackSelectors[0] == "article";
    assert Qualifies(cs[1]);
    FirstQualifyingAt(cs, 1);
  }

  /**
   * A page whose only candidate is an `<article>` of at most 50 characters
   * yields no text.
   */
  lemma ShortArticleYieldsNothing(article: Element)
    requires |TextOf(article)| <= MinLength
    ensures ExtractText(Some(Soup(map["article" := article], [])), None) == ""
  {
    var soup := Soup(map["article" := article], []);
    var cs := Candidates(soup, None);
    CandidatesAt(soup, None);
    forall k | 0 <= k < |cs| ensures !Qualifies(cs[k]) {
      if 1 <= k < 7 {
        assert cs[k] == SelectOne(soup, FallbackSelectors[k - 1]);
      }
    }
  }

  /**
   * What `fetch_page` gets on a miss: the page rendered and its text
   * extracted. `parses(sel)` tells whether the CSS selector engine accepts
   * `sel`; `select_one` raises on one it does not. Either exception, from
   * the browser or from the selector, makes the result `None`.
   */
  function PageText(render: string -> Option<Soup>, custom: Option<string>, parses: string -> bool,
                    url: string): (t: Option<string>)
    ensures t.None? <==> render(url).None? || (custom.Some? && custom.value != "" && !parses(custom.value))
    ensures t.Some? ==> t.value == ExtractText(render(url), custom)
    ensures t.Some? ==> t.value == "" || |t.value| > MinLength
  {
    if render(url).None? then None
    else if custom.Some? && custom.value != "" && !parses(custom.value) then None
    else Some(ExtractText(render(url), custom))
  }

  /**
   * Every page a crawl adds to the page cache is longer than 50 characters
   * (pages stored before the crawl are whatever they were).
   */
  lemma PageTextLength(urls: seq<string>, pages: map<string, string>, render: string -> Option<Soup>,
                       custom: Option<string>, parses: string -> bool)
    ensures var c := CrawlAll(urls, pages, u => PageText(render, custom, parses, u));
            forall k :: k in c.pages && k !in pages ==> |c.pages[k]| > MinLength
  {
    var fetch := u => PageText(render, custom, parses, u);
    var c := CrawlAll(urls, pages, fetch);
    forall k | k in c.pages && k !in pages ensures |c.pages[k]| > MinLength {
      assert fetch(k) == Some(c.pages[k]);
    }
  }

  /**
   * A custom selector the selector engine rejects makes every page fetch
   * fail: from an empty page cache, a run over a non-empty URL list caches
   * nothing and ends with no content.
   */
  lemma BadSelectorNoContent(urls: seq<string>, render: string -> Option<Soup>, custom: string,
                             parses: string -> bool, rewrite: string -> Option<string>,
                             baseArg: string, filterArg: Option<string>)
    requires custom != "" && !parses(custom) && urls != []
    ensures var cfg := Settings(baseArg, filterArg);
            var c := CrawlAll(urls, map[], u => PageText(render, Some(custom), parses, u));
            && c.pages == map[]
            && Finish(urls, Document(urls, c.texts, Rewritten(rewrite), cfg.heading), cfg.base, cfg.filter) == NoContent
  {
    var cfg := Settings(baseArg, filterArg);
    var fetch := u => PageText(render, Some(custom), parses, u);
    CrawlNothingFetched(urls, map[], fetch);
    WrittenIff(urls, CrawlAll(urls, map[], fetch).texts, Rewritten(rewrite), cfg.heading, cfg.base, cfg.filter);
  }
}
