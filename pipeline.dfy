/**
 * The steps both scrapers share, over the cache directory `./tmp` modelled
 * as the object `Store`: page lookup with caching, link discovery, URL
 * list resolution with caching, corpus assembly and the run of `main`.
 * A `Config` fixes what differs between the two scrapers.
 */
module Pipeline {
  import opened Wrappers
  import opened Text
  import opened UrlOrder
  import opened Corpus

  /** What a scraper fixes from its command line. */
  datatype Config = Config(
    base: string,               // BASE_URL
    filter: string,             // FILTER_PATH
    hubUrl: string,             // the page links are discovered on
    linkPrefix: string,         // what a kept link starts with
    keep: string -> bool,       // the URL filter of `get_all_urls`
    heading: string -> string)  // the heading lines of a URL's section

  /** `BASE_URL = args.base_url.rstrip("/")`. */
  function BaseUrl(arg: string): (base: string)
    ensures base == [] || base[|base| - 1] != '/'
    ensures StartsWith(arg, base) && forall i :: |base| <= i < |arg| ==> arg[i] == '/'
  {
    TrimRight(arg, IsSlash)
  }

  /** An href the link loop keeps: `href and href.startswith(prefix)`. */
  predicate Discovered(u: string, hrefs: seq<Option<string>>, prefix: string) {
    Some(u) in hrefs && u != "" && StartsWith(u, prefix)
  }

  /**
   * What `get_all_urls` computes from the hub page's hrefs: the kept links
   * that pass the filter, each once, in key order.
   */
  ghost predicate Resolves(urls: seq<string>, hrefs: seq<Option<string>>, cfg: Config) {
    Ordered(urls) && forall u :: u in urls <==> Discovered(u, hrefs, cfg.linkPrefix) && cfg.keep(u)
  }

  /**
   * The link loop of `extract_links`: `hrefs` are the `href` attributes of
   * the hub page's `<a>` elements in page order, `None` where there is none.
   */
  method ExtractLinks(hrefs: seq<Option<string>>, prefix: string) returns (links: set<string>)
    ensures forall u :: u in links <==> Discovered(u, hrefs, prefix)
  {
    links := {};
    for i := 0 to |hrefs|
      invariant forall u :: u in links <==> Some(u) in hrefs[..i] && u != "" && StartsWith(u, prefix)
    {
      var href := hrefs[i];
      if href.Some? && href.value != "" && StartsWith(href.value, prefix) {
        links := links + {href.value};
      }
      assert hrefs[..i + 1] == hrefs[..i] + [href];
    }
    assert hrefs[..|hrefs|] == hrefs;
  }

  /**
   * The comprehension `[url for url in all_urls if keep(url)]` over the set
   * of links, which Python walks in an order it does not specify.
   */
  method FilterLinks(links: set<string>, keep: string -> bool) returns (urls: seq<string>)
    ensures Distinct(urls)
    ensures forall u :: u in urls <==> u in links && keep(u)
  {
    urls := [];
    var rest := links;
    while rest != {}
      invariant rest <= links
      invariant Distinct(urls)
      invariant forall u :: u in urls <==> u in links && u !in rest && keep(u)
      decreases rest
    {
      var u :| u in rest;
      if keep(u) {
        urls := urls + [u];
      }
      rest := rest - {u};
    }
  }

  /** Section bodies: each page text passed through `process_with_llm`. */
  function Rewritten(rewrite: string -> Option<string>): string -> string {
    t => Process(t, rewrite)
  }

  /** A page's piece of the corpus, as the loop body builds it. */
  lemma PieceRewritten(url: string, content: Option<string>, rewrite: string -> Option<string>,
                       heading: string -> string)
    ensures Piece(url, content, Rewritten(rewrite), heading)
            == if content.Some? && content.value != "" then Section(heading(url), Process(content.value, rewrite)) else ""
  {
  }

  /**
   * The cache directory: `pages` holds the page files (keyed here by the URL
   * itself rather than by its MD5 digest), `urlList` the pickled URL list
   * `urls_cache.pkl`. `renders` records every navigation of the browser.
   */
  class Store {
    var pages: map<string, string>
    var urlList: Option<seq<string>>
    ghost var renders: seq<string>

    /** An empty cache directory. */
    constructor ()
      ensures pages == map[] && urlList == None && renders == []
    {
      pages := map[];
      urlList := None;
      renders := [];
    }

    /** A cache directory left by earlier runs, or by the URL list converter. */
    constructor Load(pages: map<string, string>, urlList: Option<seq<string>>)
      ensures this.pages == pages && this.urlList == urlList && renders == []
    {
      this.pages := pages;
      this.urlList := urlList;
      renders := [];
    }

    /**
     * `fetch_page(url)`; `fetch(url)` is rendering plus text extraction,
     * `None` when the browser raised.
     */
    method FetchPage(url: string, fetch: string -> Option<string>) returns (content: Option<string>)
      modifies this
      ensures Visit(content, pages) == Fetch(old(pages), url, fetch)
      ensures urlList == old(urlList)
      ensures renders == old(renders) + if url in old(pages) then [] else [url]
    {
      if url in pages {
        return Some(ReadBack(pages[url]));
      }
      renders := renders + [url];
      content := fetch(url);
      if content.Some? && content.value != "" {
        pages := pages[url := content.value];
      }
    }

    /**
     * `get_all_urls()`. `hub` is what rendering the hub page yields: the
     * hrefs of its links, or `None` when the browser raised, in which case
     * the exception ends the run (`None` result).
     */
    method GetAllUrls(cfg: Config, hub: Option<seq<Option<string>>>) returns (urls: Option<seq<string>>)
      modifies this
      ensures pages == old(pages)
      // a stored list is returned as it is, whatever the filter and the site now say
      ensures old(urlList).Some? ==> urls == old(urlList) && urlList == old(urlList) && renders == old(renders)
      ensures old(urlList).None? ==> renders == old(renders) + [cfg.hubUrl]
      ensures old(urlList).None? ==> urlList == urls && (urls.None? <==> hub.None?)
      ensures old(urlList).None? && hub.Some? ==> Resolves(urls.value, hub.value, cfg)
    {
      if urlList.Some? {
        return urlList;
      }
      renders := renders + [cfg.hubUrl];
      if hub.None? {
        return None;
      }
      var links := ExtractLinks(hub.value, cfg.linkPrefix);
      var filtered := FilterLinks(links, cfg.keep);
      var sorted := SortByKey(filtered);
      SortOrdered(filtered);
      assert forall u :: u in sorted <==> u in multiset(filtered);
      urlList := Some(sorted);
      urls := Some(sorted);
    }
  }

  /**
   * The loop of `scrape_and_structure(urls)`: pages without text are
   * skipped, the others appended as sections in URL order.
   */
  method Assemble(store: Store, urls: seq<string>, fetch: string -> Option<string>,
                  rewrite: string -> Option<string>, heading: string -> string) returns (text: string)
    modifies store
    ensures var c := CrawlAll(urls, old(store.pages), fetch);
            && text == Document(urls, c.texts, Rewritten(rewrite), heading)
            && store.pages == c.pages
            && store.renders == old(store.renders) + c.rendered
    ensures store.urlList == old(store.urlList)
  {
    text := "";
    for i := 0 to |urls|
      invariant var c := CrawlAll(urls[..i], old(store.pages), fetch);
                && text == Document(urls[..i], c.texts, Rewritten(rewrite), heading)
                && store.pages == c.pages
                && store.renders == old(store.renders) + c.rendered
      invariant store.urlList == old(store.urlList)
    {
      ghost var text0 := text;
      ghost var c := CrawlAll(urls[..i], old(store.pages), fetch);
      var content := store.FetchPage(urls[i], fetch);
      ghost var missed := if urls[i] in c.pages then [] else [urls[i]];
      assert store.renders == old(store.renders) + (c.rendered + missed);
      CrawlStep(urls, old(store.pages), fetch, Rewritten(rewrite), heading, i);
      if content.Some? && content.value != "" {
        var processed := Process(content.value, rewrite);
        // the four `+=` of the loop body append exactly one section
        text := text + Section(heading(urls[i]), processed);
      }
      PieceRewritten(urls[i], content, rewrite, heading);
      assert text == text0 + Piece(urls[i], content, Rewritten(rewrite), heading);
    }
    assert urls[..|urls|] == urls;
  }

  /**
   * What a run of `main` does to the cache directory and how it ends, in
   * terms of the state before (`pages0`, `list0`, `renders0`) and after.
   */
  ghost predicate Ran(cfg: Config, hub: Option<seq<Option<string>>>, fetch: string -> Option<string>,
                      rewrite: string -> Option<string>,
                      pages0: map<string, string>, list0: Option<seq<string>>, renders0: seq<string>,
                      pages: map<string, string>, list: Option<seq<string>>, renders: seq<string>,
                      outcome: Outcome)
  {
    if list0.None? && hub.None? then
      // the hub page failed to render: the exception ends the run
      outcome == Aborted && pages == pages0 && list == None && renders == renders0 + [cfg.hubUrl]
    else
      && list.Some?
      && (list0.Some? ==> list == list0)
      && (list0.None? ==> Resolves(list.value, hub.value, cfg))
      && var urls := list.value;
         var c := CrawlAll(urls, pages0, fetch);
         && pages == c.pages
         && renders == renders0 + (if list0.None? then [cfg.hubUrl] else []) + c.rendered
         && outcome == Finish(urls, Document(urls, c.texts, Rewritten(rewrite), cfg.heading), cfg.base, cfg.filter)
  }

  /**
   * `main()`: resolve the URL list, stop when it is empty, assemble the
   * corpus, and write the output file only when its stripped text is not
   * empty (`Written` carries the file's contents).
   */
  method Run(store: Store, cfg: Config, hub: Option<seq<Option<string>>>, fetch: string -> Option<string>,
             rewrite: string -> Option<string>) returns (outcome: Outcome)
    modifies store
    ensures Ran(cfg, hub, fetch, rewrite, old(store.pages), old(store.urlList), old(store.renders),
                store.pages, store.urlList, store.renders, outcome)
  {
    ghost var pages0, list0, renders0 := store.pages, store.urlList, store.renders;
    var urls := store.GetAllUrls(cfg, hub);
    if urls.None? {
      return Aborted;
    }
    assert store.urlList == urls && store.pages == pages0;
    ghost var renders1 := store.renders;
    assert renders1 == renders0 + (if list0.None? then [cfg.hubUrl] else []);
    if urls.value == [] {
      assert CrawlAll(urls.value, pages0, fetch) == Crawl([], pages0, []);
      return NoUrls;
    }
    var docs := Assemble(store, urls.value, fetch, rewrite, cfg.heading);
    ghost var c := CrawlAll(urls.value, pages0, fetch);
    assert docs == Document(urls.value, c.texts, Rewritten(rewrite), cfg.heading);
    assert store.renders == renders1 + c.rendered;
    if Strip(docs) != "" {
      outcome := Written(Header(cfg.base, cfg.filter) + Strip(docs));
    } else {
      outcome := NoContent;
    }
    assert outcome == Finish(urls.value, docs, cfg.base, cfg.filter);
  }
}
