/**
 * The values the scrapers compute, as functions: one visit to the page
 * cache, a sequence of visits, the corpus text assembled from them and the
 * decision whether the output file is written.
 */
module Corpus {
  import opened Wrappers
  import opened Text

  /** What one `fetch_page` call returns, and the page cache it leaves. */
  datatype Visit = Visit(text: Option<string>, pages: map<string, string>)

  /**
   * `fetch_page(url)` against the page cache `pages` (URL to the text
   * written to its cache file). `fetch(url)` stands for rendering the page
   * and extracting its text: `None` when the browser raised.
   */
  function Fetch(pages: map<string, string>, url: string, fetch: string -> Option<string>): (v: Visit)
    // a hit returns the cache file's text, read back in text mode, and fetches nothing
    ensures url in pages ==> v == Visit(Some(ReadBack(pages[url])), pages)
    // a miss returns what fetching gives
    ensures url !in pages ==> v.text == fetch(url)
    // cached entries are never changed
    ensures forall k :: k in pages ==> k in v.pages && v.pages[k] == pages[k]
    // the only entry ever added is the non-empty text just returned for `url`
    ensures forall k :: k in v.pages && k !in pages ==>
              k == url && v.text == Some(v.pages[k]) && v.pages[k] != ""
    ensures (url in v.pages) == (url in pages || (v.text.Some? && v.text.value != ""))
  {
    if url in pages then Visit(Some(ReadBack(pages[url])), pages)
    else
      var content := fetch(url);
      if content.Some? && content.value != "" then Visit(content, pages[url := content.value])
      else Visit(content, pages)
  }

  /**
   * A second visit after a visit that returned non-empty text returns that
   * text as its cache file reads back, and leaves the cache alone, whatever
   * fetching would now give; a text without `\r` comes back unchanged.
   */
  lemma FetchTwice(pages: map<string, string>, url: string, fetch: string -> Option<string>,
                   fetch': string -> Option<string>)
    requires var v := Fetch(pages, url, fetch); v.text.Some? && v.text.value != ""
    ensures var v := Fetch(pages, url, fetch);
            Fetch(v.pages, url, fetch') == Visit(Some(ReadBack(v.text.value)), v.pages)
    ensures var v := Fetch(pages, url, fetch); '\r' !in v.text.value ==> Fetch(v.pages, url, fetch') == v
  {
    var v := Fetch(pages, url, fetch);
    if url in pages {
      ReadBackIdempotent(pages[url]);
    }
    if '\r' !in v.text.value {
      ReadBackPlain(v.text.value);
    }
  }

  /**
   * The texts `fetch_page` returns for `urls` in order, the page cache
   * after the last of them, and the URLs rendered on the way.
   */
  datatype Crawl = Crawl(texts: seq<Option<string>>, pages: map<string, string>, rendered: seq<string>)

  function CrawlAll(urls: seq<string>, pages: map<string, string>, fetch: string -> Option<string>): (c: Crawl)
    ensures |c.texts| == |urls|
    ensures forall k :: k in pages ==> k in c.pages && c.pages[k] == pages[k]
    ensures forall u :: u in c.rendered ==> u in urls && u !in pages
    // every entry the visits add is a non-empty text fetched for its URL
    ensures forall k :: k in c.pages && k !in pages ==> c.pages[k] != "" && fetch(k) == Some(c.pages[k])
    decreases |urls|
  {
    if urls == [] then Crawl([], pages, [])
    else
      var c := CrawlAll(urls[..|urls| - 1], pages, fetch);
      var u := urls[|urls| - 1];
      var v := Fetch(c.pages, u, fetch);
      Crawl(c.texts + [v.text], v.pages, c.rendered + if u in c.pages then [] else [u])
  }

  /** A page with non-empty text. */
  predicate Present(text: Option<string>) {
    text.Some? && text.value != ""
  }

  /**
   * After visiting `urls`, the cache holds every non-empty text that was
   * returned, under its URL, as far as reading it back can tell (a text read
   * from the cache was read back already); and a URL that was cached before
   * the visits got its cached text, read back.
   */
  lemma {:induction false} CrawlCaches(urls: seq<string>, pages: map<string, string>,
                                       fetch: string -> Option<string>, i: nat)
    requires i < |urls|
    ensures var c := CrawlAll(urls, pages, fetch);
            Present(c.texts[i]) ==> urls[i] in c.pages && ReadBack(c.pages[urls[i]]) == ReadBack(c.texts[i].value)
    ensures urls[i] in pages ==> CrawlAll(urls, pages, fetch).texts[i] == Some(ReadBack(pages[urls[i]]))
    decreases |urls|
  {
    var n := |urls| - 1;
    var c0 := CrawlAll(urls[..n], pages, fetch);
    var v := Fetch(c0.pages, urls[n], fetch);
    var c := CrawlAll(urls, pages, fetch);
    assert c.texts == c0.texts + [v.text] && c.pages == v.pages;
    if i < n {
      CrawlCaches(urls[..n], pages, fetch, i);
      assert urls[..n][i] == urls[i] && c.texts[i] == c0.texts[i];
    } else if urls[n] in c0.pages {
      ReadBackIdempotent(c0.pages[urls[n]]);
    }
  }

  /** When every URL is cached, visiting them renders nothing and reads back every cached text. */
  lemma {:induction false} CrawlAllHits(urls: seq<string>, pages: map<string, string>,
                                        fetch: string -> Option<string>)
    requires forall u :: u in urls ==> u in pages
    ensures var c := CrawlAll(urls, pages, fetch);
            c.pages == pages && c.rendered == []
            && forall i :: 0 <= i < |urls| ==> c.texts[i] == Some(ReadBack(pages[urls[i]]))
    decreases |urls|
  {
    if urls != [] {
      var n := |urls| - 1;
      var front := urls[..n];
      assert forall u :: u in front ==> u in urls;
      CrawlAllHits(front, pages, fetch);
      var c0 := CrawlAll(front, pages, fetch);
      var texts := c0.texts + [Some(ReadBack(pages[urls[n]]))];
      assert CrawlAll(urls, pages, fetch) == Crawl(texts, pages, []) by {
        assert urls[n] in pages;
      }
      forall i | 0 <= i < |urls|
        ensures texts[i] == Some(ReadBack(pages[urls[i]]))
      {
        if i < n {
          assert texts[i] == c0.texts[i] && front[i] == urls[i];
        } else {
          assert texts[i] == Some(ReadBack(pages[urls[n]]));
        }
      }
    }
  }

  /**
   * Re-running over the same URLs after a run in which every page had
   * content renders nothing and yields each text of that run as its cache
   * file reads back, whatever the browser would now return: at most one
   * fetch per URL per cache. Texts without `\r` come back unchanged.
   */
  lemma RerunIsCached(urls: seq<string>, pages: map<string, string>,
                      fetch: string -> Option<string>, fetch': string -> Option<string>)
    requires var c := CrawlAll(urls, pages, fetch);
             forall i :: 0 <= i < |urls| ==> c.texts[i].Some? && c.texts[i].value != ""
    ensures var c := CrawlAll(urls, pages, fetch);
            var c' := CrawlAll(urls, c.pages, fetch');
            && c'.pages == c.pages && c'.rendered == []
            && forall i :: 0 <= i < |urls| ==> c.texts[i].Some? && c'.texts[i] == Some(ReadBack(c.texts[i].value))
    ensures var c := CrawlAll(urls, pages, fetch);
            (forall i :: 0 <= i < |urls| ==> c.texts[i].Some? && '\r' !in c.texts[i].value)
            ==> CrawlAll(urls, c.pages, fetch') == Crawl(c.texts, c.pages, [])
  {
    var c := CrawlAll(urls, pages, fetch);
    forall i | 0 <= i < |urls|
      ensures c.texts[i].Some? && urls[i] in c.pages && ReadBack(c.pages[urls[i]]) == ReadBack(c.texts[i].value)
    {
      CrawlCaches(urls, pages, fetch, i);
    }
    CrawlAllHits(urls, c.pages, fetch');
    var c' := CrawlAll(urls, c.pages, fetch');
    assert forall i :: 0 <= i < |urls| ==> c'.texts[i] == Some(ReadBack(c.texts[i].value));
    if forall i :: 0 <= i < |urls| ==> c.texts[i].Some? && '\r' !in c.texts[i].value {
      forall i | 0 <= i < |urls| ensures c'.texts[i] == c.texts[i] {
        ReadBackPlain(c.texts[i].value);
      }
      assert c'.texts == c.texts;
    }
  }

  /**
   * When fetching always fails, the visits add nothing to the cache and
   * every URL that was not cached gets no text.
   */
  lemma {:induction false} CrawlNothingFetched(urls: seq<string>, pages: map<string, string>,
                                               fetch: string -> Option<string>)
    requires forall u :: fetch(u).None?
    ensures var c := CrawlAll(urls, pages, fetch);
            c.pages == pages && forall i :: 0 <= i < |urls| && urls[i] !in pages ==> c.texts[i].None?
    decreases |urls|
  {
    if urls != [] {
      var n := |urls| - 1;
      CrawlNothingFetched(urls[..n], pages, fetch);
      var c0 := CrawlAll(urls[..n], pages, fetch);
      var v := Fetch(c0.pages, urls[n], fetch);
      assert v.pages == pages && (urls[n] !in pages ==> v.text.None?) by {
        assert fetch(urls[n]).None?;
      }
      var c := CrawlAll(urls, pages, fetch);
      assert c.texts == c0.texts + [v.text] && c.pages == v.pages;
      forall i | 0 <= i < |urls| && urls[i] !in pages ensures c.texts[i].None? {
        if i < n {
          assert urls[..n][i] == urls[i];
          assert c0.texts[i].None?;
          assert c.texts[i] == c0.texts[i];
        } else {
          assert i == n && urls[n] !in pages;
          assert c.texts[i] == v.text;
        }
      }
    }
  }

  /** The rule line `'-' * 40`. */
  const Rule: string := "----------------------------------------"

  lemma RuleIsFortyDashes()
    ensures |Rule| == 40 && forall i :: 0 <= i < |Rule| ==> Rule[i] == '-'
  {
  }

  /** One section of the corpus: rule, heading lines, rule, body. */
  function Section(heading: string, body: string): (r: string)
    // the first rule line follows the two leading newlines, and the body ends the section
    ensures |r| > |body| + 2 && r[2] == '-' && r[|r| - |body|..] == body
    // two newlines, the rule, then the heading lines on the line after it
    ensures StartsWith(r, "\n\n" + Rule + "\n" + heading)
    // and, closing the heading, the rule and a blank line before the body
    ensures |r| == |heading| + |body| + 85 && r[|r| - |body| - 42..] == Rule + "\n\n" + body
  {
    var opening := "\n\n" + Rule;
    assert opening[2] == '-';
    var p := "\n\n" + Rule + "\n" + heading;
    var r := p + Rule + "\n\n" + body;
    assert r == opening + ("\n" + heading + Rule + "\n\n" + body);
    assert r == p + (Rule + "\n\n" + body);
    assert r[|p|..] == Rule + "\n\n" + body;
    r
  }

  /**
   * `process_with_llm(text)`. `rewrite(text)` stands for the language-model
   * call: the reply's content, or `None` when the call raised.
   */
  function Process(text: string, rewrite: string -> Option<string>): (r: string)
    // fail open: a failed rewrite keeps the text verbatim
    ensures rewrite(text).None? ==> r == text
    ensures rewrite(text).Some? ==> r == Strip(rewrite(text).value)
  {
    match rewrite(text)
    case Some(reply) => Strip(reply)
    case None => text
  }

  /** What a URL contributes to the corpus: nothing unless its page has text. */
  function Piece(url: string, text: Option<string>, body: string -> string, heading: string -> string): (r: string)
    ensures r != "" <==> Present(text)
  {
    if Present(text) then Section(heading(url), body(text.value)) else ""
  }

  /**
   * The text `scrape_and_structure` returns, given the fetched `texts` of
   * `urls`; `body` turns a page text into a section body and `heading`
   * gives a URL's heading lines.
   */
  function Document(urls: seq<string>, texts: seq<Option<string>>,
                    body: string -> string, heading: string -> string): (r: string)
    requires |texts| == |urls|
    // empty exactly when no page had text
    ensures r == "" <==> forall i :: 0 <= i < |urls| ==> !Present(texts[i])
    decreases |urls|
  {
    if urls == [] then ""
    else
      var n := |urls| - 1;
      var front := Document(urls[..n], texts[..n], body, heading);
      var piece := Piece(urls[n], texts[n], body, heading);
      assert front == "" <==> forall i :: 0 <= i < n ==> !Present(texts[i]) by {
        assert forall i :: 0 <= i < n ==> texts[..n][i] == texts[i];
      }
      assert |front + piece| == |front| + |piece|;
      front + piece
  }

  /**
   * Visiting one more URL: the crawl of `urls[..i + 1]` is the crawl of
   * `urls[..i]` followed by one `fetch_page`, and the document grows by
   * that URL's piece.
   */
  lemma CrawlStep(urls: seq<string>, pages: map<string, string>, fetch: string -> Option<string>,
                  body: string -> string, heading: string -> string, i: nat)
    requires i < |urls|
    ensures var c := CrawlAll(urls[..i], pages, fetch);
            var v := Fetch(c.pages, urls[i], fetch);
            var c' := CrawlAll(urls[..i + 1], pages, fetch);
            && c'.texts == c.texts + [v.text]
            && c'.pages == v.pages
            && c'.rendered == c.rendered + (if urls[i] in c.pages then [] else [urls[i]])
            && Document(urls[..i + 1], c'.texts, body, heading)
               == Document(urls[..i], c.texts, body, heading) + Piece(urls[i], v.text, body, heading)
  {
    assert urls[..i + 1][..i] == urls[..i];
    var c' := CrawlAll(urls[..i + 1], pages, fetch);
    assert c'.texts[..i] == CrawlAll(urls[..i], pages, fetch).texts;
  }

  lemma Associative(a: string, b: string, c: string)
    ensures a + b + c == a + (b + c)
  {
  }

  /** One more URL adds its piece at the end. */
  lemma DocumentSnoc(urls: seq<string>, texts: seq<Option<string>>, url: string, text: Option<string>,
                     body: string -> string, heading: string -> string)
    requires |texts| == |urls|
    ensures Document(urls + [url], texts + [text], body, heading)
            == Document(urls, texts, body, heading) + Piece(url, text, body, heading)
  {
    assert (urls + [url])[..|urls|] == urls;
    assert (texts + [text])[..|texts|] == texts;
  }

  /** Sections follow URL order: the document of a concatenation is the concatenation of documents. */
  lemma {:induction false} DocumentAppend(urls: seq<string>, texts: seq<Option<string>>,
                                          urls': seq<string>, texts': seq<Option<string>>,
                                          body: string -> string, heading: string -> string)
    requires |texts| == |urls| && |texts'| == |urls'|
    ensures Document(urls + urls', texts + texts', body, heading)
            == Document(urls, texts, body, heading) + Document(urls', texts', body, heading)
    decreases |urls'|
  {
    if urls' == [] {
      assert urls + urls' == urls && texts + texts' == texts;
    } else {
      var n := |urls'| - 1;
      var us, ts, u, t := urls'[..n], texts'[..n], urls'[n], texts'[n];
      assert urls' == us + [u] && texts' == ts + [t];
      assert urls + urls' == (urls + us) + [u];
      assert texts + texts' == (texts + ts) + [t];
      DocumentSnoc(urls + us, texts + ts, u, t, body, heading);
      DocumentSnoc(us, ts, u, t, body, heading);
      DocumentAppend(urls, texts, us, ts, body, heading);
      Associative(Document(urls, texts, body, heading), Document(us, ts, body, heading), Piece(u, t, body, heading));
    }
  }

  /** A page with text puts a rule line, here a `-`, into the document. */
  lemma {:induction false} DocumentHasRule(urls: seq<string>, texts: seq<Option<string>>,
                                           body: string -> string, heading: string -> string, i: nat)
    requires |texts| == |urls| && i < |urls| && Present(texts[i])
    ensures exists k :: 0 <= k < |Document(urls, texts, body, heading)|
                        && Document(urls, texts, body, heading)[k] == '-'
    decreases |urls|
  {
    var n := |urls| - 1;
    var front := Document(urls[..n], texts[..n], body, heading);
    var d := Document(urls, texts, body, heading);
    if i == n {
      assert d[|front| + 2] == Piece(urls[n], texts[n], body, heading)[2];
    } else {
      assert texts[..n][i] == texts[i];
      DocumentHasRule(urls[..n], texts[..n], body, heading, i);
      var k :| 0 <= k < |front| && front[k] == '-';
      assert d[k] == front[k];
    }
  }

  /**
   * The document's stripped text is non-empty exactly when some page had
   * text: sections always carry their rule lines.
   */
  lemma DocumentBlankIff(urls: seq<string>, texts: seq<Option<string>>,
                         body: string -> string, heading: string -> string)
    requires |texts| == |urls|
    ensures Strip(Document(urls, texts, body, heading)) != "" <==> exists i :: 0 <= i < |urls| && Present(texts[i])
  {
    var d := Document(urls, texts, body, heading);
    if i :| 0 <= i < |urls| && Present(texts[i]) {
      DocumentHasRule(urls, texts, body, heading, i);
      var k :| 0 <= k < |d| && d[k] == '-';
      assert !IsSpace(d[k]);
      StripNonEmptyIff(d);
    } else {
      StripNonEmptyIff(d);
    }
  }

  /** The document when every rewrite fails: each page's text verbatim. */
  lemma {:induction false} FailOpen(urls: seq<string>, texts: seq<Option<string>>,
                                    rewrite: string -> Option<string>, heading: string -> string)
    requires |texts| == |urls|
    requires forall t :: rewrite(t).None?
    ensures Document(urls, texts, t => Process(t, rewrite), heading) == Document(urls, texts, t => t, heading)
    decreases |urls|
  {
    if urls != [] {
      FailOpen(urls[..|urls| - 1], texts[..|urls| - 1], rewrite, heading);
    }
  }

  /** How a run ends: the hub page failed, no URLs, nothing extracted, or the file written. */
  datatype Outcome = Aborted | NoUrls | NoContent | Written(document: string)

  /** The first two lines of the output file, and the blank line after them. */
  function Header(base: string, filter: string): (h: string)
    // the first line names the base URL, and a blank line follows the header
    ensures StartsWith(h, "# Documentation from " + base + "\n") && h[|h| - 2..] == "\n\n"
  {
    "# Documentation from " + base + "\n" + "> Extracted content from " + filter + "\n\n"
  }

  /** The end of `main` once the URL list `urls` and the corpus text `docs` are known. */
  function Finish(urls: seq<string>, docs: string, base: string, filter: string): (o: Outcome)
    ensures o.Written? <==> urls != [] && Strip(docs) != ""
    ensures o.Written? ==> o.document == Header(base, filter) + Strip(docs)
    ensures o != Aborted
  {
    if urls == [] then NoUrls
    else if Strip(docs) != "" then Written(Header(base, filter) + Strip(docs))
    else NoContent
  }

  /** The output file is written exactly when there are URLs and at least one page had text. */
  lemma WrittenIff(urls: seq<string>, texts: seq<Option<string>>, body: string -> string,
                   heading: string -> string, base: string, filter: string)
    requires |texts| == |urls|
    ensures Finish(urls, Document(urls, texts, body, heading), base, filter).Written?
            <==> exists i :: 0 <= i < |urls| && Present(texts[i])
  {
    DocumentBlankIff(urls, texts, body, heading);
  }
}
