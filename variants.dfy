/**
 * How the two scrapers relate, and the worked examples of their
 * behaviour.
 */
module Variants {
  import opened Wrappers
  import opened Text
  import opened UrlOrder
  import opened Dom
  import opened Pipeline
  import Scraper
  import DocsScraper

  /**
   * The general scraper, without a custom selector, agrees with the older
   * one whenever the older one finds an article longer than 50 characters.
   */
  lemma ArticleAgreement(soup: Soup)
    requires |DocsScraper.ExtractArticle(Some(soup))| > Scraper.MinLength
    ensures Scraper.ExtractText(Some(soup), None) == DocsScraper.ExtractArticle(Some(soup))
  {
    Scraper.ArticleFirst(soup, None);
  }

  /**
   * The older scraper returns an article of at most 50 characters, which
   * the general one, without a custom selector, rejects when nothing else
   * on the page qualifies.
   */
  lemma ShortArticleDiffers(article: Element)
    requires Scraper.TextOf(article) != "" && |Scraper.TextOf(article)| <= Scraper.MinLength
    ensures var soup := Soup(map["article" := article], []);
            && DocsScraper.ExtractArticle(Some(soup)) == Scraper.TextOf(article) != ""
            && Scraper.ExtractText(Some(soup), None) == ""
  {
    var soup := Soup(map["article" := article], []);
    Scraper.ShortArticleYieldsNothing(article);
    StripOfUnique(article.lineText, DocsScraper.ExtractArticle(Some(soup)), Scraper.TextOf(article), IsSpace);
  }

  /** The two URL filters keep the same URLs: the empty filter occurs in every URL. */
  lemma SameFilter(u: string, filter: string)
    ensures Scraper.KeepUrl(u, filter) == Contains(u, filter)
  {
    assert filter == "" ==> StartsWith(u, filter);
  }

  /** A string holding a non-empty pattern holds the pattern's first character. */
  lemma {:induction false} ContainsFirstChar(s: string, sub: string)
    requires sub != [] && Contains(s, sub)
    ensures sub[0] in s
    decreases |s|
  {
    if !StartsWith(s, sub) {
      ContainsFirstChar(s[1..], sub);
    } else {
      assert s[0] == sub[0];
    }
  }

  /** The base URL and the documentation directory of the worked example below. */
  const Base: string := "https://example.com"
  const Docs: string := Base + "/docs/"

  /** The three links of the worked example. */
  const Intro: string := Docs + "guide" + "/intro"
  const Nested: string := Docs + "guide" + "/a/b"
  const Other: string := Docs + "other"

  /** The `/` count of the shallower guide page's last part. */
  lemma IntroDepth()
    ensures Depth("/intro") == 1
  {
    assert Count("intro", '/') == 0;
  }

  /** The `/` count of the deeper guide page's last part. */
  lemma NestedDepth()
    ensures Depth("/a/b") == 2
  {
    assert Count("b", '/') == 0;
  }

  /** The deeper guide page sorts after the shallower one. */
  lemma GuideKeys()
    ensures KeyLess(Intro, Nested)
  {
    var dir := Docs + "guide";
    DepthAppend(dir, "/intro");
    DepthAppend(dir, "/a/b");
    IntroDepth();
    NestedDepth();
  }

  /** Which of the example's links the `guide` filter keeps. */
  lemma GuideFilter()
    ensures Contains(Intro, "guide") && Contains(Nested, "guide") && !Contains(Other, "guide")
  {
    ContainsInfix(Docs, "guide", "/intro");
    ContainsInfix(Docs, "guide", "/a/b");
    assert 'g' !in Other by {
      assert 'g' !in Base && 'g' !in "/docs/" && 'g' !in "other";
    }
    if Contains(Other, "guide") {
      ContainsFirstChar(Other, "guide");
    }
  }

  /** Both guide pages lie under the base URL. */
  lemma GuidePrefix()
    ensures StartsWith(Intro, Base) && StartsWith(Nested, Base)
  {
    assert Intro == Base + ("/docs/" + "guide" + "/intro");
    assert Nested == Base + ("/docs/" + "guide" + "/a/b");
  }

  /** A link listed among three hrefs is one of them. */
  lemma OneOfThree(u: string, a: string, b: string, c: string)
    requires Some(u) in [Some(a), Some(b), Some(c)]
    ensures u == a || u == b || u == c
  {
    var hrefs := [Some(a), Some(b), Some(c)];
    var i :| 0 <= i < 3 && hrefs[i] == Some(u);
  }

  /** A resolution whose kept links are exactly `a` and `b`, `a` first in key order, is `[a, b]`. */
  lemma ResolvesPair(urls: seq<string>, a: string, b: string, c: string, cfg: Config)
    requires Resolves(urls, [Some(a), Some(b), Some(c)], cfg) && KeyLess(a, b)
    requires a != "" && StartsWith(a, cfg.linkPrefix) && cfg.keep(a)
    requires b != "" && StartsWith(b, cfg.linkPrefix) && cfg.keep(b)
    requires !cfg.keep(c)
    ensures urls == [a, b]
  {
    var hrefs := [Some(a), Some(b), Some(c)];
    assert Discovered(a, hrefs, cfg.linkPrefix) && Discovered(b, hrefs, cfg.linkPrefix);
    forall u | u in urls
      ensures u in [a, b]
    {
      OneOfThree(u, a, b, c);
    }
    OrderedUnique(urls, [a, b]);
  }

  /**
   * With base `https://example.com` and filter `guide`, a hub page linking
   * to `/docs/guide/intro`, `/docs/guide/a/b` and `/docs/other` resolves to
   * the two guide pages, the shallower one first.
   */
  lemma GuideExample(urls: seq<string>)
    requires Resolves(urls, [Some(Intro), Some(Nested), Some(Other)], Scraper.Settings(Base, Some("guide")))
    ensures urls == [Intro, Nested]
  {
    TrimNothing("guide", IsSlash);
    TrimNothing(Base, IsSlash);
    var cfg := Scraper.Settings(Base, Some("guide"));
    assert cfg.linkPrefix == Base;
    assert forall u :: cfg.keep(u) == Contains(u, "guide");
    GuideFilter();
    GuideKeys();
    GuidePrefix();
    ResolvesPair(urls, Intro, Nested, Other, cfg);
  }
}
