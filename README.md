# llm-text-scraper, modelled in Dafny

`llm-text-scraper` builds one text file of documentation (`llms-full.txt`)
from a documentation web site, for use by language-model tools. It ships as
two scripts. `scraper.py` is the general one. `main.py` is an older variant
that looks only under `/docs`. Both scripts run the same pipeline:

1. Normalise the base URL and the URL filter.
2. Render a hub page, collect its links under a prefix, keep those that
   match the filter, and sort them by (number of `/`, then string order).
   The resulting list is cached in `./tmp/urls_cache.pkl`.
3. Fetch every URL. Each page text is cached in `./tmp` and extracted by a
   cascade of selectors. A page with no text is skipped.
4. Pass each page text through a language-model rewrite. When the rewrite
   fails, the text is kept as it is.
5. Append one section per page, in URL order.
6. Write the file only when the stripped corpus is not empty.

The model keeps the deterministic part of that pipeline and proves its
properties. The browser, the language model and the disk are replaced by
abstract inputs and by the state of one object.

- `Text`: the Python string operations the scripts use. These are
  `startswith`, `in`, `count`, `strip`/`rstrip` with and without characters,
  `replace`, and an ASCII `title`.
- `UrlOrder`: the sort key `(x.count("/"), x)`, an insertion sort by it, and
  the proof that the sorted list is fully determined by its elements.
- `Dom`: a rendered page as a record. It holds the text of the first match
  of each selector and the list of `div` elements.
- `Corpus`: the specification functions of the pipeline. These are one
  cache visit (`Fetch`), a crawl of many URLs (`CrawlAll`), the corpus text
  (`Document`) and the end of a run (`Finish`). A cache hit returns the
  file's text as text-mode reading gives it back (`ReadBack`).
- `Pipeline`: the imperative part shared by both scripts.
  - `Store` is the `./tmp` directory: a page map and the URL list.
  - `FetchPage` and `GetAllUrls` are its methods.
  - `ExtractLinks` and `FilterLinks` are the two loops of link discovery.
  - `Assemble` is the loop of `scrape_and_structure`.
  - `Run` is `main`.
  - Each method is proved against the functions in `Corpus`.
- `Scraper`: what is specific to `scraper.py`. This covers its settings, the
  content cascade `extract_text` with a custom selector and the 50-character
  threshold, and the URL heading.
- `DocsScraper`: what is specific to `main.py`. This covers its `/docs`
  settings, the article-only `extract_text`, and the section title derived
  from the URL.
- `Variants`: how the two scripts relate, and a worked example of URL
  resolution.

The two scripts repeat `fetch_page`, `get_all_urls`, `scrape_and_structure`
and `main` almost word for word. They differ only in the hub page, the link
prefix, the filter, the extraction function and the heading. These
functions are modelled once in `Pipeline`, parametrised by a `Config`.
`Scraper.Settings` and `DocsScraper.Settings` build the `Config` of each
script. The rows for the shared members cite `scraper.py`; the same lines
of `main.py` are given under "## Left out".

Abstract inputs:
- `hub: Option<seq<Option<string>>>` holds the `href` of every `<a>` on the
  hub page, in page order. `None` means the browser raised, which ends the
  run.
- `fetch: string -> Option<string>` stands for rendering a page and
  extracting its text. `None` means the browser raised.
- `rewrite: string -> Option<string>` stands for the language-model call.
  `None` means the call raised.
- `parses: string -> bool` tells whether the CSS selector engine accepts a
  custom selector. `select_one` raises on one it rejects, and `fetch_page`
  then returns `None`.
- `Store.renders` is a ghost log of browser navigations. It makes "a cache
  hit renders nothing" something a proof can state.

## Model

| member | source | states |
|---|---|---|
| Pipeline.BaseUrl | scraper.py:37 | `BASE_URL` ends in no `/`; it is a prefix of the argument, and only `/` characters were removed after it |
| Scraper.FilterPath | scraper.py:39 | `FILTER_PATH` is `""` when the argument is absent or empty; otherwise it is the argument with the `/` characters at either end removed, and neither starts nor ends with `/` |
| DocsScraper.FilterPath | main.py:37 | `FILTER_PATH` is the argument with the `/` characters at either end removed, and neither starts nor ends with `/` |
| Scraper.Settings | scraper.py:37-39 | links are discovered on `BASE_URL` and kept when they start with it; base and filter are the normalised arguments |
| Scraper.KeepUrl | scraper.py:191 | a URL passes `not FILTER_PATH or FILTER_PATH in url` exactly when the filter occurs in it at some index |
| Scraper.Heading | scraper.py:213 | a section's heading is the URL on a line of its own |
| DocsScraper.Settings | main.py:35-37 | links are discovered on `BASE_URL/docs` and kept when they start with `BASE_URL/docs/`; base and filter are the normalised arguments |
| Pipeline.ExtractLinks | scraper.py:138-145 | the link set is exactly the non-empty hrefs that start with the prefix, each once |
| Pipeline.FilterLinks | scraper.py:191 | the comprehension yields, without duplicates and in any order, exactly the links that pass the filter |
| UrlOrder.Insert | scraper.py:193 | insertion adds exactly one element to the list's multiset |
| UrlOrder.SortByKey | scraper.py:193 | the sorted list is a permutation of its input |
| UrlOrder.SortOrdered | scraper.py:193 | sorting a duplicate-free list by `(count("/"), x)` gives a strictly increasing list |
| UrlOrder.InsertOrdered | scraper.py:193 | inserting a new element into a strictly increasing list keeps it strictly increasing |
| UrlOrder.StrLessIrreflexive | scraper.py:193 | Python's string `<` is irreflexive |
| UrlOrder.StrLessTransitive | scraper.py:193 | Python's string `<` is transitive |
| UrlOrder.StrLessTotal | scraper.py:193 | two different strings are ordered one way or the other by `<` |
| UrlOrder.LexicographicTail | scraper.py:193 | dropping a common first character keeps the lexicographic order |
| UrlOrder.StrLessIff | scraper.py:193 | Python's string `<` is the lexicographic order: a proper prefix first, otherwise the first differing character decides |
| UrlOrder.KeyLessStrictTotal | scraper.py:193 | the key `(x.count("/"), x)` orders URLs strictly and totally |
| UrlOrder.DepthAppend | scraper.py:193 | the `/` count of a concatenation is the sum of the counts |
| UrlOrder.Depth | scraper.py:193 | `x.count("/")` is the number of `/` characters in the URL |
| UrlOrder.OrderedIsDistinct | scraper.py:193 | a strictly increasing list has no duplicates |
| UrlOrder.OrderedUnique | scraper.py:189-193 | two strictly increasing lists with the same elements are equal, so the resolved list does not depend on the set's iteration order |
| Pipeline.Store.GetAllUrls | scraper.py:180-198 | a stored list is returned unchanged, without rendering, whatever the filter; otherwise the hub is rendered once and the result is stored and returned: exactly the discovered links passing the filter, each once, in key order; a browser failure stores nothing |
| Scraper.ResolvedUnderBase | scraper.py:189-193 | every resolved URL is one of the hrefs, starts with `BASE_URL`, and contains `FILTER_PATH` unless the filter is empty |
| DocsScraper.ResolvedUnderDocs | main.py:152-155 | every resolved URL starts with `BASE_URL/docs/` and contains `FILTER_PATH` |
| Corpus.Fetch | scraper.py:62-87 | a hit returns the cache file's text as text-mode reading gives it back (`\r\n` and `\r` become `\n`) and leaves the cache alone; a miss returns what fetching gives; cached entries never change; the only entry ever added is the non-empty text just returned for the URL |
| Pipeline.Store.FetchPage | scraper.py:62-87 | the returned text and the new cache are those of `Fetch` (a hit reads the file back in text mode); the browser navigates exactly on a miss; the URL list is unchanged |
| Pipeline.Store.constructor | scraper.py:41-43 | a fresh `./tmp` directory holds no pages and no URL list |
| Pipeline.Store.Load | scraper.py:184-187 | a directory left by an earlier run holds the given pages and URL list |
| Corpus.FetchTwice | scraper.py:66-84 | a second visit after one that returned non-empty text returns that text as its cache file reads back and changes nothing, whatever the browser would now give; a text without `\r` comes back unchanged |
| Corpus.CrawlAll | scraper.py:205-206 | visiting a list of URLs yields one text per URL, keeps every cached entry, renders only URLs of the list that were not cached, and adds only non-empty texts fetched for their own URL |
| Corpus.CrawlCaches | scraper.py:66-84 | after the visits, every non-empty text returned is cached under its URL, equal to it once read back; a URL cached beforehand got its cached text, read back |
| Corpus.CrawlAllHits | scraper.py:66-69 | when every URL is cached, the visits render nothing, change nothing, and return the cached texts as they read back |
| Corpus.RerunIsCached | scraper.py:66-84 | after a run in which every page had text, a second run renders nothing and yields each text of the first run as its cache file reads back; texts without `\r` come back identical |
| Corpus.CrawlNothingFetched | scraper.py:71-87 | when every fetch fails, the visits add nothing to the cache and every URL that was not cached gets no text |
| Corpus.Process | scraper.py:167-177 | the rewrite's reply, stripped; the text itself when the call raised |
| Corpus.Header | scraper.py:234-235 | the output starts with `# Documentation from BASE_URL` on a line of its own, and the header ends with a blank line |
| Corpus.FailOpen | scraper.py:175-177 | when every rewrite fails, the corpus holds each page's text verbatim |
| Corpus.RuleIsFortyDashes | scraper.py:212 | the rule line is forty `-` characters |
| Corpus.Section | scraper.py:212-215 | a section is two newlines, the rule, a newline, the heading lines, the rule, a blank line and the body, in that order |
| Corpus.Piece | scraper.py:206-215 | a URL contributes text exactly when its page has non-empty content |
| Corpus.Document | scraper.py:201-217 | the corpus is empty exactly when no page had text |
| Corpus.CrawlStep | scraper.py:205-215 | one more URL adds one visit to the crawl and its section, or nothing, to the end of the corpus |
| Corpus.DocumentSnoc | scraper.py:205-215 | one more URL adds its piece at the end of the corpus |
| Corpus.DocumentAppend | scraper.py:205-217 | sections follow URL order: the corpus of a concatenation of URL lists is the concatenation of their corpora |
| Corpus.DocumentHasRule | scraper.py:212 | a page with text puts a `-` into the corpus |
| Corpus.DocumentBlankIff | scraper.py:232 | the stripped corpus is non-empty exactly when some page had text |
| Pipeline.PieceRewritten | scraper.py:207-215 | the loop body appends the section of the rewritten text exactly when the content is non-empty |
| Pipeline.Assemble | scraper.py:201-217 | the loop returns the corpus of the crawl of the URLs, leaves the cache of that crawl, and navigates exactly to the URLs the crawl renders |
| Corpus.Finish | scraper.py:225-242 | the file is written exactly when there are URLs and the stripped corpus is non-empty, and then holds the two header lines followed by the stripped corpus |
| Corpus.WrittenIff | scraper.py:225-236 | the file is written exactly when there are URLs and at least one page had text |
| Pipeline.Run | scraper.py:220-244 | a failed hub render aborts the run with nothing stored; otherwise the URL list is the stored or freshly resolved one, the pages are visited in order, and the outcome is `Finish` of the corpus |
| Scraper.SelectEach | scraper.py:112-113 | each built-in selector contributes exactly one candidate, from its first match |
| Scraper.TextOf | scraper.py:98 | an element's text is its separated text stripped of surrounding whitespace |
| Scraper.SelectOne | scraper.py:96-98 | a selector yields a candidate exactly when it has a match, and then the stripped text of its first match |
| Scraper.LargestDiv | scraper.py:120-122 | the chosen div has the longest unseparated text, and it is the first such div |
| Scraper.LargestDivText | scraper.py:119-124 | the last candidate exists exactly when the page has a div, and is the stripped text of the first div with the longest unseparated text |
| Scraper.CandidatesAt | scraper.py:95-126 | the candidates are the custom selector's first match (only when the selector is non-empty), then the six built-in selectors in order, then the largest div |
| Scraper.FirstQualifying | scraper.py:112-128 | the result is `""` exactly when no candidate is longer than 50 characters; otherwise it is the first candidate that is |
| Scraper.FirstQualifyingAt | scraper.py:112-117 | the first candidate longer than 50 characters is the result |
| Scraper.ExtractText | scraper.py:90-128 | the text is `""` for a missing page, and is either `""` or longer than 50 characters |
| Scraper.CustomSelectorFirst | scraper.py:95-100 | a custom selector whose first match is longer than 50 characters decides the result |
| Scraper.ArticleFirst | scraper.py:103-117 | unless the custom selector already decided, an article longer than 50 characters decides the result |
| Scraper.ShortArticleYieldsNothing | scraper.py:112-128 | a page whose only element is an article of at most 50 characters yields `""` |
| Scraper.PageTextLength | scraper.py:77-84 | every page a crawl adds to the cache is longer than 50 characters; pages cached before are left as they were |
| Scraper.PageText | scraper.py:71-87 | fetching fails exactly when the browser raises or a non-empty custom selector does not parse; otherwise it gives `extract_text` of the page, which is `""` or longer than 50 characters |
| Scraper.BadSelectorNoContent | scraper.py:85-87 | with a custom selector that does not parse and no cached pages, a run caches nothing and writes no file |
| DocsScraper.ExtractArticle | main.py:88-94 | the text of the first article with its surrounding whitespace removed, whatever its length; `""` when there is no page or no article |
| DocsScraper.PageText | main.py:72-85 | fetching fails exactly when the browser raises; otherwise it gives the page's article text |
| DocsScraper.Heading | main.py:173-181 | a section's heading is a title line holding no `-`, then the URL on a line of its own |
| DocsScraper.SectionTitle | main.py:173-177 | a section title holds no `-` |
| DocsScraper.TitleOfDocsPage | main.py:173-177 | the title of a page directly under the filtered docs path is its slug with `-` turned into spaces, title-cased |
| Variants.ArticleAgreement | main.py:88-94 | whenever the older script finds an article longer than 50 characters, the general script, given no custom selector, extracts the same text |
| Variants.ShortArticleDiffers | main.py:88-94 | on a page whose only element is a non-empty article of at most 50 characters, the older script returns the article and the general one returns `""` |
| Variants.SameFilter | main.py:153 | `FILTER_PATH in url` and `not FILTER_PATH or FILTER_PATH in url` keep the same URLs |
| Variants.GuideKeys | scraper.py:193 | `…/docs/guide/intro` sorts before `…/docs/guide/a/b`, because it has fewer `/` |
| Variants.GuideFilter | scraper.py:191 | the filter `guide` keeps the two guide pages and drops `…/docs/other` |
| Variants.ResolvesPair | scraper.py:189-193 | a resolution whose kept links are exactly `a` and `b`, with `a` first in key order, is `[a, b]` |
| Variants.GuideExample | scraper.py:189-198 | with base `https://example.com` and filter `guide`, the hub links `/docs/guide/intro`, `/docs/guide/a/b`, `/docs/other` resolve to the two guide pages, the shallower first |
| Text.ContainsIffOccurs | scraper.py:191 | `sub in s` holds exactly when `sub` occurs at some index of `s` |
| Text.ContainsInfix | scraper.py:191 | a string holds each of its infixes |
| Text.CountIsMultiplicity | scraper.py:193 | `s.count(c)` is the number of occurrences of `c` in `s` |
| Text.Count | scraper.py:193 | `s.count(c)` is at most the length of `s` |
| Text.TrimLeft | scraper.py:39 | `lstrip` removes a prefix made only of stripped characters, and the result does not start with one |
| Text.TrimRight | scraper.py:37 | `rstrip` keeps a prefix and removes only stripped characters, and the result does not end with one |
| Text.Trim | scraper.py:39 | `strip(chars)` keeps one block of the string that neither starts nor ends with a stripped character, and removes only stripped characters around it |
| Text.TrimNothing | scraper.py:37 | stripping a string that neither starts nor ends with a stripped character leaves it unchanged |
| Text.TrimBounds | scraper.py:39 | `lstrip` followed by `rstrip` is such a strip: one block kept, only stripped characters removed around it |
| Text.StripOfUnique | scraper.py:232 | there is only one such strip of a string, so any two functions meeting that description agree |
| Text.Strip | scraper.py:98 | `s.strip()` keeps one block that neither starts nor ends with whitespace and removes only whitespace around it |
| Text.StripNonEmptyIff | scraper.py:232 | `s.strip()` is non-empty exactly when `s` holds a character that is not whitespace |
| Text.ReplaceCharRemoves | main.py:175 | replacing a character by text that does not hold it removes it |
| Text.ReplaceLeading | main.py:174 | a leading occurrence of the pattern is replaced first |
| Text.ReplaceAbsent | main.py:174 | replacing a pattern that does not occur leaves the text unchanged |
| Text.ReadBack | scraper.py:68-69 | reading a cache file back in text mode leaves no `\r`, and gives the empty text exactly for the empty file |
| Text.ReadBackPlain | scraper.py:68-69 | a text without `\r` reads back as it was written |
| Text.ReadBackIdempotent | scraper.py:68-69 | reading back what was read back changes nothing more |
| Text.ReadBackCrLf | scraper.py:68-69 | a line break written as `\r\n` reads back as one `\n` |
| Text.LetterDetermined | main.py:176 | a letter is fixed by its case and its position in the alphabet, so the casing functions' contracts pin their results down |
| Text.ToUpper | main.py:176 | upper-casing maps a letter to the upper-case form of the same letter and keeps every other character |
| Text.ToLower | main.py:176 | lower-casing maps a letter to the lower-case form of the same letter and keeps every other character |
| Text.TitleFrom | main.py:176 | title-casing keeps the length |
| Text.TitleFromAt | main.py:176 | title-casing keeps every non-letter and maps each letter to a case of the same letter, upper-case exactly when it starts a run of letters |
| Text.TitleAt | main.py:176 | position by position: the length is kept, non-letters are kept, and each letter stays the same letter, upper-case exactly when it starts a run of letters |
| Text.TitleFromIdempotent | main.py:176 | title-casing a title-cased suffix changes nothing |
| Text.TitleIdempotent | main.py:176 | `s.title().title() == s.title()` |

## Left out

- Duplicated code in `main.py`. `fetch_page` (main.py:63-85), `get_all_urls` (main.py:143-160), the loop of `scrape_and_structure` (main.py:163-185) and `main` (main.py:188-212) are the same code as in `scraper.py`. Each is modelled by the same `Pipeline` member, run with `DocsScraper.Settings`.
- `main.py`'s `extract_links` prefix test (main.py:103-110) is `Pipeline.ExtractLinks` with the prefix `BASE_URL + "/docs/"`, fixed by `DocsScraper.Settings`. Its fetch function is `DocsScraper.PageText`.
- Selenium: the driver setup, `driver.get`, the settle delays `time.sleep(2)`/`time.sleep(3)` and `driver.quit`. Rendering is an abstract function, and the ghost log `renders` records each navigation.
- The OpenAI call in `process_with_llm`, and its prompt text. The call is the abstract `rewrite`; only the stripping of the reply and the fail-open fallback are modelled.
- BeautifulSoup parsing, CSS selector matching and `get_text`. A page is a record that already holds each selector's first match and the `div` elements with both of their texts.
- The MD5 name of a cache file. The page cache is keyed by the URL itself. This is the same as keying by MD5 as long as two URLs do not collide.
- The file system, `os.makedirs` and pickle. The page files and `urls_cache.pkl` are the fields of `Store`. The write of `llms-full.txt` is the `Written` outcome carrying the file's contents. Exceptions raised while reading or writing files are not modelled.
- argparse, `os.getenv`, and every `print`.
- `pickle.py`, which builds `urls_cache.pkl` from a text file, is not part of this model. `Store.Load` stands for a directory prepared by it.
- Text.Title: only ASCII letters are cased. Python's Unicode case mapping, and its title-case characters, are not modelled.
- Text.IsSpace: the whitespace set of `str.strip()` is Python's `isspace` table written out. It is not derived from the Unicode database.
- Pipeline.Assemble: the appends of the loop body (four `+=` in scraper.py:212-215, five in main.py:179-183) are modelled as one append of the whole section, its heading lines given by the script's `heading`. The intermediate strings are never observed.
- UrlOrder.SortByKey: `list.sort` is modelled as an insertion sort over values. Only its result is modelled. Stability plays no part, because distinct URLs have distinct keys.
- Pipeline.FilterLinks: Python walks the link set in an unspecified order, so the loop picks any remaining element. The sort afterwards removes that freedom (`UrlOrder.OrderedUnique`).
- An exception from `pickle.load` or from reading a cached page is not modelled. A stored entry is always readable.
- Text.ReadBack: the cache file is written with `\n` as the line separator, as on POSIX systems. On Windows a text-mode write turns each `\n` into `\r\n`, which changes what a text already holding `\r` reads back as.
- Scraper.PageText: which selectors the CSS selector engine accepts is the abstract input `parses`. The grammar of CSS selectors is not modelled.
- Text.ToUpper: only ASCII letters are cased, as for `Text.Title`.
