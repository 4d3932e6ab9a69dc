/**
 * The Wikipedia agent: how the replies of the MediaWiki and REST endpoints are
 * turned into search results, pages, summaries, link lists and category lists,
 * and the two helpers built on top of the agent.
 *
 * The HTTP layer is not modelled: every request is an input `Reply`, either a
 * transport failure (a `requests.RequestException` raised by the call itself)
 * or a response with a status code and the part of the decoded JSON body the
 * agent reads.  A JSON key the agent reads with `.get(key, default)` is an
 * `Option`; a missing `query` or `pages`/`search` object reads as an empty
 * sequence.  The `pages` object of a reply is the ordered sequence of its
 * entries.
 */
module Wikipedia {
  import opened Wrappers
  import opened TextCleaning
  import opened UrlQuote

  // ------------------------------------------------------------------
  // Replies and errors
  // ------------------------------------------------------------------

  /** What one HTTP request produced. */
  datatype Reply<T> = TransportError(message: string) | Response(status: int, body: T)

  /** `raise_for_status` raises for client (4xx) and server (5xx) errors. */
  predicate IsHttpError(status: int)
  {
    400 <= status < 600
  }

  /** The request ends in a `RequestException`: either the call or `raise_for_status` raised. */
  predicate Failed<T>(r: Reply<T>)
  {
    r.TransportError? || IsHttpError(r.status)
  }

  /** The text of the caught exception: the transport message or the failing status. */
  datatype Cause = Transport(message: string) | HttpStatus(status: int)

  function CauseOf<T>(r: Reply<T>): (c: Cause)
    requires Failed(r)
    ensures c.Transport? <==> r.TransportError?
  {
    match r
    case TransportError(m) => Transport(m)
    case Response(s, _) => HttpStatus(s)
  }

  /** The generic `Exception` the agent re-raises, by operation. */
  datatype Error =
    | SearchFailed(cause: Cause)
    | PageFailed(title: string, cause: Cause)
    | SummaryFailed(title: string, cause: Cause)

  // ------------------------------------------------------------------
  // Records
  // ------------------------------------------------------------------

  /** The agent's configuration; it is fixed at construction. */
  datatype Agent = Agent(language: string)

  /** One item of the `search` list of a search reply. */
  datatype SearchHit = SearchHit(title: string, snippet: Option<string>, size: Option<int>, timestamp: Option<string>)

  /** One search result as returned to the caller. */
  datatype SearchResult = SearchResult(title: string, snippet: string, size: int, timestamp: string, url: string)

  /**
   * One entry of the `pages` object of a query reply: its page id, and the
   * `extract`, the titles under `links` and the titles under `categories`
   * when those keys are present.
   */
  datatype PageEntry = PageEntry(id: string, extract: Option<string>, links: Option<seq<string>>, categories: Option<seq<string>>)

  /** A retrieved page (the `WikipediaPage` record). */
  datatype Page = Page(title: string, content: string, url: string, summary: string, categories: seq<string>, links: seq<string>)

  // ------------------------------------------------------------------
  // search
  // ------------------------------------------------------------------

  /** The result built from one hit: it keeps the title, and its snippet is no longer than the hit's. */
  function ResultFor(agent: Agent, item: SearchHit): (res: SearchResult)
    ensures res.title == item.title && |res.snippet| <= |item.snippet.GetOr("")|
  {
    SearchResult(item.title, CleanHtml(item.snippet.GetOr("")), item.size.GetOr(0),
                 item.timestamp.GetOr(""), PageUrl(agent.language, item.title))
  }

  /** The results of the hits, one per hit, in order. */
  function Results(agent: Agent, hits: seq<SearchHit>): (r: seq<SearchResult>)
    ensures |r| == |hits|
  {
    if |hits| == 0 then [] else Results(agent, hits[..|hits| - 1]) + [ResultFor(agent, hits[|hits| - 1])]
  }

  lemma {:induction false} ResultsAt(agent: Agent, hits: seq<SearchHit>, k: nat)
    requires k < |hits|
    ensures Results(agent, hits)[k] == ResultFor(agent, hits[k])
    decreases |hits|
  {
    if k < |hits| - 1 {
      ResultsAt(agent, hits[..|hits| - 1], k);
    }
  }

  lemma ResultsSnoc(agent: Agent, hits: seq<SearchHit>, i: nat)
    requires i < |hits|
    ensures Results(agent, hits[..i + 1]) == Results(agent, hits[..i]) + [ResultFor(agent, hits[i])]
  {
    assert hits[..i + 1][..i] == hits[..i];
  }

  lemma ResultsAll(agent: Agent, hits: seq<SearchHit>)
    ensures forall k :: 0 <= k < |hits| ==> Results(agent, hits)[k] == ResultFor(agent, hits[k])
  {
    forall k | 0 <= k < |hits|
      ensures Results(agent, hits)[k] == ResultFor(agent, hits[k])
    {
      ResultsAt(agent, hits, k);
    }
  }

  /** Maps the hits of a search reply to results, or reports the failed request. */
  method Search(agent: Agent, reply: Reply<seq<SearchHit>>) returns (r: Result<seq<SearchResult>, Error>)
    ensures r.Failure? <==> Failed(reply)
    ensures Failed(reply) ==> r == Failure(SearchFailed(CauseOf(reply)))
    ensures r.Success? ==> |r.value| == |reply.body|
    ensures r.Success? ==> forall i :: 0 <= i < |r.value| ==> r.value[i] == ResultFor(agent, reply.body[i])
  {
    if Failed(reply) {
      return Failure(SearchFailed(CauseOf(reply)));
    }
    var hits := reply.body;
    var results: seq<SearchResult> := [];
    for i := 0 to |hits|
      invariant results == Results(agent, hits[..i])
    {
      ResultsSnoc(agent, hits, i);
      results := results + [ResultFor(agent, hits[i])];
    }
    assert hits[..|hits|] == hits;
    ResultsAll(agent, hits);
    return Success(results);
  }

  /**
   * Every snippet comes back trimmed and no longer than the one received, and
   * hits with different titles get different urls.  With the ensures of
   * `Search`, this holds of every pair of results of one search.
   */
  lemma SearchResultsShape(agent: Agent, a: SearchHit, b: SearchHit)
    ensures |ResultFor(agent, a).snippet| <= |a.snippet.GetOr("")|
    ensures var t := ResultFor(agent, a).snippet; t == "" || (!IsSpace(t[0]) && !IsSpace(t[|t| - 1]))
    ensures a.title != b.title ==> ResultFor(agent, a).url != ResultFor(agent, b).url
  {
    if ResultFor(agent, a).url == ResultFor(agent, b).url {
      PageUrlInjective(agent.language, a.title, b.title);
    }
  }

  // ------------------------------------------------------------------
  // Links and categories
  // ------------------------------------------------------------------

  /** The link titles of the entries, concatenated in entry order. */
  function AllLinks(pages: seq<PageEntry>): (r: seq<string>)
  {
    if |pages| == 0 then []
    else AllLinks(pages[..|pages| - 1]) + pages[|pages| - 1].links.GetOr([])
  }

  /** `_get_page_links`: the flattened link titles, or `[]` when the request fails. */
  method GetPageLinks(reply: Reply<seq<PageEntry>>) returns (links: seq<string>)
    ensures Failed(reply) ==> links == []
    ensures !Failed(reply) ==> links == AllLinks(reply.body)
  {
    if Failed(reply) {
      return [];
    }
    var pages := reply.body;
    links := [];
    for i := 0 to |pages|
      invariant links == AllLinks(pages[..i])
    {
      assert pages[..i + 1][..i] == pages[..i];
      if pages[i].links.Some? {
        links := links + pages[i].links.value;
      }
    }
    assert pages[..|pages|] == pages;
  }

  /** Link lists of consecutive replies concatenate. */
  lemma {:induction false} AllLinksAppend(p: seq<PageEntry>, q: seq<PageEntry>)
    ensures AllLinks(p + q) == AllLinks(p) + AllLinks(q)
    decreases |q|
  {
    if |q| == 0 {
      assert p + q == p;
    } else {
      var q' := q[..|q| - 1];
      assert (p + q)[..|p + q| - 1] == p + q';
      AllLinksAppend(p, q');
    }
  }

  /** A title is in the link list exactly when some entry lists it. */
  lemma {:induction false} AllLinksMembership(pages: seq<PageEntry>, t: string)
    ensures t in AllLinks(pages) <==>
      exists i :: 0 <= i < |pages| && pages[i].links.Some? && t in pages[i].links.value
    decreases |pages|
  {
    if |pages| > 0 {
      var init := pages[..|pages| - 1];
      AllLinksMembership(init, t);
      if t in AllLinks(init) {
        var i :| 0 <= i < |init| && init[i].links.Some? && t in init[i].links.value;
        assert pages[i] == init[i];
      }
      if exists i :: 0 <= i < |pages| && pages[i].links.Some? && t in pages[i].links.value {
        var i :| 0 <= i < |pages| && pages[i].links.Some? && t in pages[i].links.value;
        if i < |pages| - 1 {
          assert init[i] == pages[i];
        }
      }
    }
  }

  /** The literal prefix `_get_page_categories` removes. */
  const CategoryPrefix: string := "Category:"

  /** `title.replace("Category:", "")`. */
  function CategoryName(title: string): (name: string)
    ensures |name| <= |title|
  {
    Replace(title, CategoryPrefix, "")
  }

  /** The category names of one entry, in order. */
  function CategoryNames(titles: seq<string>): (r: seq<string>)
    ensures |r| == |titles|
    ensures forall k :: 0 <= k < |titles| ==> r[k] == CategoryName(titles[k])
  {
    seq(|titles|, k requires 0 <= k < |titles| => CategoryName(titles[k]))
  }

  /** The category titles of the entries, concatenated in entry order. */
  function AllCategoryTitles(pages: seq<PageEntry>): seq<string>
  {
    if |pages| == 0 then []
    else AllCategoryTitles(pages[..|pages| - 1]) + pages[|pages| - 1].categories.GetOr([])
  }

  /** The category names the loop of `_get_page_categories` collects, entry by entry. */
  function AllCategories(pages: seq<PageEntry>): seq<string>
  {
    if |pages| == 0 then []
    else AllCategories(pages[..|pages| - 1]) + CategoryNames(pages[|pages| - 1].categories.GetOr([]))
  }

  /** `_get_page_categories`: the category names, or `[]` when the request fails. */
  method GetPageCategories(reply: Reply<seq<PageEntry>>) returns (categories: seq<string>)
    ensures Failed(reply) ==> categories == []
    ensures !Failed(reply) ==> categories == AllCategories(reply.body)
  {
    if Failed(reply) {
      return [];
    }
    var pages := reply.body;
    categories := [];
    for i := 0 to |pages|
      invariant categories == AllCategories(pages[..i])
    {
      assert pages[..i + 1][..i] == pages[..i];
      if pages[i].categories.Some? {
        categories := categories + CategoryNames(pages[i].categories.value);
      }
    }
    assert pages[..|pages|] == pages;
  }

  /**
   * One name per category title, in the same order: the k-th name is the k-th
   * title with every `Category:` removed.
   */
  lemma {:induction false} AllCategoriesByTitle(pages: seq<PageEntry>)
    ensures AllCategories(pages) == CategoryNames(AllCategoryTitles(pages))
    decreases |pages|
  {
    if |pages| > 0 {
      var init := pages[..|pages| - 1];
      var last := pages[|pages| - 1].categories.GetOr([]);
      AllCategoriesByTitle(init);
      assert CategoryNames(AllCategoryTitles(init) + last) ==
        CategoryNames(AllCategoryTitles(init)) + CategoryNames(last);
    }
  }

  /** A title `Category:n` whose name part holds no further `Category:` yields `n`. */
  lemma CategoryNameOfPrefixed(n: string)
    requires !Occurs(CategoryPrefix, n)
    ensures CategoryName(CategoryPrefix + n) == n
  {
    ReplaceAtHead(CategoryPrefix, n, "");
    ReplaceAbsent(n, CategoryPrefix, "");
  }

  // ------------------------------------------------------------------
  // get_summary
  // ------------------------------------------------------------------

  /** The page id the API gives a title that does not exist. */
  const MissingId: string := "-1"

  /** The extract of the first existing page (`""` when it has none), if any page exists. */
  function FirstExtract(pages: seq<PageEntry>): Option<string>
  {
    if |pages| == 0 then None
    else if pages[0].id != MissingId then Some(pages[0].extract.GetOr(""))
    else FirstExtract(pages[1..])
  }

  /** `get_summary`: scans the pages and returns at the first one that exists. */
  method GetSummary(title: string, reply: Reply<seq<PageEntry>>) returns (r: Result<Option<string>, Error>)
    ensures r.Failure? <==> Failed(reply)
    ensures Failed(reply) ==> r == Failure(SummaryFailed(title, CauseOf(reply)))
    ensures !Failed(reply) ==> r == Success(FirstExtract(reply.body))
  {
    if Failed(reply) {
      return Failure(SummaryFailed(title, CauseOf(reply)));
    }
    var pages := reply.body;
    var i := 0;
    while i < |pages|
      invariant 0 <= i <= |pages|
      invariant FirstExtract(pages) == FirstExtract(pages[i..])
    {
      if pages[i].id != MissingId {
        return Success(Some(pages[i].extract.GetOr("")));
      }
      assert pages[i..][1..] == pages[i + 1..];
      i := i + 1;
    }
    return Success(None);
  }

  /** No summary exactly when every page carries the missing-page id. */
  lemma {:induction false} FirstExtractNone(pages: seq<PageEntry>)
    ensures FirstExtract(pages) == None <==> forall i :: 0 <= i < |pages| ==> pages[i].id == MissingId
  {
    if |pages| > 0 {
      FirstExtractNone(pages[1..]);
      if pages[0].id == MissingId {
        assert forall i :: 1 <= i < |pages| ==> pages[i] == pages[1..][i - 1];
      }
    }
  }

  /** The summary is the extract of the first page that exists. */
  lemma {:induction false} FirstExtractOfFirstLive(pages: seq<PageEntry>, k: int)
    requires 0 <= k < |pages| && pages[k].id != MissingId
    requires forall j :: 0 <= j < k ==> pages[j].id == MissingId
    ensures FirstExtract(pages) == Some(pages[k].extract.GetOr(""))
  {
    if k > 0 {
      FirstExtractOfFirstLive(pages[1..], k - 1);
    }
  }

  // ------------------------------------------------------------------
  // get_page
  // ------------------------------------------------------------------

  /** The summary text: the extract when the summary request answered 200, `""` otherwise. */
  function SummaryText(reply: Reply<Option<string>>): (s: string)
    ensures s != "" ==> reply.Response? && reply.status == 200 && reply.body == Some(s)
  {
    if reply.Response? && reply.status == 200 then reply.body.GetOr("") else ""
  }

  /**
   * `get_page`: `content` is the reply to the HTML request, `summary` the reply
   * to the summary request (its body is the `extract` key), `categories` and
   * `links` the replies to the two query requests.
   */
  method GetPage(agent: Agent, title: string, includeLinks: bool,
                 content: Reply<string>, summary: Reply<Option<string>>,
                 categories: Reply<seq<PageEntry>>, links: Reply<seq<PageEntry>>)
    returns (r: Result<Option<Page>, Error>)
    ensures r == Success(None) <==> content.Response? && content.status == 404
    ensures r.Failure? <==>
      !(content.Response? && content.status == 404) && (Failed(content) || summary.TransportError?)
    ensures r.Failure? ==> r.error.PageFailed? && r.error.title == title
    ensures r.Failure? && Failed(content) ==> r.error.cause == CauseOf(content)
    ensures r.Failure? && !Failed(content) ==>
      summary.TransportError? && r.error.cause == Transport(summary.message)
    ensures r.Success? && r.value.Some? ==>
      var page := r.value.value;
      page.title == title &&
      page.content == ExtractText(content.body) &&
      page.url == PageUrl(agent.language, title) &&
      page.summary == SummaryText(summary) &&
      page.categories == (if Failed(categories) then [] else AllCategories(categories.body)) &&
      page.links == (if !includeLinks || Failed(links) then [] else AllLinks(links.body))
  {
    if content.Response? && content.status == 404 {
      return Success(None);
    }
    if Failed(content) {
      return Failure(PageFailed(title, CauseOf(content)));
    }
    var html := content.body;
    if summary.TransportError? {
      return Failure(PageFailed(title, Transport(summary.message)));
    }
    var summaryText := SummaryText(summary);
    var plainText := ExtractText(html);
    var categoryNames := GetPageCategories(categories);
    var linkTitles: seq<string> := [];
    if includeLinks {
      linkTitles := GetPageLinks(links);
    }
    return Success(Some(Page(title, plainText, PageUrl(agent.language, title), summaryText, categoryNames, linkTitles)));
  }

  // ------------------------------------------------------------------
  // create_knowledge_base and search_and_summarize
  // ------------------------------------------------------------------

  /** A retrieval that produced a page. */
  predicate Found(outcome: Result<Option<Page>, Error>)
  {
    outcome.Success? && outcome.value.Some?
  }

  /** The knowledge base after the given attempts: each found page is stored under its topic. */
  function KnowledgeBase(attempts: seq<(string, Result<Option<Page>, Error>)>): map<string, Page>
  {
    if |attempts| == 0 then map[]
    else
      var kb := KnowledgeBase(attempts[..|attempts| - 1]);
      var (topic, outcome) := attempts[|attempts| - 1];
      if Found(outcome) then kb[topic := outcome.value.value] else kb
  }

  /**
   * `create_knowledge_base`: `attempts` pairs each topic, in order, with what
   * `get_page` gave for it; a topic not found or failing is skipped.
   */
  method CreateKnowledgeBase(attempts: seq<(string, Result<Option<Page>, Error>)>) returns (kb: map<string, Page>)
    ensures kb == KnowledgeBase(attempts)
  {
    kb := map[];
    for i := 0 to |attempts|
      invariant kb == KnowledgeBase(attempts[..i])
    {
      assert attempts[..i + 1][..i] == attempts[..i];
      var (topic, outcome) := attempts[i];
      if outcome.Success? && outcome.value.Some? {
        kb := kb[topic := outcome.value.value];
      }
    }
    assert attempts[..|attempts|] == attempts;
  }

  /** A topic is in the knowledge base exactly when some attempt for it found a page. */
  lemma {:induction false} KnowledgeBaseKeys(attempts: seq<(string, Result<Option<Page>, Error>)>, topic: string)
    ensures topic in KnowledgeBase(attempts) <==>
      exists i :: 0 <= i < |attempts| && attempts[i].0 == topic && Found(attempts[i].1)
    decreases |attempts|
  {
    if |attempts| > 0 {
      var init := attempts[..|attempts| - 1];
      KnowledgeBaseKeys(init, topic);
      if topic in KnowledgeBase(init) {
        var i :| 0 <= i < |init| && init[i].0 == topic && Found(init[i].1);
        assert attempts[i] == init[i];
      }
      if exists i :: 0 <= i < |attempts| && attempts[i].0 == topic && Found(attempts[i].1) {
        var i :| 0 <= i < |attempts| && attempts[i].0 == topic && Found(attempts[i].1);
        if i < |attempts| - 1 {
          assert init[i] == attempts[i];
        }
      }
    }
  }

  /** A topic attempted more than once keeps the page of its last successful attempt. */
  lemma {:induction false} KnowledgeBaseLastWins(attempts: seq<(string, Result<Option<Page>, Error>)>, k: int)
    requires 0 <= k < |attempts| && Found(attempts[k].1)
    requires forall j :: k < j < |attempts| && attempts[j].0 == attempts[k].0 ==> !Found(attempts[j].1)
    ensures attempts[k].0 in KnowledgeBase(attempts)
    ensures KnowledgeBase(attempts)[attempts[k].0] == attempts[k].1.value.value
    decreases |attempts|
  {
    if k < |attempts| - 1 {
      var init := attempts[..|attempts| - 1];
      assert init[k] == attempts[k];
      KnowledgeBaseLastWins(init, k);
    }
  }

  /** One entry of the `search_and_summarize` list. */
  datatype Summary = Summary(title: string, url: string, summary: Option<string>, snippet: string)

  /** The index of the first result whose summary fails, or `|results|` when none does. */
  function FirstFailure(results: seq<SearchResult>, summarize: string -> Result<Option<string>, Error>): (k: nat)
    ensures k <= |results|
    ensures forall j :: 0 <= j < k ==> summarize(results[j].title).Success?
    ensures k < |results| ==> summarize(results[k].title).Failure?
  {
    if |results| == 0 then 0
    else if summarize(results[0].title).Failure? then 0
    else 1 + FirstFailure(results[1..], summarize)
  }

  /**
   * `search_and_summarize`: `searched` is what `search` gave and `summarize`
   * what `get_summary` gives for a title; the first exception propagates.
   */
  method SearchAndSummarize(searched: Result<seq<SearchResult>, Error>,
                            summarize: string -> Result<Option<string>, Error>)
    returns (r: Result<seq<Summary>, Error>)
    ensures searched.Failure? ==> r == Failure(searched.error)
    ensures searched.Success? ==>
      var k := FirstFailure(searched.value, summarize);
      if k < |searched.value| then r == Failure(summarize(searched.value[k].title).error)
      else (r.Success? && |r.value| == |searched.value| &&
        forall i :: 0 <= i < |r.value| ==>
          r.value[i] == Summary(searched.value[i].title, searched.value[i].url,
                                summarize(searched.value[i].title).value, searched.value[i].snippet))
  {
    if searched.Failure? {
      return Failure(searched.error);
    }
    var results := searched.value;
    var summaries: seq<Summary> := [];
    for i := 0 to |results|
      invariant |summaries| == i
      invariant forall j :: 0 <= j < i ==> summarize(results[j].title).Success?
      invariant forall j :: 0 <= j < i ==>
        summaries[j] == Summary(results[j].title, results[j].url, summarize(results[j].title).value, results[j].snippet)
    {
      var result := results[i];
      var summary := summarize(result.title);
      if summary.Failure? {
        FirstFailureAt(results, summarize, i);
        return Failure(summary.error);
      }
      summaries := summaries + [Summary(result.title, result.url, summary.value, result.snippet)];
    }
    FirstFailureNone(results, summarize);
    return Success(summaries);
  }

  lemma {:induction false} FirstFailureAt(results: seq<SearchResult>, summarize: string -> Result<Option<string>, Error>, i: int)
    requires 0 <= i < |results| && summarize(results[i].title).Failure?
    requires forall j :: 0 <= j < i ==> summarize(results[j].title).Success?
    ensures FirstFailure(results, summarize) == i
  {
    if i > 0 {
      FirstFailureAt(results[1..], summarize, i - 1);
    }
  }

  lemma {:induction false} FirstFailureNone(results: seq<SearchResult>, summarize: string -> Result<Option<string>, Error>)
    requires forall j :: 0 <= j < |results| ==> summarize(results[j].title).Success?
    ensures FirstFailure(results, summarize) == |results|
  {
    if |results| > 0 {
      FirstFailureNone(results[1..], summarize);
    }
  }
}
