/** The state of the news page and the handlers that change it (src/App.jsx:28-37, 47-68,
    116-127, 178-182, 195): each piece of React state is a field, each `setX` an
    assignment, and each call to a remote service a `Reply` argument. */
module NewsApp {
  import opened Common
  import opened Text
  import opened FeedQuery
  import opened Articles

  class NewsFeed {
    /** The news feed key and whether a summariser key is configured. */
    const apiKey: string
    const summarizerConfigured: bool

    var country: string
    var language: string
    var category: string
    var search: string
    var news: seq<Article>
    var nextPage: Option<string>
    var hasMore: bool
    var loading: bool
    var searching: bool

    /** Every article on the page carries a non-empty summary. */
    ghost predicate Valid()
      reads this
    {
      AllSummarized(news)
    }

    /** The page as first rendered: India, English, "top", no search, no articles, no cursor,
        more to load, nothing in flight. */
    constructor(apiKey: string, summarizerConfigured: bool)
      ensures this.apiKey == apiKey && this.summarizerConfigured == summarizerConfigured
      ensures country == "in" && language == "en" && category == "top" && search == ""
      ensures news == [] && nextPage == None
      ensures hasMore && !loading && !searching
      ensures Valid()
    {
      this.apiKey := apiKey;
      this.summarizerConfigured := summarizerConfigured;
      country := "in";
      language := "en";
      category := "top";
      search := "";
      news := [];
      nextPage := None;
      hasMore := true;
      loading := false;
      searching := false;
    }

    /** The URL `fetchNews(initial)` requests from the current state. */
    function RequestUrl(initial: bool): string
      reads this
    {
      FeedUrl(apiKey, country, language, category, search, nextPage, initial)
    }

    /** `hasMore && !loading`: the Load More button is shown while more pages exist and no
        fetch is in flight, and hidden otherwise. */
    predicate CanLoadMore()
      reads this
      ensures loading ==> !CanLoadMore()
      ensures !hasMore ==> !CanLoadMore()
      ensures hasMore && !loading ==> CanLoadMore()
    {
      hasMore && !loading
    }

    /** The first half of `fetchNews`: mark the page loading and build the request. */
    method StartFetch(initial: bool) returns (url: string)
      modifies this`loading
      ensures loading
      ensures url == RequestUrl(initial)
      ensures !CanLoadMore()
    {
      loading := true;
      url := RequestUrl(initial);
    }

    /** The second half of `fetchNews`, once the feed has answered (or failed) and the page
        has been summarised: on success the enriched page replaces the list (initial) or is
        appended to it, without removing duplicate links, and the cursor and `hasMore` follow
        the response's `nextPage`; on failure the list, cursor and `hasMore` stay as they were.
        Either way loading and searching end. */
    method CompleteFetch(initial: bool, response: Reply<FeedPage>, summaryReply: Reply<string>)
      requires Valid()
      modifies this`news, this`nextPage, this`hasMore, this`loading, this`searching
      ensures Valid()
      ensures !loading && !searching
      ensures response.Failed? ==>
        news == old(news) && nextPage == old(nextPage) && hasMore == old(hasMore)
      ensures response.Received? ==>
        var mapped := EnrichPage(summarizerConfigured, PageArticles(response.value), summaryReply);
        news == (if initial then mapped else old(news) + mapped) &&
        nextPage == response.value.nextPage &&
        hasMore == Truthy(response.value.nextPage)
      ensures response.Received? ==> (CanLoadMore() <==> Truthy(nextPage))
    {
      match response {
        case Received(page) =>
          var mapped := EnrichPage(summarizerConfigured, PageArticles(page), summaryReply);
          news := if initial then mapped else news + mapped;
          nextPage := page.nextPage;
          hasMore := Truthy(page.nextPage);
        case Failed =>
      }
      loading := false;
      searching := false;
    }

    /** `fetchNews(initial)` run to completion: the request it makes, and the new state. */
    method FetchNews(initial: bool, response: Reply<FeedPage>, summaryReply: Reply<string>) returns (url: string)
      requires Valid()
      modifies this`news, this`nextPage, this`hasMore, this`loading, this`searching
      ensures Valid()
      ensures url == old(RequestUrl(initial))
      ensures !loading && !searching
      ensures response.Failed? ==>
        news == old(news) && nextPage == old(nextPage) && hasMore == old(hasMore)
      ensures response.Received? ==>
        var mapped := EnrichPage(summarizerConfigured, PageArticles(response.value), summaryReply);
        news == (if initial then mapped else old(news) + mapped) &&
        nextPage == response.value.nextPage &&
        hasMore == Truthy(response.value.nextPage)
    {
      url := StartFetch(initial);
      CompleteFetch(initial, response, summaryReply);
    }

    /** Load More: `fetchNews(false)`, offered only while `hasMore && !loading`. The request
        continues from the cursor, or repeats the first page when there is none. */
    method LoadMore(response: Reply<FeedPage>, summaryReply: Reply<string>) returns (url: string)
      requires Valid() && CanLoadMore()
      modifies this`news, this`nextPage, this`hasMore, this`loading, this`searching
      ensures Valid()
      ensures url == FeedUrl(apiKey, country, language, category, search, old(nextPage), !Truthy(old(nextPage)))
      ensures !loading && !searching
      ensures response.Failed? ==>
        news == old(news) && nextPage == old(nextPage) && hasMore == old(hasMore)
      ensures response.Received? ==>
        news == old(news) + EnrichPage(summarizerConfigured, PageArticles(response.value), summaryReply) &&
        nextPage == response.value.nextPage &&
        hasMore == Truthy(response.value.nextPage)
    {
      if !Truthy(nextPage) {
        ContinuationWithoutCursor(apiKey, country, language, category, search, nextPage);
      }
      url := FetchNews(false, response, summaryReply);
    }

    /** `handleSearch`: show "Searching…", drop the cursor and fetch the first page of results
        for the current search text. */
    method HandleSearch(response: Reply<FeedPage>, summaryReply: Reply<string>) returns (url: string)
      requires Valid()
      modifies this`news, this`nextPage, this`hasMore, this`loading, this`searching
      ensures Valid()
      ensures url == FeedUrl(apiKey, country, language, category, search, None, true)
      ensures !loading && !searching
      ensures response.Failed? ==> news == old(news) && nextPage == None && hasMore == old(hasMore)
      ensures response.Received? ==>
        news == EnrichPage(summarizerConfigured, PageArticles(response.value), summaryReply) &&
        nextPage == response.value.nextPage &&
        hasMore == Truthy(response.value.nextPage)
    {
      searching := true;
      nextPage := None;
      url := FetchNews(true, response, summaryReply);
    }

    /** `handleClear` as written: `setSearch("")` only takes effect at the next render, so the
        `fetchNews` it calls still builds its request from the old search text. */
    method HandleClearAsWritten(response: Reply<FeedPage>, summaryReply: Reply<string>) returns (url: string)
      requires Valid()
      modifies this`search, this`news, this`nextPage, this`hasMore, this`loading, this`searching
      ensures Valid()
      ensures search == ""
      ensures url == FeedUrl(apiKey, country, language, category, old(search), None, true)
      ensures !loading && !searching
      ensures response.Failed? ==> news == old(news) && nextPage == None && hasMore == old(hasMore)
      ensures response.Received? ==>
        news == EnrichPage(summarizerConfigured, PageArticles(response.value), summaryReply) &&
        nextPage == response.value.nextPage &&
        hasMore == Truthy(response.value.nextPage)
    {
      nextPage := None;
      url := FetchNews(true, response, summaryReply);
      search := "";
    }

    /** `handleClear` as intended: clear the search and fetch the unfiltered first page. */
    method HandleClear(response: Reply<FeedPage>, summaryReply: Reply<string>) returns (url: string)
      requires Valid()
      modifies this`search, this`news, this`nextPage, this`hasMore, this`loading, this`searching
      ensures Valid()
      ensures search == ""
      ensures url == FeedUrl(apiKey, country, language, category, "", None, true)
      ensures !loading && !searching
      ensures response.Failed? ==> news == old(news) && nextPage == None && hasMore == old(hasMore)
      ensures response.Received? ==>
        news == EnrichPage(summarizerConfigured, PageArticles(response.value), summaryReply) &&
        nextPage == response.value.nextPage &&
        hasMore == Truthy(response.value.nextPage)
    {
      search := "";
      nextPage := None;
      url := FetchNews(true, response, summaryReply);
    }

    /** The translate selector of card i: store the translation of the card's summary (or the
        summary itself when the translator failed) on that card only. */
    method Translate(i: nat, reply: Reply<string>)
      requires Valid() && i < |news|
      modifies this`news
      ensures Valid()
      ensures news == WithTranslation(old(news), i, reply)
    {
      news := WithTranslation(news, i, reply);
    }
  }

  /** As written, clearing a non-empty search requests the old search again instead of the
      unfiltered page (for key and selector values without `&`, as the page's are). */
  lemma ClearAsWrittenRequestsOldSearch(apiKey: string, country: string, language: string, category: string, search: string)
    requires '&' !in apiKey && '&' !in country && '&' !in language && '&' !in category
    requires search != ""
    ensures FeedUrl(apiKey, country, language, category, search, None, true)
         != FeedUrl(apiKey, country, language, category, "", None, true)
    ensures "q" in Names(FeedParams(apiKey, country, language, category, search, None, true))
  {
    SearchChangesRequest(apiKey, country, language, category, search, None, true);
  }
}
