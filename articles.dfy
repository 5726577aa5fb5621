/** The articles of the feed and their enrichment (src/App.jsx:55-58), and the
    degrade-to-input rule of `translateText` (src/App.jsx:98-109). */
module Articles {
  import opened Common
  import opened Text
  import opened Summaries

  /** An article as the news feed delivers it; `link` is its identity. */
  datatype RawArticle = RawArticle(
    title: string,
    description: Option<string>,
    content: Option<string>,
    sourceId: Option<string>,
    link: string)

  /** `{ ...a, summary, translatedSummary }`: the raw article with its summary and the
      translation of that summary, `null` until one is requested. */
  datatype Article = Article(raw: RawArticle, summary: string, translatedSummary: Option<string>)

  /** The body of a successful feed response: `results` (possibly absent) and `nextPage`. */
  datatype FeedPage = FeedPage(results: Option<seq<RawArticle>>, nextPage: Option<string>)

  /** The text summarised when an article has neither description nor content. */
  const NoContent := "No content available"

  /** `a.description || a.content || "No content available"`. */
  function SummaryInput(a: RawArticle): (t: string)
    ensures t != ""
    ensures Truthy(a.description) ==> t == a.description.value
    ensures !Truthy(a.description) && Truthy(a.content) ==> t == a.content.value
    ensures !Truthy(a.description) && !Truthy(a.content) ==> t == NoContent
  {
    if Truthy(a.description) then a.description.value
    else if Truthy(a.content) then a.content.value
    else NoContent
  }

  /** `res.data.results || []`: the articles of the page, none when the field is absent. */
  function PageArticles(page: FeedPage): (raws: seq<RawArticle>)
    ensures page.results.Some? ==> raws == page.results.value
    ensures page.results.None? ==> raws == []
  {
    if page.results.Some? then page.results.value else []
  }

  /** `articles.map(a => a.description || a.content || "No content available")`. */
  function SummaryInputs(raws: seq<RawArticle>): (texts: seq<string>)
    ensures |texts| == |raws|
    ensures forall i :: 0 <= i < |raws| ==> texts[i] == SummaryInput(raws[i]) && texts[i] != ""
  {
    seq(|raws|, i requires 0 <= i < |raws| => SummaryInput(raws[i]))
  }

  /** `articles.map((a, i) => ({ ...a, summary: summarized[i], translatedSummary: null }))`
      after `summarized = await batchSummarize(...)`: one enriched article per raw article, in
      order, keeping the raw fields, with a non-empty summary drawn from its own summary input
      and no translation yet. */
  function EnrichPage(configured: bool, raws: seq<RawArticle>, reply: Reply<string>): (r: seq<Article>)
    ensures |r| == |raws|
    ensures forall i :: 0 <= i < |raws| ==>
      r[i].raw == raws[i] && r[i].translatedSummary == None && r[i].summary != ""
    ensures forall i :: 0 <= i < |raws| ==>
      r[i].summary == BatchSummarize(configured, SummaryInputs(raws), reply)[i]
    ensures (!configured || reply.Failed?) ==>
      forall i :: 0 <= i < |raws| ==> r[i].summary <= SummaryInput(raws[i])
  {
    var texts := SummaryInputs(raws);
    var summarized := BatchSummarize(configured, texts, reply);
    BatchSummariesNonEmpty(configured, texts, reply);
    seq(|raws|, i requires 0 <= i < |raws| => Article(raws[i], summarized[i], None))
  }

  /** Every article in the list has a non-empty summary. */
  predicate AllSummarized(news: seq<Article>)
  {
    forall i :: 0 <= i < |news| ==> news[i].summary != ""
  }

  /** The links of the articles, in order. */
  function Links(news: seq<Article>): (links: seq<string>)
    ensures |links| == |news|
  {
    seq(|news|, i requires 0 <= i < |news| => news[i].raw.link)
  }

  /** Appending a page does not deduplicate: a link already shown and present on the new page
      appears once more for each new occurrence. */
  lemma AppendKeepsDuplicateLinks(news: seq<Article>, mapped: seq<Article>, link: string)
    ensures multiset(Links(news + mapped))[link] == multiset(Links(news))[link] + multiset(Links(mapped))[link]
  {
    assert Links(news + mapped) == Links(news) + Links(mapped);
  }

  /** `translateText(text, lang)`: the translation the service returned, or the text itself
      when the call failed. */
  function TranslateText(text: string, reply: Reply<string>): (r: string)
    ensures reply.Failed? ==> r == text
    ensures reply.Received? ==> r == reply.value
  {
    match reply
    case Received(translated) => translated
    case Failed => text
  }

  /** `updated[i].translatedSummary = translated` on a copy of the list: the translation of
      article i's summary is stored on article i and nowhere else. */
  function WithTranslation(news: seq<Article>, i: nat, reply: Reply<string>): (r: seq<Article>)
    requires i < |news|
    ensures |r| == |news|
    ensures r[i].raw == news[i].raw && r[i].summary == news[i].summary
    ensures reply.Received? ==> r[i].translatedSummary == Some(reply.value)
    ensures reply.Failed? ==> r[i].translatedSummary == Some(news[i].summary)
    ensures forall j :: 0 <= j < |news| && j != i ==> r[j] == news[j]
  {
    news[i := news[i].(translatedSummary := Some(TranslateText(news[i].summary, reply)))]
  }

  /** The last translation requested for an article wins: translating again starts from the
      summary, never from the earlier translation. */
  lemma TranslationLastWins(news: seq<Article>, i: nat, first: Reply<string>, second: Reply<string>)
    requires i < |news|
    ensures WithTranslation(WithTranslation(news, i, first), i, second) == WithTranslation(news, i, second)
  {
  }

  /** `article.translatedSummary || article.summary`: the text a card shows and reads aloud. */
  function DisplayedSummary(a: Article): (r: string)
    ensures Truthy(a.translatedSummary) ==> r == a.translatedSummary.value
    ensures !Truthy(a.translatedSummary) ==> r == a.summary
    ensures a.summary != "" ==> r != ""
  {
    if Truthy(a.translatedSummary) then a.translatedSummary.value else a.summary
  }

  /** A failed translation, or one that came back empty, leaves the card showing its summary;
      a non-empty translation replaces it. */
  lemma DisplayAfterTranslation(news: seq<Article>, i: nat, reply: Reply<string>)
    requires i < |news|
    ensures reply.Failed? || reply.value == "" ==>
      DisplayedSummary(WithTranslation(news, i, reply)[i]) == news[i].summary
    ensures reply.Received? && reply.value != "" ==>
      DisplayedSummary(WithTranslation(news, i, reply)[i]) == reply.value
  {
  }
}
