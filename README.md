# GlobeDigest news pipeline — a Dafny model

GlobeDigest is a single-page React news reader. Its `App` component (`src/App.jsx`)
does the following:

- fetches pages of articles from the newsdata.io feed;
- summarises each page in one batch through an OpenAI chat completion, or falls back to
  "the first two sentences" when no key is configured or the call fails;
- appends further pages on "Load More";
- supports a keyword search;
- translates an article's summary on demand through MyMemory.

This project models the core of that pipeline:

- **Common** (`common.dfy`): optional values (`null`/`undefined`), JavaScript truthiness,
  and `Reply<T>`, the outcome of one call to a remote service (`Received(value)` or
  `Failed`). Every HTTP call of the page is a `Reply` argument.
- **Text** (`text.dfy`): the string built-ins the core uses, stated exactly:
  - `indexOf`, `split` on a literal separator and `join`, with their round trips;
  - `trim`, with the ECMAScript white-space set written out by code point;
  - `toLowerCase` on ASCII letters.
- **Summaries** (`summaries.dfy`): `batchSummarize`, which covers:
  - the fallback summariser, `t.split(". ").slice(0, 2).join(". ")`;
  - the split of the model's reply on `/\n\d+\.\s/`, modelled as a leftmost,
    non-overlapping regular-expression split;
  - the per-article choice between the reply's trimmed piece and the article's own text;
  - what a numbered list of summary lines becomes, as written and as corrected.
- **FeedQuery** (`feed_query.dfy`):
  - `encodeURIComponent`, modelled as UTF-8 percent-encoding of everything except the
    unreserved characters;
  - the feed request's query parameters and URL;
  - the proof that a server reading the URL's query string gets back exactly those
    parameters.
- **Articles** (`articles.dfy`): the article records, the summary input of each article, the
  enrichment of a fetched page, `translateText`'s fall-back-to-input rule, the
  one-card-only translation update, and the text a card displays.
- **NewsApp** (`news_feed.dfy`): class `NewsFeed`.
  - Its fields are the page's React state: `news`, `nextPage`, `hasMore`, `loading`,
    `searching`, `search`, `country`, `language` and `category`.
  - Its methods are the page's handlers: `fetchNews`, split into its start and its
    completion; Load More; search; clear; the translate selector.
  - Every method keeps the invariant that each article on the page has a non-empty summary.

`fetchNews` (src/App.jsx:59) appends a further page with `[...news, ...mapped]` and removes
nothing, so an article whose link is already on the page appears again. The model appends
likewise, and `Articles.AppendKeepsDuplicateLinks` states that duplicate links accumulate.

The pipeline parses the summariser's reply as line 91 is written. The corrected parse of the
first finding below is stated beside it, with its round trip, and is not used by the page.

## Model

| member | source | states |
|---|---|---|
| Text.IndexOf | src/App.jsx:71 | the position `split` cuts at is an occurrence of the separator with none before it; `None` means the separator occurs nowhere |
| Text.Split | src/App.jsx:71 | `split` on a string separator always yields at least one piece |
| Text.Join | src/App.jsx:71 | `join` gives "" for no parts and the part itself for one; with two or more it starts with the first part and the separator. `Text.JoinSplit` and `Text.SplitJoin` are its round trips with `split` |
| Text.JoinSplit | src/App.jsx:71 | joining the pieces of a split with the same separator gives back the original text |
| Text.SplitJoin | src/App.jsx:52 | pieces without the one-character separator, joined and split again, come back unchanged |
| Text.SkipSpaces | src/App.jsx:91 | the first non-white-space index at or after i: everything skipped is white space |
| Text.SkipSpacesBack | src/App.jsx:91 | the end of the text once trailing white space is dropped: everything dropped is white space, and the last kept character is not |
| Text.Trim | src/App.jsx:91 | `trim()` is a contiguous slice of `s` that neither starts nor ends with white space; it is empty iff `s` is all white space; it is the identity on trimmed text |
| Text.Lower | src/App.jsx:52 | `toLowerCase()` keeps the length, leaves no upper-case letter, changes nothing else, and maps each capital to its lower-case letter |
| Summaries.JoinPrefix | src/App.jsx:71 | joining the first k pieces gives a prefix of joining them all (`slice(0, 2)` then `join`) |
| Summaries.Fallback | src/App.jsx:71 | the fallback summary is a prefix of the text; `Summaries.FallbackKeepsShortText` says when it is the whole text and `Summaries.FallbackLength` where it is cut |
| Summaries.FallbackKeepsShortText | src/App.jsx:71 | the fallback returns the text unchanged exactly when it contains at most one ". " |
| Summaries.FallbackOneSentence | src/App.jsx:71 | text without ". " is returned whole |
| Summaries.FallbackTwoSentences | src/App.jsx:71 | text with exactly one ". " is returned whole |
| Summaries.FallbackManySentences | src/App.jsx:71 | text with a second ". " is cut just before that break, so it is not returned whole and has more than one break |
| Summaries.FallbackLength | src/App.jsx:71 | with two breaks, the fallback keeps the text up to just before the second |
| Summaries.FirstTwoPieces | src/App.jsx:71 | with two breaks, the split has more than two pieces and its first two are the text before each break |
| Summaries.OnlyOccurrence | src/App.jsx:71 | when the split finds no break after the first, the first is the only one |
| Summaries.FallbackNonEmpty | src/App.jsx:71 | a non-empty text has a non-empty fallback summary |
| Summaries.MarkerUnique | src/App.jsx:91 | `/\n\d+\.\s/` matches at most one length at a position, because `\d+` is greedy and the next character is a full stop |
| Summaries.DigitRun | src/App.jsx:91 | `\d+` consumes exactly the longest run of digits |
| Summaries.MarkerLen | src/App.jsx:91 | the regular expression matches at the start of `t` with the returned length, and with no other length |
| Summaries.FirstMarker | src/App.jsx:91 | the next match found lies inside the unsearched rest of the text |
| Summaries.FirstMarkerIsLeftmost | src/App.jsx:91 | the match found starts leftmost among all matches from the search position; none found means no match at all |
| Summaries.Tokenize | src/App.jsx:91 | `split(/\n\d+\.\s/)` cuts the reply into pieces and separators that weave back into the reply. Every separator is a match, no piece contains one, and every cut is at the leftmost match: no match starts inside a piece, not even one that runs past its end |
| Summaries.NoFirstMarker | src/App.jsx:91 | a reply in which the search finds no match contains no match of the pattern anywhere |
| Summaries.BeforeFirstMarker | src/App.jsx:91 | the text before the first match is free of matches and the match is a marker |
| Summaries.PrefixMarkerFree | src/App.jsx:91 | a prefix in which no match starts is free of matches |
| Summaries.PickSummaries | src/App.jsx:91 | one entry per text. Entry i is piece i + 1, trimmed, when that piece exists and is not blank; otherwise it is text i |
| Summaries.ParseReplyAsWritten | src/App.jsx:91 | line 91 as written: text i gets piece i + 1 of the split of the reply itself, trimmed, unless that piece is absent or blank. `Summaries.ParseReplyAsWrittenShifts` shows what a numbered reply becomes |
| Summaries.ParseReply | src/App.jsx:91 | line 91 corrected: the same choice over the split of the reply with a line break put in front. `Summaries.ParseReplyRoundTrip` proves that a numbered reply gives each text its own line |
| Summaries.ParseUnnumberedReply | src/App.jsx:91 | a reply with no numbered item leaves every article with its own text |
| Summaries.Decimal | src/App.jsx:73 | the item number is written as a non-empty run of digits |
| Summaries.SegmentsWithoutNewline | src/App.jsx:91 | a text with no line break is a single piece |
| Summaries.LineStartIsMarker | src/App.jsx:91 | a line break, a number, ". " form a match of the regular expression |
| Summaries.FirstMarkerSkips | src/App.jsx:91 | the search for a match passes over text without line breaks |
| Summaries.FirstMarkerAfter | src/App.jsx:91 | in a text whose first line break starts a match, that match is the first one |
| Summaries.MarkerAtStart | src/App.jsx:91 | the pattern matches a marker at the start of a text with exactly the marker's length |
| Summaries.SegmentsAfter | src/App.jsx:91 | the first piece is the text before that match |
| Summaries.SegmentsOfList | src/App.jsx:91 | the items of a numbered list that follows a first line come back as the pieces after that line, in order |
| Summaries.ParseReplyRoundTrip | src/App.jsx:91 | a reply written as "1. s1\n2. s2\n…", with one trimmed line per article, gives every article its own line |
| Summaries.PickEveryPiece | src/App.jsx:91 | when every piece after the first is a summary line, each text gets its own piece |
| Summaries.ParseReplyAsWrittenShifts | src/App.jsx:91 | with the code as written, the same reply gives article i the line of article i + 1 and the last article its own text |
| Summaries.PickShiftedPieces | src/App.jsx:91 | when the pieces after the first are the lines from item 2 on, each text gets the next text's line and the last keeps its own |
| Summaries.FallbackAll | src/App.jsx:94 | one fallback summary per text, each a prefix of it |
| Summaries.BatchSummarize | src/App.jsx:70-96 | one summary per text. Without a key, with no texts, or when the call fails, summary i is the fallback of text i. Otherwise it is piece i + 1 of the reply split as line 91 writes it, trimmed, or text i when that piece is absent or blank |
| Summaries.BatchSummariesNonEmpty | src/App.jsx:70-96 | non-empty texts get non-empty summaries |
| Summaries.BatchSummarizeNumberedReply | src/App.jsx:91 | a reply numbered as requested, one line per text, gives text i the line of text i + 1 and leaves the last text its own |
| Articles.SummaryInput | src/App.jsx:56 | the description if truthy, else the content if truthy, else "No content available"; never empty |
| Articles.SummaryInputs | src/App.jsx:56 | one summary input per article, in order |
| Articles.PageArticles | src/App.jsx:55 | the page's articles, or none when `results` is absent |
| Articles.EnrichPage | src/App.jsx:55-58 | one article per raw article, in order. Each keeps its fields, has no translation yet and carries the i-th batch summary, which is non-empty. On the fallback path the summary is a prefix of the article's input |
| Articles.Links | src/App.jsx:59 | one link per article |
| Articles.AppendKeepsDuplicateLinks | src/App.jsx:59 | appending a page adds the occurrences of each link; nothing is de-duplicated |
| Articles.WithTranslation | src/App.jsx:178-182 | card i gets the translation of its own summary, or its summary itself when the translator failed (`translateText`, src/App.jsx:105-107); its summary and fields are unchanged, and so is every other card |
| Articles.TranslationLastWins | src/App.jsx:178-182 | translating the same card twice is the same as translating it once with the second reply |
| Articles.DisplayedSummary | src/App.jsx:174 | a card shows its translation when that is non-empty, else its summary; a card with a summary never shows nothing |
| Articles.DisplayAfterTranslation | src/App.jsx:174-182 | after a failed or empty translation the card shows its summary; after a non-empty one it shows the translation |
| FeedQuery.HexDigit | src/App.jsx:51 | the digit written for a value below 16 is an upper-case hexadecimal digit of that value, and is unreserved |
| FeedQuery.PercentByte | src/App.jsx:51 | a byte is written as '%' and two hexadecimal digits whose value, high digit times 16 plus low digit, is the byte |
| FeedQuery.Utf8 | src/App.jsx:51 | a code point encodes to one to four bytes |
| FeedQuery.PercentBytes | src/App.jsx:51 | n bytes become 3n characters, and the k-th group of three is the `%XX` escape of the k-th byte |
| FeedQuery.EncodeChar | src/App.jsx:51 | an unreserved character is kept; any other becomes percent escapes |
| FeedQuery.EncodeUriComponent | src/App.jsx:51 | `encodeURIComponent` output contains only '%' and unreserved characters, so never '&' or '='. It is never shorter than its input, and equals its input iff every character is unreserved |
| FeedQuery.Names | src/App.jsx:52 | one name per parameter |
| FeedQuery.PairRoundTrip | src/App.jsx:52 | `name=value` with '=' absent from the name reads back as that parameter |
| Text.NoSeparatorBefore | src/App.jsx:52 | a one-character separator absent from a prefix does not occur inside it |
| FeedQuery.QueryRoundTrip | src/App.jsx:52 | a query string built from parameters free of '&' (and of '=' in names) reads back as the same parameters in order |
| FeedQuery.FeedParams | src/App.jsx:50-52 | the request carries, in order: apikey, country, language, the lower-cased category. It carries `q` with the encoded search iff the search is non-empty. It carries `page` with the cursor iff the fetch continues and the cursor is truthy |
| FeedQuery.FeedUrl | src/App.jsx:52 | the URL starts with the endpoint and `?`; `FeedQuery.FeedUrlCarriesParams` proves the rest reads back as the feed parameters |
| FeedQuery.FeedUrlCarriesParams | src/App.jsx:52 | the URL is the endpoint, '?', and a query string that reads back as exactly those parameters |
| FeedQuery.LowerKeepsAmpersandOut | src/App.jsx:52 | lower-casing introduces no '&' |
| FeedQuery.EncodedHasNoAmpersand | src/App.jsx:51 | the encoded search never contains '&' |
| FeedQuery.ParamNamesPlain | src/App.jsx:52 | no parameter name contains '=' or '&' |
| FeedQuery.ParamsSeparable | src/App.jsx:50-52 | every parameter of the request survives the query string |
| FeedQuery.ContinuationWithoutCursor | src/App.jsx:50 | without a truthy cursor a continuation requests the same URL as an initial fetch |
| FeedQuery.SearchChangesRequest | src/App.jsx:51 | a request with a search and one without are different URLs |
| NewsApp.NewsFeed.constructor | src/App.jsx:28-37 | the initial state: "in", "en", "top", no search, no articles, no cursor, more to load, idle |
| NewsApp.NewsFeed.CanLoadMore | src/App.jsx:195 | Load More is shown exactly while more pages exist and no fetch is in flight |
| NewsApp.NewsFeed.StartFetch | src/App.jsx:47-52 | marks the page loading, which hides Load More, and returns the URL built from the current state |
| NewsApp.NewsFeed.CompleteFetch | src/App.jsx:53-67 | On success the enriched page replaces (initial) or extends the list, and the cursor and `hasMore` follow `nextPage`. On failure list, cursor and `hasMore` stay. Loading and searching end either way, and every article keeps a summary |
| NewsApp.NewsFeed.FetchNews | src/App.jsx:47-68 | `fetchNews(initial)` end to end: the URL from the state at the call and the resulting state |
| NewsApp.NewsFeed.LoadMore | src/App.jsx:195-197 | offered only while `hasMore && !loading`. Continues from the cursor, or repeats the first page when there is none. On success it appends the page and takes the new cursor and `hasMore`; on failure list, cursor and `hasMore` stay. Loading and searching end either way |
| NewsApp.NewsFeed.HandleSearch | src/App.jsx:116-121 | drops the cursor and requests the first page for the current search. On success the page replaces the list and the cursor and `hasMore` follow the response; on failure the list and `hasMore` stay and the cursor stays dropped. Loading and searching end either way |
| NewsApp.NewsFeed.HandleClearAsWritten | src/App.jsx:123-127 | as written: the search becomes empty, but the request still carries the old search. The list, cursor, `hasMore` and flags then change as for a search |
| NewsApp.NewsFeed.HandleClear | src/App.jsx:123-127 | clears the search and requests the unfiltered first page. On success the page replaces the list and the cursor and `hasMore` follow the response; on failure the list and `hasMore` stay and the cursor stays dropped. Loading and searching end either way |
| NewsApp.NewsFeed.Translate | src/App.jsx:178-182 | stores the translation (or the summary itself on failure) on card i only, keeping every summary |
| NewsApp.ClearAsWrittenRequestsOldSearch | src/App.jsx:123-127 | clearing a non-empty search as written requests a URL carrying `q`, different from the unfiltered request |

## Left out

- HTTP calls to newsdata.io, OpenAI and MyMemory are not performed. Each is a `Reply` argument, and `Failed` stands for every exception the `try` blocks catch: transport errors, HTTP errors, and responses of an unexpected shape such as missing `choices[0]` or non-array `results`.
- The summarisation prompt (src/App.jsx:73) and the request bodies and headers are not modelled. They shape only the content of an external request, and the reply is an argument.
- The selectors and the search box are not modelled as handlers: the category buttons, the country and language selects, typing in the search box, and the effect that refetches the first page when a selector changes (src/App.jsx:43-45, 136, 144, 157-160). They are UI wiring. The class's `country`, `language`, `category` and `search` fields are public inputs a client sets directly, and the mount fetch is `FetchNews(true)`.
- `speak` and the VoiceRSS audio (src/App.jsx:111-114) are not modelled. They are output only and change no state.
- The theme toggle, the dark-mode effect and all JSX layout are not modelled. They are presentation only.
- Configuration from environment variables is not modelled. The news key is a constructor argument, and the presence of the OpenAI key is a boolean.
- Error logging with `console.error` is not modelled. It changes no state.
- Asynchronous interleaving is not modelled. React state updates are modelled as taking effect when the awaited call returns. Two fetches in flight at once, or a translation that completes after a fetch replaced the list, are not modelled; `StartFetch` and `CompleteFetch` let a client order such steps by hand.
- Translation: `updated[i].translatedSummary = translated` mutates an article object that the old and new lists share. The model stores articles as values, so that aliasing is not captured.
- Translation: the MyMemory response shape is not modelled. A received reply is taken as the translated text, and a missing `translatedText` counts as `Failed`.
- The translation target language is not modelled. It only parameterises the external request.
- `Text.Lower` covers only ASCII letters. The categories are a fixed ASCII list, and full Unicode case mapping is not modelled.
- Strings are sequences of code points, not UTF-16 code units. `FeedQuery.Utf8` encodes a code point directly, so lone surrogates, which make `encodeURIComponent` throw, are not modelled.
- `FeedQuery.FeedUrlCarriesParams` states its round trip only for key, country, language, category and cursor values without '&'. Those values are inserted without encoding, so a '&' in them would split a parameter.

## Findings

| source | as written | input that shows it | evidently intended | confidence | as-written member | corrected member |
|---|---|---|---|---|---|---|
| src/App.jsx:91 | `result.split(/\n\d+\.\s/)[i + 1]`: the pattern needs a line break before each number, but a reply's first item begins at the very start, so piece 0 is item 1 and piece i + 1 is item i + 2 | reply "1. A\n2. B" for two articles: article 1 gets "B", article 2 keeps its own text | article i gets item i + 1: split the reply with a line break put in front of it | not executed | Summaries.BatchSummarize, Summaries.ParseReplyAsWritten, Summaries.BatchSummarizeNumberedReply | Summaries.ParseReply, Summaries.ParseReplyRoundTrip |
| src/App.jsx:123-127 | `handleClear` calls `setSearch("")` and then `fetchNews(true)` in the same render, so `fetchNews` still reads the old `search` and requests `&q=<old search>` | search "IPL", then the clear button: the request still carries `q=IPL`, so the list stays filtered while the box is empty | request the unfiltered first page, as a cleared box shows | not executed | NewsApp.NewsFeed.HandleClearAsWritten, NewsApp.ClearAsWrittenRequestsOldSearch | NewsApp.NewsFeed.HandleClear |
