# arXiv citation counter — a verified model

A browser extension adds a Google Scholar citation count to arXiv abstract pages.
It has two parts, and this project models the logic of both:

- **The background fetcher** (`background.js`). It receives a `fetchCitations`
  message holding a Scholar URL. It answers from a one-hour cache of counts keyed
  by URL. Otherwise it fetches the Scholar page and extracts the count from the
  first "cited by" link. Every failure becomes the one message
  `Citation fetch failed`.
- **The page agent** (`content.js`). It runs only on `arxiv.org` pages whose path
  contains `/abs/`. It appends a loading row to the page's metadata table, asks
  the fetcher for the count, and replaces the loading row with one citation row.
  That row shows the count, or "Service unavailable".

Modules:

- `Wrappers` (wrappers.dfy): `Option` and `Result`.
- `Strings` (strings.dfy): substring search (`includes`), forward scans for a
  character or a digit, and decimal digits. Reading back `toString(n)` with
  `parseInt` is proved to give `n`.
- `CitationParser` (citation_parser.dfy): `parseCitationCount`. The ghost
  predicate `MatchesWith` spells out the language of the fixed pattern
  `href="[^"]*cites=[^"]*"[^>]*>([^<]*(\d+)[^<]*)<\/a>`. `AnchorAt` and
  `FirstAnchor` are a scanner for it, proved sound and complete. The count is
  the value of the first digit run in the link text of the leftmost match, and
  0 when nothing matches.
- `Background` (background.dfy): the cache as a class `CitationCache`. Its
  field `entries` is a `map<string, Entry>`, and it has methods
  `GetCachedOrFetchCitationCount`, `CleanExpiredCache` and `OnMessage`. These
  are specified by the pure functions `Lookup`, `Swept` and `Serve`. The clock
  is injected: `now` is read when the cache is consulted, and `later` after the
  fetch completes. The network is injected as an `Http` value. A ghost log
  `requests` records which URLs were actually sent to the network.
- `PageAgent` (page_agent.dfy): the content script's class
  `ArxivCitationCounter`. The page's metadata table is a field
  `metatable: Option<seq<Row>>`. Rows are values; the message round trip is an
  injected `Delivery`.
- `Pipeline` (pipeline.dfy): what the page shows for each reply the fetcher
  can send.

Notes on the code:

- An entry exactly one hour old is evicted: the sweep tests `>=`
  (background.js:45), while a lookup serves only entries younger than one hour
  (`<`, background.js:23).
- The page agent has no guard against rendering twice. Each `init` run appends
  one row, and the script runs `init` once per page load.
- `findCiteAsField` is defined but never called.

## Model

| member | source | states |
|---|---|---|
| `Strings.Contains` | content.js:16 | `includes` is true exactly when the pattern occurs at some index of the string |
| `Strings.NatToStringOfDecimalValue` | background.js:90 | `parseInt` of a digit run (`DecimalValue`): a run without a leading zero (or "0") is the decimal notation of its value |
| `Strings.NatToString` | content.js:89 | `toString` of a non-negative integer: at least one digit, all digits, and no leading zero unless the number is 0 |
| `Strings.DecimalValueOfNatToString` | background.js:88-90 | parsing the decimal notation of a non-negative integer gives that integer back |
| `CitationParser.AnchorAtSound` | background.js:84 | whatever the scanner accepts at a position is a match of the fixed pattern there |
| `CitationParser.AnchorAtComplete` | background.js:84 | every match of the pattern at a position is found by the scanner at that position, with the same link text |
| `CitationParser.AnchorAtIffMatches` | background.js:84 | the scanner at a position accepts exactly the pattern's matches there |
| `CitationParser.FirstAnchor` | background.js:86-92 | returns the leftmost position from which the scanner succeeds, and no earlier position succeeds |
| `CitationParser.FirstAnchorAt` | background.js:86-92 | if the scanner succeeds at i and fails at every earlier position, the search returns i |
| `CitationParser.FirstDigitRun` | background.js:88 | the run it returns is all digits, and it is empty exactly when the text has no digit |
| `CitationParser.FirstDigitRunIsFirstRun` | background.js:88 | the run returned is the leftmost maximal run of digits, as `(\d+)` finds it |
| `CitationParser.MatchTextHasFirstRun` | background.js:84-89 | the link text of every match has a first digit run, so the inner number match never fails |
| `CitationParser.ParseCitationCount` | background.js:81-94 | a count of at least 0, positive only when some link matches the pattern; `ParseFirstAnchor` and `ParseWithoutAnchor` state its value: the first digit run of the leftmost match's link text, or 0 with no match |
| `CitationParser.ParseWithoutAnchor` | background.js:86-94 | when the pattern matches nowhere, the count is 0 |
| `CitationParser.ParseFirstAnchor` | background.js:84-91 | the count is the value of the first digit run in the link text of the leftmost match |
| `CitationParser.ParsePositiveHasAnchor` | background.js:81-94 | a non-zero count comes from a leftmost match of the pattern |
| `CitationParser.ParseCitationLink` | background.js:84-90 | a well-formed `cites=` link, with no `href="` before it, gives the first digit run of its text |
| `CitationParser.ParseNumericLink` | background.js:84-90 | a well-formed `cites=` link whose text is the decimal notation of N gives N |
| `CitationParser.ParseSingleLink` | background.js:84-90 | a page that is just one well-formed link `<a href="…cites=…">text</a>` gives the first digit run of its text |
| `CitationParser.CitedBy42` | background.js:84-90 | the link text "Cited by 42" gives 42 |
| `CitationParser.GroupedDigitsGiveFirstGroup` | background.js:88-90 | the link text "1,234" gives 1, because only the first run counts |
| `Background.TryFetch` | background.js:52-74 | a success carries the parse of a body the server answered with |
| `Background.FetchCitationCount` | background.js:51-79 | succeeds exactly when the try block does, with the same count; every failure carries the one generic message |
| `Background.FetchFailsExactly` | background.js:53-72 | fails exactly for an empty URL, an unreachable network, a status outside 200-299, an unreadable body or a body over 1,000,000 characters |
| `Background.BodyAtBoundIsParsed` | background.js:70-74 | a body of exactly 1,000,000 characters is still parsed |
| `Background.ServiceUnavailableFails` | background.js:63-65 | a 503 answer yields the generic failure |
| `Background.FailuresIndistinguishable` | background.js:75-78 | any two failed fetches give the same error to the caller |
| `Background.SweptRemovesExactlyExpired` | background.js:42-49 | a sweep removes exactly the entries with `now - timestamp >= CACHE_DURATION`, and keeps the others unchanged |
| `Background.SweepIdempotent` | background.js:42-49 | after a sweep every entry is fresh, and a second sweep at the same time changes nothing |
| `Background.SweepInvisibleToLookups` | background.js:23-25 | a sweep never changes what a lookup at the same or a later time serves |
| `Background.ServeHit` | background.js:21-25 | a hit returns the stored count, sends no request and leaves the cache unchanged |
| `Background.ServeMissSuccess` | background.js:28-39 | a miss with a successful fetch returns the fetched count, sends one request and stores the count stamped with the post-fetch time |
| `Background.ServeMissFailure` | background.js:28-34 | a miss with a failed fetch returns the generic error and leaves the cache unchanged |
| `Background.ServeResultShape` | background.js:18-40 | every outcome is a count or the generic error |
| `Background.RepeatWithinHourIsServedFromCache` | background.js:18-40 | two calls for an uncached URL, the second within an hour of the first fetch, send exactly one request and give the same count |
| `Background.FiftyNineServedSixtyOneRefetched` | background.js:5-28 | an entry stamped 59 minutes ago is served; one stamped 61 minutes ago is fetched again |
| `Background.ReplyShape` | background.js:8-11 | the reply to `fetchCitations` is `{success: true, count}` or `{success: false, error: 'Citation fetch failed'}` |
| `Background.CitationCache.constructor` | background.js:4 | the cache starts empty and no request has been sent |
| `Background.CitationCache.CleanExpiredCache` | background.js:42-49 | the new cache is exactly the swept old cache |
| `Background.CitationCache.GetCachedOrFetchCitationCount` | background.js:18-40 | the result, the new cache and the requests sent are those of `Serve` on the old cache |
| `Background.CitationCache.OnMessage` | background.js:7-16 | a `fetchCitations` request gets the reply for `Serve`'s result; any other action gets no reply and changes nothing |
| `PageAgent.Sanitize` | content.js:85 | a non-negative integer count is kept, and anything else becomes 0 |
| `PageAgent.SanitizeKeepsCounts` | content.js:85 | every natural number is shown as is |
| `PageAgent.SanitizeRejectsOthers` | content.js:85 | -3, 2.5 and non-numbers are shown as 0 |
| `PageAgent.CreateCitationElement` | content.js:65-103 | every row has id `arxiv-citation-counter` and label `Citations:`; `null` gives only "Service unavailable"; otherwise it shows digits without a leading zero that read back as the sanitised count, then " (Google Scholar)" |
| `PageAgent.CreateLoadingElement` | content.js:145-168 | the loading row has id `arxiv-citation-loading`, label `Citations:` and the text `Loading...`, and is not a citation row |
| `PageAgent.FetchCitationCount` | content.js:40-62 | null for an empty URL, a failed round trip or a reply without success; otherwise the reply's count |
| `PageAgent.RemoveAt` | content.js:141 | removing a row keeps the other rows in order |
| `PageAgent.CounterAppendsOneCitationRow` | content.js:126-142 | afterwards the old rows are unchanged and in order, followed by exactly one citation row and no loading row; it is the error row when there is no Scholar link |
| `PageAgent.FailedReplyShowsUnavailable` | content.js:52-61 | a failed round trip or a failure reply makes the row show "Service unavailable" |
| `PageAgent.ArxivCitationCounter.constructor` | content.js:2-4 | constructing the object runs `init` on the given page |
| `PageAgent.ArxivCitationCounter.IsArxivPage` | content.js:14-17 | true exactly when the hostname is `arxiv.org` and the path contains `/abs/` |
| `PageAgent.ArxivCitationCounter.FindGoogleScholarLink` | content.js:29-38 | the link's href when the link exists and its href is non-empty, otherwise none |
| `PageAgent.ArxivCitationCounter.Init` | content.js:6-12 | the table changes only on an arXiv abstract page, and then as `addCitationCounter` changes it |
| `PageAgent.ArxivCitationCounter.FindCiteAsField` | content.js:105-117 | returns the first row whose label cell text contains "Cite as:"; none when no row does or there is no table |
| `PageAgent.ArxivCitationCounter.AddCitationCounter` | content.js:119-143 | without a table nothing changes; otherwise the loading row is appended while the reply is awaited, then replaced by one citation row |
| `Pipeline.Transmit` | content.js:47-52 | a count reply arrives as `{success: true, count}`, an error reply as `{success: false}` whose `count` is `undefined` rather than `null`, no reply as a failed `sendMessage`; `RowShowsServedCount` states what the page then shows |
| `Pipeline.RowShowsServedCount` | content.js:52-57 | a served count is shown in decimal with the source; a failed fetch shows "Service unavailable" |
| `Pipeline.ShownNumberIsServedCount` | content.js:85-89 | the number shown reads back as the count the fetcher served |

## Left out

- Networking and messaging: `fetch`, its User-Agent header, `chrome.runtime.sendMessage`
  and `onMessage`, and the Promise plumbing. They are foreign I/O calls. The HTTP
  outcome (`Http`) and the message outcome (`Delivery`) are parameters.
- The wall clock. `Date.now()` becomes the parameters `now` and `later`.
  `cleanExpiredCache` reads the clock again right after the store, in the same
  synchronous step. The model uses `later` for both readings.
- Concurrent misses for the same URL. Each request is one sequential call.
  Interleavings of two in-flight requests are not modelled, and neither are
  other scripts changing the table while the reply is awaited.
- DOM construction details: element creation, CSS class names, `querySelector`,
  and `waitForPageLoad`, which is treated as already resolved. `console.log` and
  `console.warn` are left out too. `findCiteAsField` queries `.metatable`, while
  `addCitationCounter` queries `.metatable table`. Both are modelled by the same
  row sequence. A DOM row is identified by its position in that sequence.
- A general regular-expression engine and the cost of backtracking. Only the
  behaviour of the one fixed pattern is specified, not its run time.
- ParseCitationCount: the count is an unbounded `nat`. `parseInt` of a very long
  digit run loses precision in a JavaScript number, and that is not modelled.
- CreateCitationElement: `toString` of counts of 1e21 or more uses exponent
  notation in JavaScript. The model always shows plain decimal digits.
- String lengths are counted in characters of a `seq<char>`, not in UTF-16 code units.
- A falsy `scholarUrl` (`undefined`, `null`, `""`) is modelled as the empty string.
  Request fields of other types are not modelled.
