# x-link-watcher, modelled in Dafny

x-link-watcher is a small webhook server plus a page scraper. A client
(an iOS Shortcut, say) POSTs a message to `/x`. The server pulls the first
X/Twitter post link out of it, answers `202` and hands the link to a
background script. That script calls `fetch-tweet.js`, which renders the
post page in a headless browser, collects the post and its first replies,
and prints them as labelled text blocks.

This project models the decision and string logic at the centre of both
programs and proves properties of it.

- `wrappers.dfy` (`Wrappers`): the `Option` type.
- `js_string.dfy` (`JsString`): the JavaScript string operations the core
  uses. These are `trim()` with the ECMAScript white-space and
  line-terminator set, `substring(0, n)`, a first-occurrence search, and
  decimal rendering of an index in a template literal.
- `xlink.dfy` (`XLink`): `extractXLink` as a hand-written matcher for
  `https?://(x\.com|twitter\.com)/[A-Za-z0-9_]+/status/[0-9]+`.
  - A declarative definition of a link sits beside it. A link is the
    rendering of a well-formed `Link(secure, host, handle, id)` record.
  - Theorems tie the matcher to that definition: the result is the
    leftmost link, and the longest one at that start.
- `webhook.dfy` (`Webhook`): the request listener of `webhook.js` as a
  pure function from an abstract request and the configured API key to a
  status code and a JSON body.
  - The branches go in the source's order: OPTIONS, `GET /health`, 404,
    401, then body selection and 400/202/500.
  - `json.url || json.link || json.text` is modelled with JavaScript
    truthiness and property lookup over the value `JSON.parse` produced.
- `scrape.dfy` (`Scrape`): the `page.evaluate` callback of
  `fetch-tweet.js` as a method with a loop over abstract article records.
  It is proved against the declarative `ScrapeOf`.
- `format.dfy` (`Format`): `formatOutput`. This covers the promo filter
  (`replace(/Don't miss what's happening.*?Sign up/gs, '')`), the trim, the
  "No content" guard, and the block-building loop as a method proved
  against `Formatted`.

Points where JavaScript semantics decide the answer:

- A body that parses as a JSON string (for example `"https://x.com/a/status/1"`)
  is handled by the rule for an inherited `link` property. `json.link` is
  then `String.prototype.link`, a truthy function. Calling `.match` on it
  throws, so the answer is 500, not a search of the string.
- A body that parses as `null` makes the property read throw inside the
  inner `try`. The handler then falls back to `body.trim()`, like a
  body that is not JSON.
- A JSON object with no truthy `url`, `link` or `text` answers 400 when
  `text` is the empty string (`"".match(...)` is `null`). Every other falsy
  value answers 500. It never answers 202.
- A `time` element without a `datetime` attribute gives a `null` timestamp
  (`getAttribute` returns `null`). The model keeps it (`None`), and
  `formatOutput` treats it like the empty string.

## Model

| member | source | states |
|---|---|---|
| JsString.Trim | webhook.js:86 | the result starts and ends with non-white-space, and the input is white-space + result + white-space |
| JsString.Prefix | fetch-tweet.js:32 | `substring(0, n)`: the result has length min(n, length) and is a prefix of the input |
| JsString.IndexOf | fetch-tweet.js:55 | a position found lies at or after the start index and leaves room for the whole pattern |
| JsString.IndexOfSound | fetch-tweet.js:55 | the pattern occurs at the position found |
| JsString.IndexOfFirst | fetch-tweet.js:55 | the pattern occurs nowhere between the start index and the position found, and nowhere at or after the start index when nothing is found |
| JsString.NatToStringValue | fetch-tweet.js:61 | the decimal text of a reply index reads back as that index |
| XLink.ParseAt | webhook.js:14 | a link found at an index is well-formed, occurs there, and is not followed by a digit (the id run is maximal) |
| XLink.Find | webhook.js:14 | the index found is the leftmost at which a link starts; none when no link starts anywhere |
| XLink.ExtractNoneIff | webhook.js:13-16 | `extractXLink` returns null exactly when no substring of the input is a link |
| XLink.NoColonNoLink | webhook.js:14 | no link starts where neither the fifth nor the sixth character is the `:` of `http:` or `https:` |
| XLink.ExtractSome | webhook.js:13-16 | a result is the substring at the leftmost link start, ending where the longest link at that start ends, and is not followed by a digit |
| XLink.FoundIsLeftmostLongest | webhook.js:14 | the substring at the index the search finds, as long as the link parsed there, is the leftmost link of the text and the longest at its start |
| XLink.LeftmostLongestUnique | webhook.js:14 | a text has at most one leftmost-longest link |
| XLink.LeftmostLongestExtracted | webhook.js:13-16 | conversely, the leftmost-longest link of a text is what `extractXLink` returns |
| XLink.ExtractExample | webhook.js:14-15 | "check this out https://x.com/user/status/123456 thanks" gives "https://x.com/user/status/123456" |
| XLink.LinkExtractsItself | webhook.js:14-15 | a link, searched for in itself, is found whole |
| XLink.ExtractIdempotent | webhook.js:14-15 | `extractXLink` of its own result returns that result; every result starts with `http` and ends in a digit |
| XLink.ExtractFramed | webhook.js:14-15 | white-space added around a text does not change what is extracted |
| XLink.ExtractTrimmed | webhook.js:86-90 | extracting from `body.trim()` finds what extracting from `body` finds |
| XLink.ExtractTrimmedIff | webhook.js:86-90 | extracting from the trimmed body gives null exactly when the raw body holds no link |
| Webhook.OptionsAlwaysOk | webhook.js:46-50 | OPTIONS gets 200 with an empty body for any path, credentials and body |
| Webhook.HealthAlwaysOk | webhook.js:52-56 | `GET /health` gets 200 `{status:"ok"}` whatever the credentials and the body |
| Webhook.NotFoundIff | webhook.js:58-62 | 404 `{error:"Not found"}` exactly for requests that are not OPTIONS, not `GET /health`, and not a POST to a path starting with `/x` |
| Webhook.PrefixRouting | webhook.js:58 | the path test is a prefix test: `POST /xyz` is answered as `POST /x` |
| Webhook.UnauthorizedIff | webhook.js:65-72 | 401 `{error:"Unauthorized"}` exactly for a POST to `/x…` when a key is set and the header is missing or not `Bearer <key>` |
| Webhook.BodyIgnoredUntilAuthorized | webhook.js:46-72 | until routing and the key check let a request through, the answer does not depend on its body, and it is 200, 401 or 404 |
| Webhook.EmptyKeyDisablesAuth | webhook.js:65 | with no key configured the Authorization header never changes the answer |
| Webhook.BodyOutcome | webhook.js:82-113 | once the body is read: 202 exactly when the candidate is a string holding a link, 400 with the no-link message exactly when it is a string holding none, 500 with the engine's message exactly when it is not a string |
| Webhook.AcceptedLink | webhook.js:90-102 | a 202 carries `{status:"processing", link}` with `link` the leftmost-longest link of the candidate text |
| Webhook.NoTruthyFieldNeverAccepted | webhook.js:84-113 | a JSON object without a truthy `url`, `link` or `text` is never accepted: 400 exactly when `text` is `""`, 500 otherwise |
| Webhook.PlainTextBody | webhook.js:82-102 | a body that is not JSON (or is `null`) gets 202 or 400; 202 exactly when the raw body holds a link, carrying the link found in the raw body |
| Webhook.StatusCodes | webhook.js:46-113 | the handler answers only 200, 202, 400, 401, 404 or 500 |
| Scrape.Evaluate | fetch-tweet.js:29-45 | no articles gives `raw` = first 8000 characters of the page text; otherwise min(n, 5) records in article order, each with the tweet text or the first 1000 characters of the article text, the `datetime` attribute or `''` without a time element, and `isMain` only at index 0 |
| Scrape.ExtraArticlesIgnored | fetch-tweet.js:36-37 | articles past the fifth are visited but change nothing |
| Format.CutSpans | fetch-tweet.js:55 | the global lazy replacement by `''` never lengthens the text |
| Format.CutSpansNoSpan | fetch-tweet.js:55 | a text with no span (a start marker with a stop marker somewhere after it) is left unchanged |
| Format.CutSpansFirstSpan | fetch-tweet.js:55 | the leftmost span, up to the first stop marker after its start (the lazy match, across newlines), is cut out first; the text before it is kept and the rest is filtered in turn |
| Format.CutSpansShrinksIff | fetch-tweet.js:55 | the filter removes text exactly when a span exists, and leaves the text unchanged exactly when none does |
| Format.AppendBlock | fetch-tweet.js:60-64 | one visit of the `forEach` callback appends exactly the block of that tweet: its header, its time line when the timestamp is truthy, and its text with a newline |
| Format.FormatOutput | fetch-tweet.js:53-66 | `formatOutput` as written, with its loop, computes `Formatted` |
| Format.RenderedPrefix | fetch-tweet.js:59-64 | the output for the first m tweets is a prefix of the output for the first n ≥ m |
| Format.RenderedGrows | fetch-tweet.js:59-64 | every visit of the callback only appends to `out` |
| Format.RenderedBlockAt | fetch-tweet.js:60-64 | block i follows the blocks of tweets 0..i-1 in the output |
| Format.RawFormatted | fetch-tweet.js:54-55 | a non-empty raw text comes back as its filtered text with white-space removed at both ends, and has none there |
| Format.NoContentCases | fetch-tweet.js:54-57 | an empty raw text or an empty tweet list gives "No content" |
| Format.TweetsFormatted | fetch-tweet.js:59-65 | for one or more tweets the output starts with "--- Tweet ---\n", ends in "\n", and is not "No content" |
| Format.TwoTweets | fetch-tweet.js:59-65 | two tweets give the post's block followed by the reply's block |
| Format.DatedTweetBlock | fetch-tweet.js:61-63 | a post with a non-empty timestamp gets the tweet header, a `Time:` line with the localized timestamp, and its text |
| Format.UndatedReplyBlock | fetch-tweet.js:61-63 | a reply with an empty timestamp gets the "Reply 1" header and its text, with no time line |
| Format.PostAndReplyExample | fetch-tweet.js:60-64 | a dated post and an undated reply give the tweet header, the time line, the text, then "\n--- Reply 1 ---\n" and the reply text, each text followed by "\n" |
| Format.PageWithoutArticles | fetch-tweet.js:31-57 | a page without articles prints its first 8000 characters filtered and trimmed, or "No content" for an empty page |
| Format.PageWithArticles | fetch-tweet.js:35-65 | a page with articles prints the tweet header first, ends in "\n", and holds each kept article's block right after the blocks before it |

## Left out

- The HTTP server itself: listening, the CORS headers, reading the body in chunks, and the time-stamped log lines. These are I/O.
- `processLink` and the background call after the 202 answer: a subprocess and concurrency.
- `JSON.parse`: the request carries its outcome (a JSON value or a failure) next to the raw body.
- The message of the TypeError that `.match` raises on a non-string is the JavaScript engine's text, so it is the parameter `matchError` of `Webhook.Handle`.
- All browser work in `fetchTweet`: launch, context, image blocking, navigation, fixed waits, the Escape key press and closing. The DOM is abstract article records and the page text.
- `new Date(ts).toLocaleString()`: it depends on locale and time zone, so it is the parameter `localeString`.
- The command-line entry point of `fetch-tweet.js` and `process.exit`.
- JsString.Prefix: JavaScript strings count UTF-16 code units and Dafny strings count characters, so the 1000- and 8000-unit cuts agree only on text without characters outside the Basic Multilingual Plane.
- JsString.Trim: the white-space set is the ECMAScript one written out by code point; Unicode version differences in the `Zs` category are not modelled.
- Webhook: JSON numbers are real numbers, so a number literal the engine rounds to zero (such as `1e-400`) is not modelled as falsy.
