# Retrying fetch and link-title filter of WebScrapper.py

This project models the two routines of `WebScrapper.py` that carry logic:

- `fetch_data_with_retries(url, retries=3, delay=2)`, a bounded retry loop.
  Attempts are numbered `0 .. retries-1`. Each attempt issues a GET and calls
  `raise_for_status`. The body is returned on the first success. After a failed
  attempt the routine prints a diagnostic line. It then sleeps
  `delay * (attempt + 1)` seconds if attempts remain, and otherwise re-raises
  the exception. When `retries <= 0` the loop never runs and the routine returns
  `None`.
- `extract_data_from_html(html_content)`. It raises `ValueError` on empty or
  `None` content. Otherwise it returns, in document order, the text of every
  `<a>` element that has an `href` and whose text matches
  `re.match(r'.*python.*', text, re.IGNORECASE)`.

Module `Fetcher` (fetcher.dfy) holds the retry loop. The network is an oracle:
`replies[i]` is the reply to the GET of attempt `i`, either
`Response(status, body)` or `ConnectionFailure(reason)`. The oracle holds at
least one reply per allowed attempt, which is why the model's members require
`retries <= |replies|`; this is not a demand the routine places on its caller.
Sleeps and printed lines
are recorded, not performed. A call yields a `Trace` with four parts: the number
of requests, the list of sleeps, the list of logged failures, and the result
(`Returned(text)`, `Raised(cause)` or `FellThrough`). `FetchWithRetries` is the
recursive model. `Expected` is an independent closed form read off the first
successful attempt. `FetchLoop` is the `for` loop written imperatively. All
three are proved equal.

Module `Extractor` (extractor.dfy) holds the filter. The HTML parser is an
oracle `anchorsOf: string -> seq<Anchor>`. Each `Anchor` is an `<a>` element,
in document order, reduced to its `get_text()` and whether it has an `href`.
`PatternMatches` states what the regular expression accepts.
`MentionsKeyword` is a scan that decides it. `TitlesOf`, `ExtractData` and the
loop `CollectTitles` model the filter.

Notes on the code:

- The comment on WebScrapper.py:20 says "Exponential backoff", but the code
  sleeps `delay * (attempt + 1)`. That is linear: `delay, 2*delay, 3*delay, ...`.
- On exhaustion the last exception is re-raised as it is, by a bare `raise`.
- There is no separate check for a malformed URL. `requests.get` raises a
  `RequestException` subclass for one, which is caught and retried like any
  other failure, so a malformed URL is a `ConnectionFailure` reply on every
  attempt.

`raise_for_status` is library code. It is modelled by the `requests` library's
documented rule: a status in `400..599` raises `HTTPError`, and any other status
passes.

## Model

| member | source | states |
|---|---|---|
| Fetcher.Attempt | WebScrapper.py:13-17 | an attempt fails exactly when the GET raised or the status is 4xx/5xx; a status failure carries an `HttpError` with that status, a transport failure its own reason; a success yields the response body |
| Fetcher.Attempts | WebScrapper.py:12-22 | from any attempt on, the loop makes between 1 and the remaining number of requests, sleeps once fewer than it requests, logs one line per failure, never falls through, and raises only after using every remaining attempt |
| Fetcher.FetchWithRetries | WebScrapper.py:8-22 | the routine falls through (returns `None`) exactly when `retries <= 0`, and then makes no request, no sleep and no log line; otherwise it makes between 1 and `retries` requests and one sleep fewer |
| Fetcher.AttemptsSucceedAt | WebScrapper.py:12-20 | when attempt `k` is the first success from `attempt` on, the loop makes `k + 1 - attempt` requests, sleeps the linear schedule for attempts `attempt .. k-1`, logs those failures, and returns attempt `k`'s body |
| Fetcher.AttemptsExhaust | WebScrapper.py:12-22 | when every remaining attempt fails, the loop uses them all, sleeps after all but the last, logs each failure, and raises the last attempt's exception |
| Fetcher.FetchMatchesExpected | WebScrapper.py:8-22 | the routine equals the closed form read off the first successful attempt, for all replies, bounds and delays |
| Fetcher.SuccessReturnsFirstBody | WebScrapper.py:12-16 | if attempt `k < retries` is the first to succeed, the routine returns that attempt's body after exactly `k + 1` requests, `k` sleeps and `k` log lines |
| Fetcher.ExhaustionReraisesLastCause | WebScrapper.py:17-22 | if all `retries >= 1` attempts fail, exactly `retries` requests are made, `retries - 1` sleeps happen, and the last attempt's exception is raised unchanged |
| Fetcher.ResultReflectsReplies | WebScrapper.py:12-22 | the routine returns a body if and only if some attempt below `retries` succeeds, and raises if and only if `retries > 0` and every attempt fails |
| Fetcher.SleepsAreLinear | WebScrapper.py:19-20 | the `i`-th sleep is `delay * (i + 1)`, and there is one sleep fewer than requests, so no sleep follows the final attempt |
| Fetcher.LogRecordsEachFailure | WebScrapper.py:17-18 | the `i`-th diagnostic line is for attempt `i + 1`, which failed, and carries its exception |
| Fetcher.BackoffSum | WebScrapper.py:20 | twice the total sleep after attempts `lo .. hi-1` is `delay * (hi*(hi+1) - lo*(lo+1))` |
| Fetcher.SleepBeforeSuccess | WebScrapper.py:12-20 | before a first success at attempt `k` the routine sleeps `delay * k*(k+1)/2` seconds in total |
| Fetcher.SleepBeforeExhaustion | WebScrapper.py:12-22 | when all `n + 1` attempts fail the routine sleeps `delay * n*(n+1)/2` seconds in total: after the first `n` attempts and none after the last |
| Fetcher.CauseDoesNotSteer | WebScrapper.py:14-17 | from any attempt on, replies that fail or succeed alike give the same requests, sleeps, logged attempt numbers and returned body, whatever the cause of each failure |
| Fetcher.StatusHandledLikeTransportError | WebScrapper.py:14-17 | an error status is handled exactly like a transport error: swapping one for the other leaves the requests, sleeps, number of log lines and their attempt numbers unchanged, and changes only the exception logged or raised |
| Fetcher.FetchWithDefaults | WebScrapper.py:8-22 | called with its defaults `retries=3, delay=2`, as the script at line 58 does, the routine never falls through, makes 1 to 3 requests, sleeps 2 and then 4 seconds, returns a body exactly when one of the first three replies succeeds and raises exactly when all three fail |
| Fetcher.FailFailSucceedScenario | WebScrapper.py:12-22 | with 3 attempts and delay 2, a timeout, then a 503, then a page, gives sleeps of 2 and 4, 3 requests, and the page |
| Fetcher.SingleFailureScenario | WebScrapper.py:12-22 | with one attempt that gets a 404, there is no sleep, one request, and the `HTTPError` itself is raised |
| Fetcher.FetchLoop | WebScrapper.py:12-22 | the imperative loop, which returns from inside on success or on the last failure, produces exactly the trace of the recursive model |
| Extractor.MentionsKeywordIsPattern | WebScrapper.py:37 | the scan accepts a title exactly when `.*python.*` with `re.IGNORECASE` and no `re.DOTALL` matches it at its start: "python" in any case begins after a newline-free prefix |
| Extractor.MentionsKeywordInFirstLine | WebScrapper.py:37 | the title matches exactly when "python", ignoring case, occurs within its first line |
| Extractor.TitlesOf | WebScrapper.py:35-38 | the result is no longer than the anchor list, and every title in it is the text of some anchor that has an `href` and matches |
| Extractor.TitlesOfConcat | WebScrapper.py:35-40 | filtering a concatenation of anchor lists concatenates the results, so titles keep document order |
| Extractor.TitlesOfMembership | WebScrapper.py:35-38 | a string is in the result if and only if some anchor with an `href` has it as text and it matches the pattern |
| Extractor.HrefLessAnchorIgnored | WebScrapper.py:35 | inserting an anchor without `href` anywhere in the document leaves the result unchanged |
| Extractor.ExtractData | WebScrapper.py:25-40 | `ValueError` with the source's message is raised if and only if the content is `None` or empty; otherwise the result is no longer than the parsed anchor list |
| Extractor.TitlesOfSelects | WebScrapper.py:32-40 | the filter's titles are the texts of the kept anchors taken in document order: strictly increasing positions, each a kept anchor, and no kept anchor skipped |
| Extractor.ExtractDataTitles | WebScrapper.py:29-40 | rejected content is rejected whatever the parser would say, so the rejection happens before parsing; accepted content yields exactly the matching texts of anchors with an `href`, as an order-preserving selection with one title per such anchor |
| Extractor.CollectTitles | WebScrapper.py:32-40 | the loop returns the filter's result together with the positions the titles came from: the positions strictly increase, each holds a kept anchor whose text is that title, and every kept anchor is among them |

## Left out

- The URL is not modelled. The network's replies to its GETs are the oracle `replies`.
- `time.sleep` is not performed. Its argument is recorded in the trace.
- The diagnostic `print` is recorded as a `(attempt, cause)` pair. Its text and the output stream are not modelled.
- `delay` is a whole number of seconds (`nat`). A float delay, and a negative delay (for which `time.sleep` raises `ValueError`), are not modelled.
- FetchWithRetries: does not model the `OverflowError` that `time.sleep` raises for a sleep too large for the platform's clock type (about 9.2e9 seconds in CPython). That exception is not a `RequestException`, so it would leave the routine at once; `delay` is an unbounded `nat` here.
- FetchWithRetries: `retries` is an integer. A non-integer `retries` makes `range` raise `TypeError` before any request; that path is not modelled.
- An exception from `requests.get` that is not a `RequestException` would escape the loop without a retry. The model has no such reply.
- `BeautifulSoup` parsing and `get_text()` are the oracle `anchorsOf`. HTML is not parsed.
- Case-insensitive matching folds ASCII capitals only. Python's Unicode case folding of non-ASCII characters is not modelled.
- `extract_data_from_html` receives `None` or a string in this program. Other falsy values (such as `b""`) are not modelled.
- `save_data_to_json` and the script lines at WebScrapper.py:54-60 are file and network I/O. They are not modelled.
- Data_Processing.py is not part of this model. It only delegates to pandas, numpy and matplotlib.
- Log_Generator.py is not part of this model. Its output is driven by `random`, the wall clock and file writes.
