# eco_chart: the fetch-and-normalise core in Dafny

This project models `fetch_yahoo_history` in `eco_chart.py`. That function
turns the chart's interval option into a request window. It fetches the price
history with a bounded retry loop, then turns the provider's parallel
timestamp and close arrays into a series of (instant, price) points. The
Streamlit page around it is not modelled.

The model has five modules, one per part of the function:

- `Calendar` (`calendar.dfy`) does day arithmetic on integer day numbers.
  Day 0 is 1970-01-01. It models the pandas `BDay` offset: Monday to
  Friday, with no holiday calendar.
- `Window` (`window.dfy`) resolves the interval option (`"1분"`, `"1년"`,
  `"5년"`, `"10년"`, `"20년"`, anything else) and today's date into
  `Window(fromDay, toDay, interval)`.
- `Retry` (`retry.dfy`) holds the five-attempt loop. `FetchWithRetry` is an
  imperative `for` loop with a `break`. It is proved equal to the recursive
  reference `RetryRun`, and the loop's properties are proved as lemmas about
  `RetryRun`. The server is the function `reply` (the status answered to the
  k-th request). `random.random()` is the function `jitter`. Requests and
  pauses are recorded as a trace of `Get(status)` and `Sleep(seconds)`
  events.
- `Series` (`series.dfy`) models the list comprehension: `zip`, the
  `close is not None` filter and truncation to the minute. Prices are an
  opaque type parameter.
- `EcoChart` (`eco_chart.dfy`) composes the three parts into
  `FetchYahooHistory`.

Behaviour of the code worth noting:

- `pd.Timestamp.today() - BDay(0)` does not step back on a weekend. An offset
  of zero business days rolls a Saturday or a Sunday forward to the following
  Monday. So the window's end, `recent_business_day`, is today on a weekday
  and the next Monday on a weekend (`Calendar.RollForward`).
- The loop has no "retries exhausted" error. After five 429s it falls out of
  the `for` loop, and the last response goes on to be parsed. The fifth 429
  is still followed by a pause.
- `raise_for_status` raises only for statuses 400 to 599. Any other status
  that is neither 200 nor 429 (a 204, a 304) neither stops the loop nor
  pauses. The loop simply makes the next attempt.
- An empty series is returned as it is. No "empty series" error is raised.
  There is also no "malformed response" error type: a missing JSON key would
  be a plain `KeyError`, which is not modelled.
- The series is not re-sorted. It keeps the provider's order, and it is
  chronological whenever the timestamps are (`Series.NormalizeSorted`).

## Model

| member | source | states |
|---|---|---|
| `Calendar.RollForward` | eco_chart.py:14 | `today - BDay(0)` is the first business day on or after today, less than three days later |
| `Calendar.PreviousBusinessDay` | eco_chart.py:16 | one business-day step back lands on the latest business day strictly before the given day, at most three days earlier |
| `Calendar.SubtractBusinessDays` | eco_chart.py:16 | `day - BDay(n)`, for n > 0 or a business day, is at least n calendar days earlier and, for n > 0, a business day |
| `Calendar.SubtractBusinessDaysCount` | eco_chart.py:16 | exactly n business days lie from `day - BDay(n)` up to, and excluding, `day` |
| `Window.YearLookbackDays` | eco_chart.py:18-29 | `"1년"`, `"5년"`, `"10년"` and `"20년"` look back 1, 5, 10 and 20 whole 365-day years |
| `Window.Resolve` | eco_chart.py:14-32 | the window always ends on the recent business day, and the interval code is `"1m"` or `"1d"` |
| `Window.ResolveInterval` | eco_chart.py:15-32 | the code is `"1m"` exactly when the option is `"1분"`, and `"1d"` exactly when it is not, unrecognised strings included |
| `Window.ResolveEnd` | eco_chart.py:14 | for every option the end is a business day within three days of today, and it is today on a weekday |
| `Window.ResolveYearStart` | eco_chart.py:18-29 | `"1년"`/`"5년"`/`"10년"`/`"20년"` start 365/1825/3650/7300 days before the recent business day |
| `Window.ResolveMinuteStart` | eco_chart.py:15-17 | `"1분"` starts on a business day, with exactly three business days in [start, end) |
| `Window.ResolveFloorStart` | eco_chart.py:30-32 | every other option starts on day 5479, which is the civil date 1985-01-01, a Tuesday |
| `Window.ResolveStartBeforeEnd` | eco_chart.py:14-34 | the start is before the end for the five named options; for any other option exactly when the recent business day is after 1985-01-01 |
| `Retry.StatusClasses` | eco_chart.py:43-48 | a 200 and every status in 400..599 other than 429 end the loop; a 429 and every other status outside 400..599 (1xx, other 2xx, 3xx) do not, since `raise_for_status` raises exactly for 400..599 |
| `Retry.RetryRun` | eco_chart.py:41-48 | the reference run of attempts k..4: it raises only on a 4xx/5xx other than 429, and parses only a 200 or a status that does not stop the loop |
| `Retry.FetchWithRetry` | eco_chart.py:41-48 | the loop's trace of requests and pauses, and whether it ends by parsing or by raising, are exactly those of `RetryRun` |
| `Retry.ContinueCounts` | eco_chart.py:45-46 | an attempt that does not end the loop makes one request, and pauses once exactly when the reply is a 429 |
| `Retry.RetryRequests` | eco_chart.py:41-42 | there are 1 to 5 requests, answered by the first replies in order, and the outcome carries the last reply's status |
| `Retry.RetryOnlyLastStops` | eco_chart.py:41-48 | no request follows a 200 or a non-429 4xx/5xx: only the last reply can be one that stops the loop |
| `Retry.RetryOutcome` | eco_chart.py:41-48 | the loop raises exactly when the last reply is a stopping status other than 200, parses a 200 exactly when the last reply is one, and parses any other status only after all attempts |
| `Retry.RetrySleepsMatchRateLimits` | eco_chart.py:45-46 | the number of pauses equals the number of 429 replies |
| `Retry.RetryPausesFollowRateLimits` | eco_chart.py:45-46 | every pause directly follows a 429 and lasts 2 + r seconds with r in [0, 1), when `random.random()` draws from [0, 1) |
| `Retry.RetryRateLimitsArePaused` | eco_chart.py:45-46 | every 429 is directly followed by a pause |
| `Retry.FetchLoopSummary` | eco_chart.py:41-50 | from the first attempt: at most five requests, the first replies in order, stopping rules, raising only on a non-429 4xx/5xx, pauses equal to 429s |
| `Retry.FirstStopEndsLoop` | eco_chart.py:41-48 | if the first stopping reply is at attempt k, there are exactly k + 1 requests; a 200 is parsed and any other stopping status is raised |
| `Retry.AllRateLimited` | eco_chart.py:41-50 | five 429s give five requests and five pauses, raise nothing, and leave the last 429 response to be parsed |
| `Series.TruncateToMinute` | eco_chart.py:54 | the truncated instant is a multiple of 60, at most the timestamp and less than 60 s earlier |
| `Series.TruncateIdempotent` | eco_chart.py:54 | truncating twice is the same as truncating once |
| `Series.TruncateMonotone` | eco_chart.py:54 | truncation preserves the order of instants |
| `Series.Zip` | eco_chart.py:55 | `zip` has the length of the shorter list, and its i-th pair is (timestamps[i], closes[i]) |
| `Series.Normalize` | eco_chart.py:53-57 | the comprehension is no longer than either array, and every kept instant is a whole minute; its exact content is `Series.NormalizeExact` |
| `Series.PresentPositions` | eco_chart.py:55-56 | lists, in strictly increasing order, exactly the positions whose close is present |
| `Series.KeepPresentAt` | eco_chart.py:53-57 | the j-th output point is the j-th pair with a present close, at its truncated instant and with its close |
| `Series.NormalizeExact` | eco_chart.py:53-57 | the series holds exactly the positions i < min(len(timestamps), len(closes)) with a present close, in their original order and with their own closes |
| `Series.NormalizeInstants` | eco_chart.py:54-55 | each kept instant is a whole minute, at most its sample's timestamp and less than 60 s before it |
| `Series.NormalizeSorted` | eco_chart.py:53-57 | chronological timestamps give a chronological series |
| `Series.NoPresentPositions` | eco_chart.py:56 | with no close present, no position is kept |
| `Series.AllMissingIsEmpty` | eco_chart.py:53-58 | a payload whose closes are all null gives the empty series, not an error |
| `Series.DropsMissingMiddle` | eco_chart.py:53-57 | timestamps [t1, t2, t3] with closes [c1, null, c3] give exactly the points for t1 and t3, in that order |
| `EcoChart.FetchYahooHistory` | eco_chart.py:13-58 | the window is the resolved one and the trace is the loop's; the result is an HTTP error exactly when the last reply is a non-429 4xx/5xx, and otherwise it is the normalised payload |

## Left out

- The URL, the `User-Agent` header and `requests.get` itself (eco_chart.py:36-42) are network I/O. The server is the `reply` function of attempt number to status.
- `response.json()` and the indexing into `chart.result[0]` (eco_chart.py:50-52) are a foreign JSON schema. The payload is given as the already extracted `timestamps` and `closes`. A missing key, or a 429 body that is not JSON, would raise a Python exception that is not modelled.
- `time.sleep` and `random.random()` (eco_chart.py:46) are recorded as a `Sleep(2 + jitter(k))` event, with no real delay. The draw is indexed by the attempt, not by the call count.
- `time.mktime`, the local time zone and `ZoneInfo("Asia/Seoul")` (eco_chart.py:33-34, 54) are clock and time-zone database calls. The window is kept in whole days, without time of day, and `period1`/`period2` are not converted to epoch seconds. Kept instants are epoch seconds rounded down to the minute, which equals zeroing the local seconds because Asia/Seoul offsets since 1912 are whole minutes.
- `pd.Timestamp.today()` (eco_chart.py:14) becomes the input `today`.
- `@st.cache_data(ttl=60)` (eco_chart.py:12) is a library decorator. The repository has no cache code of its own.
- The `DataFrame` construction (eco_chart.py:58) becomes a sequence of `Point(instant, price)`.
- `plot_chart` and `main` (eco_chart.py:61-152) are Plotly and Streamlit rendering with no domain logic.
- Network-level exceptions from `requests.get` (DNS failures, timeouts) are not modelled. They propagate out of the loop without a retry.
- Calendar.SubtractBusinessDays: covers `day - BDay(n)` for n > 0 and for a business day only. `BDay(0)` on a weekend day rolls forward, and that case is `Calendar.RollForward`. The code subtracts `BDay(0)` only at line 14 and `BDay(3)` only at line 16.
