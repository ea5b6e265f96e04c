/** `fetch_yahoo_history` as a whole: resolve the window, run the retry loop,
    then normalise the payload of the last response.

    The payload is given already extracted from the last response's JSON body
    (its `timestamp` and `close` arrays). */
module EcoChart {
  import opened Window
  import opened Retry
  import opened Series

  /** The returned frame of points, or the HTTPError raised by
      `raise_for_status`. */
  datatype Fetched<P> = Frame(points: seq<Point<P>>) | HttpError(status: int)

  method FetchYahooHistory<P>(
    option: string, today: int,
    reply: nat -> int, jitter: nat -> real,
    timestamps: seq<int>, closes: seq<Option<P>>)
    returns (window: Window, trace: seq<Event>, result: Fetched<P>)
    ensures window == Resolve(option, today)
    ensures trace == RetryRun(reply, jitter, 0).trace
    ensures 1 <= Requests(trace) <= MaxAttempts
    ensures result.HttpError? <==>
      RaisesForStatus(Last(Statuses(trace))) && Last(Statuses(trace)) != TooManyRequests
    ensures result.HttpError? ==> result.status == Last(Statuses(trace))
    ensures result.Frame? ==> result.points == Normalize(timestamps, closes)
  {
    window := Resolve(option, today);
    var outcome;
    trace, outcome := FetchWithRetry(reply, jitter);
    FetchLoopSummary(reply, jitter);
    RetryRequests(reply, jitter, 0);
    match outcome
    case Raised(status) =>
      result := HttpError(status);
    case Parse(_) =>
      result := Frame(Normalize(timestamps, closes));
  }
}
