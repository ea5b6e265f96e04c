/** The bounded retry loop around the quote request.

    The network is the function `reply`: `reply(k)` is the HTTP status of the
    response to the k-th request (k = 0, 1, ...).  `random.random()` is the
    function `jitter`: `jitter(k)` is the value drawn when the k-th response
    is a 429.  What the loop does is recorded as a trace of events. */
module Retry {

  const MaxAttempts: nat := 5
  const Ok: int := 200
  const TooManyRequests: int := 429
  /** The fixed part of the back-off after a 429, in seconds. */
  const BaseDelay: real := 2.0

  datatype Event =
    | Get(status: int)       // one request, answered with `status`
    | Sleep(seconds: real)   // one back-off pause

  /** Parse: the loop ended, and the body of the response with this status is
      parsed next.  Raised: `raise_for_status` aborted on this status. */
  datatype Outcome = Parse(status: int) | Raised(status: int)

  datatype Run = Run(trace: seq<Event>, outcome: Outcome)

  /** `Response.raise_for_status` raises for client and server errors only. */
  predicate RaisesForStatus(status: int)
  {
    400 <= status < 600
  }

  /** Ends the loop at once: a 200 breaks, any other 4xx/5xx but 429 raises. */
  predicate Stops(status: int)
  {
    status == Ok || (status != TooManyRequests && RaisesForStatus(status))
  }

  /** How the loop treats each class of status: a 200 and every 4xx/5xx
      other than 429 end it; a 429 and every other status outside 400..599
      (1xx, 2xx other than 200, 3xx) let it go on. */
  lemma StatusClasses()
    ensures Stops(Ok) && !Stops(TooManyRequests)
    ensures forall s :: 400 <= s < 600 && s != TooManyRequests ==> Stops(s)
    ensures forall s :: s != Ok && (s < 400 || 600 <= s) ==> !Stops(s)
    ensures forall s :: RaisesForStatus(s) <==> 400 <= s < 600
  {
  }

  /** The events of one attempt that does not stop the loop. */
  function Continue(reply: nat -> int, jitter: nat -> real, k: nat): seq<Event>
  {
    if reply(k) == TooManyRequests then [Get(reply(k)), Sleep(BaseDelay + jitter(k))]
    else [Get(reply(k))]
  }

  function Prepend(events: seq<Event>, run: Run): Run
  {
    Run(events + run.trace, run.outcome)
  }

  /** What attempts k, k+1, ..., MaxAttempts-1 of the loop do. */
  function RetryRun(reply: nat -> int, jitter: nat -> real, k: nat): (r: Run)
    requires k < MaxAttempts
    ensures r.outcome.Raised? ==>
      RaisesForStatus(r.outcome.status) && r.outcome.status != TooManyRequests
    ensures r.outcome.Parse? ==> r.outcome.status == Ok || !Stops(r.outcome.status)
    decreases MaxAttempts - k
  {
    var s := reply(k);
    if Stops(s) then Run([Get(s)], if s == Ok then Parse(s) else Raised(s))
    else if k + 1 == MaxAttempts then Run(Continue(reply, jitter, k), Parse(s))
    else Prepend(Continue(reply, jitter, k), RetryRun(reply, jitter, k + 1))
  }

  /** The loop of `fetch_yahoo_history`: at most five requests, a 200 breaks,
      a 429 sleeps 2 + jitter seconds and tries again, any other status goes
      through `raise_for_status`. */
  method FetchWithRetry(reply: nat -> int, jitter: nat -> real) returns (trace: seq<Event>, outcome: Outcome)
    ensures Run(trace, outcome) == RetryRun(reply, jitter, 0)
  {
    trace := [];
    var response := 0;
    for attempt := 0 to MaxAttempts
      invariant attempt == 0 ==> trace == []
      invariant 0 < attempt ==> response == reply(attempt - 1) && !Stops(response)
      invariant attempt < MaxAttempts ==> RetryRun(reply, jitter, 0) == Prepend(trace, RetryRun(reply, jitter, attempt))
      invariant attempt == MaxAttempts ==> RetryRun(reply, jitter, 0) == Run(trace, Parse(response))
    {
      ghost var before := trace;
      response := reply(attempt);
      trace := trace + [Get(response)];
      if response == Ok {
        break;
      } else if response == TooManyRequests {
        trace := trace + [Sleep(BaseDelay + jitter(attempt))];
      } else if RaisesForStatus(response) {
        return trace, Raised(response);
      }
      assert trace == before + Continue(reply, jitter, attempt);
      if attempt + 1 < MaxAttempts {
        PrependTwice(before, Continue(reply, jitter, attempt), RetryRun(reply, jitter, attempt + 1));
      }
    }
    outcome := Parse(response);
  }

  lemma PrependTwice(a: seq<Event>, b: seq<Event>, run: Run)
    ensures Prepend(a, Prepend(b, run)) == Prepend(a + b, run)
  {
    assert a + (b + run.trace) == (a + b) + run.trace;
  }

  // ---------------------------------------------------------------------
  // Reading a trace

  /** The statuses of the requests in a trace, in order. */
  function Statuses(trace: seq<Event>): (r: seq<int>)
    ensures |r| <= |trace|
  {
    if trace == [] then []
    else (if trace[0].Get? then [trace[0].status] else []) + Statuses(trace[1..])
  }

  function Requests(trace: seq<Event>): nat
  {
    |Statuses(trace)|
  }

  function Sleeps(trace: seq<Event>): nat
  {
    if trace == [] then 0
    else (if trace[0].Sleep? then 1 else 0) + Sleeps(trace[1..])
  }

  function Occurrences(s: seq<int>, x: int): nat
  {
    if s == [] then 0
    else (if s[0] == x then 1 else 0) + Occurrences(s[1..], x)
  }

  lemma {:induction false} StatusesAppend(a: seq<Event>, b: seq<Event>)
    ensures Statuses(a + b) == Statuses(a) + Statuses(b)
  {
    if a == [] {
      assert a + b == b;
    } else {
      assert (a + b)[0] == a[0];
      assert (a + b)[1..] == a[1..] + b;
      StatusesAppend(a[1..], b);
    }
  }

  lemma {:induction false} SleepsAppend(a: seq<Event>, b: seq<Event>)
    ensures Sleeps(a + b) == Sleeps(a) + Sleeps(b)
  {
    if a == [] {
      assert a + b == b;
    } else {
      assert (a + b)[0] == a[0];
      assert (a + b)[1..] == a[1..] + b;
      SleepsAppend(a[1..], b);
    }
  }

  lemma {:induction false} OccurrencesAppend(a: seq<int>, b: seq<int>, x: int)
    ensures Occurrences(a + b, x) == Occurrences(a, x) + Occurrences(b, x)
  {
    if a == [] {
      assert a + b == b;
    } else {
      assert (a + b)[0] == a[0];
      assert (a + b)[1..] == a[1..] + b;
      OccurrencesAppend(a[1..], b, x);
    }
  }

  // ---------------------------------------------------------------------
  // Properties of a trace

  /** The statuses of the requests made from attempt k on. */
  function Attempted(reply: nat -> int, jitter: nat -> real, k: nat): seq<int>
    requires k < MaxAttempts
  {
    Statuses(RetryRun(reply, jitter, k).trace)
  }

  /** The i-th request was answered with reply(k + i). */
  predicate AnsweredInOrder(st: seq<int>, reply: nat -> int, k: nat)
  {
    forall i :: 0 <= i < |st| ==> st[i] == reply(k + i)
  }

  /** No request but the last stops the loop. */
  predicate OnlyLastStops(st: seq<int>)
  {
    forall i :: 0 <= i < |st| - 1 ==> !Stops(st[i])
  }

  /** Every pause comes right after a 429 and lasts between 2 and 3 seconds. */
  predicate PausesFollowRateLimits(t: seq<Event>)
  {
    forall i :: 0 <= i < |t| && t[i].Sleep? ==>
      0 < i && t[i - 1] == Get(TooManyRequests) && BaseDelay <= t[i].seconds < BaseDelay + 1.0
  }

  /** Every 429 is followed right away by a pause. */
  predicate RateLimitsArePaused(t: seq<Event>)
  {
    forall i :: 0 <= i < |t| && t[i] == Get(TooManyRequests) ==> i + 1 < |t| && t[i + 1].Sleep?
  }

  // ---------------------------------------------------------------------
  // Properties of the loop

  /** One attempt that does not stop the loop makes one request, answered
      with reply(k), and pauses once exactly when that reply is a 429. */
  lemma ContinueCounts(reply: nat -> int, jitter: nat -> real, k: nat)
    ensures Statuses(Continue(reply, jitter, k)) == [reply(k)]
    ensures Sleeps(Continue(reply, jitter, k)) == if reply(k) == TooManyRequests then 1 else 0
  {
    var s := reply(k);
    assert Statuses([Get(s)]) == [s];
    assert Sleeps([Get(s)]) == 0;
    if s == TooManyRequests {
      var z := Sleep(BaseDelay + jitter(k));
      StatusesAppend([Get(s)], [z]);
      SleepsAppend([Get(s)], [z]);
      assert [Get(s)] + [z] == [Get(s), z];
      assert Statuses([z]) == [];
      assert Sleeps([z]) == 1;
    }
  }

  /** Attempt k in terms of the attempts after it: its request comes first,
      then, unless it stopped the loop or was the last, everything after. */
  lemma RetryStep(reply: nat -> int, jitter: nat -> real, k: nat)
    requires k < MaxAttempts
    ensures !Stops(reply(k)) && k + 1 < MaxAttempts ==>
      Attempted(reply, jitter, k) == [reply(k)] + Attempted(reply, jitter, k + 1) &&
      RetryRun(reply, jitter, k).outcome == RetryRun(reply, jitter, k + 1).outcome &&
      Sleeps(RetryRun(reply, jitter, k).trace) ==
        (if reply(k) == TooManyRequests then 1 else 0) + Sleeps(RetryRun(reply, jitter, k + 1).trace)
    ensures Stops(reply(k)) || k + 1 == MaxAttempts ==>
      Attempted(reply, jitter, k) == [reply(k)] &&
      Sleeps(RetryRun(reply, jitter, k).trace) == (if reply(k) == TooManyRequests then 1 else 0) &&
      RetryRun(reply, jitter, k).outcome ==
        (if reply(k) == Ok || !Stops(reply(k)) then Parse(reply(k)) else Raised(reply(k)))
  {
    var s := reply(k);
    var here := Continue(reply, jitter, k);
    ContinueCounts(reply, jitter, k);
    if Stops(s) {
      assert Statuses([Get(s)]) == [s];
      assert Sleeps([Get(s)]) == 0;
    } else if k + 1 < MaxAttempts {
      var rest := RetryRun(reply, jitter, k + 1);
      assert RetryRun(reply, jitter, k) == Prepend(here, rest);
      StatusesAppend(here, rest.trace);
      SleepsAppend(here, rest.trace);
    }
  }

  /** The requests are the first replies in order, there are at most
      MaxAttempts - k of them and at least one, and the outcome concerns the
      last of them. */
  lemma {:induction false} RetryRequests(reply: nat -> int, jitter: nat -> real, k: nat)
    requires k < MaxAttempts
    ensures 1 <= |Attempted(reply, jitter, k)| <= MaxAttempts - k
    ensures AnsweredInOrder(Attempted(reply, jitter, k), reply, k)
    ensures RetryRun(reply, jitter, k).outcome.status == Last(Attempted(reply, jitter, k))
    decreases MaxAttempts - k
  {
    RetryStep(reply, jitter, k);
    if !Stops(reply(k)) && k + 1 < MaxAttempts {
      RetryRequests(reply, jitter, k + 1);
      var st := Attempted(reply, jitter, k);
      var st' := Attempted(reply, jitter, k + 1);
      forall i | 0 <= i < |st|
        ensures st[i] == reply(k + i)
      {
        if 0 < i {
          assert st[i] == st'[i - 1];
        }
      }
    }
  }

  function Last(st: seq<int>): int
  {
    if st == [] then 0 else st[|st| - 1]
  }

  /** Only the last request can be answered with a status that stops the
      loop. */
  lemma {:induction false} RetryOnlyLastStops(reply: nat -> int, jitter: nat -> real, k: nat)
    requires k < MaxAttempts
    ensures OnlyLastStops(Attempted(reply, jitter, k))
    decreases MaxAttempts - k
  {
    RetryStep(reply, jitter, k);
    if !Stops(reply(k)) && k + 1 < MaxAttempts {
      RetryOnlyLastStops(reply, jitter, k + 1);
      var st := Attempted(reply, jitter, k);
      var st' := Attempted(reply, jitter, k + 1);
      forall i | 0 <= i < |st| - 1
        ensures !Stops(st[i])
      {
        if 0 < i {
          assert st[i] == st'[i - 1];
        }
      }
    }
  }

  /** The loop raises exactly when the last reply is a stopping status other
      than 200, parses a 200 exactly when the last reply is one, and parses
      any other status only after making all MaxAttempts - k requests. */
  lemma {:induction false} RetryOutcome(reply: nat -> int, jitter: nat -> real, k: nat)
    requires k < MaxAttempts
    ensures RetryRun(reply, jitter, k).outcome.Raised? <==>
      Stops(Last(Attempted(reply, jitter, k))) && Last(Attempted(reply, jitter, k)) != Ok
    ensures RetryRun(reply, jitter, k).outcome == Parse(Ok) <==> Last(Attempted(reply, jitter, k)) == Ok
    ensures RetryRun(reply, jitter, k).outcome.Parse? && RetryRun(reply, jitter, k).outcome.status != Ok ==>
      |Attempted(reply, jitter, k)| == MaxAttempts - k
    decreases MaxAttempts - k
  {
    RetryStep(reply, jitter, k);
    if !Stops(reply(k)) && k + 1 < MaxAttempts {
      RetryOutcome(reply, jitter, k + 1);
      var st := Attempted(reply, jitter, k);
      var st' := Attempted(reply, jitter, k + 1);
      RetryRequests(reply, jitter, k + 1);
      assert Last(st) == Last(st');
    }
  }

  /** The pauses are exactly as many as the 429 replies. */
  lemma {:induction false} RetrySleepsMatchRateLimits(reply: nat -> int, jitter: nat -> real, k: nat)
    requires k < MaxAttempts
    ensures Sleeps(RetryRun(reply, jitter, k).trace) == Occurrences(Attempted(reply, jitter, k), TooManyRequests)
    decreases MaxAttempts - k
  {
    var s := reply(k);
    RetryStep(reply, jitter, k);
    assert Occurrences([s], TooManyRequests) == if s == TooManyRequests then 1 else 0;
    if !Stops(s) && k + 1 < MaxAttempts {
      RetrySleepsMatchRateLimits(reply, jitter, k + 1);
      OccurrencesAppend([s], Attempted(reply, jitter, k + 1), TooManyRequests);
    }
  }

  /** Every trace starts with a request. */
  lemma RetryStartsWithGet(reply: nat -> int, jitter: nat -> real, k: nat)
    requires k < MaxAttempts
    ensures 0 < |RetryRun(reply, jitter, k).trace|
    ensures RetryRun(reply, jitter, k).trace[0] == Get(reply(k))
  {
  }

  /** Every pause comes right after a 429, and lasts 2 + r seconds with r in
      [0, 1), so between 2 and 3 seconds. */
  lemma {:induction false} RetryPausesFollowRateLimits(reply: nat -> int, jitter: nat -> real, k: nat)
    requires k < MaxAttempts
    requires forall j :: 0.0 <= jitter(j) < 1.0
    ensures PausesFollowRateLimits(RetryRun(reply, jitter, k).trace)
    decreases MaxAttempts - k
  {
    var s := reply(k);
    var here := Continue(reply, jitter, k);
    if !Stops(s) && k + 1 < MaxAttempts {
      var rest := RetryRun(reply, jitter, k + 1).trace;
      RetryPausesFollowRateLimits(reply, jitter, k + 1);
      RetryStartsWithGet(reply, jitter, k + 1);
      var t := here + rest;
      assert RetryRun(reply, jitter, k).trace == t;
      var h := |here|;
      forall i | 0 <= i < |t| && t[i].Sleep?
        ensures 0 < i && t[i - 1] == Get(TooManyRequests) && BaseDelay <= t[i].seconds < BaseDelay + 1.0
      {
        if i >= h {
          assert t[i] == rest[i - h];
          assert i - h > 0;
          assert t[i - 1] == rest[i - 1 - h];
        }
      }
    } else if !Stops(s) {
      assert RetryRun(reply, jitter, k).trace == here;
    }
  }

  /** Every 429 is followed right away by a pause. */
  lemma {:induction false} RetryRateLimitsArePaused(reply: nat -> int, jitter: nat -> real, k: nat)
    requires k < MaxAttempts
    ensures RateLimitsArePaused(RetryRun(reply, jitter, k).trace)
    decreases MaxAttempts - k
  {
    var s := reply(k);
    var here := Continue(reply, jitter, k);
    if !Stops(s) && k + 1 < MaxAttempts {
      var rest := RetryRun(reply, jitter, k + 1).trace;
      RetryRateLimitsArePaused(reply, jitter, k + 1);
      RetryStartsWithGet(reply, jitter, k + 1);
      var t := here + rest;
      assert RetryRun(reply, jitter, k).trace == t;
      var h := |here|;
      forall i | 0 <= i < |t| && t[i] == Get(TooManyRequests)
        ensures i + 1 < |t| && t[i + 1].Sleep?
      {
        if i >= h {
          assert rest[i - h] == Get(TooManyRequests);
          assert t[i + 1] == rest[i + 1 - h];
        } else {
          assert here[i] == Get(TooManyRequests);
          assert t[1] == here[1];
        }
      }
    } else if !Stops(s) {
      assert RetryRun(reply, jitter, k).trace == here;
    }
  }

  // ---------------------------------------------------------------------
  // The loop from its first attempt

  /** The whole loop: one to five requests, answered by the first replies in
      order; no request follows a 200 or an error; the loop raises exactly
      when the last reply is a 4xx/5xx other than 429, parses a 200 exactly
      when the last reply is one, and parses anything else only after all
      five attempts; the pauses are as many as the 429s. */
  lemma FetchLoopSummary(reply: nat -> int, jitter: nat -> real)
    ensures 1 <= |Attempted(reply, jitter, 0)| <= MaxAttempts
    ensures AnsweredInOrder(Attempted(reply, jitter, 0), reply, 0)
    ensures OnlyLastStops(Attempted(reply, jitter, 0))
    ensures RetryRun(reply, jitter, 0).outcome.Raised? <==>
      RaisesForStatus(Last(Attempted(reply, jitter, 0))) && Last(Attempted(reply, jitter, 0)) != TooManyRequests
    ensures RetryRun(reply, jitter, 0).outcome == Parse(Ok) <==> Last(Attempted(reply, jitter, 0)) == Ok
    ensures RetryRun(reply, jitter, 0).outcome.Parse? && RetryRun(reply, jitter, 0).outcome.status != Ok ==>
      |Attempted(reply, jitter, 0)| == MaxAttempts
    ensures Sleeps(RetryRun(reply, jitter, 0).trace) == Occurrences(Attempted(reply, jitter, 0), TooManyRequests)
  {
    RetryRequests(reply, jitter, 0);
    RetryOnlyLastStops(reply, jitter, 0);
    RetryOutcome(reply, jitter, 0);
    RetrySleepsMatchRateLimits(reply, jitter, 0);
  }

  /** The first reply that is a 200 or a 4xx/5xx other than 429 ends the loop
      right there: exactly k + 1 requests; a 200 is parsed, anything else is
      raised. */
  lemma FirstStopEndsLoop(reply: nat -> int, jitter: nat -> real, k: nat)
    requires k < MaxAttempts && Stops(reply(k))
    requires forall j :: 0 <= j < k ==> !Stops(reply(j))
    ensures RetryRun(reply, jitter, 0).outcome == (if reply(k) == Ok then Parse(Ok) else Raised(reply(k)))
    ensures Requests(RetryRun(reply, jitter, 0).trace) == k + 1
  {
    FetchLoopSummary(reply, jitter);
    var st := Attempted(reply, jitter, 0);
    var n := |st|;
    assert st[n - 1] == reply(n - 1);
    assert Stops(st[n - 1]) || n == MaxAttempts;
    assert forall i :: 0 <= i < n - 1 ==> st[i] == reply(i) && !Stops(st[i]);
  }

  /** Five 429s in a row: five requests, five pauses, no exception, and the
      last 429 response is what gets parsed. */
  lemma AllRateLimited(reply: nat -> int, jitter: nat -> real)
    requires forall j :: 0 <= j < MaxAttempts ==> reply(j) == TooManyRequests
    ensures RetryRun(reply, jitter, 0).outcome == Parse(TooManyRequests)
    ensures Requests(RetryRun(reply, jitter, 0).trace) == MaxAttempts
    ensures Sleeps(RetryRun(reply, jitter, 0).trace) == MaxAttempts
  {
    FetchLoopSummary(reply, jitter);
    var st := Attempted(reply, jitter, 0);
    assert forall i :: 0 <= i < |st| ==> st[i] == TooManyRequests;
    OccurrencesAll(st, TooManyRequests);
  }

  lemma {:induction false} OccurrencesAll(s: seq<int>, x: int)
    requires forall i :: 0 <= i < |s| ==> s[i] == x
    ensures Occurrences(s, x) == |s|
  {
    if s != [] {
      OccurrencesAll(s[1..], x);
    }
  }
}
