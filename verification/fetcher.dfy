/**
 A model of `fetch_data_with_retries` in WebScrapper.py: a bounded retry loop
 with linear backoff.

 The network is an oracle: `replies[i]` is what the GET of attempt `i` (0-based)
 produces. `time.sleep` and the diagnostic `print` are not performed; their
 arguments are recorded in a `Trace`, together with the number of requests made
 and the way the routine ended.
 */
module Fetcher {

  /** What one `requests.get` call produces: a response with a status code and a
      body, or an exception raised by the transport (connection refused, timeout,
      malformed URL, ...). */
  datatype Reply = Response(status: int, body: string) | ConnectionFailure(reason: string)

  /** The `RequestException` an attempt raises. */
  datatype Cause = HttpError(status: int) | RequestError(reason: string)

  /** One attempt, after `raise_for_status`. */
  datatype Outcome = Ok(text: string) | Fail(cause: Cause)

  /** How the routine ends: it returns the body, re-raises the last exception,
      or (when the loop never runs) falls off the end and returns `None`. */
  datatype Result = Returned(text: string) | Raised(cause: Cause) | FellThrough

  /** One diagnostic line "Attempt {attempt} failed: {cause}" (attempt is 1-based). */
  datatype Failure = Failure(attempt: nat, cause: Cause)

  /** Where the first successful attempt is, if there is one. */
  datatype FirstFound = NoSuccess | At(index: nat)

  /** Everything observable about one call. */
  datatype Trace = Trace(requests: nat, sleeps: seq<nat>, log: seq<Failure>, result: Result)

  /** `raise_for_status` raises for client (4xx) and server (5xx) errors only. */
  predicate IsErrorStatus(status: int) {
    400 <= status < 600
  }

  /** The `try` block of one attempt: the GET, then `raise_for_status`. A
      transport error and an error status both become a `Fail`. */
  function Attempt(reply: Reply): (o: Outcome)
    ensures o.Fail? <==> reply.ConnectionFailure? || IsErrorStatus(reply.status)
    ensures o.Ok? ==> o.text == reply.body
    ensures o.Fail? && reply.Response? ==> o.cause == HttpError(reply.status)
    ensures o.Fail? && reply.ConnectionFailure? ==> o.cause == RequestError(reply.reason)
  {
    match reply
    case ConnectionFailure(reason) => Fail(RequestError(reason))
    case Response(status, body) =>
      if IsErrorStatus(status) then Fail(HttpError(status)) else Ok(body)
  }

  /** The loop from attempt `attempt` on: what the remaining iterations of
      `for attempt in range(retries)` do. */
  function Attempts(replies: seq<Reply>, retries: nat, delay: nat, attempt: nat): (t: Trace)
    requires attempt < retries <= |replies|
    ensures 1 <= t.requests <= retries - attempt
    ensures |t.sleeps| == t.requests - 1
    ensures |t.log| == if t.result.Returned? then t.requests - 1 else t.requests
    ensures t.result.Raised? ==> t.requests == retries - attempt
    ensures !t.result.FellThrough?
    decreases retries - attempt
  {
    match Attempt(replies[attempt])
    case Ok(text) => Trace(1, [], [], Returned(text))
    case Fail(cause) =>
      var logged := Failure(attempt + 1, cause);
      if attempt < retries - 1 then
        var rest := Attempts(replies, retries, delay, attempt + 1);
        Trace(1 + rest.requests, [delay * (attempt + 1)] + rest.sleeps, [logged] + rest.log, rest.result)
      else
        Trace(1, [], [logged], Raised(cause))
  }

  /** `fetch_data_with_retries(url, retries, delay)`; `replies` stands for the
      network's answers to the successive GETs of `url`. */
  function FetchWithRetries(replies: seq<Reply>, retries: int, delay: nat): (t: Trace)
    requires retries <= |replies|
    ensures t.result.FellThrough? <==> retries <= 0
    ensures retries <= 0 ==> t.requests == 0 && t.sleeps == [] && t.log == []
    ensures retries > 0 ==> 1 <= t.requests <= retries && |t.sleeps| == t.requests - 1
  {
    if retries <= 0 then Trace(0, [], [], FellThrough)
    else Attempts(replies, retries, delay, 0)
  }

  // ---------------------------------------------------------------------------
  // An independent, non-recursive description of the same behaviour
  // ---------------------------------------------------------------------------

  /** The index of the first successful attempt in `lo..hi`, if any. */
  function FirstSuccess(replies: seq<Reply>, lo: nat, hi: nat): (k: FirstFound)
    requires lo <= hi <= |replies|
    ensures k.At? ==> lo <= k.index < hi && Attempt(replies[k.index]).Ok?
    ensures k.At? ==> (forall j :: lo <= j < k.index ==> Attempt(replies[j]).Fail?)
    ensures k.NoSuccess? ==> (forall j :: lo <= j < hi ==> Attempt(replies[j]).Fail?)
    decreases hi - lo
  {
    if lo == hi then NoSuccess
    else if Attempt(replies[lo]).Ok? then At(lo)
    else FirstSuccess(replies, lo + 1, hi)
  }

  /** The sleeps after failed attempts `lo..hi-1`: attempt `i` sleeps `delay*(i+1)`. */
  function Backoff(delay: nat, lo: nat, hi: nat): (s: seq<nat>)
    requires lo <= hi
  {
    seq(hi - lo, i requires 0 <= i < hi - lo => delay * (lo + i + 1))
  }

  /** The diagnostic lines of failed attempts `lo..hi-1`. */
  function FailureLog(replies: seq<Reply>, lo: nat, hi: nat): (log: seq<Failure>)
    requires lo <= hi <= |replies|
    requires forall j :: lo <= j < hi ==> Attempt(replies[j]).Fail?
  {
    seq(hi - lo, i requires 0 <= i < hi - lo => Failure(lo + i + 1, Attempt(replies[lo + i]).cause))
  }

  /** The trace the routine should produce, read off the first success: if
      attempt `k` is the first to succeed, `k` failures (each followed by a
      sleep) precede it; if none does, all `retries` attempts fail and only the
      first `retries - 1` are followed by a sleep. */
  function Expected(replies: seq<Reply>, retries: int, delay: nat): Trace
    requires retries <= |replies|
  {
    if retries <= 0 then Trace(0, [], [], FellThrough)
    else match FirstSuccess(replies, 0, retries)
      case At(k) =>
        Trace(k + 1, Backoff(delay, 0, k), FailureLog(replies, 0, k), Returned(Attempt(replies[k]).text))
      case NoSuccess =>
        Trace(retries, Backoff(delay, 0, retries - 1), FailureLog(replies, 0, retries),
              Raised(Attempt(replies[retries - 1]).cause))
  }

  /** Peeling the first sleep off a backoff schedule. */
  lemma BackoffCons(delay: nat, lo: nat, hi: nat)
    requires lo < hi
    ensures Backoff(delay, lo, hi) == [delay * (lo + 1)] + Backoff(delay, lo + 1, hi)
  {
  }

  /** Peeling the first line off a failure log. */
  lemma FailureLogCons(replies: seq<Reply>, lo: nat, hi: nat)
    requires lo < hi <= |replies|
    requires forall j :: lo <= j < hi ==> Attempt(replies[j]).Fail?
    ensures FailureLog(replies, lo, hi) == [Failure(lo + 1, Attempt(replies[lo]).cause)] + FailureLog(replies, lo + 1, hi)
  {
  }

  /** The loop from `attempt` on, when attempt `k` is the first to succeed:
      `k - attempt` logged failures, each followed by a sleep, then the body. */
  lemma {:induction false} AttemptsSucceedAt(replies: seq<Reply>, retries: nat, delay: nat, attempt: nat, k: nat)
    requires attempt <= k < retries <= |replies|
    requires Attempt(replies[k]).Ok?
    requires forall j :: attempt <= j < k ==> Attempt(replies[j]).Fail?
    ensures Attempts(replies, retries, delay, attempt)
         == Trace(k + 1 - attempt, Backoff(delay, attempt, k), FailureLog(replies, attempt, k),
                  Returned(Attempt(replies[k]).text))
    decreases k - attempt
  {
    if attempt < k {
      AttemptsSucceedAt(replies, retries, delay, attempt + 1, k);
      BackoffCons(delay, attempt, k);
      FailureLogCons(replies, attempt, k);
    }
  }

  /** The loop from `attempt` on, when every remaining attempt fails: one logged
      failure per attempt, a sleep after all but the last, then the last
      exception. */
  lemma {:induction false} AttemptsExhaust(replies: seq<Reply>, retries: nat, delay: nat, attempt: nat)
    requires attempt < retries <= |replies|
    requires forall j :: attempt <= j < retries ==> Attempt(replies[j]).Fail?
    ensures Attempts(replies, retries, delay, attempt)
         == Trace(retries - attempt, Backoff(delay, attempt, retries - 1), FailureLog(replies, attempt, retries),
                  Raised(Attempt(replies[retries - 1]).cause))
    decreases retries - attempt
  {
    FailureLogCons(replies, attempt, retries);
    if attempt < retries - 1 {
      AttemptsExhaust(replies, retries, delay, attempt + 1);
      BackoffCons(delay, attempt, retries - 1);
    }
  }

  /** The routine agrees with the description read off the first success. */
  lemma FetchMatchesExpected(replies: seq<Reply>, retries: int, delay: nat)
    requires retries <= |replies|
    ensures FetchWithRetries(replies, retries, delay) == Expected(replies, retries, delay)
  {
    if retries > 0 {
      match FirstSuccess(replies, 0, retries)
      case At(k) => AttemptsSucceedAt(replies, retries, delay, 0, k);
      case NoSuccess => AttemptsExhaust(replies, retries, delay, 0);
    }
  }

  // ---------------------------------------------------------------------------
  // Properties of the retry schedule
  // ---------------------------------------------------------------------------

  /** If attempt `k` is the first to succeed and `k < retries`, the routine
      returns that body after exactly `k + 1` requests and `k` sleeps. */
  lemma SuccessReturnsFirstBody(replies: seq<Reply>, retries: int, delay: nat, k: nat)
    requires retries <= |replies|
    requires k < retries
    requires Attempt(replies[k]).Ok?
    requires forall j :: 0 <= j < k ==> Attempt(replies[j]).Fail?
    ensures var t := FetchWithRetries(replies, retries, delay);
      && t.result == Returned(replies[k].body)
      && t.requests == k + 1
      && |t.sleeps| == k
      && |t.log| == k
  {
    AttemptsSucceedAt(replies, retries, delay, 0, k);
  }

  /** If all `retries >= 1` attempts fail, exactly `retries` requests are made and
      the exception of the last attempt is re-raised as it is, not wrapped. */
  lemma ExhaustionReraisesLastCause(replies: seq<Reply>, retries: int, delay: nat)
    requires 1 <= retries <= |replies|
    requires forall j :: 0 <= j < retries ==> Attempt(replies[j]).Fail?
    ensures var t := FetchWithRetries(replies, retries, delay);
      && t.result == Raised(Attempt(replies[retries - 1]).cause)
      && t.requests == retries
      && |t.sleeps| == retries - 1
      && |t.log| == retries
  {
    AttemptsExhaust(replies, retries, delay, 0);
  }

  /** The routine returns a body only if some attempt within the bound succeeded,
      and re-raises only if every attempt failed. */
  lemma ResultReflectsReplies(replies: seq<Reply>, retries: int, delay: nat)
    requires retries <= |replies|
    ensures var t := FetchWithRetries(replies, retries, delay);
      && (t.result.Returned? <==> exists k :: 0 <= k < retries && Attempt(replies[k]).Ok?)
      && (t.result.Raised? <==> 0 < retries && forall j :: 0 <= j < retries ==> Attempt(replies[j]).Fail?)
  {
    FetchMatchesExpected(replies, retries, delay);
    if retries > 0 {
      var first := FirstSuccess(replies, 0, retries);
      if first.At? {
        assert Attempt(replies[first.index]).Ok?;
      }
    }
  }

  /** The `i`-th sleep is `delay * (i + 1)`: a linear schedule `delay, 2*delay, ...`,
      and there is one sleep fewer than there are requests, on success as on
      exhaustion, so no sleep follows the final attempt. */
  lemma SleepsAreLinear(replies: seq<Reply>, retries: int, delay: nat)
    requires retries <= |replies|
    ensures var t := FetchWithRetries(replies, retries, delay);
      && (retries > 0 ==> |t.sleeps| == t.requests - 1)
      && forall i :: 0 <= i < |t.sleeps| ==> t.sleeps[i] == delay * (i + 1)
  {
    FetchMatchesExpected(replies, retries, delay);
  }

  /** The parameter defaults of `fetch_data_with_retries`, used by the script's call. */
  const DefaultRetries: nat := 3
  const DefaultDelay: nat := 2

  /** The routine called with its defaults: it never falls through, makes one to
      three requests, sleeps 2 then 4 seconds between them, and returns a body
      exactly when one of the first three replies is a success. */
  function FetchWithDefaults(replies: seq<Reply>): (t: Trace)
    requires DefaultRetries <= |replies|
    ensures !t.result.FellThrough?
    ensures 1 <= t.requests <= 3 && |t.sleeps| == t.requests - 1
    ensures forall i :: 0 <= i < |t.sleeps| ==> t.sleeps[i] == 2 * (i + 1)
    ensures t.result.Returned? <==> exists k :: 0 <= k < 3 && Attempt(replies[k]).Ok?
    ensures t.result.Raised? <==> forall j :: 0 <= j < 3 ==> Attempt(replies[j]).Fail?
  {
    SleepsAreLinear(replies, DefaultRetries, DefaultDelay);
    ResultReflectsReplies(replies, DefaultRetries, DefaultDelay);
    FetchWithRetries(replies, DefaultRetries, DefaultDelay)
  }

  /** The log holds one line per failed attempt, numbered from 1 in order, with
      that attempt's exception. */
  lemma LogRecordsEachFailure(replies: seq<Reply>, retries: int, delay: nat)
    requires retries <= |replies|
    ensures var t := FetchWithRetries(replies, retries, delay);
      forall i :: 0 <= i < |t.log| ==>
        i < |replies| && Attempt(replies[i]).Fail? && t.log[i] == Failure(i + 1, Attempt(replies[i]).cause)
  {
    FetchMatchesExpected(replies, retries, delay);
  }

  /** The sum of a sequence of sleeps. */
  function Sum(s: seq<nat>): nat
  {
    if s == [] then 0 else s[0] + Sum(s[1..])
  }

  /** Twice the total of the sleeps after attempts `lo..hi-1`. */
  lemma {:induction false} BackoffSum(delay: nat, lo: nat, hi: nat)
    requires lo <= hi
    ensures 2 * Sum(Backoff(delay, lo, hi)) == delay * (hi * (hi + 1) - lo * (lo + 1))
    decreases hi - lo
  {
    if lo < hi {
      var s := Backoff(delay, lo, hi);
      assert s[1..] == Backoff(delay, lo + 1, hi);
      BackoffSum(delay, lo + 1, hi);
      calc {
        2 * Sum(s);
        2 * (delay * (lo + 1)) + 2 * Sum(Backoff(delay, lo + 1, hi));
        2 * (delay * (lo + 1)) + delay * (hi * (hi + 1) - (lo + 1) * (lo + 2));
        { assert (lo + 1) * (lo + 2) == lo * (lo + 1) + 2 * (lo + 1); }
        2 * (delay * (lo + 1)) + delay * (hi * (hi + 1) - lo * (lo + 1) - 2 * (lo + 1));
        delay * (hi * (hi + 1) - lo * (lo + 1));
      }
    }
  }

  /** Before a success at attempt `k` the routine sleeps
      `delay + 2*delay + ... + k*delay`, that is `delay * k * (k + 1) / 2` seconds. */
  lemma SleepBeforeSuccess(replies: seq<Reply>, retries: int, delay: nat, k: nat)
    requires retries <= |replies|
    requires k < retries
    requires Attempt(replies[k]).Ok?
    requires forall j :: 0 <= j < k ==> Attempt(replies[j]).Fail?
    ensures 2 * Sum(FetchWithRetries(replies, retries, delay).sleeps) == delay * k * (k + 1)
  {
    AttemptsSucceedAt(replies, retries, delay, 0, k);
    BackoffSum(delay, 0, k);
  }

  /** When all `n + 1` attempts fail the routine sleeps after the first `n`
      only, `delay * n * (n + 1) / 2` seconds in all. */
  lemma SleepBeforeExhaustion(replies: seq<Reply>, n: nat, delay: nat)
    requires n < |replies|
    requires forall j :: 0 <= j <= n ==> Attempt(replies[j]).Fail?
    ensures 2 * Sum(FetchWithRetries(replies, n + 1, delay).sleeps) == delay * n * (n + 1)
  {
    AttemptsExhaust(replies, n + 1, delay, 0);
    BackoffSum(delay, 0, n);
  }

  /** The two replies make the attempt succeed or fail alike, with the same body
      on success. */
  predicate SameVerdict(a: Reply, b: Reply) {
    Attempt(a).Ok? == Attempt(b).Ok? && (Attempt(a).Ok? ==> Attempt(a).text == Attempt(b).text)
  }

  /** An error status is handled exactly like a transport error: what the routine
      does (requests, sleeps, which attempts are logged, the body returned,
      whether it raises) depends only on which attempts fail, never on why. */
  lemma {:induction false} CauseDoesNotSteer(r1: seq<Reply>, r2: seq<Reply>, retries: nat, delay: nat, attempt: nat)
    requires attempt < retries <= |r1| && retries <= |r2|
    requires forall j :: attempt <= j < retries ==> SameVerdict(r1[j], r2[j])
    ensures var t1, t2 := Attempts(r1, retries, delay, attempt), Attempts(r2, retries, delay, attempt);
      && t1.requests == t2.requests
      && t1.sleeps == t2.sleeps
      && |t1.log| == |t2.log|
      && (forall i :: 0 <= i < |t1.log| ==> t1.log[i].attempt == t2.log[i].attempt)
      && (t1.result.Returned? <==> t2.result.Returned?)
      && (t1.result.Returned? ==> t1.result == t2.result)
    decreases retries - attempt
  {
    assert SameVerdict(r1[attempt], r2[attempt]);
    if Attempt(r1[attempt]).Fail? && attempt < retries - 1 {
      CauseDoesNotSteer(r1, r2, retries, delay, attempt + 1);
    }
  }

  /** `CauseDoesNotSteer` for the whole call: for instance, a `503` response in
      place of a refused connection changes only the exception that is logged
      or re-raised. */
  lemma StatusHandledLikeTransportError(r1: seq<Reply>, r2: seq<Reply>, retries: int, delay: nat)
    requires retries <= |r1| && retries <= |r2|
    requires forall j :: 0 <= j < retries ==> SameVerdict(r1[j], r2[j])
    ensures var t1, t2 := FetchWithRetries(r1, retries, delay), FetchWithRetries(r2, retries, delay);
      && t1.requests == t2.requests
      && t1.sleeps == t2.sleeps
      && |t1.log| == |t2.log|
      && (forall i :: 0 <= i < |t1.log| ==> t1.log[i].attempt == t2.log[i].attempt)
      && (t1.result.Raised? <==> t2.result.Raised?)
      && (t1.result.Returned? ==> t1.result == t2.result)
  {
    if retries > 0 {
      CauseDoesNotSteer(r1, r2, retries, delay, 0);
    }
  }

  /** Three attempts two seconds apart: a timeout, a 503, then a page. Two
      sleeps of 2 and 4 seconds, three requests, and the page is returned. */
  lemma FailFailSucceedScenario()
    ensures FetchWithRetries([ConnectionFailure("timed out"), Response(503, ""), Response(200, "<html>")], 3, 2)
         == Trace(3, [2, 4], [Failure(1, RequestError("timed out")), Failure(2, HttpError(503))], Returned("<html>"))
  {
  }

  /** A single attempt that gets a 404: no sleep, one request, and the
      `HTTPError` itself is raised. */
  lemma SingleFailureScenario()
    ensures FetchWithRetries([Response(404, "Not Found")], 1, 2)
         == Trace(1, [], [Failure(1, HttpError(404))], Raised(HttpError(404)))
  {
  }

  // ---------------------------------------------------------------------------
  // The loop as written
  // ---------------------------------------------------------------------------

  /** `fetch_data_with_retries` as the Python loop runs it, one attempt per
      iteration, returning from inside the loop on success or on the last
      failure. */
  method FetchLoop(replies: seq<Reply>, retries: int, delay: nat) returns (t: Trace)
    requires retries <= |replies|
    ensures t == FetchWithRetries(replies, retries, delay)
  {
    var sleeps: seq<nat> := [];
    var log: seq<Failure> := [];
    var attempt: nat := 0;
    while attempt < retries
      invariant retries > 0 ==> attempt < retries
      invariant retries <= 0 ==> attempt == 0
      invariant forall j :: 0 <= j < attempt ==> Attempt(replies[j]).Fail?
      invariant sleeps == Backoff(delay, 0, attempt)
      invariant log == FailureLog(replies, 0, attempt)
    {
      match Attempt(replies[attempt])
      case Ok(text) =>
        AttemptsSucceedAt(replies, retries, delay, 0, attempt);
        return Trace(attempt + 1, sleeps, log, Returned(text));
      case Fail(cause) =>
        log := log + [Failure(attempt + 1, cause)];
        if attempt < retries - 1 {
          sleeps := sleeps + [delay * (attempt + 1)];
        } else {
          AttemptsExhaust(replies, retries, delay, 0);
          return Trace(attempt + 1, sleeps, log, Raised(cause));
        }
      attempt := attempt + 1;
    }
    t := Trace(0, [], [], FellThrough);
  }
}
