/** `fetchData`: one remote call with exponential backoff on the
    spreadsheet service's rate-limit error.

    The transport is abstract: `net(k)` is what the request made with retry
    counter `k` ends in — an exception (network failure, unparsable body),
    or a reply with its HTTP `ok` flag, status code and parsed body.
    Delays are returned as values instead of being slept. */
module Gateway {
  import opened Text
  import opened Records

  datatype Response = Thrown(error: string) | Replied(ok: bool, status: nat, body: Body)

  /** A call is retried while the counter is below this. */
  const MaxRetries: nat := 5
  const RateLimitText: string := "Service invoked too many times"
  const BusyMessage: string := "Service too busy"
  /** Prefix of the fallback message of a non-OK reply without a message. */
  const HttpErrorPrefix: string := "שגיאת שרת HTTP: "

  function Pow2(n: nat): (p: nat)
    ensures p >= 1
  {
    if n == 0 then 1 else 2 * Pow2(n - 1)
  }

  /** `Math.pow(2, retries) * 1000` milliseconds. */
  function BackoffDelay(retries: nat): nat
  {
    Pow2(retries) * 1000
  }

  /** A failed body whose message mentions the rate limit. */
  predicate IsRateLimited(b: Body)
  {
    !b.success && b.message != "" && Contains(b.message, RateLimitText)
  }

  predicate RateLimitedReply(r: Response)
  {
    r.Replied? && r.ok && IsRateLimited(r.body)
  }

  datatype Decision = Return(result: Body) | RetryAfter(delay: nat)

  /** What one response makes `fetchData` do. A retry is only ever decided
      below the cap, after the backoff delay for the current counter. */
  function Decide(r: Response, retries: nat): (d: Decision)
    ensures d.RetryAfter? <==> RateLimitedReply(r) && retries < MaxRetries
    ensures d.RetryAfter? ==> d.delay == BackoffDelay(retries)
  {
    match r
    case Thrown(error) => Return(FailureBody(error))
    case Replied(ok, status, body) =>
      if !ok then
        Return(FailureBody(if body.message != "" then body.message else HttpErrorPrefix + NatToString(status)))
      else if IsRateLimited(body) then
        if retries < MaxRetries then RetryAfter(BackoffDelay(retries)) else Return(FailureBody(BusyMessage))
      else Return(body)
  }

  /** The value a call returns, how many requests it made, and the delays
      it waited between them. */
  datatype Fetched = Fetched(result: Body, requests: nat, delays: seq<nat>)

  /** The recursive `fetchData(action, params, retries)`: one request, and
      another one after the backoff delay when the response calls for a
      retry. At most `MaxRetries - retries + 1` requests are made, and one
      delay separates each two of them. */
  function Fetch(net: nat -> Response, retries: nat): (f: Fetched)
    ensures f.requests >= 1 && |f.delays| == f.requests - 1
    ensures retries <= MaxRetries ==> f.requests <= MaxRetries - retries + 1
    ensures retries > MaxRetries ==> f.requests == 1
    decreases MaxRetries - retries
  {
    match Decide(net(retries), retries)
    case Return(result) => Fetched(result, 1, [])
    case RetryAfter(delay) =>
      var rest := Fetch(net, retries + 1);
      Fetched(rest.result, rest.requests + 1, [delay] + rest.delays)
  }

  /** The retry recursion as a loop over the retry counter. */
  method FetchData(net: nat -> Response, retries: nat) returns (result: Body, requests: nat, delays: seq<nat>)
    ensures Fetched(result, requests, delays) == Fetch(net, retries)
  {
    var counter := retries;
    requests, delays := 0, [];
    while true
      invariant counter == retries + requests
      invariant Fetch(net, retries).result == Fetch(net, counter).result
      invariant Fetch(net, retries).requests == requests + Fetch(net, counter).requests
      invariant Fetch(net, retries).delays == delays + Fetch(net, counter).delays
      decreases MaxRetries - counter
    {
      var decision := Decide(net(counter), counter);
      FetchStep(net, counter);
      if decision.Return? {
        assert Fetch(net, counter) == Fetched(decision.result, 1, []);
        result, requests := decision.result, requests + 1;
        assert delays + [] == delays;
        return;
      }
      ghost var rest := Fetch(net, counter + 1);
      assert Fetch(net, counter) == Fetched(rest.result, rest.requests + 1, [decision.delay] + rest.delays);
      assert (delays + [decision.delay]) + rest.delays == delays + ([decision.delay] + rest.delays);
      requests, delays := requests + 1, delays + [decision.delay];
      counter := counter + 1;
    }
  }

  /** One unfolding of `Fetch`. */
  lemma FetchStep(net: nat -> Response, retries: nat)
    ensures var f := Fetch(net, retries);
            match Decide(net(retries), retries)
            case Return(result) => f == Fetched(result, 1, [])
            case RetryAfter(delay) =>
              var rest := Fetch(net, retries + 1);
              f == Fetched(rest.result, rest.requests + 1, [delay] + rest.delays)
  {
  }

  /** Rate-limit errors on the requests with counters `retries` up to
      `end - 1` are each retried after the backoff delay while the counter
      stays below the cap. */
  lemma {:induction false} RetriedWhileRateLimited(net: nat -> Response, retries: nat, end: nat)
    requires retries <= end <= MaxRetries
    requires forall k :: retries <= k < end ==> RateLimitedReply(net(k))
    ensures Fetch(net, retries).requests == (end - retries) + Fetch(net, end).requests
    ensures Fetch(net, retries).result == Fetch(net, end).result
    decreases end - retries
  {
    if retries < end {
      RetriedOnce(net, retries);
      RetriedWhileRateLimited(net, retries + 1, end);
    }
  }

  lemma RetriedOnce(net: nat -> Response, retries: nat)
    requires retries < MaxRetries && RateLimitedReply(net(retries))
    ensures Fetch(net, retries).requests == 1 + Fetch(net, retries + 1).requests
    ensures Fetch(net, retries).result == Fetch(net, retries + 1).result
  {
    assert Decide(net(retries), retries).RetryAfter?;
    FetchStep(net, retries);
  }

  /** Every request but the last was answered with the rate-limit error. */
  lemma {:induction false} RetriedOnlyWhenRateLimited(net: nat -> Response, retries: nat)
    ensures forall k :: retries <= k < retries + Fetch(net, retries).requests - 1 ==> RateLimitedReply(net(k))
    decreases MaxRetries - retries
  {
    FetchStep(net, retries);
    if Decide(net(retries), retries).RetryAfter? {
      RetriedOnlyWhenRateLimited(net, retries + 1);
    }
  }

  /** The delays waited are the backoff delays for the counters
      `retries`, `retries + 1`, ... of the requests that were retried. */
  lemma {:induction false} DelaysDouble(net: nat -> Response, retries: nat)
    ensures Fetch(net, retries).delays == Backoffs(retries, Fetch(net, retries).requests - 1)
    decreases MaxRetries - retries
  {
    FetchStep(net, retries);
    if Decide(net(retries), retries).RetryAfter? {
      DelaysDouble(net, retries + 1);
      var rest := Fetch(net, retries + 1);
      assert Fetch(net, retries).requests - 1 == rest.requests;
      assert Backoffs(retries, rest.requests) ==
             [BackoffDelay(retries)] + Backoffs(retries + 1, rest.requests - 1);
    }
  }

  /** The `n` backoff delays for counters `retries`, `retries + 1`, .... */
  function Backoffs(retries: nat, n: nat): (ds: seq<nat>)
    ensures |ds| == n
    ensures forall i :: 0 <= i < n ==> ds[i] == BackoffDelay(retries + i)
    decreases n
  {
    if n == 0 then [] else [BackoffDelay(retries)] + Backoffs(retries + 1, n - 1)
  }

  /** A call that keeps getting the rate-limit error makes six requests,
      waits 1, 2, 4, 8 and 16 seconds between them and gives up with
      "Service too busy". */
  lemma GivesUpWhenAlwaysRateLimited(net: nat -> Response)
    requires forall k :: 0 <= k <= MaxRetries ==> RateLimitedReply(net(k))
    ensures Fetch(net, 0) == Fetched(FailureBody(BusyMessage), 6, [1000, 2000, 4000, 8000, 16000])
  {
    RetriedWhileRateLimited(net, 0, MaxRetries);
    assert RateLimitedReply(net(MaxRetries));
    FetchStep(net, MaxRetries);
    assert Fetch(net, MaxRetries) == Fetched(FailureBody(BusyMessage), 1, []);
    var f := Fetch(net, 0);
    DelaysDouble(net, 0);
    assert f.delays[0] == BackoffDelay(0) == 1000;
    assert f.delays[1] == BackoffDelay(1) == 2000;
    assert f.delays[2] == BackoffDelay(2) == 4000;
    assert f.delays[3] == BackoffDelay(3) == 8000;
    assert f.delays[4] == BackoffDelay(4) == 16000;
  }

  /** With the first `n` replies rate-limited and the next one not (or
      `n` past the cap), a call from counter 0 retries `min(n, 5)` times. */
  lemma RetriesMinOfRateLimitedAndCap(net: nat -> Response, n: nat)
    requires forall k :: 0 <= k < n ==> RateLimitedReply(net(k))
    requires n <= MaxRetries ==> !RateLimitedReply(net(n))
    ensures var retried := if n < MaxRetries then n else MaxRetries;
            Fetch(net, 0).requests == retried + 1 &&
            Fetch(net, 0).delays == Backoffs(0, retried)
  {
    var retried := if n < MaxRetries then n else MaxRetries;
    RetriedWhileRateLimited(net, 0, retried);
    FetchStep(net, retried);
    assert Fetch(net, retried).requests == 1;
    DelaysDouble(net, 0);
  }

  /** Responses other than a rate-limited reply end the call at once:
      an exception becomes a failure carrying its message, a non-OK reply a
      failure with the body's message or the HTTP-status fallback, and any
      other body — failed or successful — is returned unchanged. */
  lemma NoRetryOtherwise(net: nat -> Response, retries: nat)
    requires !RateLimitedReply(net(retries))
    ensures Fetch(net, retries).requests == 1 && Fetch(net, retries).delays == []
    ensures net(retries).Thrown? ==> Fetch(net, retries).result == FailureBody(net(retries).error)
    ensures net(retries).Replied? && !net(retries).ok ==>
              var b := net(retries).body;
              Fetch(net, retries).result ==
                FailureBody(if b.message != "" then b.message else HttpErrorPrefix + NatToString(net(retries).status))
    ensures net(retries).Replied? && net(retries).ok ==> Fetch(net, retries).result == net(retries).body
  {
  }

  /** The result is what the last request's response decided. */
  lemma {:induction false} LastRequestDecides(net: nat -> Response, retries: nat)
    ensures var f := Fetch(net, retries);
            Decide(net(retries + f.requests - 1), retries + f.requests - 1) == Return(f.result)
    decreases MaxRetries - retries
  {
    FetchStep(net, retries);
    if Decide(net(retries), retries).RetryAfter? {
      LastRequestDecides(net, retries + 1);
      RetriedOnce(net, retries);
    }
  }

  /** A successful result is always the unchanged body of an OK reply; the
      gateway never fabricates success. */
  lemma SuccessComesFromReply(net: nat -> Response, retries: nat)
    requires Fetch(net, retries).result.success
    ensures exists k :: retries <= k && net(k).Replied? && net(k).ok && net(k).body == Fetch(net, retries).result
  {
    var f := Fetch(net, retries);
    var k := retries + f.requests - 1;
    LastRequestDecides(net, retries);
    SuccessfulDecision(net(k), k, f.result);
  }

  lemma SuccessfulDecision(r: Response, retries: nat, b: Body)
    requires Decide(r, retries) == Return(b) && b.success
    ensures r.Replied? && r.ok && r.body == b
  {
  }
}
