/**
 The retry engine (client.go, doRequest) against an arbitrary transport and
 server: what each attempt meets is given in advance.
 */
module Requests {
  import opened Basics
  import opened GoStrings
  import opened Strings
  import opened RetryAfter

  const MAX_ATTEMPTS := 3
  const MILLISECOND: Duration := 1_000_000

  const Post: Text := "POST"

  const UNAUTHORIZED := 401
  const TOO_MANY_REQUESTS := 429

  /**
   What an attempt meets: a transport error or a response. Either way the server
   may or may not have executed the request.
   */
  datatype Reply =
    | TransportError(executed: bool)
    | Response(status: int, retryAfter: Text, untilDate: Option<Duration>, executed: bool)

  /** One attempt, and whether the context is seen cancelled before it or in the sleep after it. */
  datatype Attempt = Attempt(cancelledBefore: bool, reply: Reply, cancelledInSleep: bool)

  /** What there is to send; anything but Usable is an error before the first attempt is sent. */
  datatype Setup = Usable | BadCredentials | BadBaseURL | UnreadableBody | BadRequest

  datatype Failure = Cancelled | RequestFailed | NotSent(reason: Setup)

  predicate ShouldRetry(httpMethod: Text, status: int, attempt: nat) {
    if status == UNAUTHORIZED then attempt == 0
    else if status == TOO_MANY_REQUESTS then true
    else if status >= 500 then httpMethod != Post
    else false
  }

  /** The reply asks for another attempt, were there one left. */
  predicate AsksRetry(httpMethod: Text, reply: Reply, attempt: nat) {
    match reply
    case TransportError(_) => httpMethod != Post
    case Response(status, _, _, _) => ShouldRetry(httpMethod, status, attempt)
  }

  function Backoff(attempt: nat): Duration {
    (attempt + 1) * 500 * MILLISECOND
  }

  function SleepAfter(reply: Reply, attempt: nat, limit: Duration): Duration {
    match reply
    case TransportError(_) => Backoff(attempt)
    case Response(_, header, untilDate, _) =>
      var d := RetryDelay(header, untilDate, limit);
      if d == 0 then Backoff(attempt) else d
  }

  /** Attempt j was followed by a sleep that ended and another attempt. */
  ghost predicate Retried(httpMethod: Text, a: Attempt, j: nat) {
    !a.cancelledBefore && AsksRetry(httpMethod, a.reply, j) && j + 1 < MAX_ATTEMPTS && !a.cancelledInSleep
  }

  /** The first n attempts were all retried. */
  ghost predicate AllRetried(httpMethod: Text, env: seq<Attempt>, n: int)
    requires n <= |env|
  {
    n > 0 ==> AllRetried(httpMethod, env, n - 1) && Retried(httpMethod, env[n - 1], n - 1)
  }

  lemma {:induction false} RetriedAt(httpMethod: Text, env: seq<Attempt>, n: nat, j: nat)
    requires j < n <= |env| && AllRetried(httpMethod, env, n)
    ensures AllRetried(httpMethod, env, j) && Retried(httpMethod, env[j], j)
  {
    if j < n - 1 {
      RetriedAt(httpMethod, env, n - 1, j);
    }
  }

  /** The sleeps after the first n attempts. */
  ghost function SleepsOf(env: seq<Attempt>, n: int, limit: Duration): seq<Duration>
    requires n <= |env|
  {
    if n <= 0 then [] else SleepsOf(env, n - 1, limit) + [SleepAfter(env[n - 1].reply, n - 1, limit)]
  }

  /** The attempts that received a response, in order. */
  ghost function Responses(env: seq<Attempt>, n: nat): seq<nat>
    requires n <= |env|
  {
    if n == 0 then [] else Responses(env, n - 1) + if env[n - 1].reply.Response? then [n - 1] else []
  }

  /** Nothing is sent: a request cannot be built only after the context was found open. */
  ghost predicate Unsendable(setup: Setup, env: seq<Attempt>)
    requires |env| == MAX_ATTEMPTS
  {
    !setup.Usable? && (setup.BadRequest? ==> !env[0].cancelledBefore)
  }

  /** How a call that sent a number of attempts ends. */
  ghost predicate Ends(setup: Setup, httpMethod: Text, env: seq<Attempt>, sent: nat, resp: Option<nat>, err: Option<Failure>)
    requires |env| == MAX_ATTEMPTS && sent <= MAX_ATTEMPTS
  {
    if Unsendable(setup, env) then sent == 0 && resp == None && err == Some(NotSent(setup))
    else Finishes(httpMethod, env, sent, resp, err)
  }

  ghost predicate Finishes(httpMethod: Text, env: seq<Attempt>, sent: nat, resp: Option<nat>, err: Option<Failure>)
    requires |env| == MAX_ATTEMPTS && sent <= MAX_ATTEMPTS
  {
    match err
    case Some(NotSent(_)) => false
    case None =>
      // the last response is returned: it asks for no retry, or no attempt is left
      && sent > 0 && resp == Some(sent - 1) && env[sent - 1].reply.Response?
      && !env[sent - 1].cancelledBefore
      && (sent < MAX_ATTEMPTS ==> !AsksRetry(httpMethod, env[sent - 1].reply, sent - 1))
    case Some(RequestFailed) =>
      && resp == None && sent > 0 && env[sent - 1].reply.TransportError? && !env[sent - 1].cancelledBefore
      && (httpMethod == Post || sent == MAX_ATTEMPTS)
    case Some(Cancelled) =>
      // seen before the next attempt, or in the sleep after the last one
      && resp == None
      && ((sent < MAX_ATTEMPTS && env[sent].cancelledBefore && (sent > 0 ==> Retried(httpMethod, env[sent - 1], sent - 1)))
          || (0 < sent < MAX_ATTEMPTS && !env[sent - 1].cancelledBefore && env[sent - 1].cancelledInSleep
              && AsksRetry(httpMethod, env[sent - 1].reply, sent - 1)))
  }

  /** Sleeps of a call: one after every attempt that was to be followed by another. */
  ghost function Slept(sent: nat, err: Option<Failure>): int {
    if err == Some(Cancelled) then sent else sent - 1
  }

  method DoRequest(setup: Setup, httpMethod: Text, maxRetryAfter: Duration, env: seq<Attempt>)
    returns (resp: Option<nat>, err: Option<Failure>, sent: nat, closed: seq<nat>, sleeps: seq<Duration>)
    requires |env| == MAX_ATTEMPTS
    ensures resp.Some? <==> err.None?
    ensures sent <= MAX_ATTEMPTS && AllRetried(httpMethod, env, sent - 1)
    ensures Ends(setup, httpMethod, env, sent, resp, err)
    ensures Responses(env, sent) == closed + if resp.Some? then [resp.value] else []
    ensures Slept(sent, err) < MAX_ATTEMPTS && sleeps == SleepsOf(env, Slept(sent, err), maxRetryAfter)
  {
    var lastErr: Option<Failure> := None;
    resp, err, closed, sleeps := None, None, [], [];
    sent := 0;
    if setup.BadCredentials? || setup.BadBaseURL? || setup.UnreadableBody? {
      err := Some(NotSent(setup));
      return;
    }
    for attempt := 0 to MAX_ATTEMPTS
      invariant sent == attempt && resp == None
      invariant attempt > 0 ==> !Unsendable(setup, env)
      invariant AllRetried(httpMethod, env, attempt)
      invariant closed == Responses(env, attempt)
      invariant sleeps == SleepsOf(env, attempt, maxRetryAfter)
    {
      if env[attempt].cancelledBefore {
        err := Some(Cancelled);
        return;
      }
      if setup.BadRequest? {
        err := Some(NotSent(setup));
        return;
      }
      var reply := env[attempt].reply;
      sent := sent + 1;
      if reply.TransportError? {
        lastErr := Some(RequestFailed);
      }
      if !AsksRetry(httpMethod, reply, attempt) || attempt == MAX_ATTEMPTS - 1 {
        resp := if reply.TransportError? then None else Some(attempt);
        err := if reply.TransportError? then lastErr else None;
        return;
      }
      if reply.Response? {
        closed := closed + [attempt];
      }
      sleeps := sleeps + [SleepAfter(reply, attempt, maxRetryAfter)];
      if env[attempt].cancelledInSleep {
        err := Some(Cancelled);
        return;
      }
    }
    // the last attempt is never retried
    assert false;
    err := lastErr;
  }

  // ---- Which attempts are retried, and after which sleep

  /**
   A sent attempt is followed by another, or by a cancelled wait for one, exactly
   when it is one of the first two and failed in transport without being a POST,
   was answered 429, was the first and was answered 401, or was answered 500 or
   more without being a POST.
   */
  lemma RetriedIff(setup: Setup, httpMethod: Text, env: seq<Attempt>, sent: nat, resp: Option<nat>, err: Option<Failure>, j: nat)
    requires |env| == MAX_ATTEMPTS && j < sent <= MAX_ATTEMPTS
    requires AllRetried(httpMethod, env, sent - 1) && Ends(setup, httpMethod, env, sent, resp, err)
    ensures j < sent - 1 || err == Some(Cancelled) <==>
            && j < 2
            && match env[j].reply
               case TransportError(_) => httpMethod != "POST"
               case Response(status, _, _, _) =>
                 status == 429 || (status == 401 && j == 0) || (status >= 500 && httpMethod != "POST")
  {
    if j < sent - 1 {
      RetriedAt(httpMethod, env, sent - 1, j);
    }
  }

  /** What cannot be sent is an error, and nothing is sent. */
  lemma UnusableSendsNothing(setup: Setup, httpMethod: Text, env: seq<Attempt>, sent: nat, resp: Option<nat>, err: Option<Failure>)
    requires |env| == MAX_ATTEMPTS && sent <= MAX_ATTEMPTS
    requires AllRetried(httpMethod, env, sent - 1) && Ends(setup, httpMethod, env, sent, resp, err)
    requires setup != Usable
    ensures sent == 0 && resp == None
    ensures err == Some(if setup.BadRequest? && env[0].cancelledBefore then Cancelled else NotSent(setup))
  {
    if sent > 1 {
      RetriedAt(httpMethod, env, sent - 1, 0);
    }
  }

  lemma {:induction false} ResponsesIff(env: seq<Attempt>, n: nat)
    requires n <= |env|
    ensures forall j: nat :: j in Responses(env, n) <==> j < n && env[j].reply.Response?
    ensures forall i, j | 0 <= i < j < |Responses(env, n)| :: Responses(env, n)[i] < Responses(env, n)[j]
  {
    if n > 0 {
      var before := Responses(env, n - 1);
      ResponsesIff(env, n - 1);
      forall i | 0 <= i < |before|
        ensures before[i] < n - 1
      {
        assert before[i] in before;
      }
    }
  }

  /** Every response that is received is closed, once, except the one that is returned. */
  lemma ClosedIff(env: seq<Attempt>, sent: nat, resp: Option<nat>, closed: seq<nat>)
    requires sent <= |env| && Responses(env, sent) == closed + if resp.Some? then [resp.value] else []
    ensures forall j: nat :: j in closed <==> j < sent && env[j].reply.Response? && resp != Some(j)
    ensures forall i, j | 0 <= i < j < |closed| :: closed[i] != closed[j]
  {
    ResponsesIff(env, sent);
    var all := Responses(env, sent);
    assert forall i | 0 <= i < |closed| :: closed[i] == all[i];
    if resp.Some? {
      assert all[|closed|] == resp.value;
      assert resp.value !in closed;
    }
    assert forall j: nat :: j in all <==> j in closed || resp == Some(j);
  }

  /** No attempt is sent, and no wait for one ends, once a cancellation is seen; and only then is the call cancelled. */
  lemma CancellationStops(setup: Setup, httpMethod: Text, env: seq<Attempt>, sent: nat, resp: Option<nat>, err: Option<Failure>)
    requires |env| == MAX_ATTEMPTS && sent <= MAX_ATTEMPTS
    requires AllRetried(httpMethod, env, sent - 1) && Ends(setup, httpMethod, env, sent, resp, err)
    ensures forall j | 0 <= j < sent :: !env[j].cancelledBefore
    ensures forall j | 0 <= j < sent - 1 :: !env[j].cancelledInSleep
    ensures err == Some(Cancelled) ==>
              || (sent < 3 && env[sent].cancelledBefore)
              || (0 < sent < 3 && env[sent - 1].cancelledInSleep)
  {
    forall j | 0 <= j < sent - 1
      ensures !env[j].cancelledBefore && !env[j].cancelledInSleep
    {
      RetriedAt(httpMethod, env, sent - 1, j);
    }
  }

  /** A response that is returned while attempts are left asks for no retry. */
  lemma ReturnedStatus(setup: Setup, httpMethod: Text, env: seq<Attempt>, sent: nat, resp: Option<nat>, err: Option<Failure>)
    requires |env| == MAX_ATTEMPTS && sent <= MAX_ATTEMPTS
    requires AllRetried(httpMethod, env, sent - 1) && Ends(setup, httpMethod, env, sent, resp, err)
    requires resp.Some?
    ensures resp.value < 3 && env[resp.value].reply.Response?
    ensures resp.value + 1 < 3 ==>
              var status := env[resp.value].reply.status;
              && status != 429 && (resp.value == 0 ==> status != 401)
              && (status >= 500 ==> httpMethod == "POST")
  {
    RetriedIff(setup, httpMethod, env, sent, resp, err, resp.value);
  }

  lemma SleepsAt(env: seq<Attempt>, n: nat, limit: Duration, j: nat)
    requires j < n <= |env|
    ensures |SleepsOf(env, n, limit)| == n && SleepsOf(env, n, limit)[j] == SleepAfter(env[j].reply, j, limit)
  {
    if n > 1 {
      var before := SleepsOf(env, n - 1, limit);
      if j < n - 1 {
        SleepsAt(env, n - 1, limit, j);
      } else {
        SleepsAt(env, n - 1, limit, 0);
      }
    }
  }

  /**
   The sleep after attempt j: what a decimal Retry-After asks for, up to the
   limit; half a second times j + 1 when the header is missing or says zero, and
   after a transport error; the time left until an HTTP date, up to the limit.
   */
  lemma SleepIsDetermined(env: seq<Attempt>, n: nat, limit: Duration, j: nat)
    requires j < n <= |env| && 0 < limit < TWO_TO_63
    ensures |SleepsOf(env, n, limit)| == n
    ensures env[j].reply.TransportError? ==> SleepsOf(env, n, limit)[j] == (j + 1) * 500_000_000
    ensures env[j].reply.Response? && env[j].reply.retryAfter == "" ==> SleepsOf(env, n, limit)[j] == (j + 1) * 500_000_000
    ensures env[j].reply.Response? && env[j].reply.retryAfter != "" && AllDigits(env[j].reply.retryAfter) ==>
              SleepsOf(env, n, limit)[j] ==
              if Value(env[j].reply.retryAfter) == 0 then (j + 1) * 500_000_000
              else Min(Value(env[j].reply.retryAfter) * 1_000_000_000, limit)
    ensures env[j].reply.Response? && NotANumber(env[j].reply.retryAfter) ==>
              SleepsOf(env, n, limit)[j] ==
              match env[j].reply.untilDate
              case None => (j + 1) * 500_000_000
              case Some(left) => if left <= 0 then (j + 1) * 500_000_000 else Min(left, limit)
  {
    SleepsAt(env, n, limit, j);
    if env[j].reply.Response? {
      var v, untilDate := env[j].reply.retryAfter, env[j].reply.untilDate;
      if v != "" && AllDigits(v) {
        DelayOfDecimal(v, untilDate, limit);
      }
      if NotANumber(v) {
        DelayOfDate(v, untilDate, limit);
      }
    }
  }

  // ---- What a run of attempts can be

  /** What the attempts meet determines how many are sent and what is returned. */
  lemma OutcomeIsDetermined(setup: Setup, httpMethod: Text, env: seq<Attempt>, m: nat, resp: Option<nat>, err: Option<Failure>,
                            n: nat, resp': Option<nat>, err': Option<Failure>)
    requires |env| == MAX_ATTEMPTS && m <= MAX_ATTEMPTS && n <= MAX_ATTEMPTS
    requires AllRetried(httpMethod, env, m - 1)
    requires AllRetried(httpMethod, env, n - 1)
    requires Ends(setup, httpMethod, env, m, resp, err) && Ends(setup, httpMethod, env, n, resp', err')
    ensures m == n && resp == resp' && err == err'
  {
    if m < n {
      EndsAreFinal(setup, httpMethod, env, m, resp, err, n, resp', err');
    } else if n < m {
      EndsAreFinal(setup, httpMethod, env, n, resp', err', m, resp, err);
    }
  }

  /** A call that ended after m attempts did not go on. */
  lemma EndsAreFinal(setup: Setup, httpMethod: Text, env: seq<Attempt>, m: nat, resp: Option<nat>, err: Option<Failure>,
                     n: nat, resp': Option<nat>, err': Option<Failure>)
    requires |env| == MAX_ATTEMPTS && m <= MAX_ATTEMPTS && n <= MAX_ATTEMPTS
    requires AllRetried(httpMethod, env, n - 1)
    requires Ends(setup, httpMethod, env, m, resp, err) && Ends(setup, httpMethod, env, n, resp', err')
    ensures n <= m
  {
    if 0 < m < n {
      RetriedAt(httpMethod, env, n - 1, m - 1);
    }
    if m < n - 1 {
      RetriedAt(httpMethod, env, n - 1, m);
    }
  }

  /** At most one retry is caused by a 401. */
  lemma OneUnauthorizedRetry(httpMethod: Text, env: seq<Attempt>, sent: nat, i: nat, j: nat)
    requires |env| == MAX_ATTEMPTS && sent <= MAX_ATTEMPTS
    requires AllRetried(httpMethod, env, sent - 1)
    requires i < sent - 1 && j < sent - 1
    requires env[i].reply.Response? && env[i].reply.status == UNAUTHORIZED
    requires env[j].reply.Response? && env[j].reply.status == UNAUTHORIZED
    ensures i == j == 0
  {
    RetriedAt(httpMethod, env, sent - 1, i);
    RetriedAt(httpMethod, env, sent - 1, j);
  }

  ghost function Total(sleeps: seq<Duration>): Duration {
    if sleeps == [] then 0 else Total(sleeps[..|sleeps| - 1]) + sleeps[|sleeps| - 1]
  }

  lemma SleepIsBounded(reply: Reply, attempt: nat, limit: Duration)
    requires 0 < limit < TWO_TO_63
    ensures 0 < SleepAfter(reply, attempt, limit) <= Max(limit, Backoff(attempt))
  {
    if reply.Response? {
      DelayIsBounded(reply.retryAfter, reply.untilDate, limit);
    }
  }

  /** The sleeps of one call add up to at most max(M, 500 ms) + max(M, 1 s). */
  lemma TotalSleepBounded(env: seq<Attempt>, n: nat, limit: Duration)
    requires 0 < limit < TWO_TO_63 && n < MAX_ATTEMPTS && n <= |env|
    ensures 0 <= Total(SleepsOf(env, n, limit)) <= Max(limit, 500_000_000) + Max(limit, 1_000_000_000)
  {
    if n > 0 {
      SleepIsBounded(env[0].reply, 0, limit);
      TotalSnoc(SleepsOf(env, 0, limit), SleepAfter(env[0].reply, 0, limit));
    }
    if n > 1 {
      SleepIsBounded(env[1].reply, 1, limit);
      TotalSnoc(SleepsOf(env, 1, limit), SleepAfter(env[1].reply, 1, limit));
    }
  }

  lemma TotalSnoc(sleeps: seq<Duration>, d: Duration)
    ensures Total(sleeps + [d]) == Total(sleeps) + d
  {
    assert (sleeps + [d])[..|sleeps|] == sleeps;
  }

  // ---- A retried call refines one atomic call

  /** The server state after the first n attempts of a call whose request does step. */
  ghost function StateAfter<S>(step: S -> S, s: S, env: seq<Attempt>, n: nat): S
    requires n <= |env|
  {
    if n == 0 then s
    else
      var before := StateAfter(step, s, env, n - 1);
      if env[n - 1].reply.executed then step(before) else before
  }

  ghost function TimesExecuted(env: seq<Attempt>, n: nat): nat
    requires n <= |env|
  {
    if n == 0 then 0 else TimesExecuted(env, n - 1) + if env[n - 1].reply.executed then 1 else 0
  }

  /** 401 and 429 mean that the request was not executed. */
  ghost predicate RefusalsNotExecuted(env: seq<Attempt>) {
    forall a <- env ::
      a.reply.Response? && (a.reply.status == UNAUTHORIZED || a.reply.status == TOO_MANY_REQUESTS) ==> !a.reply.executed
  }

  ghost predicate Idempotent<S(!new)>(step: S -> S) {
    forall s :: step(step(s)) == step(s)
  }

  /** Every POST attempt but the last was answered 401 or 429, hence not executed. */
  lemma {:induction false} PostRetriesNotExecuted(env: seq<Attempt>, sent: nat, n: nat)
    requires |env| == MAX_ATTEMPTS && n < sent <= MAX_ATTEMPTS
    requires AllRetried(Post, env, sent - 1)
    requires RefusalsNotExecuted(env)
    ensures forall j | 0 <= j < n ::
              env[j].reply.Response? && (env[j].reply.status == UNAUTHORIZED || env[j].reply.status == TOO_MANY_REQUESTS)
    ensures TimesExecuted(env, n) == 0
  {
    if n > 0 {
      PostRetriesNotExecuted(env, sent, n - 1);
      RetriedAt(Post, env, sent - 1, n - 1);
      assert env[n - 1] in env;
    }
  }

  lemma {:induction false} StateUnchanged<S>(step: S -> S, s: S, env: seq<Attempt>, n: nat)
    requires n <= |env| && TimesExecuted(env, n) == 0
    ensures StateAfter(step, s, env, n) == s
  {
    if n > 0 {
      StateUnchanged(step, s, env, n - 1);
    }
  }

  lemma {:induction false} StateStepped<S(!new)>(step: S -> S, s: S, env: seq<Attempt>, n: nat)
    requires n <= |env| && Idempotent(step)
    ensures StateAfter(step, s, env, n) == if TimesExecuted(env, n) == 0 then s else step(s)
  {
    if n > 0 {
      StateStepped(step, s, env, n - 1);
    }
  }

  /**
   For any transport and server that obey the protocol, a call leaves the server
   as if the request had been executed at most once, and exactly once when a
   response that says so is returned; a POST really is executed at most once.
   */
  lemma RetriedCallIsAtomic<S(!new)>(setup: Setup, httpMethod: Text, env: seq<Attempt>, sent: nat, resp: Option<nat>, err: Option<Failure>,
                                     step: S -> S, s: S)
    requires |env| == MAX_ATTEMPTS && sent <= MAX_ATTEMPTS
    requires AllRetried(httpMethod, env, sent - 1)
    requires Ends(setup, httpMethod, env, sent, resp, err)
    requires RefusalsNotExecuted(env) && (httpMethod != Post ==> Idempotent(step))
    ensures StateAfter(step, s, env, sent) == if TimesExecuted(env, sent) == 0 then s else step(s)
    ensures httpMethod == Post ==> TimesExecuted(env, sent) <= 1
    ensures resp.Some? && env[resp.value].reply.executed ==> StateAfter(step, s, env, sent) == step(s)
  {
    if httpMethod == Post {
      if sent > 0 {
        PostRetriesNotExecuted(env, sent, sent - 1);
        StateUnchanged(step, s, env, sent - 1);
      }
    } else {
      StateStepped(step, s, env, sent);
    }
  }
}
