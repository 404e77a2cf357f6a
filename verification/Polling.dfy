/** Waiting for a firewall to settle (utils.go, waitForCondition; firewall.go, WaitForFirewallReady). */
module Polling {
  import opened Basics
  import opened GoStrings
  import opened RetryAfter
  import opened Requests
  import StatusProtocol

  const MAX_POLLS := 30
  const MIN_DELAY: Duration := 2 * SECOND
  const MAX_DELAY: Duration := 30 * SECOND

  const Get: Text := "GET"

  // ---- The condition of WaitForFirewallReady

  datatype Verdict = Ready | Error | NotReady

  /** What a poll meets: what there is to send, its attempts, whether a 2xx body decodes, and the status it holds. */
  datatype Reading = Reading(setup: Setup, attempts: seq<Attempt>, decodes: bool, status: Text)

  /** What the answer means: any error fails the wait, any status but "in process" is ready. */
  ghost function Judged(p: Reading, resp: Option<nat>): Verdict
    requires resp.Some? ==> resp.value < |p.attempts| && p.attempts[resp.value].reply.Response?
  {
    if resp.None? then Error
    else
      var status := p.attempts[resp.value].reply.status;
      if status < 200 || status >= 300 || !p.decodes then Error
      else if p.status == StatusProtocol.InProcess then NotReady
      else Ready
  }

  ghost predicate Answers(p: Reading, verdict: Verdict, sent: nat, resp: Option<nat>, err: Option<Failure>) {
    && |p.attempts| == MAX_ATTEMPTS && sent <= MAX_ATTEMPTS
    && AllRetried("GET", p.attempts, sent - 1)
    && Ends(p.setup, "GET", p.attempts, sent, resp, err)
    && verdict == Judged(p, resp)
  }

  ghost predicate Reads(p: Reading, verdict: Verdict, sent: nat) {
    exists resp, err :: Answers(p, verdict, sent, resp, err)
  }

  /** The verdict and the number of requests are determined by what the attempts meet. */
  lemma ReadingIsDetermined(p: Reading, verdict: Verdict, sent: nat, verdict': Verdict, sent': nat)
    requires Reads(p, verdict, sent) && Reads(p, verdict', sent')
    ensures verdict == verdict' && sent == sent'
  {
    var resp, err :| Answers(p, verdict, sent, resp, err);
    var resp', err' :| Answers(p, verdict', sent', resp', err');
    OutcomeIsDetermined(p.setup, Get, p.attempts, sent, resp, err, sent', resp', err');
  }

  /**
   A poll is ready when its last attempt was answered by a 2xx configuration that
   decodes and is not in process, not ready when it is in process, and an error
   in every other case.
   */
  lemma VerdictIff(p: Reading, verdict: Verdict, sent: nat)
    requires Reads(p, verdict, sent)
    ensures sent <= |p.attempts|
    ensures var settled := sent > 0 && p.attempts[sent - 1].reply.Response? && 200 <= p.attempts[sent - 1].reply.status < 300 && p.decodes;
            && (verdict.Ready? <==> settled && p.status != "in process")
            && (verdict.NotReady? <==> settled && p.status == "in process")
            && (verdict.Error? <==> !settled)
  {
    var resp, err :| Answers(p, verdict, sent, resp, err);
    if resp.None? && sent > 0 {
      RetriedIff(p.setup, Get, p.attempts, sent, resp, err, sent - 1);
    }
  }

  method CheckReady(p: Reading, maxRetryAfter: Duration) returns (verdict: Verdict, sent: nat)
    requires |p.attempts| == MAX_ATTEMPTS
    ensures Reads(p, verdict, sent)
  {
    var resp, err, closed, sleeps;
    resp, err, sent, closed, sleeps := DoRequest(p.setup, Get, maxRetryAfter, p.attempts);
    assert Answers(p, Judged(p, resp), sent, resp, err);
    if resp.None? {
      return Error, sent;
    }
    var status := p.attempts[resp.value].reply.status;
    if status < 200 || status >= 300 || !p.decodes {
      return Error, sent;
    }
    verdict := if p.status != StatusProtocol.InProcess then Ready else NotReady;
  }

  // ---- The waiting loop

  /** One turn of the loop: what its poll yields, and whether cancellation is seen before the poll or in the wait after it. */
  datatype Turn = Turn(cancelledBefore: bool, verdict: Verdict, sent: nat, cancelledInWait: bool)

  datatype Result = Success | Cancelled | ConditionError | Timeout

  function Doubled(delay: Duration): Duration {
    if 2 * delay > MAX_DELAY then MAX_DELAY else 2 * delay
  }

  /** The i-th delay: doubled from two seconds, capped at thirty. */
  ghost function DelayAt(i: nat): Duration {
    if i == 0 then MIN_DELAY else Doubled(DelayAt(i - 1))
  }

  ghost function Pow2(i: nat): nat {
    if i == 0 then 1 else 2 * Pow2(i - 1)
  }

  lemma {:induction false} DelayIsCappedPower(i: nat)
    ensures DelayAt(i) == Min(2 * Pow2(i) * 1_000_000_000, 30_000_000_000)
  {
    if i > 0 {
      DelayIsCappedPower(i - 1);
    }
  }

  ghost function Waited(n: nat): Duration {
    if n == 0 then 0 else Waited(n - 1) + DelayAt(n - 1)
  }

  lemma {:induction false} WaitedInTotal(n: nat)
    ensures n >= 4 ==> Waited(n) == (n - 4) * MAX_DELAY + 30 * SECOND && DelayAt(n) == MAX_DELAY
    ensures n < 4 ==> Waited(n) <= 30 * SECOND
  {
    if n <= 4 {
      assert DelayAt(0) == 2 * SECOND && DelayAt(1) == 4 * SECOND && DelayAt(2) == 8 * SECOND;
      assert DelayAt(3) == 16 * SECOND && DelayAt(4) == 30 * SECOND;
      assert Waited(1) == 2 * SECOND && Waited(2) == 6 * SECOND && Waited(3) == 14 * SECOND && Waited(4) == 30 * SECOND;
    } else {
      WaitedInTotal(n - 1);
    }
  }

  /** A wait that never succeeds spends 810 seconds waiting, and none spends more. */
  lemma WaitingIsBounded(n: nat)
    requires n <= MAX_POLLS
    ensures Waited(n) <= 810_000_000_000 && (n == 30 ==> Waited(n) == 810_000_000_000)
  {
    WaitedInTotal(n);
  }

  /** The poll was neither ready nor failed, and no cancellation was seen. */
  ghost predicate Passed(t: Turn) {
    !t.cancelledBefore && t.verdict.NotReady? && !t.cancelledInWait
  }

  /** The first n polls passed. */
  ghost predicate AllPassed(turns: seq<Turn>, n: int)
    requires n <= |turns|
  {
    n > 0 ==> AllPassed(turns, n - 1) && Passed(turns[n - 1])
  }

  lemma {:induction false} PassedAt(turns: seq<Turn>, n: nat, i: nat)
    requires i < n <= |turns| && AllPassed(turns, n)
    ensures AllPassed(turns, i) && Passed(turns[i])
  {
    if i < n - 1 {
      PassedAt(turns, n - 1, i);
    }
  }

  ghost function Delays(n: int): seq<Duration> {
    if n <= 0 then [] else Delays(n - 1) + [DelayAt(n - 1)]
  }

  /** Waits of n polls: one after every poll that was to be followed by another. */
  ghost function Waits(n: nat, result: Result): int {
    if result == Success || result == ConditionError then n - 1 else n
  }

  /** The scheduled waits: each is twice the one before, from two seconds up to thirty. */
  lemma {:induction false} DelaysAt(n: nat, i: nat)
    requires i < n
    ensures |Delays(n)| == n
    ensures Delays(n)[i] == Min(2 * Pow2(i) * 1_000_000_000, 30_000_000_000)
  {
    DelayIsCappedPower(n - 1);
    if n > 1 {
      DelaysAt(n - 1, if i < n - 1 then i else 0);
    }
  }

  /** How a wait of n polls ends. */
  ghost predicate WaitEnds(turns: seq<Turn>, n: nat, result: Result)
    requires n <= |turns| == MAX_POLLS
  {
    match result
    case Success => n > 0 && !turns[n - 1].cancelledBefore && turns[n - 1].verdict.Ready?
    case ConditionError => n > 0 && !turns[n - 1].cancelledBefore && turns[n - 1].verdict.Error?
    case Timeout => n == MAX_POLLS && Passed(turns[n - 1])
    case Cancelled =>
      // seen before the next poll, or in the wait after the last one
      || (n < MAX_POLLS && turns[n].cancelledBefore && (n > 0 ==> Passed(turns[n - 1])))
      || (n > 0 && !turns[n - 1].cancelledBefore && turns[n - 1].verdict.NotReady? && turns[n - 1].cancelledInWait)
  }

  ghost function Sent(turns: seq<Turn>, n: nat): nat
    requires n <= |turns|
  {
    if n == 0 then 0 else Sent(turns, n - 1) + turns[n - 1].sent
  }

  method WaitForCondition(turns: seq<Turn>) returns (result: Result, polls: nat, waits: seq<Duration>, requests: nat)
    requires |turns| == MAX_POLLS
    ensures polls <= 30 && (result == Timeout ==> polls == 30)
    ensures polls <= MAX_POLLS && WaitEnds(turns, polls, result)
    ensures AllPassed(turns, polls - 1)
    ensures waits == Delays(Waits(polls, result))
    ensures requests == Sent(turns, polls)
  {
    var delay := MIN_DELAY;
    polls, waits, requests := 0, [], 0;
    for i := 0 to MAX_POLLS
      invariant polls == i && AllPassed(turns, i) && waits == Delays(i)
      invariant delay == DelayAt(i)
      invariant requests == Sent(turns, i)
    {
      if turns[i].cancelledBefore {
        return Result.Cancelled, polls, waits, requests;
      }
      polls, requests := polls + 1, requests + turns[i].sent;
      if turns[i].verdict.Error? {
        return ConditionError, polls, waits, requests;
      }
      if turns[i].verdict.Ready? {
        return Success, polls, waits, requests;
      }
      waits := waits + [delay];
      if turns[i].cancelledInWait {
        return Result.Cancelled, polls, waits, requests;
      }
      delay := Doubled(delay);
    }
    result := Timeout;
  }

  /** The first n polls are not ready and no cancellation is seen before or after any of them. */
  ghost predicate GoesOn(turns: seq<Turn>, n: nat) {
    n <= |turns| && forall i | 0 <= i < n :: !turns[i].cancelledBefore && turns[i].verdict.NotReady? && !turns[i].cancelledInWait
  }

  lemma {:induction false} GoesOnIff(turns: seq<Turn>, n: nat)
    requires n <= |turns|
    ensures AllPassed(turns, n) <==> GoesOn(turns, n)
  {
    if n > 0 {
      GoesOnIff(turns, n - 1);
    }
  }

  /** The n-th poll is made, because all earlier ones let the wait go on, and yields the verdict. */
  ghost predicate Yields(turns: seq<Turn>, n: nat, verdict: Verdict) {
    n < |turns| && GoesOn(turns, n) && !turns[n].cancelledBefore && turns[n].verdict == verdict
  }

  lemma StopsAt(turns: seq<Turn>, polls: nat, result: Result, n: nat)
    requires |turns| == MAX_POLLS && polls <= MAX_POLLS && WaitEnds(turns, polls, result)
    requires AllPassed(turns, polls - 1)
    requires n < |turns| && AllPassed(turns, n) && !turns[n].cancelledBefore && !turns[n].verdict.NotReady?
    ensures polls == n + 1 && result == if turns[n].verdict.Ready? then Success else ConditionError
  {
    if n < polls - 1 {
      PassedAt(turns, polls - 1, n);
    }
    if 0 < polls <= n {
      PassedAt(turns, n, polls - 1);
    }
    if polls < n {
      PassedAt(turns, n, polls);
    }
  }

  lemma StopsNever(turns: seq<Turn>, polls: nat, result: Result)
    requires |turns| == MAX_POLLS && polls <= MAX_POLLS && WaitEnds(turns, polls, result)
    requires AllPassed(turns, polls - 1) && AllPassed(turns, MAX_POLLS)
    ensures result == Timeout
  {
    if 0 < polls {
      PassedAt(turns, MAX_POLLS, polls - 1);
    }
    if polls < MAX_POLLS {
      PassedAt(turns, MAX_POLLS, polls);
    }
  }

  /**
   The wait succeeds, or fails with the poll's error, if and only if some poll is
   ready, or fails, before any other poll fails or is ready or a cancellation is
   seen; it times out if and only if thirty polls go by; otherwise it is cancelled.
   */
  lemma SuccessIff(turns: seq<Turn>, polls: nat, result: Result)
    requires |turns| == MAX_POLLS && polls <= MAX_POLLS && WaitEnds(turns, polls, result)
    requires AllPassed(turns, polls - 1)
    ensures result == Success <==> exists n :: Yields(turns, n, Ready)
    ensures result == ConditionError <==> exists n :: Yields(turns, n, Error)
    ensures result == Timeout <==> GoesOn(turns, 30)
  {
    forall n, verdict | Yields(turns, n, verdict) && verdict != NotReady
      ensures result == if verdict.Ready? then Success else ConditionError
    {
      GoesOnIff(turns, n);
      StopsAt(turns, polls, result, n);
    }
    if polls > 0 {
      GoesOnIff(turns, polls - 1);
    }
    if result == Success {
      assert Yields(turns, polls - 1, Ready);
    } else if result == ConditionError {
      assert Yields(turns, polls - 1, Error);
    }
    GoesOnIff(turns, 30);
    if GoesOn(turns, 30) {
      StopsNever(turns, polls, result);
    }
  }

  /** Polling a firewall sends at most three requests a poll, ninety in all. */
  lemma {:induction false} RequestsBounded(turns: seq<Turn>, readings: seq<Reading>, n: nat)
    requires n <= |turns| == |readings|
    requires forall i | 0 <= i < n :: Reads(readings[i], turns[i].verdict, turns[i].sent)
    ensures Sent(turns, n) <= n * MAX_ATTEMPTS
    ensures n <= MAX_POLLS ==> Sent(turns, n) <= 90
  {
    if n > 0 {
      RequestsBounded(turns, readings, n - 1);
      assert Reads(readings[n - 1], turns[n - 1].verdict, turns[n - 1].sent);
    }
  }
}
