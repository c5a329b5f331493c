/**
 * The retry policy of `TelegramApi::send_request`: the request is sent at
 * most `NUM_ATTEMPTS` times; a rate-limit answer (`RetryAfter(n)`) makes
 * the bot sleep `n` seconds and try again, any other error is passed on
 * at once, and a first success ends the loop.
 *
 * The Bot API is an oracle `respond` that gives the answer to the `k`-th
 * send (counting from 0); the sleeps are recorded as a trace of seconds.
 */
module Telegram {
  import opened Wrappers
  import opened Text

  const NUM_ATTEMPTS: nat := 5

  datatype RequestError = RetryAfter(seconds: nat) | Other(reason: Bytes)

  datatype Response = Sent | Failed(error: RequestError)

  datatype SendError = RequestFailed(error: RequestError) | MaxRetries

  const MAX_RETRIES_MESSAGE: Bytes := Ascii("Maximum number of retries reached")

  /**
   * The text of an error `send_request` makes itself: only `MaxRetries`
   * has one; a `RequestFailed` error carries teloxide's own error.
   */
  function Message(e: SendError): (r: Option<Bytes>)
    ensures r.Some? <==> e.MaxRetries?
    ensures r.Some? ==> r.value == MAX_RETRIES_MESSAGE
  {
    match e
    case MaxRetries => Some(MAX_RETRIES_MESSAGE)
    case RequestFailed(_) => None
  }

  /** What a call of `send_request` amounts to: its result, how many requests went out, and the sleeps between them. */
  datatype Outcome = Outcome(result: Result<(), SendError>, sent: nat, sleeps: seq<nat>)

  predicate IsRateLimit(r: Response)
  {
    r.Failed? && r.error.RetryAfter?
  }

  /**
   * The attempts from number `i` on. Every answer before the last one
   * sent was a rate limit, and each sleep lasts as long as that answer
   * asked for.
   */
  function RetryFrom(respond: nat -> Response, i: nat): (o: Outcome)
    requires i <= NUM_ATTEMPTS
    ensures o.sent <= NUM_ATTEMPTS - i
    ensures i < NUM_ATTEMPTS ==> o.sent >= 1
    ensures o.result == Err(MaxRetries) ==> |o.sleeps| == o.sent
    ensures o.result != Err(MaxRetries) ==> |o.sleeps| + 1 == o.sent
    ensures forall j | 0 <= j < |o.sleeps| :: respond(i + j) == Failed(RetryAfter(o.sleeps[j]))
    ensures o.result == Ok(()) ==> respond(i + o.sent - 1) == Sent
    ensures o.result.Err? && o.result.error.RequestFailed? ==>
      && respond(i + o.sent - 1) == Failed(o.result.error.error)
      && !o.result.error.error.RetryAfter?
    decreases NUM_ATTEMPTS - i
  {
    if i == NUM_ATTEMPTS then
      Outcome(Err(MaxRetries), 0, [])
    else
      match respond(i)
      case Sent => Outcome(Ok(()), 1, [])
      case Failed(RetryAfter(n)) =>
        var rest := RetryFrom(respond, i + 1);
        Outcome(rest.result, rest.sent + 1, [n] + rest.sleeps)
      case Failed(e) => Outcome(Err(RequestFailed(e)), 1, [])
  }

  /** `o` preceded by the rate-limited attempts whose sleeps are `pre`. */
  function After(pre: seq<nat>, o: Outcome): (r: Outcome)
  {
    Outcome(o.result, |pre| + o.sent, pre + o.sleeps)
  }

  /**
   * `send_request`: the `for` loop over the attempts, returning on the
   * first success or the first error that is not a rate limit.
   */
  method SendRequest(respond: nat -> Response) returns (result: Result<(), SendError>, sent: nat, sleeps: seq<nat>)
    ensures Outcome(result, sent, sleeps) == RetryFrom(respond, 0)
  {
    sent, sleeps := 0, [];
    for i := 0 to NUM_ATTEMPTS
      invariant sent == i == |sleeps|
      invariant RetryFrom(respond, 0) == After(sleeps, RetryFrom(respond, i))
    {
      var response := respond(i);
      sent := sent + 1;
      AttemptStep(respond, i);
      match response {
        case Sent =>
          result := Ok(());
          return;
        case Failed(RetryAfter(n)) =>
          AfterAfter(sleeps, [n], RetryFrom(respond, i + 1));
          sleeps := sleeps + [n];
        case Failed(e) =>
          result := Err(RequestFailed(e));
          return;
      }
    }
    result := Err(MaxRetries);
  }

  /** One attempt: its answer decides whether the call ends or goes on with the next one. */
  lemma AttemptStep(respond: nat -> Response, i: nat)
    requires i < NUM_ATTEMPTS
    ensures respond(i) == Sent ==> RetryFrom(respond, i) == Outcome(Ok(()), 1, [])
    ensures IsRateLimit(respond(i)) ==>
      RetryFrom(respond, i) == After([respond(i).error.seconds], RetryFrom(respond, i + 1))
    ensures respond(i).Failed? && !IsRateLimit(respond(i)) ==>
      RetryFrom(respond, i) == Outcome(Err(RequestFailed(respond(i).error)), 1, [])
  {
  }

  lemma AfterAfter(a: seq<nat>, b: seq<nat>, o: Outcome)
    ensures After(a, After(b, o)) == After(a + b, o)
  {
    assert a + (b + o.sleeps) == (a + b) + o.sleeps;
  }

  /** The first `k` answers were all rate limits. */
  predicate RateLimited(respond: nat -> Response, k: nat)
  {
    forall j | 0 <= j < k :: IsRateLimit(respond(j))
  }

  /** The sleeps the first `k` answers ask for. */
  function Waits(respond: nat -> Response, k: nat): (w: seq<nat>)
    requires RateLimited(respond, k)
    ensures |w| == k
    ensures forall j | 0 <= j < k :: respond(j) == Failed(RetryAfter(w[j]))
  {
    seq(k, j requires 0 <= j < k => respond(j).error.seconds)
  }

  /** After `k` rate limits, the rest of the call is the call from attempt `k`. */
  lemma {:induction false} RateLimitedPrefix(respond: nat -> Response, k: nat)
    requires k <= NUM_ATTEMPTS && RateLimited(respond, k)
    ensures RetryFrom(respond, 0) == After(Waits(respond, k), RetryFrom(respond, k))
  {
    if k > 0 {
      RateLimitedPrefix(respond, k - 1);
      var n := respond(k - 1).error.seconds;
      AttemptStep(respond, k - 1);
      AfterAfter(Waits(respond, k - 1), [n], RetryFrom(respond, k));
      WaitsSnoc(respond, k);
    }
  }

  lemma WaitsSnoc(respond: nat -> Response, k: nat)
    requires 0 < k && RateLimited(respond, k)
    ensures Waits(respond, k) == Waits(respond, k - 1) + [respond(k - 1).error.seconds]
  {
  }

  /** No more than five requests are ever sent. */
  lemma AtMostFiveAttempts(respond: nat -> Response)
    ensures 1 <= RetryFrom(respond, 0).sent <= 5
  {
  }

  /** A success after `k` rate limits ends the call at once: `k + 1` sends, `k` sleeps. */
  lemma FirstSuccessStops(respond: nat -> Response, k: nat)
    requires k < NUM_ATTEMPTS && RateLimited(respond, k) && respond(k) == Sent
    ensures RetryFrom(respond, 0) == Outcome(Ok(()), k + 1, Waits(respond, k))
  {
    RateLimitedPrefix(respond, k);
  }

  /** Any other error after `k` rate limits is returned at once, without a retry. */
  lemma OtherErrorNoRetry(respond: nat -> Response, k: nat)
    requires k < NUM_ATTEMPTS && RateLimited(respond, k)
    requires respond(k).Failed? && !respond(k).error.RetryAfter?
    ensures RetryFrom(respond, 0) == Outcome(Err(RequestFailed(respond(k).error)), k + 1, Waits(respond, k))
  {
    RateLimitedPrefix(respond, k);
  }

  /**
   * "Maximum number of retries reached" exactly when all five answers
   * were rate limits; then all five were slept, the last one included.
   */
  lemma {:induction false} MaxRetriesExactly(respond: nat -> Response)
    ensures RetryFrom(respond, 0).result == Err(MaxRetries) <==> RateLimited(respond, NUM_ATTEMPTS)
    ensures RateLimited(respond, NUM_ATTEMPTS) ==>
      RetryFrom(respond, 0) == Outcome(Err(MaxRetries), NUM_ATTEMPTS, Waits(respond, NUM_ATTEMPTS))
    ensures RetryFrom(respond, 0).result.Err? ==>
      (Message(RetryFrom(respond, 0).result.error) == Some(MAX_RETRIES_MESSAGE) <==> RateLimited(respond, NUM_ATTEMPTS))
  {
    var o := RetryFrom(respond, 0);
    if o.result == Err(MaxRetries) {
      assert o.sent == 5 by {
        if o.sent < 5 {
          assert |o.sleeps| == o.sent;
          assert o.sent >= 1;
          NotAllRateLimitedBeforeEnd(respond, 0);
        }
      }
      forall j | 0 <= j < NUM_ATTEMPTS ensures IsRateLimit(respond(j)) {
        assert respond(0 + j) == Failed(RetryAfter(o.sleeps[j]));
      }
    }
    if RateLimited(respond, NUM_ATTEMPTS) {
      RateLimitedPrefix(respond, NUM_ATTEMPTS);
    }
  }

  /** Running out of attempts needs as many sleeps as the attempts left. */
  lemma {:induction false} NotAllRateLimitedBeforeEnd(respond: nat -> Response, i: nat)
    requires i <= NUM_ATTEMPTS
    ensures RetryFrom(respond, i).result == Err(MaxRetries) ==> RetryFrom(respond, i).sent == NUM_ATTEMPTS - i
    decreases NUM_ATTEMPTS - i
  {
    if i < NUM_ATTEMPTS && IsRateLimit(respond(i)) {
      NotAllRateLimitedBeforeEnd(respond, i + 1);
    }
  }

  /** One rate limit of three seconds, then success: two sends and one three-second sleep. */
  lemma RetryOnceThenSucceed(respond: nat -> Response)
    requires respond(0) == Failed(RetryAfter(3)) && respond(1) == Sent
    ensures RetryFrom(respond, 0) == Outcome(Ok(()), 2, [3])
  {
  }
}
