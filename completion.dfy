/**
 * The retry loop of `get_ai_response` around the completion request.
 * The network is an oracle: `outcomes[i]` is what the i-th request produces.
 */
module Completion {
  import opened Wrappers
  import opened Text
  import opened Backoff

  /** The loop makes at most this many requests (`for attempt in range(3)`). */
  const MaxAttempts := 3
  /** The HTTP status that signals a rate limit. */
  const TooManyRequests := 429

  /** What one request to the completion API produces. */
  datatype Outcome =
      /** A body whose `choices` is a non-empty list; `content` is
          `choices[0].message.content`, `None` when either key is missing. */
    | Success(content: Option<string>)
      /** A `ClientResponseError` for this HTTP status: `raise_for_status` raised
          it, or `response.json()` did on a body that is not JSON, in which case
          the status may well be a success code such as 200. */
    | HttpStatus(code: int)
      /** The request timed out. */
    | Timeout
      /** A body whose `choices` is missing, not a list, or empty. */
    | Malformed
      /** Any other client error (connection refused, reset, ...): no handler catches it. */
    | ConnectionFailure

  /** Exceptions that leave `get_ai_response` instead of a returned value. */
  datatype Error = InvalidResponse | Connection

  /** How `get_ai_response` ends. */
  datatype Reply =
    | Answer(text: string)
    | Refused
    | ServerError(status: int)
    | TimedOut
    | NoReply
    | Raised(error: Error)

  /** The course of the loop: its result, the waits slept in order, and the requests made. */
  datatype Run = Run(reply: Reply, waits: seq<nat>, requests: nat)

  /** The loop as written: one branch per outcome of the request of attempt `attempt`. */
  function Attempts(outcomes: seq<Outcome>, attempt: nat): Run
    requires attempt <= MaxAttempts <= |outcomes|
    decreases MaxAttempts - attempt
  {
    if attempt == MaxAttempts then Run(NoReply, [], 0)
    else
      match outcomes[attempt]
      case Success(content) => Run(Answer(Sanitize(content.GetOr(""))), [], 1)
      case HttpStatus(code) =>
        if code == TooManyRequests then Retried(attempt, Attempts(outcomes, attempt + 1))
        else Run(ServerError(code), [], 1)
      case Timeout =>
        if attempt < MaxAttempts - 1 then Retried(attempt, Attempts(outcomes, attempt + 1))
        else Run(TimedOut, [], 1)
      case Malformed => Run(Raised(InvalidResponse), [], 1)
      case ConnectionFailure => Run(Raised(Connection), [], 1)
  }

  /** One request made, then `Wait(attempt)` seconds slept, then the rest of the loop. */
  function Retried(attempt: nat, rest: Run): Run
  {
    Run(rest.reply, [Wait(attempt)] + rest.waits, rest.requests + 1)
  }

  /**
   * The `for attempt in range(3)` loop: one request per pass, a wait and
   * `continue` on a rate limit or an early timeout, a return otherwise;
   * no reply when the loop runs out.
   */
  method Request(outcomes: seq<Outcome>) returns (reply: Reply, waits: seq<nat>, requests: nat)
    requires MaxAttempts <= |outcomes|
    ensures Run(reply, waits, requests) == Attempts(outcomes, 0)
  {
    waits, requests := [], 0;
    for attempt := 0 to MaxAttempts
      invariant requests == attempt && |waits| == attempt
      invariant Attempts(outcomes, 0) == Run(Attempts(outcomes, attempt).reply,
                                             waits + Attempts(outcomes, attempt).waits,
                                             requests + Attempts(outcomes, attempt).requests)
    {
      AttemptsStep(outcomes, attempt);
      requests := requests + 1;
      match outcomes[attempt]
      case Success(content) =>
        reply := Answer(Sanitize(content.GetOr("")));
        return;
      case HttpStatus(code) =>
        if code == TooManyRequests {
          assert (waits + [Wait(attempt)]) + Attempts(outcomes, attempt + 1).waits
              == waits + ([Wait(attempt)] + Attempts(outcomes, attempt + 1).waits);
          waits := waits + [Wait(attempt)];
          continue;
        }
        reply := ServerError(code);
        return;
      case Timeout =>
        if attempt < MaxAttempts - 1 {
          assert (waits + [Wait(attempt)]) + Attempts(outcomes, attempt + 1).waits
              == waits + ([Wait(attempt)] + Attempts(outcomes, attempt + 1).waits);
          waits := waits + [Wait(attempt)];
          continue;
        }
        reply := TimedOut;
        return;
      case Malformed =>
        reply := Raised(InvalidResponse);
        return;
      case ConnectionFailure =>
        reply := Raised(Connection);
        return;
    }
    reply := NoReply;
  }

  // An independent description of the policy: which outcomes lead to another
  // attempt, and what ends the loop otherwise.

  /** The outcome of attempt `attempt` leads to a wait and another pass of the loop. */
  predicate Retries(o: Outcome, attempt: nat)
  {
    (o.HttpStatus? && o.code == TooManyRequests) || (o.Timeout? && attempt + 1 < MaxAttempts)
  }

  /** The result of an outcome that is not retried. */
  function Verdict(o: Outcome): Reply
  {
    match o
    case Success(content) => Answer(Sanitize(content.GetOr("")))
    case HttpStatus(code) => ServerError(code)
    case Timeout => TimedOut
    case Malformed => Raised(InvalidResponse)
    case ConnectionFailure => Raised(Connection)
  }

  /** One pass of the loop: a retried outcome waits and goes on, any other ends it with its verdict. */
  lemma AttemptsStep(outcomes: seq<Outcome>, attempt: nat)
    requires attempt < MaxAttempts <= |outcomes|
    ensures Retries(outcomes[attempt], attempt) ==>
              Attempts(outcomes, attempt) == Retried(attempt, Attempts(outcomes, attempt + 1))
    ensures !Retries(outcomes[attempt], attempt) ==>
              Attempts(outcomes, attempt) == Run(Verdict(outcomes[attempt]), [], 1)
  {
  }

  /** The waits slept by attempts `lo` up to (not including) `hi`. */
  function Waits(lo: nat, hi: nat): (ws: seq<nat>)
    requires lo <= hi
    ensures |ws| == hi - lo
    ensures forall i :: 0 <= i < |ws| ==> ws[i] == Wait(lo + i)
    decreases hi - lo
  {
    if lo == hi then [] else [Wait(lo)] + Waits(lo + 1, hi)
  }

  /**
   * If attempts `start` .. `k - 1` are all retried and attempt `k` is not (or
   * `k` is the attempt cap), the loop makes the requests up to `k`, sleeps the
   * backoff of each retried attempt, and ends with the verdict on attempt `k`
   * (or with no reply when every attempt was retried).
   */
  lemma {:induction false} AttemptsFrom(outcomes: seq<Outcome>, start: nat, k: nat)
    requires start <= k <= MaxAttempts <= |outcomes|
    requires forall i :: start <= i < k ==> Retries(outcomes[i], i)
    requires k < MaxAttempts ==> !Retries(outcomes[k], k)
    ensures Attempts(outcomes, start).requests == (if k == MaxAttempts then k else k + 1) - start
    ensures Attempts(outcomes, start).waits == Waits(start, k)
    ensures Attempts(outcomes, start).reply == if k == MaxAttempts then NoReply else Verdict(outcomes[k])
    decreases k - start
  {
    if start < MaxAttempts {
      AttemptsStep(outcomes, start);
    }
    if start < k {
      AttemptsFrom(outcomes, start + 1, k);
      assert [Wait(start)] + Waits(start + 1, k) == Waits(start, k);
    }
  }

  /** The retry policy from the first attempt on: the loop agrees with `Retries` and `Verdict`. */
  lemma RetryPolicy(outcomes: seq<Outcome>, k: nat)
    requires k <= MaxAttempts <= |outcomes|
    requires forall i :: 0 <= i < k ==> Retries(outcomes[i], i)
    requires k < MaxAttempts ==> !Retries(outcomes[k], k)
    ensures Attempts(outcomes, 0).requests == if k == MaxAttempts then MaxAttempts else k + 1
    ensures Attempts(outcomes, 0).waits == Waits(0, k)
    ensures Attempts(outcomes, 0).reply == if k == MaxAttempts then NoReply else Verdict(outcomes[k])
  {
    AttemptsFrom(outcomes, 0, k);
  }

  /**
   * Whatever the outcomes, at least one and at most `MaxAttempts` requests are
   * made, every wait is at most `MaxDelay`, and at most one wait follows each request.
   */
  lemma {:induction false} AttemptsBounded(outcomes: seq<Outcome>, start: nat)
    requires start < MaxAttempts <= |outcomes|
    ensures 1 <= Attempts(outcomes, start).requests <= MaxAttempts - start
    ensures |Attempts(outcomes, start).waits| <= Attempts(outcomes, start).requests
    ensures forall i :: 0 <= i < |Attempts(outcomes, start).waits| ==>
              Attempts(outcomes, start).waits[i] <= MaxDelay
    decreases MaxAttempts - start
  {
    if start + 1 < MaxAttempts {
      AttemptsBounded(outcomes, start + 1);
    }
  }

  /** Three rate limits in a row: waits of 30, 60 and 120 seconds, then no reply. */
  lemma ThreeRateLimits(outcomes: seq<Outcome>)
    requires MaxAttempts <= |outcomes|
    requires forall i :: 0 <= i < MaxAttempts ==> outcomes[i] == HttpStatus(TooManyRequests)
    ensures Attempts(outcomes, 0) == Run(NoReply, [30, 60, 120], 3)
  {
    RetryPolicy(outcomes, MaxAttempts);
    WaitSchedule();
  }

  /** Any status other than 429 ends the loop on that attempt with a server error carrying the status. */
  lemma StatusEndsLoop(outcomes: seq<Outcome>, k: nat)
    requires k < MaxAttempts <= |outcomes|
    requires forall i :: 0 <= i < k ==> Retries(outcomes[i], i)
    requires outcomes[k].HttpStatus? && outcomes[k].code != TooManyRequests
    ensures Attempts(outcomes, 0).reply == ServerError(outcomes[k].code)
    ensures Attempts(outcomes, 0).requests == k + 1
  {
    RetryPolicy(outcomes, k);
  }

  /** A timeout on the last attempt, after two retried attempts, ends with the timeout reply. */
  lemma TimeoutOnLastAttempt(outcomes: seq<Outcome>)
    requires MaxAttempts <= |outcomes|
    requires Retries(outcomes[0], 0) && Retries(outcomes[1], 1)
    requires outcomes[2] == Timeout
    ensures Attempts(outcomes, 0) == Run(TimedOut, [30, 60], 3)
  {
    RetryPolicy(outcomes, 2);
    WaitSchedule();
  }

  /** A malformed body raises on the attempt that received it; no further request is made. */
  lemma MalformedRaises(outcomes: seq<Outcome>, k: nat)
    requires k < MaxAttempts <= |outcomes|
    requires forall i :: 0 <= i < k ==> Retries(outcomes[i], i)
    requires outcomes[k] == Malformed
    ensures Attempts(outcomes, 0).reply == Raised(InvalidResponse)
    ensures Attempts(outcomes, 0).requests == k + 1
  {
    RetryPolicy(outcomes, k);
  }

  /** An answer is always sanitised: no NUL character and at most `ReplyLimit` characters. */
  lemma {:induction false} AnswerSanitized(outcomes: seq<Outcome>, start: nat)
    requires start <= MaxAttempts <= |outcomes|
    ensures Attempts(outcomes, start).reply.Answer? ==>
              Nul !in Attempts(outcomes, start).reply.text &&
              |Attempts(outcomes, start).reply.text| <= ReplyLimit
    decreases MaxAttempts - start
  {
    if start < MaxAttempts {
      AttemptsStep(outcomes, start);
      AnswerSanitized(outcomes, start + 1);
    }
  }

  const RefusalText := "🚫 Ваш доступ к оракулу ограничен"
  /** The closing sentence shared by the server-error and the timeout texts. */
  const TryLater := " Пожалуйста, попробуйте позже."
  const ServerErrorPrefix := "⚠️ Ошибка сервера ("
  const ServerErrorSuffix := ")." + TryLater
  const TimeoutText := "⌛ Время ожидания истекло." + TryLater

  /** The string `get_ai_response` returns; `None` when it returns nothing or raises. */
  function Render(r: Reply): (s: Option<string>)
    ensures s.None? <==> r.NoReply? || r.Raised?
    ensures r.Answer? ==> s == Some(r.text)
    ensures r.Refused? ==> s == Some(RefusalText)
    ensures r.ServerError? ==> s == Some(ServerErrorPrefix + Decimal(r.status) + ServerErrorSuffix)
    ensures r.TimedOut? ==> s == Some(TimeoutText)
  {
    match r
    case Answer(text) => Some(text)
    case Refused => Some(RefusalText)
    case ServerError(status) =>
      Some(ServerErrorPrefix + Decimal(status) + ServerErrorSuffix)
    case TimedOut => Some(TimeoutText)
    case NoReply => None
    case Raised(_) => None
  }

  /** The status shown in a server-error text: the digits between the prefix and the suffix. */
  function ShownStatus(s: string): (status: Option<int>)
    ensures status.Some? ==> |ServerErrorPrefix| + |ServerErrorSuffix| <= |s|
  {
    if |ServerErrorPrefix| + |ServerErrorSuffix| <= |s|
       && s[..|ServerErrorPrefix|] == ServerErrorPrefix
       && s[|s| - |ServerErrorSuffix|..] == ServerErrorSuffix
    then Some(DigitsValue(s[|ServerErrorPrefix|..|s| - |ServerErrorSuffix|]))
    else None
  }

  /**
   * The texts are told apart: the refusal, the timeout text and every
   * server-error text differ from each other, and a server-error text for a
   * non-negative status shows exactly that status.
   */
  lemma RenderDistinguishes(r: Reply)
    ensures r.ServerError? && r.status >= 0 ==> ShownStatus(Render(r).value) == Some(r.status)
    ensures r.ServerError? ==> Render(r) != Some(RefusalText) && Render(r) != Some(TimeoutText)
    ensures RefusalText != TimeoutText
  {
    if r.ServerError? {
      var s := Render(r).value;
      var digits := Decimal(r.status);
      assert s == ServerErrorPrefix + digits + ServerErrorSuffix;
      assert s[..|ServerErrorPrefix|] == ServerErrorPrefix;
      assert s[|s| - |ServerErrorSuffix|..] == ServerErrorSuffix;
      assert s[|ServerErrorPrefix|..|s| - |ServerErrorSuffix|] == digits;
      if r.status >= 0 {
        DecimalRoundTrip(r.status);
      }
      assert s[0] == ServerErrorPrefix[0] == '⚠';
      assert RefusalText[0] == '🚫' && TimeoutText[0] == '⌛';
    }
    assert RefusalText[0] == '🚫' && TimeoutText[0] == '⌛';
  }
}
