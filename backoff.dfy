/** The wait before the next attempt after a rate limit or a timeout: `min(2**attempt * 30, 240)` seconds. */
module Backoff {

  const BaseDelay := 30
  const MaxDelay := 240

  function Pow2(k: nat): (p: nat)
    ensures p >= 1
  {
    if k == 0 then 1 else 2 * Pow2(k - 1)
  }

  /** Seconds waited after attempt number `attempt` (counted from 0). */
  function Wait(attempt: nat): (w: nat)
    ensures BaseDelay <= w <= MaxDelay
  {
    var raw := Pow2(attempt) * BaseDelay;
    if raw <= MaxDelay then raw else MaxDelay
  }

  /** The three attempts the bot makes wait 30, 60 and 120 seconds. */
  lemma WaitSchedule()
    ensures Wait(0) == 30 && Wait(1) == 60 && Wait(2) == 120
  {
  }

  lemma {:induction false} Pow2Monotone(a: nat, b: nat)
    requires a <= b
    ensures Pow2(a) <= Pow2(b)
  {
    if a < b {
      Pow2Monotone(a, b - 1);
    }
  }

  /** A later attempt never waits less than an earlier one. */
  lemma WaitMonotone(a: nat, b: nat)
    requires a <= b
    ensures Wait(a) <= Wait(b)
  {
    Pow2Monotone(a, b);
  }

  /** From the fourth attempt on the doubling has reached the cap. */
  lemma WaitCapped(attempt: nat)
    requires attempt >= 3
    ensures Wait(attempt) == MaxDelay
  {
    Pow2Monotone(3, attempt);
  }
}
