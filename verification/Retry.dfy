/** Retry policy defaults, back-off delays and the attempt loop (Modules/API/api_http_retry.cpp and
    `api_http_execute_plain_streaming` in Modules/API/api_http_plain.cpp). */
module Retry {
  import opened Prelude

  type Int32 = n: int | -0x8000_0000 <= n <= 0x7FFF_FFFF

  /** The fields of `api_retry_policy`; a missing policy is None. */
  datatype Policy = Policy(
    maxAttempts: Int32, initialDelay: Int32, maxDelay: Int32, multiplier: Int32,
    circuitThreshold: Int32, circuitCooldown: Int32, halfOpenSuccesses: Int32)

  /** A field value when there is a policy and the value is positive, else the getter's default. */
  function PositiveOr(value: Int32, default: Int32): Int32 { if value <= 0 then default else value }

  function MaxAttempts(p: Option<Policy>): Int32 { if p.None? then 1 else PositiveOr(p.value.maxAttempts, 1) }

  function InitialDelay(p: Option<Policy>): Int32 { if p.None? then 0 else PositiveOr(p.value.initialDelay, 0) }

  function MaxDelay(p: Option<Policy>): Int32 { if p.None? then 0 else PositiveOr(p.value.maxDelay, 0) }

  function Multiplier(p: Option<Policy>): Int32 { if p.None? then 2 else PositiveOr(p.value.multiplier, 2) }

  function CircuitThreshold(p: Option<Policy>): Int32 { if p.None? then 0 else PositiveOr(p.value.circuitThreshold, 0) }

  function CircuitCooldown(p: Option<Policy>): Int32 { if p.None? then 0 else PositiveOr(p.value.circuitCooldown, 0) }

  function HalfOpenSuccesses(p: Option<Policy>): Int32 { if p.None? then 1 else PositiveOr(p.value.halfOpenSuccesses, 1) }

  /** `api_retry_prepare_delay`. */
  function PrepareDelay(delay: Int32, maxDelay: Int32): Int32 {
    if delay <= 0 then 0
    else if maxDelay > 0 && delay > maxDelay then maxDelay
    else delay
  }

  /** `api_retry_next_delay`; the product is taken in 64 bits before it is clamped. */
  function NextDelay(current: Int32, maxDelay: Int32, multiplier: Int32): Int32 {
    if current <= 0 then current
    else
      var product: int := if multiplier > 1 then current * multiplier else current;
      var clamped := if maxDelay > 0 && product > maxDelay then maxDelay else product;
      if clamped > INT32_MAX then INT32_MAX else clamped
  }

  /** The value of `current_delay` in the loop before the k-th wait. */
  function Delay(p: Option<Policy>, k: nat): Int32 {
    if k == 0 then PrepareDelay(InitialDelay(p), MaxDelay(p))
    else
      var next := NextDelay(Delay(p, k - 1), MaxDelay(p), Multiplier(p));
      if next <= 0 then PrepareDelay(InitialDelay(p), MaxDelay(p)) else next
  }

  /** The upper bound on every wait: the policy's, or the largest 32-bit value. */
  function Cap(p: Option<Policy>): int { if MaxDelay(p) > 0 then MaxDelay(p) else INT32_MAX }

  function Power(b: int, k: nat): int { if k == 0 then 1 else b * Power(b, k - 1) }

  lemma {:induction false} PowerIsPositive(b: int, k: nat)
    requires b >= 1
    ensures Power(b, k) >= 1
  {
    if k > 0 {
      PowerIsPositive(b, k - 1);
      MulLe(b, 1, Power(b, k - 1));
    }
  }

  lemma MinTimes(a: int, cap: int, m: int)
    requires a >= 1 && cap >= 1 && m >= 1
    ensures Min(Min(a, cap) * m, cap) == Min(a * m, cap)
  {
    MulLe(cap, 1, m);
    MulLe(a, 1, m);
    MulLe(m, cap, Max(a, cap));
  }

  lemma NextIsMin(current: Int32, p: Option<Policy>)
    requires 1 <= current <= Cap(p)
    ensures NextDelay(current, MaxDelay(p), Multiplier(p)) == Min(current * Multiplier(p), Cap(p)) >= 1
    ensures current * Multiplier(p) <= INT64_MAX
  {
    MulLe(current, 1, Multiplier(p));
    MulLe(current, Multiplier(p), INT32_MAX);
    MulLe(INT32_MAX, current, INT32_MAX);
  }

  /** The k-th wait is the initial delay times the k-th power of the multiplier, up to the cap. */
  lemma {:induction false} DelayIsExponential(p: Option<Policy>, k: nat)
    ensures InitialDelay(p) == 0 ==> Delay(p, k) == 0
    ensures InitialDelay(p) > 0 ==> Delay(p, k) == Min(InitialDelay(p) * Power(Multiplier(p), k), Cap(p)) >= 1
  {
    var d, m := InitialDelay(p), Multiplier(p);
    if k > 0 {
      DelayIsExponential(p, k - 1);
      if d > 0 {
        var a := d * Power(m, k - 1);
        PowerIsPositive(m, k - 1);
        MulLe(d, 1, Power(m, k - 1));
        NextIsMin(Delay(p, k - 1), p);
        MinTimes(a, Cap(p), m);
        assert a * m == d * Power(m, k) by { MulRegroup(d, Power(m, k - 1), m); }
      }
    }
  }

  lemma MulRegroup(a: int, b: int, c: int)
    ensures a * b * c == a * (c * b)
  {}

  /** Waits never get shorter, and the 64-bit product behind the next one never overflows. */
  lemma DelaysGrow(p: Option<Policy>, k: nat)
    ensures Delay(p, k) <= Delay(p, k + 1) <= Cap(p)
    ensures 0 <= Delay(p, k) * Multiplier(p) <= INT64_MAX
  {
    DelayIsExponential(p, k);
    DelayIsExponential(p, k + 1);
    if InitialDelay(p) > 0 {
      NextIsMin(Delay(p, k), p);
      MulLe(Delay(p, k), 1, Multiplier(p));
    }
  }

  /** The waits in terms of the policy's fields: without a positive initial delay none; otherwise the initial delay times
      the k-th power of the multiplier, two when it is missing, up to the maximum, the 32-bit limit when it is missing. */
  lemma DelayInFields(p: Option<Policy>, k: nat)
    ensures p.None? || p.value.initialDelay <= 0 ==> Delay(p, k) == 0
    ensures p.Some? && p.value.initialDelay > 0 ==>
              Delay(p, k) == Min(p.value.initialDelay * Power(if p.value.multiplier > 0 then p.value.multiplier else 2, k),
                                 if p.value.maxDelay > 0 then p.value.maxDelay else 0x7FFF_FFFF)
  {
    hide Delay, Power;
    DelayIsExponential(p, k);
  }

  /** The settings of the circuit breaker in terms of the policy's fields. */
  lemma CircuitInFields(p: Option<Policy>)
    ensures p.None? ==> CircuitThreshold(p) == 0 && CircuitCooldown(p) == 0 && HalfOpenSuccesses(p) == 1
    ensures p.Some? ==>
              && CircuitThreshold(p) == Max(0, p.value.circuitThreshold)
              && CircuitCooldown(p) == Max(0, p.value.circuitCooldown)
              && HalfOpenSuccesses(p) == Max(1, p.value.halfOpenSuccesses)
  {}

  // ---- The attempt loop ----

  /** How one attempt ends: refused by the circuit, done, failed for good, or failed but retryable. */
  datatype Attempt = Denied | Succeeded | Fatal | Retryable

  /** The attempts that the loop may make: a missing policy gets one implicit retry. */
  function AllowedAttempts(p: Option<Policy>): nat { if p.None? then 2 else MaxAttempts(p) }

  /** Number of attempts made: up to and including the first that is not retryable. */
  function Made(outcome: nat -> Attempt, from: nat, limit: nat): nat
    requires from <= limit
    decreases limit - from
  {
    if from == limit then limit
    else if outcome(from).Retryable? then Made(outcome, from + 1, limit)
    else from + 1
  }

  /** The retry loop with its sends abstracted to their outcomes; `waits` are the sleeps between attempts.
      It makes at most the allowed attempts, stops at the first that is not retryable, succeeds exactly when
      that one does, and sleeps between attempts for the exponential delays. */
  method ExecuteWithRetry(p: Option<Policy>, outcome: nat -> Attempt)
    returns (ok: bool, attempts: nat, waits: seq<int>)
    ensures attempts == Made(outcome, 0, AllowedAttempts(p)) && 1 <= attempts <= AllowedAttempts(p)
    ensures ok <==> outcome(attempts - 1).Succeeded?
    ensures forall i :: 0 <= i < attempts - 1 ==> outcome(i).Retryable?
    ensures |waits| == if InitialDelay(p) > 0 then attempts - 1 else 0
    ensures forall k :: 0 <= k < |waits| ==> waits[k] == Delay(p, k) > 0
    ensures attempts <= if p.None? then 2 else Max(1, p.value.maxAttempts)
    ensures attempts == (if p.None? then 2 else Max(1, p.value.maxAttempts)) || !outcome(attempts - 1).Retryable?
    ensures |waits| == if p.Some? && p.value.initialDelay > 0 then attempts - 1 else 0
  {
    AttemptsInFields(p);
    hide Delay, NextDelay, PrepareDelay, Made, MaxAttempts;
    var current := PrepareDelay(InitialDelay(p), MaxDelay(p));
    assert current == Delay(p, 0) by { DelayStarts(p); }
    var index := 0;
    AllowedBounds(p);
    var allowed: nat := MaxAttempts(p);
    var implicitRetryAdded := false;
    ghost var limit := AllowedAttempts(p);
    waits := [];
    while index < allowed
      invariant 0 <= index < allowed <= limit && current == Delay(p, index)
      invariant p.Some? || implicitRetryAdded ==> allowed == limit
      invariant index > 0 && p.None? ==> implicitRetryAdded
      invariant forall i :: 0 <= i < index ==> outcome(i).Retryable?
      invariant Made(outcome, 0, limit) == Made(outcome, index, limit)
      invariant |waits| == if InitialDelay(p) > 0 then index else 0
      invariant forall k :: 0 <= k < |waits| ==> waits[k] == Delay(p, k) > 0
      decreases limit - index
    {
      MadeStep(outcome, index, limit);
      if !outcome(index).Retryable? {
        return outcome(index).Succeeded?, index + 1, waits;
      }
      if !implicitRetryAdded && p.None? {
        allowed := 2;
        implicitRetryAdded := true;
      }
      index := index + 1;
      if index >= allowed {
        MadeStep(outcome, index, limit);
        break;
      }
      current, waits := BackOff(p, current, waits, index - 1);
    }
    return false, index, waits;
  }

  lemma AttemptsInFields(p: Option<Policy>)
    ensures AllowedAttempts(p) == if p.None? then 2 else Max(1, p.value.maxAttempts)
    ensures InitialDelay(p) == if p.None? then 0 else Max(0, p.value.initialDelay)
  {}

  lemma DelayStarts(p: Option<Policy>)
    ensures PrepareDelay(InitialDelay(p), MaxDelay(p)) == Delay(p, 0)
  {}

  lemma AllowedBounds(p: Option<Policy>)
    ensures 1 <= MaxAttempts(p) <= AllowedAttempts(p)
    ensures p.Some? ==> MaxAttempts(p) == AllowedAttempts(p)
    ensures p.None? ==> AllowedAttempts(p) == 2
  {}

  lemma MadeStep(outcome: nat -> Attempt, index: nat, limit: nat)
    requires index <= limit
    ensures index == limit ==> Made(outcome, index, limit) == limit
    ensures index < limit ==>
              Made(outcome, index, limit) == if outcome(index).Retryable? then Made(outcome, index + 1, limit) else index + 1
  {}

  /** The tail of the loop body: sleep when there is a delay, then move on to the next delay. */
  method BackOff(p: Option<Policy>, current: Int32, waits: seq<int>, ghost k: nat)
    returns (next: Int32, waits': seq<int>)
    requires current == Delay(p, k)
    ensures next == Delay(p, k + 1)
    ensures waits' == if InitialDelay(p) > 0 then waits + [Delay(p, k)] else waits
    ensures Delay(p, k) > 0 <==> InitialDelay(p) > 0
  {
    hide Delay;
    PrepareKeepsDelay(p, k);
    DelayStep(p, k + 1);
    waits' := waits;
    if current > 0 {
      var sleep := PrepareDelay(current, MaxDelay(p));
      if sleep > 0 {
        waits' := waits + [sleep];
      }
    }
    next := NextDelay(current, MaxDelay(p), Multiplier(p));
    if next <= 0 {
      next := PrepareDelay(InitialDelay(p), MaxDelay(p));
    }
  }

  /** The delay is already prepared: sleeping for it changes nothing, and it is zero only without delays. */
  lemma PrepareKeepsDelay(p: Option<Policy>, k: nat)
    ensures PrepareDelay(Delay(p, k), MaxDelay(p)) == Delay(p, k)
    ensures Delay(p, k) > 0 <==> InitialDelay(p) > 0
  {
    hide Delay;
    DelayIsExponential(p, k);
  }

  lemma DelayStep(p: Option<Policy>, k: nat)
    requires k > 0
    ensures var next := NextDelay(Delay(p, k - 1), MaxDelay(p), Multiplier(p));
            Delay(p, k) == if next <= 0 then PrepareDelay(InitialDelay(p), MaxDelay(p)) else next
  {}
}
