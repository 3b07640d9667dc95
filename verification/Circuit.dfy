/** The per-key circuit breaker (Modules/API/api_retry.cpp). Each call holds the mutex throughout, so it is
    one atomic step; the clock is an argument of the step. */
module Circuit {
  import opened Prelude
  import opened Retry

  /** `api_circuit_state` without its key. */
  datatype Circuit = Circuit(failures: int, openUntil: int, halfOpen: bool, probe: bool, successes: int)

  const NEW := Circuit(0, 0, false, false, 0)

  /** What a policy means for the circuit; only a positive threshold makes it active. */
  datatype Settings = Settings(threshold: int, cooldown: int, required: int)

  predicate Active(s: Settings) { s.threshold > 0 && s.cooldown >= 0 && s.required > 0 }

  function SettingsOf(p: Option<Policy>): Settings {
    Settings(CircuitThreshold(p), CircuitCooldown(p), HalfOpenSuccesses(p))
  }

  /** `api_retry_circuit_compute_deadline`: the end of the cooldown, saturating. */
  function Deadline(now: int, cooldown: int): int {
    if cooldown <= 0 then now
    else if cooldown > INT64_MAX - now then INT64_MAX
    else now + cooldown
  }

  /** The deadline is the end of the cooldown or the largest 64-bit time, and later trips end no earlier. */
  lemma DeadlineIsMonotone(now: int, later: int, cooldown: int)
    requires now <= later <= INT64_MAX
    ensures Deadline(now, cooldown) == Min(now + Max(cooldown, 0), INT64_MAX)
    ensures now <= Deadline(now, cooldown) <= Deadline(later, cooldown) <= INT64_MAX
  {}

  // ---- One circuit under its calls ----

  datatype Call = Allow(now: int) | Success | Failure(now: int) | Reset

  /** An expired circuit becomes half-open before the call is judged. */
  function Expire(c: Circuit, now: int): Circuit {
    if c.openUntil != 0 && c.openUntil <= now then Circuit(0, 0, true, false, 0) else c
  }

  predicate Granted(c: Circuit, now: int) {
    c.openUntil <= now && (var e := Expire(c, now); !(e.halfOpen && e.probe))
  }

  function AfterAllow(c: Circuit, now: int): Circuit {
    if c.openUntil > now then c
    else
      var e := Expire(c, now);
      if e.halfOpen then e.(probe := true) else e
  }

  function AfterSuccess(c: Circuit, s: Settings): Circuit {
    if c.halfOpen then
      if c.successes + 1 >= s.required then NEW
      else c.(failures := 0, openUntil := 0, successes := c.successes + 1)
    else Circuit(0, 0, false, false, 0)
  }

  function AfterFailure(c: Circuit, now: int, s: Settings): Circuit {
    if c.halfOpen then Circuit(s.threshold, Deadline(now, s.cooldown), false, false, 0)
    else
      var failures := if c.failures < s.threshold then c.failures + 1 else c.failures;
      if failures >= s.threshold then Circuit(s.threshold, Deadline(now, s.cooldown), false, false, 0)
      else c.(failures := failures, probe := false)
  }

  function Step(c: Circuit, call: Call, s: Settings): Circuit {
    match call
    case Allow(now) => AfterAllow(c, now)
    case Success => AfterSuccess(c, s)
    case Failure(now) => AfterFailure(c, now, s)
    case Reset => NEW
  }

  /** The circuit after a run of calls. */
  function After(c: Circuit, calls: seq<Call>, s: Settings): Circuit {
    if calls == [] then c else Step(After(c, calls[..|calls| - 1], s), calls[|calls| - 1], s)
  }

  function TimeOf(call: Call): Option<int> {
    match call
    case Allow(now) => Some(now)
    case Failure(now) => Some(now)
    case _ => None
  }

  /** Clock readings are positive 64-bit values. */
  predicate PositiveClock(calls: seq<Call>) {
    forall i :: 0 <= i < |calls| && TimeOf(calls[i]).Some? ==> 0 < TimeOf(calls[i]).value <= INT64_MAX
  }

  /** Clock readings never go back. */
  predicate MonotoneClock(calls: seq<Call>) {
    forall i, j :: 0 <= i < j < |calls| && TimeOf(calls[i]).Some? && TimeOf(calls[j]).Some? ==>
      TimeOf(calls[i]).value <= TimeOf(calls[j]).value
  }

  predicate IsOpen(c: Circuit) { c.openUntil > 0 }

  predicate IsClosed(c: Circuit) { c.openUntil == 0 && !c.halfOpen }

  /** The shape of every reachable circuit: closed below the threshold, open exactly at the threshold with a
      deadline, or half-open with no deadline, the probe out and some but not all successes. */
  predicate Inv(c: Circuit, s: Settings) {
    && c.halfOpen == c.probe
    && 0 <= c.failures <= s.threshold && 0 <= c.openUntil
    && (IsOpen(c) <==> c.failures == s.threshold)
    && (c.halfOpen ==> c.openUntil == 0 && c.failures == 0 && 0 <= c.successes < s.required)
    && (!c.halfOpen ==> c.successes == 0)
  }

  lemma StepKeepsInv(c: Circuit, call: Call, s: Settings)
    requires Active(s) && Inv(c, s)
    requires TimeOf(call).Some? ==> 0 < TimeOf(call).value
    ensures Inv(Step(c, call, s), s)
  {}

  /** Every run keeps the shape. */
  lemma {:induction false} RunKeepsInv(c: Circuit, calls: seq<Call>, s: Settings)
    requires Active(s) && Inv(c, s) && PositiveClock(calls)
    ensures Inv(After(c, calls, s), s)
    decreases |calls|
  {
    hide Inv;
    if calls != [] {
      var n := |calls| - 1;
      assert PositiveClock(calls[..n]);
      RunKeepsInv(c, calls[..n], s);
      StepKeepsInv(After(c, calls[..n], s), calls[n], s);
    }
  }

  /** Failures recorded since the last success or reset. */
  function TrailingFailures(calls: seq<Call>): nat {
    if calls == [] then 0
    else
      match calls[|calls| - 1]
      case Failure(_) => TrailingFailures(calls[..|calls| - 1]) + 1
      case Allow(_) => TrailingFailures(calls[..|calls| - 1])
      case _ => 0
  }

  /** A closed circuit counts exactly the consecutive failures, and they are below the threshold; an open
      one shows the threshold itself. */
  lemma {:induction false} CountsConsecutiveFailures(calls: seq<Call>, s: Settings)
    requires Active(s) && PositiveClock(calls)
    ensures var c := After(NEW, calls, s);
            && (IsClosed(c) ==> c.failures == TrailingFailures(calls) < s.threshold)
            && (IsOpen(c) ==> c.failures == s.threshold)
            && (c.halfOpen ==> c.failures == 0)
    decreases |calls|
  {
    RunKeepsInv(NEW, calls, s);
    if calls != [] {
      var n := |calls| - 1;
      assert PositiveClock(calls[..n]);
      CountsConsecutiveFailures(calls[..n], s);
      RunKeepsInv(NEW, calls[..n], s);
    }
  }

  /** The circuit trips exactly at the threshold: on the failure that completes a run of that length, or on
      the first failure while half-open. */
  lemma TripsExactlyAtThreshold(calls: seq<Call>, now: int, s: Settings)
    requires Active(s) && PositiveClock(calls + [Failure(now)])
    ensures var c := After(NEW, calls, s);
            var next := AfterFailure(c, now, s);
            && (!IsOpen(c) ==> (IsOpen(next) <==> c.halfOpen || TrailingFailures(calls) + 1 == s.threshold))
            && (IsOpen(next) ==> next.openUntil == Deadline(now, s.cooldown) >= now && !Granted(next, now - 1))
  {
    hide After, TrailingFailures;
    assert PositiveClock(calls) by {
      assert forall i :: 0 <= i < |calls| ==> calls[i] == (calls + [Failure(now)])[i];
    }
    assert now > 0 by { assert (calls + [Failure(now)])[|calls|] == Failure(now); }
    RunKeepsInv(NEW, calls, s);
    CountsConsecutiveFailures(calls, s);
  }

  // ---- No grant before the deadline ----

  predicate NoRecovery(calls: seq<Call>) {
    forall i :: 0 <= i < |calls| ==> calls[i].Allow? || calls[i].Failure?
  }

  /** While every clock reading is before the deadline, the circuit stays open at least that long. */
  lemma {:induction false} StaysOpen(c: Circuit, calls: seq<Call>, s: Settings, tripped: int, deadline: int)
    requires Active(s) && c.openUntil >= deadline == Deadline(tripped, s.cooldown) && 0 < tripped
    requires c.failures == s.threshold && !c.halfOpen
    requires NoRecovery(calls) && PositiveClock(calls)
    requires forall i :: 0 <= i < |calls| ==> tripped <= TimeOf(calls[i]).value < deadline
    ensures var d := After(c, calls, s); d.openUntil >= deadline && d.failures == s.threshold && !d.halfOpen
    decreases |calls|
  {
    if calls != [] {
      var n := |calls| - 1;
      assert PositiveClock(calls[..n]) && NoRecovery(calls[..n]);
      StaysOpen(c, calls[..n], s, tripped, deadline);
      DeadlineIsMonotone(tripped, TimeOf(calls[n]).value, s.cooldown);
    }
  }

  /** After a trip no permission is given before the deadline, whatever failures and refused requests follow,
      as long as no success or reset intervenes and the clock does not go back. */
  lemma NoGrantBeforeDeadline(c: Circuit, calls: seq<Call>, s: Settings, tripped: int, k: nat)
    requires Active(s) && 0 < tripped && PositiveClock(calls) && MonotoneClock(calls)
    requires c == Circuit(s.threshold, Deadline(tripped, s.cooldown), false, false, 0)
    requires k < |calls| && NoRecovery(calls[..k]) && calls[k].Allow?
    requires forall i :: 0 <= i <= k && TimeOf(calls[i]).Some? ==> tripped <= TimeOf(calls[i]).value
    requires calls[k].now < c.openUntil
    ensures !Granted(After(c, calls[..k], s), calls[k].now)
  {
    hide After;
    var front := calls[..k];
    forall i | 0 <= i < k ensures tripped <= TimeOf(front[i]).value < c.openUntil {
      assert front[i] == calls[i];
      assert TimeOf(calls[i]).value <= TimeOf(calls[k]).value;
    }
    assert PositiveClock(front);
    StaysOpen(c, front, s, tripped, c.openUntil);
  }

  // ---- Half-open episodes ----

  function Successes(calls: seq<Call>): nat {
    if calls == [] then 0
    else Successes(calls[..|calls| - 1]) + (if calls[|calls| - 1].Success? then 1 else 0)
  }

  predicate Probing(calls: seq<Call>) {
    forall i :: 0 <= i < |calls| ==> calls[i].Allow? || calls[i].Success?
  }

  /** A request is granted exactly by a closed circuit, which it leaves alone, or by an open one whose
      deadline has passed, which it makes half-open with the probe reserved. */
  lemma GrantedExactly(c: Circuit, s: Settings, now: int)
    requires Active(s) && Inv(c, s) && 0 < now
    ensures Granted(c, now) <==> IsClosed(c) || (IsOpen(c) && c.openUntil <= now)
    ensures AfterAllow(c, now) == if IsOpen(c) && c.openUntil <= now then Circuit(0, 0, true, true, 0) else c
  {}

  /** A half-open episode starts with a granted call and grants nothing more while it lasts. */
  lemma EpisodeGrantsOnce(c: Circuit, s: Settings, now: int)
    requires Active(s) && Inv(c, s) && 0 < now
    ensures c.halfOpen ==> !Granted(c, now) && AfterAllow(c, now) == c
    ensures !c.halfOpen && AfterAllow(c, now).halfOpen ==> Granted(c, now) && IsOpen(c) && c.openUntil <= now
  {}

  /** Under any number of requests and fewer successes than are required, the episode goes on: every request
      is refused and only the successes are counted. */
  lemma {:induction false} EpisodeGoesOn(c: Circuit, calls: seq<Call>, s: Settings)
    requires Active(s) && Inv(c, s) && c.halfOpen && Probing(calls) && PositiveClock(calls)
    requires c.successes + Successes(calls) < s.required
    ensures After(c, calls, s) == c.(successes := c.successes + Successes(calls))
    ensures forall i :: 0 <= i < |calls| && calls[i].Allow? ==> !Granted(After(c, calls[..i], s), calls[i].now)
    decreases |calls|
  {
    if calls != [] {
      var n := |calls| - 1;
      var front := calls[..n];
      assert PositiveClock(front) && Probing(front);
      EpisodeGoesOn(c, front, s);
      forall i | 0 <= i < |calls| && calls[i].Allow? ensures !Granted(After(c, calls[..i], s), calls[i].now) {
        if i < n {
          assert front[i] == calls[i] && front[..i] == calls[..i];
        }
      }
    }
  }

  /** The episode closes exactly at the required number of successes. */
  lemma EpisodeCloses(c: Circuit, calls: seq<Call>, s: Settings)
    requires Active(s) && Inv(c, s) && c.halfOpen && Probing(calls) && PositiveClock(calls)
    requires c.successes + Successes(calls) + 1 == s.required
    ensures After(c, calls, s).halfOpen && After(c, calls + [Success], s) == NEW
  {
    EpisodeGoesOn(c, calls, s);
    assert (calls + [Success])[..|calls|] == calls;
  }

  /** The first failure ends the episode and opens the circuit for a whole cooldown. */
  lemma EpisodeReopens(c: Circuit, calls: seq<Call>, now: int, s: Settings)
    requires Active(s) && Inv(c, s) && c.halfOpen && Probing(calls) && PositiveClock(calls) && 0 < now
    requires c.successes + Successes(calls) < s.required
    ensures After(c, calls + [Failure(now)], s) == Circuit(s.threshold, Deadline(now, s.cooldown), false, false, 0)
  {
    EpisodeGoesOn(c, calls, s);
    assert (calls + [Failure(now)])[..|calls|] == calls;
  }

  // ---- What a success does outside an episode ----

  predicate NoFailure(calls: seq<Call>) { forall i :: 0 <= i < |calls| ==> !calls[i].Failure? }

  /** A success closes a circuit that is not half-open, however long it was to stay open: the next request is granted
      at every positive time. */
  lemma SuccessCloses(c: Circuit, s: Settings, now: int)
    requires Active(s) && Inv(c, s) && !c.halfOpen && 0 < now
    ensures IsClosed(AfterSuccess(c, s)) && AfterSuccess(c, s).failures == 0 && Granted(AfterSuccess(c, s), now)
  {}

  lemma ClosedStays(c: Circuit, call: Call, s: Settings)
    requires Active(s) && Inv(c, s) && IsClosed(c) && !call.Failure?
    requires TimeOf(call).Some? ==> 0 < TimeOf(call).value
    ensures IsClosed(Step(c, call, s))
  {}

  /** Once closed, a circuit grants every request until a failure is recorded. */
  lemma {:induction false} ClosedGrants(c: Circuit, calls: seq<Call>, s: Settings, now: int)
    requires Active(s) && Inv(c, s) && IsClosed(c) && NoFailure(calls) && PositiveClock(calls) && 0 < now
    ensures IsClosed(After(c, calls, s)) && Granted(After(c, calls, s), now)
    decreases |calls|
  {
    hide Inv;
    if calls != [] {
      var n := |calls| - 1;
      assert NoFailure(calls[..n]) && PositiveClock(calls[..n]);
      ClosedGrants(c, calls[..n], s, now);
      RunKeepsInv(c, calls[..n], s);
      ClosedStays(After(c, calls[..n], s), calls[n], s);
    }
    RunKeepsInv(c, calls, s);
    ClosedIsGranted(After(c, calls, s), s, now);
  }

  lemma ClosedIsGranted(c: Circuit, s: Settings, now: int)
    requires Active(s) && Inv(c, s) && IsClosed(c) && 0 < now
    ensures Granted(c, now)
  {}

  // ---- Recovery ----

  /** An open circuit whose deadline has passed: one granted request and its success. The next request is
      granted exactly when the policy asks for a single success; otherwise the probe stays reserved. */
  lemma RecoveryNeedsSingleSuccess(c: Circuit, s: Settings, now: int, later: int)
    requires Active(s) && Inv(c, s) && IsOpen(c) && c.openUntil <= now <= later
    ensures Granted(c, now)
    ensures var d := After(c, [Allow(now), Success], s);
            && (Granted(d, later) <==> s.required == 1)
            && (s.required == 1 ==> d == NEW)
  {
    GrantAndSuccess(c, s, now);
  }

  lemma GrantAndSuccess(c: Circuit, s: Settings, now: int)
    ensures After(c, [Allow(now), Success], s) == AfterSuccess(AfterAllow(c, now), s)
  {
    assert [Allow(now), Success][..1] == [Allow(now)];
    assert [Allow(now)][..0] == [];
    assert After(c, [Allow(now)], s) == AfterAllow(c, now);
  }

  /** With more than one success required, a caller that records a success only after its own granted request
      is refused for ever: no number of further requests is granted. */
  lemma StuckWhenMoreAreRequired(c: Circuit, s: Settings, now: int, calls: seq<Call>)
    requires Active(s) && Inv(c, s) && IsOpen(c) && c.openUntil <= now && s.required > 1
    requires PositiveClock(calls) && forall i :: 0 <= i < |calls| ==> calls[i].Allow?
    ensures var d := After(c, [Allow(now), Success], s);
            forall i :: 0 <= i < |calls| ==> !Granted(After(d, calls[..i], s), calls[i].now)
  {
    GrantAndSuccess(c, s, now);
    var d := After(c, [Allow(now), Success], s);
    NoSuccesses(calls);
    EpisodeGoesOn(d, calls, s);
  }

  lemma {:induction false} NoSuccesses(calls: seq<Call>)
    requires forall i :: 0 <= i < |calls| ==> calls[i].Allow?
    ensures Successes(calls) == 0
  {
    if calls != [] {
      NoSuccesses(calls[..|calls| - 1]);
    }
  }
}
