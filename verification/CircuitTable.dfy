/** The vector of circuit states behind the breaker's public functions (Modules/API/api_retry.cpp), as a map
    from keys to circuits, and runs of calls over all keys. */
module CircuitTable {
  import opened Prelude
  import opened Retry
  import opened Circuit

  datatype Entry = Entry(key: string, circuit: Circuit)

  ghost predicate UniqueKeys(states: seq<Entry>) {
    forall i, j :: 0 <= i < j < |states| ==> states[i].key != states[j].key
  }

  type Table = map<string, Circuit>

  /** The table that the vector stands for. */
  function TableOf(states: seq<Entry>): Table {
    if states == [] then map[] else TableOf(states[..|states| - 1])[states[|states| - 1].key := states[|states| - 1].circuit]
  }

  /** A key never seen is a fresh closed circuit. */
  function LookUp(t: Table, key: string): Circuit { if key in t then t[key] else NEW }

  lemma {:induction false} TableHas(states: seq<Entry>, key: string)
    ensures key in TableOf(states) <==> exists i :: 0 <= i < |states| && states[i].key == key
    decreases |states|
  {
    if states != [] {
      var n := |states| - 1;
      TableHas(states[..n], key);
      if i :| 0 <= i < |states| && states[i].key == key {
        assert i == n || states[..n][i].key == key;
      }
      if i :| 0 <= i < n && states[..n][i].key == key {
        assert states[i].key == key;
      }
      assert states[n].key == key ==> exists i :: 0 <= i < |states| && states[i].key == key;
    }
  }

  lemma {:induction false} TableAt(states: seq<Entry>, k: nat)
    requires UniqueKeys(states) && k < |states|
    ensures states[k].key in TableOf(states) && TableOf(states)[states[k].key] == states[k].circuit
    decreases |states|
  {
    var n := |states| - 1;
    if k < n {
      assert UniqueKeys(states[..n]);
      TableAt(states[..n], k);
    }
  }

  lemma {:induction false} TableUpdate(states: seq<Entry>, k: nat, c: Circuit)
    requires UniqueKeys(states) && k < |states|
    ensures var states' := states[k := Entry(states[k].key, c)];
            UniqueKeys(states') && TableOf(states') == TableOf(states)[states[k].key := c]
    decreases |states|
  {
    var n := |states| - 1;
    var states' := states[k := Entry(states[k].key, c)];
    assert UniqueKeys(states') && UniqueKeys(states[..n]);
    if k < n {
      assert states[k].key != states[n].key;
      hide UniqueKeys;
      TableUpdate(states[..n], k, c);
      assert states'[..n] == states[..n][k := Entry(states[k].key, c)];
    } else {
      assert states'[..n] == states[..n];
    }
  }

  lemma TablePush(states: seq<Entry>, e: Entry)
    requires UniqueKeys(states) && e.key !in TableOf(states)
    ensures UniqueKeys(states + [e]) && TableOf(states + [e]) == TableOf(states)[e.key := e.circuit]
  {
    TableHas(states, e.key);
    assert (states + [e])[..|states|] == states;
  }

  // ---- The object ----

  /** The static vector; the clock reading of a call is its argument. */
  class Breaker {
    var states: seq<Entry>

    constructor ()
      ensures Valid() && View() == map[]
    {
      states := [];
    }

    ghost predicate Valid()
      reads this
    {
      UniqueKeys(states)
    }

    ghost function View(): Table
      reads this
    {
      TableOf(states)
    }

    /** `api_retry_circuit_find_state`; -1 stands for the null result. */
    method FindState(key: string) returns (at: int)
      ensures at == -1 ==> key !in View()
      ensures at != -1 ==> 0 <= at < |states| && states[at].key == key
    {
      var index := 0;
      while index < |states|
        invariant 0 <= index <= |states|
        invariant forall i :: 0 <= i < index ==> states[i].key != key
      {
        if states[index].key == key {
          return index;
        }
        index := index + 1;
      }
      TableHas(states, key);
      return -1;
    }

    /** `api_retry_circuit_get_state`: find the state or append a fresh one. */
    method GetState(key: string) returns (at: nat)
      requires Valid()
      modifies this
      ensures Valid() && at < |states| && states[at].key == key
      ensures states[at].circuit == LookUp(old(View()), key)
      ensures View() == old(View())[key := LookUp(old(View()), key)]
    {
      hide TableOf;
      var found := FindState(key);
      if found != -1 {
        TableAt(states, found);
        assert View() == View()[key := LookUp(View(), key)];
        return found;
      }
      TablePush(states, Entry(key, NEW));
      states := states + [Entry(key, NEW)];
      return |states| - 1;
    }

    method SetState(at: nat, c: Circuit)
      requires Valid() && at < |states|
      modifies this
      ensures Valid() && View() == old(View())[old(states[at].key) := c]
    {
      hide TableOf;
      TableUpdate(states, at, c);
      states := states[at := Entry(states[at].key, c)];
    }

    /** `api_retry_circuit_allow`. */
    method AllowRequest(key: string, policy: Option<Policy>, now: int) returns (granted: bool)
      requires Valid()
      modifies this
      ensures Valid()
      ensures granted == (CircuitThreshold(policy) <= 0 || key == "" || Granted(LookUp(old(View()), key), now))
      ensures View() == if CircuitThreshold(policy) <= 0 then old(View())
                        else Apply(old(View()), On(key, Allow(now)), SettingsOf(policy))
    {
      hide TableOf;
      if CircuitThreshold(policy) <= 0 {
        return true;
      }
      if key == "" {
        return true;
      }
      var at := GetState(key);
      var c := states[at].circuit;
      if c.openUntil > now {
        return false;
      }
      if c.openUntil != 0 && c.openUntil <= now {
        c := Circuit(0, 0, true, false, 0);
      }
      if c.halfOpen {
        if c.probe {
          SetState(at, c);
          return false;
        }
        c := c.(probe := true);
      }
      SetState(at, c);
      return true;
    }

    /** `api_retry_circuit_record_success`. */
    method RecordSuccess(key: string, policy: Option<Policy>)
      requires Valid()
      modifies this
      ensures Valid()
      ensures View() == if CircuitThreshold(policy) <= 0 then old(View())
                        else Apply(old(View()), On(key, Success), SettingsOf(policy))
    {
      hide TableOf;
      if CircuitThreshold(policy) <= 0 || key == "" {
        return;
      }
      var at := GetState(key);
      var c := states[at].circuit;
      c := c.(failures := 0, openUntil := 0);
      if c.halfOpen {
        var required := HalfOpenSuccesses(policy);
        c := c.(successes := c.successes + 1);
        if c.successes >= required {
          c := c.(halfOpen := false, probe := false, successes := 0);
        }
      } else {
        c := c.(successes := 0, probe := false);
      }
      SetState(at, c);
    }

    /** `api_retry_circuit_record_failure`. */
    method RecordFailure(key: string, policy: Option<Policy>, now: int)
      requires Valid()
      modifies this
      ensures Valid()
      ensures View() == if CircuitThreshold(policy) <= 0 then old(View())
                        else Apply(old(View()), On(key, Failure(now)), SettingsOf(policy))
    {
      hide TableOf, Deadline;
      var threshold := CircuitThreshold(policy);
      if threshold <= 0 || key == "" {
        return;
      }
      var at := GetState(key);
      var c := states[at].circuit;
      var cooldown := CircuitCooldown(policy);
      if c.halfOpen {
        c := Circuit(threshold, Deadline(now, cooldown), false, false, 0);
        SetState(at, c);
        return;
      }
      if c.failures < threshold {
        c := c.(failures := c.failures + 1);
      }
      c := c.(probe := false);
      if c.failures >= threshold {
        c := Circuit(threshold, Deadline(now, cooldown), false, false, 0);
      }
      SetState(at, c);
    }

    /** `api_retry_circuit_reset`, the part under the circuit mutex. */
    method ResetAll()
      modifies this
      ensures Valid() && View() == map[]
    {
      states := [];
    }
  }

  // ---- Runs over all keys ----

  /** A public call on one key, or the reset of all. */
  datatype Op = On(key: string, call: Call) | ResetEverything

  /** One call under a fixed policy whose circuit is active; a call on the empty key leaves no trace. */
  function Apply(t: Table, op: Op, s: Settings): Table {
    match op
    case ResetEverything => map[]
    case On(key, call) => if key == "" then t else t[key := Step(LookUp(t, key), call, s)]
  }

  function Run(t: Table, ops: seq<Op>, s: Settings): Table {
    if ops == [] then t else Apply(Run(t, ops[..|ops| - 1], s), ops[|ops| - 1], s)
  }

  /** The calls that reach the circuit of one key. */
  function Project(ops: seq<Op>, key: string): seq<Call> {
    if ops == [] then []
    else
      var front := Project(ops[..|ops| - 1], key);
      match ops[|ops| - 1]
      case ResetEverything => front + [Reset]
      case On(k, call) => if k == key && key != "" then front + [call] else front
  }

  /** What one operation does to the circuit of one key. */
  lemma ApplyAtKey(t: Table, op: Op, s: Settings, key: string)
    ensures LookUp(Apply(t, op, s), key) ==
            match op
            case ResetEverything => NEW
            case On(k, call) => if k == key && key != "" then Step(LookUp(t, key), call, s) else LookUp(t, key)
  {
    hide Step;
  }

  /** No cross-key effects: in any interleaving the circuit of a key is what its own calls make of it. */
  lemma {:induction false} KeysAreIndependent(t: Table, ops: seq<Op>, s: Settings, key: string)
    ensures LookUp(Run(t, ops, s), key) == After(LookUp(t, key), Project(ops, key), s)
    decreases |ops|
  {
    hide Step, Apply, LookUp, After;
    if ops == [] {
      AfterNothing(LookUp(t, key), s);
    } else {
      var n := |ops| - 1;
      var front := Project(ops[..n], key);
      KeysAreIndependent(t, ops[..n], s, key);
      ApplyAtKey(Run(t, ops[..n], s), ops[n], s, key);
      match ops[n]
      case ResetEverything =>
        AfterSnoc(LookUp(t, key), front, Reset, s);
        ResetIsNew(After(LookUp(t, key), front, s), s);
      case On(k, call) =>
        AfterSnoc(LookUp(t, key), front, call, s);
    }
  }

  /** The empty key never gets a circuit. */
  lemma {:induction false} EmptyKeyIsNew(ops: seq<Op>, s: Settings)
    ensures LookUp(Run(map[], ops, s), "") == NEW
    decreases |ops|
  {
    hide Step;
    if ops != [] {
      EmptyKeyIsNew(ops[..|ops| - 1], s);
      ApplyAtKey(Run(map[], ops[..|ops| - 1], s), ops[|ops| - 1], s, "");
    }
  }

  lemma AfterNothing(c: Circuit, s: Settings)
    ensures After(c, [], s) == c
  {}

  lemma AfterSnoc(c: Circuit, calls: seq<Call>, call: Call, s: Settings)
    ensures After(c, calls + [call], s) == Step(After(c, calls, s), call, s)
  {
    hide Step;
    assert (calls + [call])[..|calls|] == calls;
  }

  lemma ResetIsNew(c: Circuit, s: Settings)
    ensures Step(c, Reset, s) == NEW
  {}

  /** Every circuit of every reachable table has the shape of a closed, open or half-open circuit. */
  lemma ReachableCircuits(ops: seq<Op>, s: Settings, key: string)
    requires Active(s) && PositiveClock(Project(ops, key))
    ensures Inv(LookUp(Run(map[], ops, s), key), s)
  {
    KeysAreIndependent(map[], ops, s, key);
    RunKeepsInv(NEW, Project(ops, key), s);
  }

  lemma {:induction false} RunAppend(t: Table, a: seq<Op>, b: seq<Op>, s: Settings)
    ensures Run(t, a + b, s) == Run(Run(t, a, s), b, s)
    decreases |b|
  {
    hide Apply;
    if b == [] {
      assert a + b == a;
    } else {
      var n := |b| - 1;
      RunAppend(t, a, b[..n], s);
      assert (a + b)[..|a + b| - 1] == a + b[..n];
    }
  }

  /** A failure that leaves its circuit open leaves it in one state only: tripped at that moment. */
  lemma OpenAfterFailure(c: Circuit, now: int, s: Settings)
    requires Active(s) && Inv(c, s) && 0 < now && IsOpen(AfterFailure(c, now, s))
    ensures AfterFailure(c, now, s) == Circuit(s.threshold, Deadline(now, s.cooldown), false, false, 0)
  {}

  /** Safety over whole runs. Whatever happened before, and whatever other keys and refused or failing requests
      of this key do in between: once a failure at time `tripped` has left the key's circuit open, a request of
      that key before the deadline is refused, unless a success of the key or a reset intervened. */
  lemma NoGrantAfterTrip(before: seq<Op>, between: seq<Op>, s: Settings, key: string, tripped: int, now: int)
    requires Active(s) && 0 < tripped <= INT64_MAX && now < Deadline(tripped, s.cooldown)
    requires PositiveClock(Project(before, key))
    requires IsOpen(LookUp(Run(map[], before + [On(key, Failure(tripped))], s), key))
    requires NoRecovery(Project(between, key))
    requires var calls := Project(between, key) + [Allow(now)];
             && PositiveClock(calls) && MonotoneClock(calls)
             && forall i :: 0 <= i < |calls| ==> tripped <= TimeOf(calls[i]).value
    ensures !Granted(LookUp(Run(map[], before + [On(key, Failure(tripped))] + between, s), key), now)
  {
    hide Run, Granted, After, MonotoneClock, PositiveClock, NoRecovery;
    var trip := before + [On(key, Failure(tripped))];
    var t := Run(map[], trip, s);
    TripState(before, s, key, tripped);
    RunAppend(map[], trip, between, s);
    KeysAreIndependent(t, between, s, key);
    var calls := Project(between, key) + [Allow(now)];
    assert calls[..|calls| - 1] == Project(between, key);
    NoGrantBeforeDeadline(LookUp(t, key), calls, s, tripped, |calls| - 1);
  }

  lemma TripState(before: seq<Op>, s: Settings, key: string, tripped: int)
    requires Active(s) && 0 < tripped && PositiveClock(Project(before, key))
    requires IsOpen(LookUp(Run(map[], before + [On(key, Failure(tripped))], s), key))
    ensures LookUp(Run(map[], before + [On(key, Failure(tripped))], s), key)
         == Circuit(s.threshold, Deadline(tripped, s.cooldown), false, false, 0)
  {
    hide Deadline, PositiveClock, Inv, AfterFailure;
    var ops := before + [On(key, Failure(tripped))];
    assert ops[..|before|] == before;
    if key == "" {
      EmptyKeyIsNew(ops, s);
    } else {
      ReachableCircuits(before, s, key);
      OpenAfterFailure(LookUp(Run(map[], before, s), key), tripped, s);
    }
  }

  /** Liveness over whole runs. Whatever happened before and whatever other keys do: after a success of a key whose
      circuit is not half-open, even one that tripped a moment ago, every request of that key is granted until that key
      fails again. */
  lemma GrantsAfterSuccess(before: seq<Op>, between: seq<Op>, s: Settings, key: string, now: int)
    requires Active(s) && 0 < now && PositiveClock(Project(before, key)) && PositiveClock(Project(between, key))
    requires !LookUp(Run(map[], before, s), key).halfOpen
    requires NoFailure(Project(between, key))
    ensures Granted(LookUp(Run(map[], before + [On(key, Success)] + between, s), key), now)
  {
    hide Granted, After, PositiveClock, NoFailure, Inv, AfterSuccess, LookUp;
    var ops := before + [On(key, Success)];
    var c, d := LookUp(Run(map[], before, s), key), LookUp(Run(map[], ops, s), key);
    ReachableCircuits(before, s, key);
    SuccessAtKey(before, s, key);
    if key == "" {
      EmptyKeyIsNew(before, s);
      EmptyKeyIsNew(ops, s);
      NewIsClosed(s);
    } else {
      SuccessCloses(c, s, now);
      StepKeepsInv(c, Success, s);
    }
    RunAppend(map[], ops, between, s);
    KeysAreIndependent(Run(map[], ops, s), between, s, key);
    ClosedGrants(d, Project(between, key), s, now);
  }

  lemma NewIsClosed(s: Settings)
    requires Active(s)
    ensures IsClosed(NEW) && Inv(NEW, s)
  {}

  lemma SuccessAtKey(before: seq<Op>, s: Settings, key: string)
    ensures LookUp(Run(map[], before + [On(key, Success)], s), key)
         == if key == "" then LookUp(Run(map[], before, s), key) else AfterSuccess(LookUp(Run(map[], before, s), key), s)
  {
    hide AfterSuccess;
    var ops := before + [On(key, Success)];
    assert ops[..|before|] == before;
    ApplyAtKey(Run(map[], before, s), On(key, Success), s, key);
  }
}
