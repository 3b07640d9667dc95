/** Which connections the pool stores and which it hands out again, over runs, in terms of store times, clock readings
    and liveness answers only (Modules/API/api_connection_pool.cpp). */
module PoolReuse {
  import opened Prelude
  import opened ConnectionPool

  /** A socket is in some slot. */
  ghost predicate Stored(slots: seq<Entry>, x: Socket) { exists i :: 0 <= i < |slots| && slots[i].socket == x }

  /** A connection stored at one time has outlived a positive timeout at another. */
  predicate OutOfTime(timeout: int, stored: int, now: int) { timeout > 0 && now - stored > timeout }

  /** The entry may be handed out for the key: it matches, is not out of time and its socket answers. */
  predicate Serves(e: Entry, key: string, timeout: int, w: Probe) {
    e.key == key && !OutOfTime(timeout, e.idleSince, w.now(e.socket)) && w.alive(e.socket)
  }

  lemma UsableServes(e: Entry, key: string, timeout: int, w: Probe)
    ensures Usable(e, key, timeout, w) <==> Serves(e, key, timeout, w)
  {}

  // ---- Where sockets are ----

  lemma {:induction false} StoredCounts(slots: seq<Entry>, x: Socket)
    ensures Stored(slots, x) <==> SocketsOf(slots)[x] > 0
  {
    if slots != [] {
      StoredCounts(slots[1..], x);
      if Stored(slots, x) {
        var i :| 0 <= i < |slots| && slots[i].socket == x;
        assert i > 0 ==> slots[1..][i - 1].socket == x;
      }
      if Stored(slots[1..], x) {
        var i :| 0 <= i < |slots[1..]| && slots[1..][i].socket == x;
        assert slots[i + 1].socket == x;
      }
    }
  }

  lemma {:induction false} TwiceCounts(slots: seq<Entry>, i: nat, j: nat)
    requires i < j < |slots| && slots[i].socket == slots[j].socket
    ensures SocketsOf(slots)[slots[i].socket] >= 2
  {
    var x := slots[i].socket;
    if i == 0 {
      assert slots[1..][j - 1].socket == x;
      StoredCounts(slots[1..], x);
    } else {
      TwiceCounts(slots[1..], i - 1, j - 1);
    }
  }

  lemma {:induction false} HandleCounts(hs: seq<Handle>, at: nat)
    requires at < |hs| && hs[at].socket.Some?
    ensures HandleSockets(hs)[hs[at].socket.value] > 0
  {
    if at > 0 {
      HandleCounts(hs[1..], at - 1);
    }
  }

  /** Under the invariant a socket is at most once among handles, slots and closed. */
  lemma OnceAtMost(w: World, x: Socket)
    requires Inv(w)
    ensures HandleSockets(w.handles)[x] + SocketsOf(w.pool.slots)[x] + w.pool.closed[x] <= 1
  {
    assert AllPlaces(w)[x] == multiset(w.issued)[x];
  }

  lemma OwnedIsNotStored(w: World, at: nat)
    requires Inv(w) && at < |w.handles| && w.handles[at].socket.Some?
    ensures !Stored(w.pool.slots, w.handles[at].socket.value) && w.pool.closed[w.handles[at].socket.value] == 0
  {
    var x := w.handles[at].socket.value;
    hide Inv;
    OnceAtMost(w, x);
    HandleCounts(w.handles, at);
    StoredCounts(w.pool.slots, x);
  }

  /** Two slots never hold the same socket. */
  lemma OneSlot(w: World, i: nat, j: nat)
    requires Inv(w) && i < |w.pool.slots| && j < |w.pool.slots| && w.pool.slots[i].socket == w.pool.slots[j].socket
    ensures i == j
  {
    hide Inv;
    OnceAtMost(w, w.pool.slots[i].socket);
    if i < j { TwiceCounts(w.pool.slots, i, j); }
    if j < i { TwiceCounts(w.pool.slots, j, i); }
  }

  // ---- Giving back ----

  /** A connection given back is stored, with its key and the time, exactly when the handle was not marked timed out, may
      be stored and is plain, the pool is enabled with a positive limit, and the socket answers; otherwise it is closed. */
  lemma StoredExactly(w: World, at: nat, alive: bool, now: int)
    requires Inv(w) && at < |w.handles| && w.handles[at].hasSocket
    ensures w.handles[at].socket.Some?
    ensures var h := w.handles[at];
            var x, p := h.socket.value, MarkIdle(w.pool, h, alive, now).pool;
            if !h.timedOut && h.shouldStore && h.mode.Plain? && w.pool.enabled && w.pool.maxIdle > 0 && alive then
              Entry(h.key, x, false, h.http2, now) in p.slots
            else p.slots == w.pool.slots && p.closed[x] == 1 && !Stored(p.slots, x)
  {
    var h, p := w.handles[at], w.pool;
    assert HonestFlag(h);
    OwnedIsNotStored(w, at);
    if Storable(p, h, alive) {
      MarkIdleDropsOldest(p, h, alive, now);
      var slots := MarkIdle(p, h, alive, now).pool.slots;
      assert slots[|slots| - 1] in slots;
    } else {
      MarkIdleClosesOthers(p, h, alive, now);
    }
  }

  /** Nothing closed is opened again. */
  lemma ClosedGrows(w: World, op: Op, x: Socket)
    requires Enabled(w, op)
    ensures w.pool.closed[x] <= Apply(w, op).pool.closed[x]
  {
    hide Scan, BuildKey, SocketsOf;
  }

  /** Operations that do not put a connection into the handle. */
  predicate LeavesAlone(op: Op, at: nat) { op.DoAcquire? || op.DoConnect? ==> op.at != at }

  /** A socket in a handle that was marked timed out, or closed. */
  ghost predicate Discarded(w: World, at: nat, x: Socket) {
    at < |w.handles| && ((w.handles[at].timedOut && w.handles[at].socket == Some(x)) || w.pool.closed[x] > 0)
  }

  lemma DiscardedIsNotStored(w: World, at: nat, x: Socket)
    requires Inv(w) && Discarded(w, at, x)
    ensures !Stored(w.pool.slots, x)
  {
    hide Inv;
    if w.pool.closed[x] > 0 {
      OnceAtMost(w, x);
      StoredCounts(w.pool.slots, x);
    } else {
      OwnedIsNotStored(w, at);
    }
  }

  lemma StaysDiscarded(w: World, op: Op, at: nat, x: Socket)
    requires Inv(w) && Enabled(w, op) && LeavesAlone(op, at) && Discarded(w, at, x)
    ensures Discarded(Apply(w, op), at, x)
  {
    ClosedGrows(w, op, x);
    hide SocketsOf, Scan, BuildKey, AllPlaces;
    if w.pool.closed[x] == 0 && OnHandle(op) && op.at == at {
      TimedOutEffect(w.pool, w.handles[at], op);
    }
  }

  ghost predicate StillDiscarded(r: Reply, x: Socket) {
    (r.handle.timedOut && r.handle.socket == Some(x)) || r.pool.closed[x] > 0
  }

  lemma TimedOutMarkIdle(p: Pool, h: Handle, alive: bool, now: int)
    requires h.timedOut && h.socket.Some?
    ensures StillDiscarded(MarkIdle(p, h, alive, now), h.socket.value)
  {
    hide MakeRoom;
  }

  lemma TimedOutEffect(p: Pool, h: Handle, op: Op)
    requires OnHandle(op) && !op.DoAcquire? && !op.DoConnect? && h.timedOut && h.socket.Some?
    ensures StillDiscarded(Effect(p, h, op), h.socket.value)
  {
    hide MarkIdle, Acquire, Connect;
    if op.DoMarkIdle? {
      TimedOutMarkIdle(p, h, op.alive, op.now);
    }
  }

  /** A connection whose handle was marked timed out is never stored, whatever happens, until the handle gets another
      connection. */
  lemma {:induction false} TimedOutIsNeverStored(w: World, ops: seq<Op>, at: nat, x: Socket)
    requires Inv(w) && IsRun(w, ops) && Discarded(w, at, x)
    requires forall i :: 0 <= i < |ops| ==> LeavesAlone(ops[i], at)
    ensures !Stored(Run(w, ops).pool.slots, x)
    decreases |ops|
  {
    hide Inv, Apply, Enabled, Discarded, LeavesAlone, Stored;
    if ops == [] {
      DiscardedIsNotStored(w, at, x);
    } else {
      ApplyKeepsInv(w, ops[0]);
      StaysDiscarded(w, ops[0], at, x);
      TimedOutIsNeverStored(Apply(w, ops[0]), ops[1..], at, x);
    }
  }

  // ---- A stored entry stays as it was stored ----

  lemma {:induction false} ScanFromSlots(slots: seq<Entry>, key: string, timeout: int, w: Probe, e: Entry)
    requires e in Scan(slots, key, timeout, w).slots
    ensures e in slots
    decreases |slots|
  {
    hide Usable, Scan;
    if slots == [] {
      ScanEmpty(key, timeout, w);
    } else {
      assert slots == [slots[0]] + slots[1..];
      ScanStep(slots[0], slots[1..], key, timeout, w);
      if e in Scan(slots[1..], key, timeout, w).slots {
        ScanFromSlots(slots[1..], key, timeout, w, e);
      }
    }
  }

  lemma MarkIdleFromSlots(p: Pool, h: Handle, alive: bool, now: int, e: Entry)
    requires e in MarkIdle(p, h, alive, now).pool.slots
    ensures e in p.slots || h.socket == Some(e.socket)
  {}

  /** Every slot was there before, or has just been stored from a handle that owned its socket. */
  lemma SlotsComeFrom(w: World, op: Op, e: Entry)
    requires Enabled(w, op) && e in Apply(w, op).pool.slots
    ensures e in w.pool.slots || (op.DoMarkIdle? && w.handles[op.at].socket == Some(e.socket))
  {
    hide Scan, BuildKey, SocketsOf, MarkIdle;
    if op.DoAcquire? {
      if e !in w.pool.slots {
        ScanFromSlots(w.pool.slots, BuildKey(op.target), w.pool.timeout, op.probe, e);
      }
    } else if op.DoMarkIdle? {
      MarkIdleFromSlots(w.pool, w.handles[op.at], op.alive, op.now, e);
    }
  }

  /** An entry whose socket is still stored after an operation is still the same entry. */
  lemma EntryStays(w: World, op: Op, e: Entry)
    requires Inv(w) && Enabled(w, op) && e in w.pool.slots && Stored(Apply(w, op).pool.slots, e.socket)
    ensures e in Apply(w, op).pool.slots
  {
    hide Inv, Apply;
    var after := Apply(w, op).pool.slots;
    var i :| 0 <= i < |after| && after[i].socket == e.socket;
    SlotsComeFrom(w, op, after[i]);
    var k :| 0 <= k < |w.pool.slots| && w.pool.slots[k] == e;
    if after[i] in w.pool.slots {
      var j :| 0 <= j < |w.pool.slots| && w.pool.slots[j] == after[i];
      OneSlot(w, j, k);
    } else {
      OwnedIsNotStored(w, op.at);
    }
  }

  /** The socket is stored now and after each operation of the run. */
  ghost predicate StaysStored(w: World, ops: seq<Op>, x: Socket)
    requires IsRun(w, ops)
    decreases |ops|
  {
    Stored(w.pool.slots, x) && (ops == [] || StaysStored(Apply(w, ops[0]), ops[1..], x))
  }

  lemma {:induction false} EntryStaysOver(w: World, ops: seq<Op>, e: Entry)
    requires Inv(w) && IsRun(w, ops) && e in w.pool.slots && StaysStored(w, ops, e.socket)
    ensures e in Run(w, ops).pool.slots
    decreases |ops|
  {
    hide Inv, Apply, Enabled, Stored;
    if ops != [] {
      ApplyKeepsInv(w, ops[0]);
      StoredFirst(Apply(w, ops[0]), ops[1..], e.socket);
      EntryStays(w, ops[0], e);
      EntryStaysOver(Apply(w, ops[0]), ops[1..], e);
    }
  }

  lemma StoredFirst(w: World, ops: seq<Op>, x: Socket)
    requires IsRun(w, ops) && StaysStored(w, ops, x)
    ensures Stored(w.pool.slots, x)
  {}

  // ---- Handing out ----

  /** Whatever an acquire hands out was stored under the target's key, is not out of time and answers. */
  lemma HandedOutServes(p: Pool, h: Handle, t: Target, f: Faults, w: Probe) returns (e: Entry)
    requires Acquire(p, h, t, f, w).ok
    ensures p.enabled && e in p.slots && Serves(e, BuildKey(t), p.timeout, w)
    ensures Acquire(p, h, t, f, w).handle.socket == Some(e.socket)
  {
    hide BuildKey, Scan;
    e := Scan(p.slots, BuildKey(t), p.timeout, w).hit.value;
    HitServes(p.slots, BuildKey(t), p.timeout, w);
  }

  lemma {:induction false} HitServes(slots: seq<Entry>, key: string, timeout: int, w: Probe)
    ensures var r := Scan(slots, key, timeout, w);
            r.hit.Some? ==> r.hit.value in slots && Serves(r.hit.value, key, timeout, w)
    decreases |slots|
  {
    hide Usable, Serves, Scan;
    if slots == [] {
      ScanEmpty(key, timeout, w);
    } else {
      assert slots == [slots[0]] + slots[1..];
      ScanStep(slots[0], slots[1..], key, timeout, w);
      UsableServes(slots[0], key, timeout, w);
      HitServes(slots[1..], key, timeout, w);
    }
  }

  /** No entry before position k may be handed out for the key. */
  ghost predicate NoneServesBefore(slots: seq<Entry>, key: string, timeout: int, w: Probe, k: nat) {
    k <= |slots| && forall i :: 0 <= i < k ==> !Serves(slots[i], key, timeout, w)
  }

  lemma {:induction false} ScanClosesAt(slots: seq<Entry>, key: string, timeout: int, w: Probe, k: nat)
    requires k < |slots| && slots[k].key == key && NoneServesBefore(slots, key, timeout, w, k + 1)
    ensures Scan(slots, key, timeout, w).closed[slots[k].socket] > 0
    decreases |slots|
  {
    hide Usable, Serves, Scan;
    assert slots == [slots[0]] + slots[1..];
    ScanStep(slots[0], slots[1..], key, timeout, w);
    UsableServes(slots[0], key, timeout, w);
    if k > 0 {
      assert slots[1..][k - 1] == slots[k];
      ScanClosesAt(slots[1..], key, timeout, w, k - 1);
    }
  }

  /** An acquire that meets no older entry it could hand out: the entry at k is handed out if it serves, and closed and
      gone if it matches but does not. */
  lemma AcquireAt(w: World, at: nat, t: Target, probe: Probe, k: nat)
    requires Inv(w) && at < |w.handles| && w.pool.enabled && k < |w.pool.slots| && w.pool.slots[k].key == BuildKey(t)
    requires NoneServesBefore(w.pool.slots, BuildKey(t), w.pool.timeout, probe, k)
    ensures var x, r := w.pool.slots[k].socket, Acquire(w.pool, w.handles[at], t, NO_FAULTS, probe);
            if Serves(w.pool.slots[k], BuildKey(t), w.pool.timeout, probe) then
              r.ok && r.handle.hasSocket && r.handle.socket == Some(x)
            else r.handle.socket != Some(x) && r.pool.closed[x] == 1 && !Stored(r.pool.slots, x)
  {
    var slots, key := w.pool.slots, BuildKey(t);
    if Serves(slots[k], key, w.pool.timeout, probe) {
      hide BuildKey, Inv, Acquire;
      forall i | 0 <= i <= k ensures Usable(slots[i], key, w.pool.timeout, probe) <==> Serves(slots[i], key, w.pool.timeout, probe) {
        UsableServes(slots[i], key, w.pool.timeout, probe);
      }
      AcquireTakesOldest(w.pool, w.handles[at], t, probe, k);
    } else {
      AcquireCloses(w, at, t, probe, k);
    }
  }

  lemma AcquireCloses(w: World, at: nat, t: Target, probe: Probe, k: nat)
    requires Inv(w) && at < |w.handles| && w.pool.enabled && k < |w.pool.slots| && w.pool.slots[k].key == BuildKey(t)
    requires NoneServesBefore(w.pool.slots, BuildKey(t), w.pool.timeout, probe, k + 1)
    ensures var x, r := w.pool.slots[k].socket, Acquire(w.pool, w.handles[at], t, NO_FAULTS, probe);
            r.handle.socket != Some(x) && r.pool.closed[x] == 1 && !Stored(r.pool.slots, x)
  {
    hide BuildKey, Inv, Scan, SocketsOf, HandleSockets, Stored, NoneServesBefore;
    var x, op := w.pool.slots[k].socket, DoAcquire(at, t, NO_FAULTS, probe);
    ScanClosesAt(w.pool.slots, BuildKey(t), w.pool.timeout, probe, k);
    var w' := Apply(w, op);
    ApplyKeepsInv(w, op);
    OnceAtMost(w', x);
    StoredCounts(w'.pool.slots, x);
    if w'.handles[at].socket == Some(x) {
      HandleCounts(w'.handles, at);
    }
  }

  // ---- From the store to the next acquire ----

  /** The handle's connection is ready to be stored under the key. */
  predicate ReadyToStore(w: World, at: nat, key: string) {
    && at < |w.handles| && w.handles[at].hasSocket && w.handles[at].key == key && w.handles[at].mode.Plain?
    && w.handles[at].shouldStore && !w.handles[at].timedOut && w.pool.enabled && w.pool.maxIdle > 0
  }

  /** The life of a pooled connection. In any reachable world a ready connection is given back at time `stored`; other
      operations follow during which it stays in the pool; then some handle asks for the same target and meets no older
      entry that serves. If the timeout is not positive or has not passed since the store, and the socket answers, that
      socket is handed out. If the timeout has passed or the socket is dead, that socket is closed and in no other place. */
  lemma ReusedAfterStore(start: World, before: seq<Op>, at: nat, stored: int, between: seq<Op>, to: nat, t: Target,
                         probe: Probe, k: nat)
    requires Initial(start) && IsRun(start, before)
    requires ReadyToStore(Run(start, before), at, BuildKey(t)) && Run(start, before).clock <= stored
    requires var w := Apply(Run(start, before), DoMarkIdle(at, true, stored));
             && IsRun(w, between) && Run(start, before).handles[at].socket.Some?
             && StaysStored(w, between, Run(start, before).handles[at].socket.value)
    requires var p := Run(Apply(Run(start, before), DoMarkIdle(at, true, stored)), between).pool;
             && p.enabled && k < |p.slots| && p.slots[k].socket == Run(start, before).handles[at].socket.value
             && NoneServesBefore(p.slots, BuildKey(t), p.timeout, probe, k)
    requires to < |Run(Apply(Run(start, before), DoMarkIdle(at, true, stored)), between).handles|
    ensures var x := Run(start, before).handles[at].socket.value;
            var w := Run(Apply(Run(start, before), DoMarkIdle(at, true, stored)), between);
            var r := Acquire(w.pool, w.handles[to], t, NO_FAULTS, probe);
            if (w.pool.timeout <= 0 || probe.now(x) - stored <= w.pool.timeout) && probe.alive(x) then
              r.ok && r.handle.hasSocket && r.handle.socket == Some(x)
            else r.handle.socket != Some(x) && r.pool.closed[x] == 1 && !Stored(r.pool.slots, x)
  {
    hide Run, IsRun, Inv, BuildKey, Acquire, Stored, StaysStored, NoneServesBefore, Apply;
    var w0 := Run(start, before);
    InitialInv(start);
    RunKeepsInv(start, before);
    var w1 := Apply(w0, DoMarkIdle(at, true, stored));
    ApplyKeepsInv(w0, DoMarkIdle(at, true, stored));
    var e := StoredEntry(w0, at, stored);
    var w := Run(w1, between);
    RunKeepsInv(w1, between);
    EntryStaysOver(w1, between, e);
    var j :| 0 <= j < |w.pool.slots| && w.pool.slots[j] == e;
    OneSlot(w, j, k);
    AcquireAt(w, to, t, probe, k);
  }

  lemma StoredEntry(w: World, at: nat, stored: int) returns (e: Entry)
    requires Inv(w) && at < |w.handles| && ReadyToStore(w, at, w.handles[at].key) && w.clock <= stored
    requires w.handles[at].socket.Some?
    ensures e in Apply(w, DoMarkIdle(at, true, stored)).pool.slots
    ensures e.socket == w.handles[at].socket.value && e.key == w.handles[at].key && e.idleSince == stored
  {
    var h := w.handles[at];
    e := Entry(h.key, h.socket.value, false, h.http2, stored);
    MarkIdleDropsOldest(w.pool, h, true, stored);
    var slots := MarkIdle(w.pool, h, true, stored).pool.slots;
    assert slots[|slots| - 1] in slots;
  }
}
