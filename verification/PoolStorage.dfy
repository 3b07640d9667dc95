/** The pool's growable array and its operations in place (Modules/API/api_connection_pool.cpp), proved to
    do what the functions of `ConnectionPool` say. */
module PoolStorage {
  import opened Prelude
  import opened ConnectionPool

  /** A handle passed by reference. */
  class HandleObject {
    var state: Handle

    constructor (state: Handle)
      ensures this.state == state
    {
      this.state := state;
    }

    /** `api_connection_pool_disable_store`. */
    method DisableStore()
      modifies this
      ensures state == old(state).(shouldStore := false, http2 := false)
    {
      state := state.(shouldStore := false, http2 := false);
    }
  }

  /** A stored entry as the array holds it; `socket` is what its socket object owns. */
  datatype Cell = Cell(key: string, socket: Option<Socket>, usesTls: bool, http2: bool, idleSince: int)

  function Holding(e: Entry): Cell { Cell(e.key, Some(e.socket), e.usesTls, e.http2, e.idleSince) }

  /** k doublings of a capacity. */
  function Doubled(capacity: nat, k: nat): nat { if k == 0 then capacity else 2 * Doubled(capacity, k - 1) }

  ghost predicate IsDoubling(capacity: nat, grown: nat) { exists k :: grown == Doubled(capacity, k) }

  /** The entries without the one at a position. */
  function Without(slots: seq<Entry>, index: nat): (r: seq<Entry>)
    requires index < |slots|
    ensures |r| == |slots| - 1
    ensures forall k :: 0 <= k < index ==> r[k] == slots[k]
    ensures forall k :: index <= k < |r| ==> r[k] == slots[k + 1]
  {
    slots[..index] + slots[index + 1..]
  }

  // ---- The scan, seen from its middle ----

  /** With `kept` passed over, `closed` closed and `rest` not yet examined, the scan of all is `total`. */
  ghost predicate Scanning(total: Found, kept: seq<Entry>, closed: multiset<Socket>, rest: seq<Entry>,
                           key: string, timeout: int, w: Probe) {
    var r := Scan(rest, key, timeout, w);
    total == Found(r.hit, kept + r.slots, closed + r.closed)
  }

  lemma ScanBegins(slots: seq<Entry>, key: string, timeout: int, w: Probe)
    ensures Scanning(Scan(slots, key, timeout, w), [], multiset{}, slots, key, timeout, w)
  {
    hide Scan;
    var r := Scan(slots, key, timeout, w);
    assert [] + r.slots == r.slots && multiset{} + r.closed == r.closed;
  }

  lemma ScanPasses(total: Found, kept: seq<Entry>, closed: multiset<Socket>, e: Entry, rest: seq<Entry>,
                   key: string, timeout: int, w: Probe)
    requires Scanning(total, kept, closed, [e] + rest, key, timeout, w) && e.key != key
    ensures Scanning(total, kept + [e], closed, rest, key, timeout, w)
  {
    hide Scan;
    ScanStep(e, rest, key, timeout, w);
    var r := Scan(rest, key, timeout, w);
    assert kept + ([e] + r.slots) == (kept + [e]) + r.slots;
  }

  lemma ScanCloses(total: Found, kept: seq<Entry>, closed: multiset<Socket>, e: Entry, rest: seq<Entry>,
                   key: string, timeout: int, w: Probe)
    requires Scanning(total, kept, closed, [e] + rest, key, timeout, w) && e.key == key && Stale(e, timeout, w)
    ensures Scanning(total, kept, closed + multiset{e.socket}, rest, key, timeout, w)
  {
    hide Scan;
    ScanStep(e, rest, key, timeout, w);
    var r := Scan(rest, key, timeout, w);
    assert closed + (r.closed + multiset{e.socket}) == (closed + multiset{e.socket}) + r.closed;
  }

  lemma ScanHits(total: Found, kept: seq<Entry>, closed: multiset<Socket>, e: Entry, rest: seq<Entry>,
                 key: string, timeout: int, w: Probe)
    requires Scanning(total, kept, closed, [e] + rest, key, timeout, w) && Usable(e, key, timeout, w)
    ensures total == Found(Some(e), kept + rest, closed)
  {
    hide Scan;
    ScanStep(e, rest, key, timeout, w);
    assert closed + multiset{} == closed;
  }

  lemma ScanFinishes(total: Found, kept: seq<Entry>, closed: multiset<Socket>, key: string, timeout: int, w: Probe)
    requires Scanning(total, kept, closed, [], key, timeout, w)
    ensures total == Found(None, kept, closed)
  {
    assert kept + [] == kept && closed + multiset{} == closed;
  }

  /** The reply once the usable entry at position `at` is known. */
  function HitReply(p: Pool, at: nat, h: Handle, moved: bool): Reply
    requires at < |p.slots|
  {
    var e := p.slots[at];
    var p1 := p.(slots := Without(p.slots, at), closed := p.closed + Owned(h.socket));
    if moved then
      Reply(p1.(reuses := p.reuses + 1),
            h.(socket := Some(e.socket), hasSocket := true, fromPool := true, http2 := e.http2), true)
    else
      Reply(p1.(closed := p1.closed + multiset{e.socket}, misses := p.misses + 1), h.(socket := None), false)
  }

  lemma TakeIsHit(p: Pool, q: Pool, h: Handle, moved: bool, w: Probe, at: nat)
    requires q == p.(slots := q.slots, closed := q.closed) && at < |q.slots|
    requires var r := Scan(p.slots, h.key, p.timeout, w);
             && q.closed == p.closed + r.closed && r.hit == Some(q.slots[at])
             && Without(q.slots, at) == r.slots
    ensures TakeFromPool(p, h, moved, w) == HitReply(q, at, h, moved)
  {
    hide Scan;
  }

  lemma TakeIsMiss(p: Pool, q: Pool, h: Handle, moved: bool, w: Probe)
    requires q == p.(slots := q.slots, closed := q.closed)
    requires Scan(p.slots, h.key, p.timeout, w).hit == None
    requires var r := Scan(p.slots, h.key, p.timeout, w); q.closed == p.closed + r.closed && q.slots == r.slots
    ensures TakeFromPool(p, h, moved, w) == Reply(q.(misses := p.misses + 1), h, false)
  {
    hide Scan;
  }

  /** What giving a connection back does to the stored entries. */
  lemma MarkIdleSlots(p: Pool, h: Handle, alive: bool, now: int)
    ensures var slots := MarkIdle(p, h, alive, now).pool.slots;
            if h.hasSocket && h.socket.Some? && Storable(p, h, alive) then
              && slots != [] && slots[|slots| - 1] == Entry(h.key, h.socket.value, false, h.http2, now)
              && slots[..|slots| - 1] == (if |p.slots| >= p.maxIdle then p.slots[1..] else p.slots)
            else slots == p.slots
  {
    if h.hasSocket && h.socket.Some? {
      hide MarkIdle, Storable;
      if Storable(p, h, alive) {
        MarkIdleDropsOldest(p, h, alive, now);
      } else {
        MarkIdleClosesOthers(p, h, alive, now);
      }
    }
  }

  // ---- The storage ----

  /** The pool before its first use. */
  const NEW_POOL := Pool([], multiset{}, 8, 60000, true, 0, 0, 0)

  class Storage {
    var entries: array<Option<Cell>>
    var count: nat
    var maxIdle: nat
    var timeout: int
    var enabled: bool
    var acquires: nat
    var reuses: nat
    var misses: nat
    /** The entries below `count`. */
    ghost var slots: seq<Entry>
    /** Every socket that has been closed. */
    ghost var closed: multiset<Socket>

    constructor ()
      ensures Valid() && fresh(entries) && View() == NEW_POOL
    {
      entries := new Option<Cell>[0];
      count, maxIdle, timeout, enabled, acquires, reuses, misses := 0, 8, 60000, true, 0, 0, 0;
      slots, closed := [], multiset{};
    }

    /** Slots below `count` are set, the others are null. */
    ghost predicate Valid()
      reads `entries, `count, `slots, entries
    {
      && count == |slots| <= entries.Length
      && (forall k :: 0 <= k < count ==> entries[k] == Some(Holding(slots[k])))
      && forall k :: count <= k < entries.Length ==> entries[k] == None
    }

    /** The same, but the socket of one entry may have been moved out. */
    ghost predicate ValidButAt(index: nat)
      reads `entries, `count, `slots, entries
    {
      && count == |slots| <= entries.Length
      && (forall k :: 0 <= k < count && k != index ==> entries[k] == Some(Holding(slots[k])))
      && (forall k :: count <= k < entries.Length ==> entries[k] == None)
      && (index < count ==> entries[index].Some?)
    }

    lemma Counted()
      requires Valid()
      ensures count == |slots| <= entries.Length
    {}

    lemma CellAt(k: nat)
      requires Valid() && k < count
      ensures k < entries.Length && k < |slots| && entries[k] == Some(Holding(slots[k]))
    {}

    ghost function View(): Pool
      reads this
    {
      Pool(slots, closed, maxIdle, timeout, enabled, acquires, reuses, misses)
    }

    /** `api_connection_pool_remove_entry_at`: delete the entry, which closes what its socket object still
        owns, and shift the later ones down. */
    method RemoveAt(index: nat)
      requires ValidButAt(index) && (index >= count ==> Valid())
      modifies this`count, this`slots, this`closed, entries
      ensures Valid()
      ensures index >= old(count) ==> slots == old(slots) && closed == old(closed)
      ensures index < old(count) ==>
                && slots == Without(old(slots), index)
                && closed == old(closed) + Owned(old(entries[index]).value.socket)
    {
      hide Without, Holding, Owned;
      if index >= count {
        return;
      }
      closed := closed + Owned(entries[index].value.socket);
      ShiftDown(index);
      count := count - 1;
      entries[count] := None;
      slots := Without(slots, index);
    }

    /** Deleting an entry that still owns its socket closes that socket. */
    method RemoveOwned(index: nat)
      requires Valid() && index < count == |slots|
      modifies this`count, this`slots, this`closed, entries
      ensures Valid() && slots == Without(old(slots), index)
      ensures closed == old(closed) + multiset{old(slots)[index].socket}
    {
      RemoveAt(index);
    }

    /** Once the socket of an entry has been moved out, deleting the entry closes nothing. */
    method RemoveMoved(index: nat)
      requires Valid() && index < count == |slots|
      modifies this`count, this`slots, this`closed, entries
      ensures Valid() && slots == Without(old(slots), index) && closed == old(closed)
    {
      entries[index] := Some(entries[index].value.(socket := None));
      RemoveAt(index);
    }

    /** The loop that closes the gap; the last entry is then there twice. */
    method ShiftDown(index: nat)
      requires ValidButAt(index) && index < count
      modifies entries
      ensures forall k :: 0 <= k < index ==> entries[k] == Some(Holding(slots[k]))
      ensures forall k :: index <= k < count - 1 ==> entries[k] == Some(Holding(slots[k + 1]))
      ensures forall k :: count <= k < entries.Length ==> entries[k] == None
    {
      var shift := index;
      while shift + 1 < count
        invariant index <= shift < count == |slots| <= entries.Length
        invariant forall k :: 0 <= k < index ==> entries[k] == Some(Holding(slots[k]))
        invariant forall k :: index <= k < shift ==> entries[k] == Some(Holding(slots[k + 1]))
        invariant forall k :: shift < k < count ==> entries[k] == Some(Holding(slots[k]))
        invariant forall k :: count <= k < entries.Length ==> entries[k] == None
      {
        entries[shift] := entries[shift + 1];
        shift := shift + 1;
      }
    }

    /** `api_connection_pool_ensure_capacity`: nothing happens when there is room; otherwise the capacity, at
        first 4, is doubled until it suffices and not further, the entries are copied and the rest is null. */
    method EnsureCapacity(required: nat)
      requires Valid()
      modifies this`entries
      ensures Valid()
      ensures old(entries.Length) >= required ==> entries == old(entries)
      ensures old(entries.Length) < required ==>
                && fresh(entries) && required <= entries.Length
                && (entries.Length == 4 || entries.Length < 2 * required)
                && IsDoubling(if old(entries.Length) == 0 then 4 else old(entries.Length), entries.Length)
    {
      if entries.Length >= required {
        return;
      }
      ghost var start := if entries.Length == 0 then 4 else entries.Length;
      var capacity := if entries.Length == 0 then 4 else entries.Length * 2;
      ghost var k := if entries.Length == 0 then 0 else 1;
      assert Doubled(start, 0) == start;
      while capacity < required
        invariant capacity > entries.Length && capacity == Doubled(start, k)
        invariant capacity == 4 || capacity < 2 * required
        decreases required - capacity
      {
        capacity := capacity * 2;
        k := k + 1;
      }
      var grown := CopyTo(capacity);
      entries := grown;
    }

    /** A larger array with the same entries and null slots behind them. */
    method CopyTo(capacity: nat) returns (grown: array<Option<Cell>>)
      requires Valid() && entries.Length <= capacity
      ensures fresh(grown) && grown.Length == capacity
      ensures forall i :: 0 <= i < count ==> grown[i] == entries[i]
      ensures forall i :: count <= i < capacity ==> grown[i] == None
    {
      grown := new Option<Cell>[capacity](_ => None);
      var index := 0;
      while index < count
        invariant 0 <= index <= count
        invariant forall i :: 0 <= i < index ==> grown[i] == entries[i]
        invariant forall i :: index <= i < capacity ==> grown[i] == None
      {
        grown[index] := entries[index];
        index := index + 1;
      }
    }

    /** The search loop of the acquire: drops matching stale entries, stops at the first usable one. */
    method FindUsable(key: string, w: Probe) returns (at: int)
      requires Valid()
      modifies this`count, this`slots, this`closed, entries
      ensures Valid()
      ensures var r := Scan(old(slots), key, timeout, w);
              && closed == old(closed) + r.closed
              && (at == -1 ==> r.hit == None && slots == r.slots)
              && (at != -1 ==> 0 <= at < count == |slots| && r.hit == Some(slots[at]) && Without(slots, at) == r.slots)
    {
      hide Scan, Scanning, Usable, Valid;
      Counted();
      ghost var total := Scan(slots, key, timeout, w);
      ghost var gone: multiset<Socket> := multiset{};
      ScanBegins(slots, key, timeout, w);
      var index := 0;
      assert slots[..0] == [] && slots[0..] == slots;
      while index < count
        invariant Valid() && 0 <= index <= count == |slots|
        invariant Scanning(total, slots[..index], gone, slots[index..], key, timeout, w)
        invariant closed == old(closed) + gone
        decreases count - index
      {
        CellAt(index);
        var cell := entries[index].value;
        ghost var e, kept, rest := slots[index], slots[..index], slots[index + 1..];
        assert slots[index..] == [e] + rest && slots[..index + 1] == kept + [e];
        if cell.key != key {
          ScanPasses(total, kept, gone, e, rest, key, timeout, w);
          index := index + 1;
          continue;
        }
        var socket := cell.socket.value;
        if (timeout > 0 && w.now(socket) - cell.idleSince > timeout) || !w.alive(socket) {
          ScanCloses(total, kept, gone, e, rest, key, timeout, w);
          gone := gone + multiset{e.socket};
          RemoveOwned(index);
          Counted();
          assert slots[..index] == kept && slots[index..] == rest;
          continue;
        }
        assert Usable(e, key, timeout, w) by { IsUsable(e, key, timeout, w); }
        ScanHits(total, kept, gone, e, rest, key, timeout, w);
        return index;
      }
      assert slots[index..] == [] && slots[..index] == slots;
      ScanFinishes(total, slots, gone, key, timeout, w);
      return -1;
    }

    /** `api_connection_pool_acquire`. */
    method AcquireConnection(h: HandleObject, t: Target, f: Faults, w: Probe) returns (ok: bool)
      requires Valid()
      modifies this, h, entries
      ensures Valid() && Reply(View(), h.state, ok) == Acquire(old(View()), old(h.state), t, f, w)
      ensures entries == old(entries)
    {
      hide TakeFromPool, BuildKey, Valid;
      if !f.handleLocked {
        misses := misses + 1;
        return false;
      }
      if f.keyBuild.Broken? {
        h.state := h.state.(key := f.keyBuild.left);
        misses := misses + 1;
        return false;
      }
      h.state := ResetHandle(h.state).(key := BuildKey(t), mode := t.mode);
      acquires := acquires + 1;
      if !enabled {
        misses := misses + 1;
        return false;
      }
      h.state := h.state.(shouldStore := true);
      if !f.poolLocked {
        misses := misses + 1;
        return false;
      }
      ok := TakeInPlace(h, f.moved, w);
    }

    /** The part under the pool's mutex. */
    method TakeInPlace(h: HandleObject, moved: bool, w: Probe) returns (ok: bool)
      requires Valid()
      modifies this, h, entries
      ensures Valid() && Reply(View(), h.state, ok) == TakeFromPool(old(View()), old(h.state), moved, w)
      ensures entries == old(entries)
    {
      hide Scan, HitReply, Valid, TakeFromPool, Without;
      ghost var p := View();
      var at := FindUsable(h.state.key, w);
      if at == -1 {
        TakeIsMiss(p, View(), h.state, moved, w);
        misses := misses + 1;
        return false;
      }
      TakeIsHit(p, View(), h.state, moved, w, at);
      ok := TakeEntry(h, at, moved);
    }

    /** A usable entry was found: move its socket, then delete the entry. Moving closes what the handle still
        owned, and a failed move leaves the entry its socket. */
    method TakeEntry(h: HandleObject, at: nat, moved: bool) returns (ok: bool)
      requires Valid() && at < count == |slots|
      modifies this, h, entries
      ensures Valid() && Reply(View(), h.state, ok) == HitReply(old(View()), at, old(h.state), moved)
      ensures entries == old(entries)
    {
      hide Valid, Without;
      CloseOwned(h.state.socket);
      if !moved {
        h.state := h.state.(socket := None);
        RemoveOwned(at);
        misses := misses + 1;
        return false;
      }
      HandOver(h, at);
      return true;
    }

    /** The handle takes the socket of the entry, which is then deleted. */
    method HandOver(h: HandleObject, at: nat)
      requires Valid() && at < count == |slots|
      modifies this`count, this`slots, this`closed, this`reuses, h, entries
      ensures Valid() && slots == Without(old(slots), at) && closed == old(closed) && reuses == old(reuses) + 1
      ensures var e := old(slots)[at];
              h.state == old(h.state).(socket := Some(e.socket), hasSocket := true, fromPool := true, http2 := e.http2)
    {
      hide Valid, Without;
      CellAt(at);
      var cell := entries[at].value;
      h.state := h.state.(socket := cell.socket, hasSocket := true, fromPool := true, http2 := cell.http2);
      RemoveMoved(at);
      reuses := reuses + 1;
    }

    /** A socket object is closed, or takes another socket. */
    method CloseOwned(socket: Option<Socket>)
      modifies this`closed
      ensures closed == old(closed) + Owned(socket)
      ensures old(Valid()) ==> Valid()
    {
      closed := closed + Owned(socket);
    }

    /** `api_connection_pool_evict`. */
    method EvictHandle(h: HandleObject)
      modifies this`closed, h
      ensures Reply(View(), h.state, true) == Evict(old(View()), old(h.state))
      ensures old(Valid()) ==> Valid()
      ensures !old(h.state).hasSocket ==> h.state == old(h.state) && closed == old(closed)
      ensures var was := old(h.state);
              was.hasSocket ==>
                && closed == old(closed) + Owned(was.socket)
                && h.state == Handle(was.key, was.mode, None, false, false, false, false, false, false)
    {
      if !h.state.hasSocket {
        return;
      }
      CloseOwned(h.state.socket);
      h.state := ResetHandle(h.state).(socket := None);
    }

    /** `api_connection_pool_mark_idle`; a socket object that owns nothing is not alive. */
    method MarkHandleIdle(h: HandleObject, alive: bool, now: int)
      requires Valid()
      modifies this, h, entries
      ensures Valid() && Reply(View(), h.state, true) == MarkIdle(old(View()), old(h.state), alive, now)
      ensures fresh(entries) || entries == old(entries)
      ensures var was := old(h.state);
              if was.hasSocket && was.socket.Some? && Storable(old(View()), was, alive) then
                && slots != [] && slots[|slots| - 1] == Entry(was.key, was.socket.value, false, was.http2, now)
                && slots[..|slots| - 1] == (if |old(slots)| >= old(maxIdle) then old(slots)[1..] else old(slots))
              else slots == old(slots)
    {
      hide Valid, MarkIdle, Storable;
      MarkIdleSlots(View(), h.state, alive, now);
      MarkInPlace(h, alive, now);
    }

    method MarkInPlace(h: HandleObject, alive: bool, now: int)
      requires Valid()
      modifies this, h, entries
      ensures Valid() && Reply(View(), h.state, true) == MarkIdle(old(View()), old(h.state), alive, now)
      ensures fresh(entries) || entries == old(entries)
    {
      hide Valid;
      Counted();
      if !h.state.hasSocket {
        return;
      }
      if h.state.timedOut || !h.state.shouldStore || !enabled || h.state.mode.Tls? || maxIdle == 0
         || h.state.socket.None? || !alive {
        EvictHandle(h);
        return;
      }
      var e := Entry(h.state.key, h.state.socket.value, h.state.mode.Tls?, h.state.http2, now);
      Store(e);
      h.state := ResetHandle(h.state).(socket := None);
    }

    /** The part of the mark-idle call under the pool's mutex: make room, grow, append. */
    method Store(e: Entry)
      requires Valid() && maxIdle > 0
      modifies this`count, this`slots, this`closed, this`entries, entries
      ensures Valid()
      ensures slots == (if |old(slots)| >= maxIdle then old(slots)[1..] else old(slots)) + [e]
      ensures closed == if |old(slots)| >= maxIdle then old(closed) + multiset{old(slots)[0].socket} else old(closed)
      ensures fresh(entries) || entries == old(entries)
    {
      hide Valid;
      RemoveForRoom();
      EnsureCapacity(count + 1);
      Append(e);
    }

    /** The oldest entry is dropped when the limit is reached. */
    method RemoveForRoom()
      requires Valid() && maxIdle > 0
      modifies this`count, this`slots, this`closed, entries
      ensures Valid()
      ensures slots == if |old(slots)| >= maxIdle then old(slots)[1..] else old(slots)
      ensures closed == if |old(slots)| >= maxIdle then old(closed) + multiset{old(slots)[0].socket} else old(closed)
    {
      hide Valid;
      Counted();
      if maxIdle > 0 && count >= maxIdle {
        ghost var before := slots;
        RemoveOwned(0);
        assert Without(before, 0) == before[1..];
      }
    }

    method Append(e: Entry)
      requires Valid() && count < entries.Length
      modifies this`count, this`slots, entries
      ensures Valid() && slots == old(slots) + [e]
    {
      entries[count] := Some(Holding(e));
      count := count + 1;
      slots := slots + [e];
    }

    /** `api_connection_pool_clear_storage`: dispose of every entry and free the array. */
    method ClearStorage()
      requires Valid()
      modifies this
      ensures Valid() && View() == Clear(old(View()))
      ensures fresh(entries)
    {
      hide SocketsOf;
      var index := 0;
      ghost var gone: multiset<Socket> := multiset{};
      assert slots[0..] == slots;
      while index < count
        invariant 0 <= index <= count && Valid() && unchanged(this)
        invariant gone + SocketsOf(slots[index..]) == SocketsOf(slots)
      {
        ghost var own, rest := Owned(entries[index].value.socket), slots[index + 1..];
        assert slots[index..] == [slots[index]] + rest;
        SocketsOfCons(slots[index], rest);
        assert gone + (own + SocketsOf(rest)) == (gone + own) + SocketsOf(rest);
        gone := gone + own;
        index := index + 1;
      }
      assert slots[index..] == [];
      SocketsOfNothing();
      assert gone + multiset{} == gone;
      closed := closed + gone;
      entries := new Option<Cell>[0];
      count := 0;
      slots := [];
    }

    /** `api_connection_pool_flush`. */
    method FlushAll()
      requires Valid()
      modifies this
      ensures Valid() && View() == PoolEffect(old(View()), DoFlush)
      ensures fresh(entries)
    {
      ClearStorage();
    }

    /** `api_connection_pool_set_enabled`. */
    method SetEnabled(on: bool)
      requires Valid()
      modifies this
      ensures Valid() && View() == PoolEffect(old(View()), DoSetEnabled(on))
      ensures if on then entries == old(entries) else fresh(entries)
    {
      enabled := on;
      if !on {
        ClearStorage();
      }
    }

    /** A caller has opened a socket in the handle, which closes what the handle still owned. */
    method ConnectHandle(h: HandleObject, created: Socket, opening: Opening)
      requires Valid()
      modifies this`closed, h
      ensures Valid() && Reply(View(), h.state, true) == Connect(old(View()), old(h.state), created, opening)
    {
      hide Valid;
      CloseOwned(h.state.socket);
      h.state := Opened(h.state, opening).(socket := Some(created));
    }

    /** The end of a handle's life. */
    method DestroyHandle(h: HandleObject)
      requires Valid()
      modifies this`closed, h
      ensures Valid() && Reply(View(), h.state, true) == Destroy(old(View()), old(h.state))
    {
      hide Valid;
      CloseOwned(h.state.socket);
      h.state := ResetHandle(h.state).(key := "", mode := Plain, socket := None);
    }

    /** Any operation on one handle. */
    method PerformOnHandle(h: HandleObject, op: Op)
      requires Valid() && OnHandle(op)
      modifies this, h, entries
      ensures Valid() && (fresh(entries) || entries == old(entries))
      ensures var r := Effect(old(View()), old(h.state), op); View() == r.pool && h.state == r.handle
    {
      hide Valid, Acquire, MarkIdle, Evict, Connect, Destroy, Storable;
      match op
      case DoAcquire(_, target, faults, probe) => var _ := AcquireConnection(h, target, faults, probe);
      case DoMarkIdle(_, alive, now) => MarkHandleIdle(h, alive, now);
      case DoEvict(_) => EvictHandle(h);
      case DoDisableStore(_) => h.DisableStore();
      case DoConnect(_, created, opening) => ConnectHandle(h, created, opening);
      case DoTimeout(_) => h.state := h.state.(timedOut := true);
      case DoDestroy(_) => DestroyHandle(h);
    }

    /** Any operation on the pool alone. */
    method PerformOnPool(op: Op)
      requires Valid() && !OnHandle(op)
      modifies this, entries
      ensures Valid() && (fresh(entries) || entries == old(entries))
      ensures View() == PoolEffect(old(View()), op)
    {
      hide Valid, Clear;
      match op
      case DoFlush => FlushAll();
      case DoSetEnabled(on) => SetEnabled(on);
      case DoSetMaxIdle(limit) => maxIdle := limit;
      case DoSetTimeout(limit) => timeout := limit;
      case DoResetCounters => acquires, reuses, misses := 0, 0, 0;
    }
  }

  // ---- Runs on the array and the handle objects ----

  ghost predicate Distinct(hs: seq<HandleObject>) { forall i, j :: 0 <= i < j < |hs| ==> hs[i] != hs[j] }

  /** The storage and the handle objects are in the state of the world. */
  ghost predicate Shows(s: Storage, hs: seq<HandleObject>, w: World)
    reads s, s.entries, hs
  {
    && s.Valid() && s.View() == w.pool
    && |hs| == |w.handles| && forall i :: 0 <= i < |hs| ==> hs[i].state == w.handles[i]
  }

  /** One operation in place does what `Apply` does to the world. */
  method Perform(s: Storage, hs: seq<HandleObject>, op: Op, ghost w: World)
    requires Distinct(hs) && Shows(s, hs, w) && Enabled(w, op)
    modifies s, s.entries, hs
    ensures Shows(s, hs, Apply(w, op))
    ensures fresh(s.entries) || s.entries == old(s.entries)
  {
    hide Effect, PoolEffect;
    if OnHandle(op) {
      s.PerformOnHandle(hs[op.at], op);
    } else {
      s.PerformOnPool(op);
    }
  }

  /** A whole run in place. */
  method PerformAll(s: Storage, hs: seq<HandleObject>, ops: seq<Op>, ghost w: World)
    requires Distinct(hs) && Shows(s, hs, w) && IsRun(w, ops)
    modifies s, s.entries, hs
    ensures Shows(s, hs, Run(w, ops))
    ensures fresh(s.entries) || s.entries == old(s.entries)
  {
    hide Apply, Enabled, Shows;
    ghost var now := w;
    var index := 0;
    assert ops[0..] == ops;
    while index < |ops|
      invariant 0 <= index <= |ops| && Shows(s, hs, now)
      invariant IsRun(now, ops[index..]) && Run(now, ops[index..]) == Run(w, ops)
      invariant fresh(s.entries) || s.entries == old(s.entries)
    {
      assert ops[index..][1..] == ops[index + 1..];
      Perform(s, hs, ops[index], now);
      now := Apply(now, ops[index]);
      index := index + 1;
    }
  }

  /** What the socket objects behind an array of entries own. */
  function CellSockets(cells: seq<Option<Cell>>): multiset<Socket> {
    if cells == [] then multiset{}
    else (if cells[0].Some? then Owned(cells[0].value.socket) else multiset{}) + CellSockets(cells[1..])
  }

  lemma {:induction false} CellsHold(cells: seq<Option<Cell>>, slots: seq<Entry>)
    requires |slots| <= |cells|
    requires forall k :: 0 <= k < |slots| ==> cells[k] == Some(Holding(slots[k]))
    requires forall k :: |slots| <= k < |cells| ==> cells[k] == None
    ensures CellSockets(cells) == SocketsOf(slots)
    decreases |cells|
  {
    if cells != [] {
      CellsHold(cells[1..], if slots == [] then [] else slots[1..]);
    }
  }

  /** A handle before its first use. */
  const NEW_HANDLE := Handle("", Plain, None, false, false, false, false, false, false)

  function NewWorld(n: nat, clock: int): World {
    World(seq(n, _ => NEW_HANDLE), NEW_POOL, {}, clock, 0)
  }

  /** From a new pool and n new handles, over every run of operations in place: each socket ever opened is owned by
      exactly one handle object or array entry or is closed, and no other socket is anywhere. */
  method Serve(n: nat, ops: seq<Op>, ghost clock: int) returns (s: Storage, hs: seq<HandleObject>)
    requires IsRun(NewWorld(n, clock), ops)
    ensures fresh(s) && fresh(s.entries) && fresh(hs) && Distinct(hs)
    ensures var w := Run(NewWorld(n, clock), ops);
            && Shows(s, hs, w)
            && forall x: Socket :: HandleSockets(w.handles)[x] + CellSockets(s.entries[..])[x] + s.closed[x]
                                   == if x in w.issued then 1 else 0
  {
    hide HandleSockets, SocketsOf, CellSockets, IsRun, Run;
    ghost var start := NewWorld(n, clock);
    s := new Storage();
    hs := NewHandleObjects(n);
    PerformAll(s, hs, ops, start);
    ghost var w := Run(start, ops);
    CellsHold(s.entries[..], s.slots);
    forall x: Socket ensures HandleSockets(w.handles)[x] + CellSockets(s.entries[..])[x] + s.closed[x]
                             == if x in w.issued then 1 else 0
    {
      ExactlyOnePlace(start, ops, x);
    }
  }

  method NewHandleObjects(n: nat) returns (hs: seq<HandleObject>)
    ensures |hs| == n && Distinct(hs) && fresh(hs)
    ensures forall i :: 0 <= i < n ==> hs[i].state == NEW_HANDLE
  {
    hs := [];
    while |hs| < n
      invariant |hs| <= n && Distinct(hs) && fresh(hs)
      invariant forall i :: 0 <= i < |hs| ==> hs[i].state == NEW_HANDLE
      decreases n - |hs|
    {
      var h := new HandleObject(NEW_HANDLE);
      hs := hs + [h];
    }
  }

  lemma IsUsable(e: Entry, key: string, timeout: int, w: Probe)
    requires e.key == key && !Stale(e, timeout, w)
    ensures Usable(e, key, timeout, w)
  {}
}
