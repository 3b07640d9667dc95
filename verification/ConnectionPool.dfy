/** The pool of idle connections (Modules/API/api_connection_pool.cpp). Sockets are tokens; whether one is
    alive and what the clock shows are arguments of the operations. */
module ConnectionPool {
  import opened Prelude
  import opened HttpSyntax
  import opened ContentLength

  type Socket = nat

  datatype Mode = Plain | Tls

  // ---- Keys ----

  datatype Target = Target(host: string, port: nat, mode: Mode, identity: string)

  function ModeText(m: Mode): string { if m.Tls? then "tls" else "plain" }

  /** `api_connection_pool_build_key`; a null host or identity is the empty text. */
  function BuildKey(t: Target): string { t.host + [':'] + KeyTail(t) }

  function KeyTail(t: Target): string { Digits(t.port) + [':'] + (ModeText(t.mode) + [':'] + t.identity) }

  lemma DigitsHaveNoColon(n: nat)
    ensures ':' !in Digits(n)
  {
    DigitsDenote(n);
    assert forall i :: 0 <= i < |Digits(n)| ==> DecDigit(Digits(n)[i]).Some?;
  }

  lemma KeyTailIsInjective(t: Target, u: Target)
    requires KeyTail(t) == KeyTail(u)
    ensures t.port == u.port && t.mode == u.mode && t.identity == u.identity
  {
    hide Digits;
    DigitsHaveNoColon(t.port);
    DigitsHaveNoColon(u.port);
    CutAtSeparator(Digits(t.port), ModeText(t.mode) + [':'] + t.identity,
                   Digits(u.port), ModeText(u.mode) + [':'] + u.identity, ':');
    DigitsDenote(t.port);
    DigitsDenote(u.port);
    CutAtSeparator(ModeText(t.mode), t.identity, ModeText(u.mode), u.identity, ':');
  }

  /** Host, port and mode of a target, which stand before the colon of its identity. */
  function KeyHead(t: Target): string { t.host + [':'] + (Digits(t.port) + [':'] + ModeText(t.mode)) }

  lemma KeyFromHead(t: Target)
    ensures BuildKey(t) == KeyHead(t) + [':'] + t.identity
  {}

  /** The identity of t continues with what the host of u has behind the front of t's key, and ends in the
      port, mode and identity of u. */
  predicate Continues(t: Target, u: Target) {
    var n := |KeyHead(t)|;
    && KeyHead(t) <= u.host
    && if |u.host| == n then t.identity == KeyTail(u)
       else u.host[n] == ':' && t.identity == u.host[n + 1..] + [':'] + KeyTail(u)
  }

  lemma ContinuedKey(t: Target, u: Target)
    requires Continues(t, u)
    ensures BuildKey(t) == BuildKey(u)
  {
    hide KeyTail, KeyHead;
    KeyFromHead(t);
    var head, n := KeyHead(t), |KeyHead(t)|;
    assert u.host[..n] == head;
    if |u.host| == n {
      assert u.host == head;
    } else {
      var y := u.host[n + 1..];
      assert u.host == head + [':'] + y;
      assert head + [':'] + (y + [':'] + KeyTail(u)) == (head + [':'] + y) + [':'] + KeyTail(u);
    }
  }

  /** A text with a colon behind it that starts another such text is that text, or is followed by a colon. */
  lemma ColonPrefix(a: string, x: string, b: string, y: string)
    requires a + [':'] + x == b + [':'] + y && |a| <= |b|
    ensures a <= b
    ensures if |a| == |b| then x == y else b[|a|] == ':' && x == b[|a| + 1..] + [':'] + y
  {
    var s, n := a + [':'] + x, |a|;
    assert a == s[..n] && b[..n] == s[..n];
    assert x == s[n + 1..];
    if n == |b| {
      assert y == s[n + 1..];
    } else {
      assert b[n] == s[n];
      assert s[n + 1..] == b[n + 1..] + [':'] + y;
    }
  }

  /** Where a text in front of another key's `port:mode:identity` can end inside `d:m:i`: not before the
      second colon, because a mode is not a port. */
  lemma CoversPortAndMode(d: string, m: string, i: string, x: string, tail: string)
    requires d + [':'] + (m + [':'] + i) == x + [':'] + tail
    requires ':' !in d && ':' !in m && m != "" && tail != "" && m[0] != tail[0]
    ensures |d| + 1 + |m| <= |x|
  {
    var s := d + [':'] + (m + [':'] + i);
    assert s == x + [':'] + tail;
    assert s[|x|] == ':' && s[|x| + 1] == tail[0];
    assert forall k :: 0 <= k < |d| ==> s[k] == d[k];
    assert forall k :: |d| < k <= |d| + |m| ==> s[k] == m[k - |d| - 1];
    assert |x| != |d|;
  }

  lemma TailStartsWithDigit(t: Target)
    ensures KeyTail(t) != "" && DecDigit(KeyTail(t)[0]).Some?
  {
    hide Digits;
    DigitsDenote(t.port);
    assert KeyTail(t)[0] == Digits(t.port)[0];
  }

  lemma ModeIsNoPort(m: Mode)
    ensures ':' !in ModeText(m) && ModeText(m) != "" && DecDigit(ModeText(m)[0]).None?
  {}

  /** With equal keys a longer host holds the port and the mode of the other target. */
  lemma HostCoversHead(t: Target, u: Target)
    requires BuildKey(t) == BuildKey(u) && |t.host| < |u.host|
    ensures |KeyHead(t)| <= |u.host|
  {
    hide Digits, ModeText, DecDigit;
    DigitsHaveNoColon(t.port);
    ModeIsNoPort(t.mode);
    TailStartsWithDigit(u);
    ColonPrefix(t.host, KeyTail(t), u.host, KeyTail(u));
    CoversPortAndMode(Digits(t.port), ModeText(t.mode), t.identity, u.host[|t.host| + 1..], KeyTail(u));
  }

  lemma LongerHostContinues(t: Target, u: Target)
    requires BuildKey(t) == BuildKey(u) && |t.host| < |u.host|
    ensures Continues(t, u)
  {
    HostCoversHead(t, u);
    KeyFromHead(t);
    hide KeyHead, KeyTail;
    ColonPrefix(KeyHead(t), t.identity, u.host, KeyTail(u));
  }

  /** For all targets: they share a key exactly when they are equal, or the identity of one carries the port,
      mode and identity of the other behind what the other's longer host adds. */
  lemma KeysMatch(t: Target, u: Target)
    ensures BuildKey(t) == BuildKey(u) <==> t == u || Continues(t, u) || Continues(u, t)
  {
    hide KeyTail, Continues;
    if BuildKey(t) == BuildKey(u) {
      if |t.host| == |u.host| {
        ColonPrefix(t.host, KeyTail(t), u.host, KeyTail(u));
        KeyTailIsInjective(t, u);
      } else if |t.host| < |u.host| {
        LongerHostContinues(t, u);
      } else {
        LongerHostContinues(u, t);
      }
    }
    if Continues(t, u) { ContinuedKey(t, u); }
    if Continues(u, t) { ContinuedKey(u, t); }
  }

  ghost predicate Occurs(part: string, s: string) {
    exists i :: 0 <= i <= |s| && part <= s[i..]
  }

  /** The text contains `:tls:` or `:plain:`. */
  ghost predicate NamesMode(s: string) { exists m :: Occurs([':'] + ModeText(m) + [':'], s) }

  lemma OccursBetween(part: string, a: string, b: string)
    ensures Occurs(part, a + part + b)
  {
    var s := a + part + b;
    assert s[|a|..] == part + b;
  }

  lemma OccursBehind(part: string, a: string, b: string)
    requires Occurs(part, b)
    ensures Occurs(part, a + b)
  {
    var i :| 0 <= i <= |b| && part <= b[i..];
    assert (a + b)[|a| + i..] == b[i..];
  }

  lemma TailNamesMode(t: Target)
    ensures Occurs([':'] + ModeText(t.mode) + [':'], KeyTail(t))
  {
    hide Digits, ModeText, Occurs;
    var d, m := Digits(t.port), ModeText(t.mode);
    var part := [':'] + m + [':'];
    assert KeyTail(t) == d + part + t.identity;
    OccursBetween(part, d, t.identity);
  }

  lemma ContinuedIdentity(t: Target, u: Target)
    requires Continues(t, u)
    ensures NamesMode(t.identity)
  {
    hide KeyTail, KeyHead, Occurs, ModeText;
    TailNamesMode(u);
    if |u.host| != |KeyHead(t)| {
      var y := u.host[|KeyHead(t)| + 1..] + [':'];
      OccursBehind([':'] + ModeText(u.mode) + [':'], y, KeyTail(u));
    }
  }

  /** Whatever the hosts, colons included: identities that contain neither `:tls:` nor `:plain:` never let two
      targets share a key. */
  lemma ModeFreeIdentitiesAreInjective(t: Target, u: Target)
    requires !NamesMode(t.identity) && !NamesMode(u.identity)
    ensures BuildKey(t) == BuildKey(u) <==> t == u
  {
    hide BuildKey, Continues, NamesMode;
    KeysMatch(t, u);
    if Continues(t, u) { ContinuedIdentity(t, u); }
    if Continues(u, t) { ContinuedIdentity(u, t); }
  }

  /** With hosts free of colons, a matching key means the same host, port, mode and identity. */
  lemma KeyIsInjective(t: Target, u: Target)
    requires ':' !in t.host && ':' !in u.host
    ensures BuildKey(t) == BuildKey(u) <==> t == u
  {
    hide KeyTail;
    if BuildKey(t) == BuildKey(u) {
      CutAtSeparator(t.host, KeyTail(t), u.host, KeyTail(u), ':');
      KeyTailIsInjective(t, u);
    }
  }

  // ---- The targets that the request functions ask for ----

  /** How a request asks for its connection: without TLS, with TLS and no identity, with TLS and the host as
      identity, or with the verification as identity; an absent certificate file is the empty text. */
  datatype Security = NoTls | Anonymous | ByHost | Unverified | Verified(certificate: string)

  function IdentityOf(host: string, s: Security): string {
    match s
    case NoTls => ""
    case Anonymous => ""
    case ByHost => host
    case Unverified => "verify:0"
    case Verified(file) => if file == "" then "verify:1" else "verify:1" + [':'] + file
  }

  function Requested(host: string, port: nat, s: Security): Target {
    Target(host, port, if s.NoTls? then Plain else Tls, IdentityOf(host, s))
  }

  /** The host, where it is the identity, is not taken for another kind of identity. */
  predicate Telling(host: string, s: Security) { s.ByHost? ==> host != "" && !("verify:" <= host) }

  lemma IdentityIsTelling(host: string, s: Security)
    requires Telling(host, s)
    ensures (s.NoTls? || s.Anonymous?) <==> IdentityOf(host, s) == ""
    ensures (s.Unverified? || s.Verified?) <==> "verify:" <= IdentityOf(host, s)
    ensures s.Unverified? <==> IdentityOf(host, s) == "verify:0"
    ensures s.Verified? ==> s.certificate == if |IdentityOf(host, s)| == 8 then "" else IdentityOf(host, s)[9..]
  {
    assert "verify:0"[..7] == "verify:" && "verify:1"[..7] == "verify:";
    if s.Verified? {
      assert IdentityOf(host, s)[..7] == "verify:" && IdentityOf(host, s)[7] == '1';
    }
  }

  lemma SecurityIsKnown(host: string, port: nat, s: Security, s': Security)
    requires Telling(host, s) && Telling(host, s') && Requested(host, port, s) == Requested(host, port, s')
    ensures s == s'
  {
    hide Telling, IdentityOf;
    IdentityIsTelling(host, s);
    IdentityIsTelling(host, s');
  }

  /** Requests whose identities contain neither `:tls:` nor `:plain:` share a key exactly when they agree in host,
      port and security, whatever else the hosts look like. */
  lemma RequestsDoNotCollide(host: string, port: nat, s: Security, host': string, port': nat, s': Security)
    requires !NamesMode(IdentityOf(host, s)) && !NamesMode(IdentityOf(host', s'))
    requires Telling(host, s) && Telling(host', s')
    ensures BuildKey(Requested(host, port, s)) == BuildKey(Requested(host', port', s'))
            <==> host == host' && port == port' && s == s'
  {
    hide BuildKey, NamesMode, IdentityOf, Telling;
    var t, u := Requested(host, port, s), Requested(host', port', s');
    ModeFreeIdentitiesAreInjective(t, u);
    if t == u { SecurityIsKnown(host, port, s, s'); }
  }

  /** A certificate file without colons in its name never makes an identity that names a mode. */
  lemma ColonFreeCertificate(host: string, file: string)
    requires ':' !in file
    ensures !NamesMode(IdentityOf(host, Verified(file)))
  {
    var id := IdentityOf(host, Verified(file));
    assert forall i :: 0 <= i < |id| ==> (id[i] == ':' ==> i == 6 || i == 8);
    forall m ensures !Occurs([':'] + ModeText(m) + [':'], id) {
      NoSuchColons(id, ModeText(m));
    }
  }

  lemma NoSuchColons(id: string, mode: string)
    requires |mode| >= 3 && forall i :: 0 <= i < |id| ==> (id[i] == ':' ==> i == 6 || i == 8)
    ensures !Occurs([':'] + mode + [':'], id)
  {
    var part := [':'] + mode + [':'];
    assert part[0] == part[|part| - 1] == ':';
    forall i | 0 <= i <= |id| && part <= id[i..] ensures id[i] == id[i + |part| - 1] == ':' {
      assert id[i..][0] == id[i] && id[i..][|part| - 1] == id[i + |part| - 1];
    }
  }

  lemma OneDigit(n: nat)
    requires n < 10
    ensures |Digits(n)| == 1 && Digits(n)[0] == '0' + n as char
  {}

  lemma HeadOfVerified(file: string)
    ensures KeyHead(Requested("a", 4, Verified(file))) == "a:4:tls"
  {
    OneDigit(4);
    hide Digits;
    assert Digits(4) == "4";
  }

  lemma TailOfUnverified(host: string)
    ensures KeyTail(Requested(host, 5, Unverified)) == "5:tls:verify:0"
  {
    OneDigit(5);
    hide Digits;
    assert Digits(5) == "5";
  }

  /** The key of a plain request, written out. */
  lemma PlainKeyText(host: string)
    ensures BuildKey(Requested(host, 8, NoTls)) == host + ":8:plain:"
  {
    OneDigit(8);
    hide Digits;
    assert Digits(8) == "8";
  }

  /** A certificate file whose name contains colons can make two requests share a key. */
  lemma CertificateNameCollides()
    ensures var t, u := Requested("a", 4, Verified("5:tls:verify:0")), Requested("a:4:tls:verify:1", 5, Unverified);
            t != u && BuildKey(t) == BuildKey(u)
  {
    var file, host := "5:tls:verify:0", "a:4:tls:verify:1";
    var t, u := Requested("a", 4, Verified(file)), Requested(host, 5, Unverified);
    HeadOfVerified(file);
    TailOfUnverified(host);
    hide KeyHead, KeyTail, BuildKey;
    assert host[..7] == "a:4:tls" && host[8..] == "verify:1";
    assert t.identity == host[8..] + [':'] + file;
    ContinuedKey(t, u);
  }

  // ---- State ----

  datatype Entry = Entry(key: string, socket: Socket, usesTls: bool, http2: bool, idleSince: int)

  /** `api_connection_pool_handle`. `socket` is what its socket object owns, which the flag does not tell. */
  datatype Handle = Handle(
    key: string, mode: Mode, socket: Option<Socket>, hasSocket: bool, fromPool: bool, shouldStore: bool,
    http2: bool, timedOut: bool, validated: bool)

  datatype Pool = Pool(
    slots: seq<Entry>, closed: multiset<Socket>, maxIdle: nat, timeout: int, enabled: bool,
    acquires: nat, reuses: nat, misses: nat)

  /** What the world answers while stored entries are examined: clock readings and liveness polls. */
  datatype Probe = Probe(now: Socket -> int, alive: Socket -> bool)

  datatype Reply = Reply(pool: Pool, handle: Handle, ok: bool)

  function Owned(s: Option<Socket>): multiset<Socket> { if s.Some? then multiset{s.value} else multiset{} }

  function SocketsOf(slots: seq<Entry>): multiset<Socket> {
    if slots == [] then multiset{} else multiset{slots[0].socket} + SocketsOf(slots[1..])
  }

  lemma SocketsOfCons(e: Entry, s: seq<Entry>)
    ensures SocketsOf([e] + s) == multiset{e.socket} + SocketsOf(s)
  {
    assert ([e] + s)[1..] == s;
  }

  lemma {:induction false} SocketsOfConcat(a: seq<Entry>, b: seq<Entry>)
    ensures SocketsOf(a + b) == SocketsOf(a) + SocketsOf(b)
  {
    if a == [] {
      assert a + b == b;
    } else {
      assert (a + b)[1..] == a[1..] + b;
      SocketsOfConcat(a[1..], b);
    }
  }

  // ---- Acquire ----

  predicate Stale(e: Entry, timeout: int, w: Probe) {
    (timeout > 0 && w.now(e.socket) - e.idleSince > timeout) || !w.alive(e.socket)
  }

  predicate Usable(e: Entry, key: string, timeout: int, w: Probe) { e.key == key && !Stale(e, timeout, w) }

  datatype Found = Found(hit: Option<Entry>, slots: seq<Entry>, closed: multiset<Socket>)

  /** The scan from the oldest entry: drop matching stale ones, stop at the first usable one. */
  function Scan(slots: seq<Entry>, key: string, timeout: int, w: Probe): Found {
    if slots == [] then Found(None, [], multiset{})
    else
      var e, rest := slots[0], slots[1..];
      if Usable(e, key, timeout, w) then Found(Some(e), rest, multiset{})
      else
        var r := Scan(rest, key, timeout, w);
        if e.key == key then r.(closed := r.closed + multiset{e.socket}) else r.(slots := [e] + r.slots)
  }

  /** The entries that a scan up to the hit leaves alone. */
  function Others(slots: seq<Entry>, key: string): seq<Entry> {
    if slots == [] then [] else (if slots[0].key == key then [] else [slots[0]]) + Others(slots[1..], key)
  }

  /** k is the oldest usable entry, or the number of entries when there is none. */
  ghost predicate OldestUsable(slots: seq<Entry>, key: string, timeout: int, w: Probe, k: nat) {
    && k <= |slots|
    && (forall i :: 0 <= i < k ==> !Usable(slots[i], key, timeout, w))
    && (k < |slots| ==> Usable(slots[k], key, timeout, w))
  }

  /** What the scan returns: the oldest entry that matches, is unexpired and alive; the matching entries
      before it are gone, all others are kept in order. */
  lemma {:induction false} ScanTakesOldest(slots: seq<Entry>, key: string, timeout: int, w: Probe, k: nat)
    requires OldestUsable(slots, key, timeout, w, k)
    ensures var r := Scan(slots, key, timeout, w);
            && r.hit == (if k < |slots| then Some(slots[k]) else None)
            && r.slots == Others(slots[..k], key) + (if k < |slots| then slots[k + 1..] else [])
    decreases |slots|
  {
    hide Usable, Scan, Others;
    if slots == [] {
      ScanEmpty(key, timeout, w);
      OthersNone(key);
      assert slots[..0] == [] && Others([], key) + [] == [];
    } else {
      ScanStep(slots[0], slots[1..], key, timeout, w);
      assert slots == [slots[0]] + slots[1..];
      if k == 0 {
        OthersNone(key);
        assert slots[..0] == [] && [] + slots[1..] == slots[1..];
      } else {
        var rest := slots[1..];
        assert OldestUsable(rest, key, timeout, w, k - 1);
        ScanTakesOldest(rest, key, timeout, w, k - 1);
        OthersStep(slots, key, k);
        assert k < |slots| ==> rest[k..] == slots[k + 1..];
        var tail := if k < |slots| then slots[k + 1..] else [];
        RegroupSlots(slots[0], Others(rest[..k - 1], key), tail);
      }
    }
  }

  lemma RegroupSlots(e: Entry, others: seq<Entry>, tail: seq<Entry>)
    ensures [e] + (others + tail) == ([e] + others) + tail
    ensures [] + others == others
  {}

  lemma OthersStep(slots: seq<Entry>, key: string, k: nat)
    requires 0 < k <= |slots|
    ensures Others(slots[..k], key) == (if slots[0].key == key then [] else [slots[0]]) + Others(slots[1..][..k - 1], key)
  {
    assert slots[..k][1..] == slots[1..][..k - 1];
  }

  lemma OthersNone(key: string)
    ensures Others([], key) == []
  {}

  lemma ScanEmpty(key: string, timeout: int, w: Probe)
    ensures Scan([], key, timeout, w) == Found(None, [], multiset{})
  {}

  /** One entry of the scan. */
  lemma ScanStep(e: Entry, rest: seq<Entry>, key: string, timeout: int, w: Probe)
    ensures var r := Scan(rest, key, timeout, w);
            Scan([e] + rest, key, timeout, w) ==
            if Usable(e, key, timeout, w) then Found(Some(e), rest, multiset{})
            else if e.key == key then r.(closed := r.closed + multiset{e.socket})
            else r.(slots := [e] + r.slots)
  {
    hide Usable;
    assert ([e] + rest)[1..] == rest;
  }

  function HitSocket(r: Found): multiset<Socket> {
    if r.hit.Some? then multiset{r.hit.value.socket} else multiset{}
  }

  /** Nothing is lost: what the scan takes out is the hit or closed. */
  lemma {:induction false} ScanConserves(slots: seq<Entry>, key: string, timeout: int, w: Probe)
    ensures var r := Scan(slots, key, timeout, w);
            SocketsOf(slots) == SocketsOf(r.slots) + r.closed + HitSocket(r)
    decreases |slots|
  {
    hide Usable, Scan, SocketsOf;
    if slots == [] {
      ScanEmpty(key, timeout, w);
      assert SocketsOf([]) == multiset{} by { SocketsOfNothing(); }
    } else {
      var e, rest := slots[0], slots[1..];
      assert slots == [e] + rest;
      ScanConserves(rest, key, timeout, w);
      ScanStep(e, rest, key, timeout, w);
      SocketsOfCons(e, rest);
      SocketsOfCons(e, Scan(rest, key, timeout, w).slots);
    }
  }

  lemma SocketsOfNothing()
    ensures SocketsOf([]) == multiset{}
  {}

  /** The key is written into the handle; a failed build leaves some text there. */
  datatype KeyBuild = Built | Broken(left: string)

  /** Which of the fallible library calls succeed during an acquire. */
  datatype Faults = Faults(handleLocked: bool, keyBuild: KeyBuild, poolLocked: bool, moved: bool)

  const NO_FAULTS := Faults(true, Built, true, true)

  /** The acquire ends before it is counted. */
  predicate Refuses(f: Faults) { !f.handleLocked || f.keyBuild.Broken? }

  function ResetHandle(h: Handle): Handle {
    h.(hasSocket := false, fromPool := false, shouldStore := false, http2 := false, timedOut := false, validated := false)
  }

  /** The part of an acquire under the pool's mutex, for a handle prepared with its key. Moving a socket into
      the handle closes what the handle still owned. */
  function TakeFromPool(p: Pool, h: Handle, moved: bool, w: Probe): Reply {
    var r := Scan(p.slots, h.key, p.timeout, w);
    var p1 := p.(slots := r.slots, closed := p.closed + r.closed);
    match r.hit
    case None => Reply(p1.(misses := p.misses + 1), h, false)
    case Some(e) =>
      if moved then
        Reply(p1.(closed := p1.closed + Owned(h.socket), reuses := p.reuses + 1),
              h.(socket := Some(e.socket), hasSocket := true, fromPool := true, http2 := e.http2), true)
      else
        Reply(p1.(closed := p1.closed + Owned(h.socket) + multiset{e.socket}, misses := p.misses + 1),
              h.(socket := None), false)
  }

  /** `api_connection_pool_acquire`. */
  function Acquire(p: Pool, h: Handle, t: Target, f: Faults, w: Probe): Reply {
    if !f.handleLocked then Reply(p.(misses := p.misses + 1), h, false)
    else if f.keyBuild.Broken? then Reply(p.(misses := p.misses + 1), h.(key := f.keyBuild.left), false)
    else
      var h1 := ResetHandle(h).(key := BuildKey(t), mode := t.mode);
      var p1 := p.(acquires := p.acquires + 1);
      if !p.enabled then Reply(p1.(misses := p.misses + 1), h1, false)
      else
        var h2 := h1.(shouldStore := true);
        if !f.poolLocked then Reply(p1.(misses := p.misses + 1), h2, false)
        else TakeFromPool(p1, h2, f.moved, w)
  }

  /** An acquire on an enabled pool without faults: it succeeds exactly when some stored entry is usable, hands
      over the oldest such entry, and keeps every entry except the hit and the matching ones before it. */
  lemma AcquireTakesOldest(p: Pool, h: Handle, t: Target, w: Probe, k: nat)
    requires p.enabled && OldestUsable(p.slots, BuildKey(t), p.timeout, w, k)
    ensures var r := Acquire(p, h, t, NO_FAULTS, w);
            && (r.ok <==> k < |p.slots|)
            && r.pool.slots == Others(p.slots[..k], BuildKey(t)) + (if k < |p.slots| then p.slots[k + 1..] else [])
            && r.handle.hasSocket == r.handle.fromPool == r.ok
            && (r.ok ==> r.handle.socket == Some(p.slots[k].socket) && r.handle.http2 == p.slots[k].http2)
            && (!r.ok ==> r.handle.socket == h.socket)
            && r.handle.key == BuildKey(t) && r.handle.mode == t.mode && r.handle.shouldStore
            && !r.handle.timedOut && !r.handle.validated && (!r.ok ==> !r.handle.http2)
            && r.pool.acquires == p.acquires + 1
            && (if r.ok then r.pool.reuses == p.reuses + 1 else r.pool.misses == p.misses + 1)
  {
    hide Scan, BuildKey, Others;
    ScanTakesOldest(p.slots, BuildKey(t), p.timeout, w, k);
  }

  /** An acquire on a disabled pool, or one that a fault stops before the search, fails, counts a miss and leaves every
      stored connection alone; only once its key is built does it mark the handle, storable if the pool is enabled. */
  lemma AcquireWithoutSearch(p: Pool, h: Handle, t: Target, f: Faults, w: Probe)
    requires !p.enabled || Refuses(f) || !f.poolLocked
    ensures var r := Acquire(p, h, t, f, w);
            && !r.ok && r.pool.slots == p.slots && r.pool.closed == p.closed && r.handle.socket == h.socket
            && r.pool.misses == p.misses + 1 && r.pool.reuses == p.reuses
            && r.pool.acquires == p.acquires + (if Refuses(f) then 0 else 1)
            && (!Refuses(f) ==>
                 && r.handle.key == BuildKey(t) && r.handle.mode == t.mode && r.handle.shouldStore == p.enabled
                 && !r.handle.hasSocket && !r.handle.fromPool && !r.handle.http2 && !r.handle.timedOut && !r.handle.validated)
  {
    hide BuildKey, TakeFromPool;
  }

  // ---- Giving back ----

  /** `api_connection_pool_evict`. */
  function Evict(p: Pool, h: Handle): Reply {
    if !h.hasSocket then Reply(p, h, true)
    else Reply(p.(closed := p.closed + Owned(h.socket)), ResetHandle(h).(socket := None), true)
  }

  /** Whether `api_connection_pool_mark_idle` may store the connection. */
  predicate Storable(p: Pool, h: Handle, alive: bool) {
    !h.timedOut && h.shouldStore && p.enabled && h.mode.Plain? && p.maxIdle > 0 && alive
  }

  /** Room is made by dropping the oldest entry. */
  function MakeRoom(p: Pool): Pool {
    if p.maxIdle > 0 && |p.slots| >= p.maxIdle && p.slots != [] then
      p.(slots := p.slots[1..], closed := p.closed + multiset{p.slots[0].socket})
    else p
  }

  /** `api_connection_pool_mark_idle` at time `now`. */
  function MarkIdle(p: Pool, h: Handle, alive: bool, now: int): Reply {
    if !h.hasSocket then Reply(p, h, true)
    else if h.socket.None? || !Storable(p, h, alive) then Evict(p, h)
    else
      var p1 := MakeRoom(p);
      var e := Entry(h.key, h.socket.value, h.mode.Tls?, h.http2, now);
      Reply(p1.(slots := p1.slots + [e]), ResetHandle(h).(socket := None), true)
  }

  /** `api_connection_pool_clear_storage`: flush, and disabling. */
  function Clear(p: Pool): Pool { p.(slots := [], closed := p.closed + SocketsOf(p.slots)) }

  // ---- What single operations keep ----

  /** All sockets that the pool and one handle account for. */
  function Places(p: Pool, h: Handle): multiset<Socket> { Owned(h.socket) + SocketsOf(p.slots) + p.closed }

  lemma TakeConserves(p: Pool, h: Handle, moved: bool, w: Probe)
    ensures var r := TakeFromPool(p, h, moved, w); Places(r.pool, r.handle) == Places(p, h)
  {
    hide Scan, SocketsOf;
    ScanConserves(p.slots, h.key, p.timeout, w);
  }

  /** Places depend on the sockets only. */
  lemma SamePlaces(p: Pool, p': Pool, h: Handle, h': Handle)
    requires h.socket == h'.socket && p.slots == p'.slots && p.closed == p'.closed
    ensures Places(p', h') == Places(p, h)
  {}

  lemma AcquireConserves(p: Pool, h: Handle, t: Target, f: Faults, w: Probe)
    ensures var r := Acquire(p, h, t, f, w); Places(r.pool, r.handle) == Places(p, h)
  {
    hide TakeFromPool, BuildKey, Places;
    var r := Acquire(p, h, t, f, w);
    var h2 := ResetHandle(h).(key := BuildKey(t), mode := t.mode, shouldStore := true);
    var p1 := p.(acquires := p.acquires + 1);
    if f.handleLocked && f.keyBuild.Built? && p.enabled && f.poolLocked {
      TakeConserves(p1, h2, f.moved, w);
      SamePlaces(p, p1, h, h2);
    } else {
      SamePlaces(p, r.pool, h, r.handle);
    }
  }

  lemma EvictConserves(p: Pool, h: Handle)
    ensures var r := Evict(p, h); Places(r.pool, r.handle) == Places(p, h)
  {}

  lemma MakeRoomConserves(p: Pool)
    ensures SocketsOf(MakeRoom(p).slots) + MakeRoom(p).closed == SocketsOf(p.slots) + p.closed
  {}

  lemma MarkIdleConserves(p: Pool, h: Handle, alive: bool, now: int)
    ensures var r := MarkIdle(p, h, alive, now); Places(r.pool, r.handle) == Places(p, h)
  {
    hide MakeRoom, SocketsOf, Storable;
    MakeRoomConserves(p);
    if h.hasSocket && h.socket.Some? && Storable(p, h, alive) {
      var e := Entry(h.key, h.socket.value, h.mode.Tls?, h.http2, now);
      var room := MakeRoom(p);
      SocketsOfConcat(room.slots, [e]);
      SocketsOfCons(e, []);
      SocketsOfNothing();
      assert [e] + [] == [e];
      var r := MarkIdle(p, h, alive, now);
      assert r.pool.slots == room.slots + [e] && r.pool.closed == room.closed && r.handle.socket == None;
      hide MarkIdle;
      Stored(multiset{e.socket}, SocketsOf(room.slots), room.closed, SocketsOf(p.slots), p.closed);
      assert Owned(r.handle.socket) == multiset{} && Owned(h.socket) == multiset{e.socket};
    } else {
      EvictConserves(p, h);
    }
  }

  lemma Stored(own: multiset<Socket>, slots: multiset<Socket>, closed: multiset<Socket>,
               slots0: multiset<Socket>, closed0: multiset<Socket>)
    requires slots + closed == slots0 + closed0
    ensures multiset{} + (slots + own) + closed == own + slots0 + closed0
  {
    forall s: Socket ensures (multiset{} + (slots + own) + closed)[s] == (own + slots0 + closed0)[s] {
      assert (slots + closed)[s] == (slots0 + closed0)[s];
    }
  }

  /** The pool never grows past its limit, unless it was already past it. */
  lemma MarkIdleIsBounded(p: Pool, h: Handle, alive: bool, now: int)
    ensures |MarkIdle(p, h, alive, now).pool.slots| <= Max(|p.slots|, p.maxIdle)
  {}

  /** A connection that may not be stored is closed, and the slots stay as they are. */
  lemma MarkIdleClosesOthers(p: Pool, h: Handle, alive: bool, now: int)
    requires h.hasSocket && h.socket.Some? && !Storable(p, h, alive)
    ensures var r := MarkIdle(p, h, alive, now);
            && r.pool == p.(closed := p.closed + multiset{h.socket.value})
            && r.handle.socket == None && !r.handle.hasSocket
  {}

  /** Eviction for room takes the oldest entry: the others stay, in order, before the new one. */
  lemma MarkIdleDropsOldest(p: Pool, h: Handle, alive: bool, now: int)
    requires h.hasSocket && h.socket.Some? && Storable(p, h, alive)
    ensures var slots := MarkIdle(p, h, alive, now).pool.slots;
            && slots != [] && slots[|slots| - 1] == Entry(h.key, h.socket.value, false, h.http2, now)
            && slots[..|slots| - 1] == (if |p.slots| >= p.maxIdle then p.slots[1..] else p.slots)
  {}

  // ---- Runs of operations over any number of handles ----

  /** All handles, the pool, every socket ever issued, the latest clock reading of a store, and the acquires
      that failed before they were counted. */
  datatype World = World(handles: seq<Handle>, pool: Pool, issued: set<Socket>, clock: int, refused: nat)

  /** How a caller marks a handle whose socket it has just opened: only the flag, as the request functions do
      behind a failed acquire, or all fields, as the functions that prepare a plain or a TLS connection do. */
  datatype Opening = FlagOnly | PreparePlain | PrepareTls

  /** One call. `Connect` is the caller storing a freshly opened socket in a handle, which closes what the
      handle still owned; `Destroy` is the end of a handle's life. */
  datatype Op =
    | DoAcquire(at: nat, target: Target, faults: Faults, probe: Probe)
    | DoMarkIdle(at: nat, alive: bool, now: int)
    | DoEvict(at: nat)
    | DoDisableStore(at: nat)
    | DoConnect(at: nat, created: Socket, opening: Opening)
    | DoTimeout(at: nat)
    | DoDestroy(at: nat)
    | DoFlush
    | DoSetEnabled(enabled: bool)
    | DoSetMaxIdle(maxIdle: nat)
    | DoSetTimeout(timeout: int)
    | DoResetCounters

  /** An operation names an existing handle, opens only a socket never seen, and the clock does not go back. */
  predicate Enabled(w: World, op: Op) {
    match op
    case DoConnect(at, created, _) => at < |w.handles| && created !in w.issued
    case DoMarkIdle(at, _, now) => at < |w.handles| && w.clock <= now
    case DoAcquire(at, _, _, _) => at < |w.handles|
    case DoEvict(at) => at < |w.handles|
    case DoDisableStore(at) => at < |w.handles|
    case DoTimeout(at) => at < |w.handles|
    case DoDestroy(at) => at < |w.handles|
    case _ => true
  }

  function Put(w: World, at: nat, r: Reply): World
    requires at < |w.handles|
  {
    w.(handles := w.handles[at := r.handle], pool := r.pool)
  }

  function Opened(h: Handle, opening: Opening): Handle {
    match opening
    case FlagOnly => h.(hasSocket := true)
    case PreparePlain =>
      h.(hasSocket := true, fromPool := false, shouldStore := true, mode := Plain, timedOut := false, validated := false)
    case PrepareTls =>
      h.(hasSocket := true, fromPool := false, shouldStore := true, mode := Tls, http2 := false)
  }

  function Connect(p: Pool, h: Handle, created: Socket, opening: Opening): Reply {
    Reply(p.(closed := p.closed + Owned(h.socket)), Opened(h, opening).(socket := Some(created)), true)
  }

  function Destroy(p: Pool, h: Handle): Reply {
    Reply(p.(closed := p.closed + Owned(h.socket)), ResetHandle(h).(key := "", mode := Plain, socket := None), true)
  }

  predicate OnHandle(op: Op) {
    op.DoAcquire? || op.DoMarkIdle? || op.DoEvict? || op.DoDisableStore? || op.DoConnect? || op.DoTimeout? || op.DoDestroy?
  }

  /** What an operation on a handle does to that handle and the pool. */
  function Effect(p: Pool, h: Handle, op: Op): Reply
    requires OnHandle(op)
  {
    match op
    case DoAcquire(_, target, faults, probe) => Acquire(p, h, target, faults, probe)
    case DoMarkIdle(_, alive, now) => MarkIdle(p, h, alive, now)
    case DoEvict(_) => Evict(p, h)
    case DoDisableStore(_) => Reply(p, h.(shouldStore := false, http2 := false), true)
    case DoConnect(_, created, opening) => Connect(p, h, created, opening)
    case DoTimeout(_) => Reply(p, h.(timedOut := true), true)
    case DoDestroy(_) => Destroy(p, h)
  }

  /** What an operation on the pool alone does. */
  function PoolEffect(p: Pool, op: Op): Pool {
    match op
    case DoFlush => Clear(p)
    case DoSetEnabled(enabled) => if enabled then p.(enabled := true) else Clear(p).(enabled := false)
    case DoSetMaxIdle(maxIdle) => p.(maxIdle := maxIdle)
    case DoSetTimeout(timeout) => p.(timeout := timeout)
    case DoResetCounters => p.(acquires := 0, reuses := 0, misses := 0)
    case _ => p
  }

  function Apply(w: World, op: Op): World
    requires Enabled(w, op)
  {
    var w1 := if OnHandle(op) then Put(w, op.at, Effect(w.pool, w.handles[op.at], op))
              else w.(pool := PoolEffect(w.pool, op));
    match op
    case DoAcquire(_, _, faults, _) => if Refuses(faults) then w1.(refused := w.refused + 1) else w1
    case DoMarkIdle(_, _, now) => w1.(clock := now)
    case DoConnect(_, created, _) => w1.(issued := w.issued + {created})
    case DoResetCounters => w1.(refused := 0)
    case _ => w1
  }

  function HandleSockets(hs: seq<Handle>): multiset<Socket> {
    if hs == [] then multiset{} else Owned(hs[0].socket) + HandleSockets(hs[1..])
  }

  lemma AddBoth(x: multiset<Socket>, a: multiset<Socket>, b: multiset<Socket>, c: multiset<Socket>, d: multiset<Socket>)
    requires a + b == c + d
    ensures (x + a) + b == (x + c) + d
  {
    forall s: Socket ensures ((x + a) + b)[s] == ((x + c) + d)[s] {
      assert (a + b)[s] == (c + d)[s];
    }
  }

  lemma {:induction false} HandleUpdate(hs: seq<Handle>, at: nat, h: Handle)
    requires at < |hs|
    ensures HandleSockets(hs[at := h]) + Owned(hs[at].socket) == HandleSockets(hs) + Owned(h.socket)
  {
    hide Owned;
    if at == 0 {
      assert hs[at := h][1..] == hs[1..];
    } else {
      var tail := hs[1..];
      HandleUpdate(tail, at - 1, h);
      assert hs[at := h][1..] == tail[at - 1 := h];
      AddBoth(Owned(hs[0].socket), HandleSockets(tail[at - 1 := h]), Owned(hs[at].socket), HandleSockets(tail), Owned(h.socket));
    }
  }

  /** Every place where a socket can be. */
  function AllPlaces(w: World): multiset<Socket> {
    HandleSockets(w.handles) + (SocketsOf(w.pool.slots) + w.pool.closed)
  }

  predicate OldestFirst(slots: seq<Entry>, clock: int) {
    && (forall i, j :: 0 <= i < j < |slots| ==> slots[i].idleSince <= slots[j].idleSince)
    && forall i :: 0 <= i < |slots| ==> slots[i].idleSince <= clock
  }

  predicate PlainSlots(slots: seq<Entry>) { forall i :: 0 <= i < |slots| ==> !slots[i].usesTls }

  /** The invariant: each opened socket is in exactly one place; slots are plain and ordered by age; the flag
      of a handle never promises a socket that is not there; every counted acquire is a reuse or a miss. */
  predicate Inv(w: World) {
    && AllPlaces(w) == multiset(w.issued)
    && PlainSlots(w.pool.slots) && OldestFirst(w.pool.slots, w.clock)
    && (forall i :: 0 <= i < |w.handles| ==> HonestFlag(w.handles[i]))
    && w.pool.reuses + w.pool.misses == w.pool.acquires + w.refused
  }

  lemma Regroup(a: multiset<Socket>, b: multiset<Socket>, c: multiset<Socket>)
    ensures a + b + c == a + (b + c)
  {}

  /** An operation on one handle that moves sockets only between that handle, the slots and the closed. */
  lemma PutConserves(w: World, at: nat, r: Reply, gained: multiset<Socket>)
    requires at < |w.handles|
    requires Places(r.pool, r.handle) == Places(w.pool, w.handles[at]) + gained
    ensures AllPlaces(Put(w, at, r)) == AllPlaces(w) + gained
  {
    hide SocketsOf, HandleSockets, Owned;
    HandleUpdate(w.handles, at, r.handle);
    var own, own' := Owned(w.handles[at].socket), Owned(r.handle.socket);
    Regroup(own, SocketsOf(w.pool.slots), w.pool.closed);
    Regroup(own', SocketsOf(r.pool.slots), r.pool.closed);
    Rebalance(HandleSockets(w.handles), HandleSockets(Put(w, at, r).handles), own, own',
              SocketsOf(w.pool.slots) + w.pool.closed, SocketsOf(r.pool.slots) + r.pool.closed, gained);
  }

  lemma Rebalance(hs: multiset<Socket>, hs': multiset<Socket>, own: multiset<Socket>, own': multiset<Socket>,
                  before: multiset<Socket>, after: multiset<Socket>, gained: multiset<Socket>)
    requires hs' + own == hs + own' && own' + after == own + before + gained
    ensures hs' + after == hs + before + gained
  {
    forall s: Socket ensures (hs' + after)[s] == (hs + before + gained)[s] {
      assert (hs' + own)[s] == (hs + own')[s];
      assert (own' + after)[s] == (own + before + gained)[s];
    }
  }

  function Gained(op: Op): multiset<Socket> { if op.DoConnect? then multiset{op.created} else multiset{} }

  lemma EffectConserves(p: Pool, h: Handle, op: Op)
    requires OnHandle(op)
    ensures var r := Effect(p, h, op); Places(r.pool, r.handle) == Places(p, h) + Gained(op)
  {
    hide Acquire, MarkIdle, Evict, Connect, Destroy, Places;
    assert Places(p, h) + multiset{} == Places(p, h);
    match op
    case DoAcquire(_, target, faults, probe) => AcquireConserves(p, h, target, faults, probe);
    case DoMarkIdle(_, alive, now) => MarkIdleConserves(p, h, alive, now);
    case DoEvict(_) => EvictConserves(p, h);
    case DoConnect(_, created, opening) => ConnectConserves(p, h, created, opening);
    case DoDestroy(_) => DestroyConserves(p, h);
    case DoDisableStore(_) => SamePlaces(p, p, h, h.(shouldStore := false, http2 := false));
    case DoTimeout(_) => SamePlaces(p, p, h, h.(timedOut := true));
  }

  lemma ConnectConserves(p: Pool, h: Handle, created: Socket, opening: Opening)
    ensures var r := Connect(p, h, created, opening); Places(r.pool, r.handle) == Places(p, h) + multiset{created}
  {
    hide SocketsOf;
  }

  lemma DestroyConserves(p: Pool, h: Handle)
    ensures var r := Destroy(p, h); Places(r.pool, r.handle) == Places(p, h)
  {
    hide SocketsOf;
  }

  lemma PoolEffectConserves(p: Pool, op: Op)
    ensures SocketsOf(PoolEffect(p, op).slots) + PoolEffect(p, op).closed == SocketsOf(p.slots) + p.closed
  {
    hide SocketsOf;
    SocketsOfNothing();
  }

  lemma ApplyConserves(w: World, op: Op)
    requires Enabled(w, op)
    ensures AllPlaces(Apply(w, op)) == AllPlaces(w) + Gained(op)
  {
    hide Effect, PoolEffect, SocketsOf, HandleSockets, Places;
    if OnHandle(op) {
      EffectConserves(w.pool, w.handles[op.at], op);
      PutConserves(w, op.at, Effect(w.pool, w.handles[op.at], op), Gained(op));
    } else {
      PoolEffectConserves(w.pool, op);
    }
  }

  lemma {:induction false} ScanIsSublist(slots: seq<Entry>, key: string, timeout: int, w: Probe, clock: int)
    requires PlainSlots(slots) && OldestFirst(slots, clock)
    ensures var r := Scan(slots, key, timeout, w).slots; PlainSlots(r) && OldestFirst(r, clock)
    ensures forall x :: x in Scan(slots, key, timeout, w).slots ==> x in slots
    decreases |slots|
  {
    hide Usable, Scan;
    if slots == [] {
      ScanEmpty(key, timeout, w);
    } else {
      var e, rest := slots[0], slots[1..];
      assert slots == [e] + rest;
      ScanIsSublist(rest, key, timeout, w, clock);
      ScanStep(e, rest, key, timeout, w);
      var r := Scan(rest, key, timeout, w).slots;
      forall i | 0 <= i < |r| ensures e.idleSince <= r[i].idleSince {
        assert r[i] in rest;
        var j :| 0 <= j < |rest| && rest[j] == r[i];
        assert slots[j + 1] == r[i];
      }
      PrependOldest(e, r, clock);
    }
  }

  lemma PrependOldest(e: Entry, r: seq<Entry>, clock: int)
    requires PlainSlots(r) && OldestFirst(r, clock) && !e.usesTls && e.idleSince <= clock
    requires forall i :: 0 <= i < |r| ==> e.idleSince <= r[i].idleSince
    ensures PlainSlots([e] + r) && OldestFirst([e] + r, clock)
  {}

  lemma MarkIdleKeepsSlots(p: Pool, h: Handle, alive: bool, now: int, clock: int)
    requires PlainSlots(p.slots) && OldestFirst(p.slots, clock) && clock <= now
    ensures var r := MarkIdle(p, h, alive, now).pool.slots; PlainSlots(r) && OldestFirst(r, now)
  {}

  lemma ApplyKeepsSlots(w: World, op: Op)
    requires Enabled(w, op) && PlainSlots(w.pool.slots) && OldestFirst(w.pool.slots, w.clock)
    ensures PlainSlots(Apply(w, op).pool.slots) && OldestFirst(Apply(w, op).pool.slots, Apply(w, op).clock)
  {
    hide Scan, BuildKey, MarkIdle, PlainSlots, OldestFirst, SocketsOf;
    NoSlots(w.clock);
    if op.DoAcquire? {
      ScanIsSublist(w.pool.slots, BuildKey(op.target), w.pool.timeout, op.probe, w.clock);
    } else if op.DoMarkIdle? {
      MarkIdleKeepsSlots(w.pool, w.handles[op.at], op.alive, op.now, w.clock);
    }
  }

  lemma NoSlots(clock: int)
    ensures PlainSlots([]) && OldestFirst([], clock)
  {}

  predicate HonestFlag(h: Handle) { h.hasSocket ==> h.socket.Some? }

  lemma EffectKeepsFlag(p: Pool, h: Handle, op: Op)
    requires OnHandle(op) && HonestFlag(h)
    ensures HonestFlag(Effect(p, h, op).handle)
  {
    hide Scan, BuildKey, SocketsOf;
  }

  lemma ApplyKeepsFlags(w: World, op: Op)
    requires Enabled(w, op)
    requires forall i :: 0 <= i < |w.handles| ==> HonestFlag(w.handles[i])
    ensures var w' := Apply(w, op); forall i :: 0 <= i < |w'.handles| ==> HonestFlag(w'.handles[i])
  {
    hide Effect, PoolEffect, HonestFlag;
    if OnHandle(op) {
      EffectKeepsFlag(w.pool, w.handles[op.at], op);
    }
  }

  lemma ApplyKeepsCounters(w: World, op: Op)
    requires Enabled(w, op) && w.pool.reuses + w.pool.misses == w.pool.acquires + w.refused
    ensures var w' := Apply(w, op); w'.pool.reuses + w'.pool.misses == w'.pool.acquires + w'.refused
  {
    hide Scan, BuildKey, SocketsOf;
  }

  /** Every operation keeps the invariant. */
  lemma ApplyKeepsInv(w: World, op: Op)
    requires Enabled(w, op) && Inv(w)
    ensures Inv(Apply(w, op))
  {
    hide Apply, AllPlaces, PlainSlots, OldestFirst;
    ApplyConserves(w, op);
    ApplyKeepsSlots(w, op);
    ApplyKeepsFlags(w, op);
    ApplyKeepsCounters(w, op);
    OpenedBy(w, op);
    if op.DoConnect? {
      assert multiset(w.issued + {op.created}) == multiset(w.issued) + multiset{op.created};
    }
  }

  lemma OpenedBy(w: World, op: Op)
    requires Enabled(w, op)
    ensures Apply(w, op).issued == w.issued + (if op.DoConnect? then {op.created} else {})
  {}

  /** At the start nothing is open, stored, closed or counted. */
  predicate Initial(w: World) {
    && (forall i :: 0 <= i < |w.handles| ==> w.handles[i].socket == None && !w.handles[i].hasSocket)
    && w.pool.slots == [] && w.pool.closed == multiset{} && w.issued == {}
    && w.pool.acquires == w.pool.reuses == w.pool.misses == w.refused == 0
  }

  lemma {:induction false} NoHandleSockets(hs: seq<Handle>)
    requires forall i :: 0 <= i < |hs| ==> hs[i].socket == None
    ensures HandleSockets(hs) == multiset{}
  {
    if hs != [] {
      NoHandleSockets(hs[1..]);
    }
  }

  lemma InitialInv(w: World)
    requires Initial(w)
    ensures Inv(w)
  {
    NoHandleSockets(w.handles);
  }

  /** A run: each operation is possible where it happens. */
  predicate IsRun(w: World, ops: seq<Op>)
    decreases |ops|
  {
    ops == [] || (Enabled(w, ops[0]) && IsRun(Apply(w, ops[0]), ops[1..]))
  }

  function Run(w: World, ops: seq<Op>): World
    requires IsRun(w, ops)
    decreases |ops|
  {
    if ops == [] then w else Run(Apply(w, ops[0]), ops[1..])
  }

  /** Over every sequence of operations, each socket that was ever opened is in exactly one place. */
  lemma {:induction false} RunKeepsInv(w: World, ops: seq<Op>)
    requires Inv(w) && IsRun(w, ops)
    ensures Inv(Run(w, ops))
    decreases |ops|
  {
    hide Inv, Apply, Enabled;
    if ops != [] {
      ApplyKeepsInv(w, ops[0]);
      RunKeepsInv(Apply(w, ops[0]), ops[1..]);
    }
  }

  /** In every reachable world a socket that was ever opened is in exactly one handle, slot or the closed, and
      no other socket is anywhere. */
  lemma ExactlyOnePlace(start: World, ops: seq<Op>, s: Socket)
    requires Initial(start) && IsRun(start, ops)
    ensures var w := Run(start, ops); HandleSockets(w.handles)[s] + SocketsOf(w.pool.slots)[s] + w.pool.closed[s] == if s in w.issued then 1 else 0
  {
    InitialInv(start);
    RunKeepsInv(start, ops);
    var w := Run(start, ops);
    assert AllPlaces(w)[s] == multiset(w.issued)[s];
  }

  // ---- What the pool hands out over runs ----

  /** The limit in force never exceeded `m` during the run. */
  predicate LimitsUpTo(ops: seq<Op>, m: nat) {
    forall i :: 0 <= i < |ops| && ops[i].DoSetMaxIdle? ==> ops[i].maxIdle <= m
  }

  lemma ApplyIsBounded(w: World, op: Op, m: nat)
    requires Enabled(w, op) && |w.pool.slots| <= m && w.pool.maxIdle <= m && LimitsUpTo([op], m)
    ensures |Apply(w, op).pool.slots| <= m && Apply(w, op).pool.maxIdle <= m
  {
    hide Scan, BuildKey, SocketsOf, MarkIdle;
    assert [op][0] == op;
    if op.DoAcquire? {
      ScanShrinks(w.pool.slots, BuildKey(op.target), w.pool.timeout, op.probe);
    } else if op.DoMarkIdle? {
      MarkIdleIsBounded(w.pool, w.handles[op.at], op.alive, op.now);
      MarkIdleKeepsLimit(w.pool, w.handles[op.at], op.alive, op.now);
    }
  }

  lemma MarkIdleKeepsLimit(p: Pool, h: Handle, alive: bool, now: int)
    ensures MarkIdle(p, h, alive, now).pool.maxIdle == p.maxIdle
  {}

  lemma {:induction false} ScanShrinks(slots: seq<Entry>, key: string, timeout: int, w: Probe)
    ensures |Scan(slots, key, timeout, w).slots| <= |slots|
    decreases |slots|
  {
    hide Usable;
    if slots != [] {
      ScanShrinks(slots[1..], key, timeout, w);
    }
  }

  /** Over every run the pool holds at most as many connections as the largest limit that was in force. */
  lemma {:induction false} RunIsBounded(w: World, ops: seq<Op>, m: nat)
    requires IsRun(w, ops) && |w.pool.slots| <= m && w.pool.maxIdle <= m && LimitsUpTo(ops, m)
    ensures |Run(w, ops).pool.slots| <= m
    decreases |ops|
  {
    hide Apply, Enabled;
    if ops != [] {
      assert LimitsUpTo([ops[0]], m) && LimitsUpTo(ops[1..], m);
      ApplyIsBounded(w, ops[0], m);
      RunIsBounded(Apply(w, ops[0]), ops[1..], m);
    }
  }

  ghost predicate NoSlotHas(slots: seq<Entry>, key: string) { forall i :: 0 <= i < |slots| ==> slots[i].key != key }

  /** No slot, and no handle that could still store its connection, carries the key. */
  ghost predicate Unstored(w: World, key: string) {
    && NoSlotHas(w.pool.slots, key)
    && forall i :: 0 <= i < |w.handles| ==> Harmless(w.handles[i], key)
  }

  predicate Harmless(h: Handle, key: string) { h.mode.Plain? ==> h.key != key }

  /** How the request functions call: plain requests pass no identity, a plain connection is prepared in a
      handle that was used for plain requests, and a failed key build does not leave the given key. */
  predicate AsCalled(w: World, op: Op, key: string)
    requires Enabled(w, op)
  {
    match op
    case DoAcquire(_, target, faults, _) =>
      (target.mode.Plain? ==> target.identity == "") && (faults.keyBuild.Broken? ==> faults.keyBuild.left != key)
    case DoConnect(at, _, opening) => opening.PreparePlain? ==> w.handles[at].mode.Plain?
    case _ => true
  }

  predicate IsCalledRun(w: World, ops: seq<Op>, key: string)
    decreases |ops|
  {
    ops == [] || (Enabled(w, ops[0]) && AsCalled(w, ops[0], key) && IsCalledRun(Apply(w, ops[0]), ops[1..], key))
  }

  lemma {:induction false} CalledRunIsRun(w: World, ops: seq<Op>, key: string)
    requires IsCalledRun(w, ops, key)
    ensures IsRun(w, ops)
    decreases |ops|
  {
    hide Apply, Enabled, AsCalled;
    if ops != [] {
      CalledRunIsRun(Apply(w, ops[0]), ops[1..], key);
    }
  }

  lemma EmptyNamesNoMode()
    ensures !NamesMode("")
  {}

  /** The key of a plain request is not that of a TLS target whose identity names no mode. */
  lemma PlainKeyIsNotTls(t: Target, u: Target)
    requires t.mode.Plain? && t.identity == "" && u.mode.Tls? && !NamesMode(u.identity)
    ensures BuildKey(t) != BuildKey(u)
  {
    EmptyNamesNoMode();
    hide NamesMode, BuildKey;
    ModeFreeIdentitiesAreInjective(t, u);
  }

  lemma EffectIsHarmless(w: World, op: Op, u: Target)
    requires Enabled(w, op) && OnHandle(op) && AsCalled(w, op, BuildKey(u)) && Harmless(w.handles[op.at], BuildKey(u))
    requires u.mode.Tls? && !NamesMode(u.identity)
    ensures Harmless(Effect(w.pool, w.handles[op.at], op).handle, BuildKey(u))
  {
    assert BuildKey(u) != "";
    hide Scan, BuildKey, SocketsOf, NamesMode, MakeRoom, Storable;
    if op.DoAcquire? && op.target.mode.Plain? {
      PlainKeyIsNotTls(op.target, u);
    }
  }

  lemma MarkIdleStoresOwnKey(p: Pool, h: Handle, alive: bool, now: int, key: string)
    requires NoSlotHas(p.slots, key) && Harmless(h, key)
    ensures NoSlotHas(MarkIdle(p, h, alive, now).pool.slots, key)
  {}

  lemma {:induction false} ScanKeepsUnstored(slots: seq<Entry>, key: string, other: string, timeout: int, w: Probe)
    requires NoSlotHas(slots, key)
    ensures NoSlotHas(Scan(slots, other, timeout, w).slots, key)
    decreases |slots|
  {
    hide Usable, Scan;
    if slots == [] {
      ScanEmpty(other, timeout, w);
    } else {
      var e, rest := slots[0], slots[1..];
      assert slots == [e] + rest;
      assert NoSlotHas(rest, key);
      ScanKeepsUnstored(rest, key, other, timeout, w);
      ScanStep(e, rest, other, timeout, w);
    }
  }

  lemma ApplyStoresNone(w: World, op: Op, u: Target)
    requires Enabled(w, op) && Unstored(w, BuildKey(u))
    ensures NoSlotHas(Apply(w, op).pool.slots, BuildKey(u))
  {
    var key := BuildKey(u);
    hide Scan, BuildKey, SocketsOf, MarkIdle, NoSlotHas, Harmless;
    NothingHas(key);
    if op.DoAcquire? {
      ScanKeepsUnstored(w.pool.slots, key, BuildKey(op.target), w.pool.timeout, op.probe);
    } else if op.DoMarkIdle? {
      MarkIdleStoresOwnKey(w.pool, w.handles[op.at], op.alive, op.now, key);
    }
  }

  lemma NothingHas(key: string)
    ensures NoSlotHas([], key)
  {}

  lemma ApplyKeepsUnstored(w: World, op: Op, u: Target)
    requires Enabled(w, op) && AsCalled(w, op, BuildKey(u)) && Unstored(w, BuildKey(u))
    requires u.mode.Tls? && !NamesMode(u.identity)
    ensures Unstored(Apply(w, op), BuildKey(u))
  {
    hide BuildKey, NamesMode, Effect, PoolEffect, Harmless, AsCalled;
    ApplyStoresNone(w, op, u);
    if OnHandle(op) {
      EffectIsHarmless(w, op, u);
    }
  }

  lemma {:induction false} RunKeepsUnstored(w: World, ops: seq<Op>, u: Target)
    requires IsCalledRun(w, ops, BuildKey(u)) && Unstored(w, BuildKey(u)) && IsRun(w, ops)
    requires u.mode.Tls? && !NamesMode(u.identity)
    ensures Unstored(Run(w, ops), BuildKey(u))
    decreases |ops|
  {
    hide BuildKey, NamesMode, Apply, Enabled, AsCalled, Unstored;
    if ops != [] {
      ApplyKeepsUnstored(w, ops[0], u);
      RunKeepsUnstored(Apply(w, ops[0]), ops[1..], u);
    }
  }

  lemma {:induction false} ScanMisses(slots: seq<Entry>, key: string, timeout: int, w: Probe)
    requires NoSlotHas(slots, key)
    ensures Scan(slots, key, timeout, w) == Found(None, slots, multiset{})
    decreases |slots|
  {
    if slots != [] {
      assert NoSlotHas(slots[1..], key);
      ScanMisses(slots[1..], key, timeout, w);
      assert slots == [slots[0]] + slots[1..];
    }
  }

  predicate NewHandles(hs: seq<Handle>) { forall i :: 0 <= i < |hs| ==> hs[i].key == "" }

  /** TLS connections are neither stored nor taken from the pool: after any run of calls, plain and TLS
      connections mixed in any way, an acquire for a TLS target whose identity names no mode fails and touches no
      stored connection. */
  lemma TlsIsNeverReused(start: World, ops: seq<Op>, h: Handle, u: Target, f: Faults, probe: Probe)
    requires Initial(start) && NewHandles(start.handles) && IsCalledRun(start, ops, BuildKey(u))
    requires u.mode.Tls? && !NamesMode(u.identity)
    ensures IsRun(start, ops)
    ensures var p := Run(start, ops).pool;
            var r := Acquire(p, h, u, f, probe);
            !r.ok && r.pool.slots == p.slots && r.pool.closed == p.closed
  {
    assert BuildKey(u) != "";
    hide BuildKey, NamesMode, Run, Scan, IsRun, IsCalledRun, NoSlotHas;
    CalledRunIsRun(start, ops, BuildKey(u));
    NothingHas(BuildKey(u));
    RunKeepsUnstored(start, ops, u);
    var p := Run(start, ops).pool;
    ScanMisses(p.slots, BuildKey(u), p.timeout, probe);
    assert p.closed + multiset{} == p.closed;
  }
}
