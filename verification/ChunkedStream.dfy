/** The incremental chunk reader fed by socket segments (Modules/API/api_http_plain.cpp), and its
    agreement with the batch decoder for every cut of every input. */
module ChunkedStream {
  import opened Prelude
  import opened HttpSyntax
  import opened ChunkedBody

  /** One call of the streaming handler's body callback. */
  datatype Event = Event(data: string, final: bool)

  /** The reader's variables, plus the trace of callbacks made so far. */
  datatype Stream = Stream(
    buffer: string, delivered: nat, remaining: int, trailers: bool, finalSent: bool, trace: seq<Event>)

  /** The handler's verdict on the newest event of a trace; false makes the reader give up. */
  type Handler = seq<Event> -> bool

  const FRESH := Stream("", 0, -1, false, false, [])

  const FINAL := Event("", true)

  ghost predicate AcceptsAll(h: Handler) { forall t :: h(t) }

  datatype Step = Wait | Fail(st: Stream) | Next(st: Stream)

  /** One round of the `while (FT_TRUE)` loop: wait for input, give up, or go on. */
  function StepOf(st: Stream, h: Handler): Step {
    if st.trailers then TrailerStep(st, h)
    else if st.remaining < 0 then HeaderStep(st)
    else DataStep(st, h)
  }

  function TrailerStep(st: Stream, h: Handler): Step {
    match Crlf(st.buffer)
    case None => Wait
    case Some(n) =>
      var st' := st.(buffer := st.buffer[n + 2..]);
      if n != 0 then Next(st')
      else if st.finalSent then Next(st'.(trailers := false))
      else
        var trace := st.trace + [FINAL];
        var st'' := st'.(trailers := false, trace := trace);
        if h(trace) then Next(st''.(finalSent := true)) else Fail(st'')
  }

  function HeaderStep(st: Stream): Step {
    match ReadHeader(st.buffer)
    case NoLine => Wait
    case BadLine => Fail(st)
    case Sized(size, next) =>
      var st' := st.(buffer := st.buffer[next..]);
      if size == 0 then Next(st'.(remaining := -1, trailers := true)) else Next(st'.(remaining := size))
  }

  function DataStep(st: Stream, h: Handler): Step
    requires st.remaining >= 0
  {
    var size: nat := st.remaining;
    if |st.buffer| < size + 2 then Wait
    else
      var trace := st.trace + [Event(st.buffer[..size], false)];
      if !h(trace) then Fail(st.(trace := trace))
      else if !DataEnds(st.buffer, size) then Fail(st.(buffer := st.buffer[size..], trace := trace))
      else Next(st.(buffer := st.buffer[size + 2..], remaining := -1, trace := trace))
  }

  lemma StepShrinks(st: Stream, h: Handler)
    ensures StepOf(st, h).Next? ==> |StepOf(st, h).st.buffer| < |st.buffer|
  {}

  datatype Outcome = Outcome(ok: bool, st: Stream)

  /** The whole loop: steps until the buffer holds no complete element or an error occurs. */
  function Run(st: Stream, h: Handler): Outcome
    decreases |st.buffer|
  {
    StepShrinks(st, h);
    match StepOf(st, h)
    case Wait => Outcome(true, st)
    case Fail(st') => Outcome(false, st')
    case Next(st') => Run(st', h)
  }

  function Extend(st: Stream, more: string): Stream {
    st.(buffer := st.buffer + more)
  }

  // ---- Cutting the input does not matter ----

  function ExtendStep(step: Step, more: string): Step {
    match step
    case Wait => Wait
    case Fail(st) => Fail(Extend(st, more))
    case Next(st) => Next(Extend(st, more))
  }

  lemma DropOfExtended(s: string, more: string, k: nat)
    requires k <= |s|
    ensures (s + more)[k..] == s[k..] + more && (s + more)[..k] == s[..k]
  {}

  /** A step that does not wait looks only at bytes that are already there. */
  lemma StepExtends(st: Stream, more: string, h: Handler)
    requires !StepOf(st, h).Wait?
    ensures StepOf(Extend(st, more), h) == ExtendStep(StepOf(st, h), more)
  {
    hide Crlf, ReadHeader;
    var s := st.buffer;
    if st.trailers {
      CrlfExtends(s, more);
      DropOfExtended(s, more, Crlf(s).value + 2);
    } else if st.remaining < 0 {
      HeaderExtends(s, more);
      if ReadHeader(s).Sized? {
        DropOfExtended(s, more, ReadHeader(s).next);
      }
    } else {
      var size: nat := st.remaining;
      DropOfExtended(s, more, size);
      DropOfExtended(s, more, size + 2);
    }
  }

  /** Reading first what is there and later the rest ends where reading everything at once ends;
      after an error the rest stays unread behind the same state. */
  lemma {:induction false} RunExtends(st: Stream, more: string, h: Handler)
    ensures Run(Extend(st, more), h) ==
            if Run(st, h).ok then Run(Extend(Run(st, h).st, more), h)
            else Outcome(false, Extend(Run(st, h).st, more))
    decreases |st.buffer|
  {
    hide StepOf;
    StepShrinks(st, h);
    if !StepOf(st, h).Wait? {
      StepExtends(st, more, h);
      if StepOf(st, h).Next? {
        RunExtends(StepOf(st, h).st, more, h);
      }
    }
  }

  /** Feeding segments one after the other, each appended to what the previous one left over. */
  function Feed(st: Stream, segments: seq<string>, h: Handler): Outcome
    decreases |segments|
  {
    if segments == [] then Outcome(true, st)
    else
      var r := Run(Extend(st, segments[0]), h);
      if r.ok then Feed(r.st, segments[1..], h) else r
  }

  lemma {:induction false} RunIsIdle(st: Stream, h: Handler)
    requires Run(st, h).ok
    ensures StepOf(Run(st, h).st, h).Wait?
    decreases |st.buffer|
  {
    hide StepOf;
    StepShrinks(st, h);
    if StepOf(st, h).Next? {
      RunIsIdle(StepOf(st, h).st, h);
    }
  }

  ghost predicate SameButBuffer(a: Stream, b: Stream) { a.(buffer := b.buffer) == b }

  /** Cut independence, for every input whether well formed or not: the verdict, every variable and the
      trace of callbacks are those of the uncut input; the buffers agree unless an error stopped both. */
  lemma {:induction false} CutIndependence(st: Stream, segments: seq<string>, h: Handler)
    requires StepOf(st, h).Wait?
    ensures var cut, whole := Feed(st, segments, h), Run(Extend(st, Concat(segments)), h);
            && cut.ok == whole.ok
            && SameButBuffer(cut.st, whole.st)
            && (cut.ok ==> cut.st == whole.st)
    decreases |segments|
  {
    hide StepOf;
    if segments == [] {
      assert Extend(st, "") == st by { assert st.buffer + "" == st.buffer; }
    } else {
      var first, rest := segments[0], Concat(segments[1..]);
      var st1 := Extend(st, first);
      assert Extend(st, Concat(segments)) == Extend(st1, rest) by { RegroupDone(st.buffer, first, rest); }
      RunExtends(st1, rest, h);
      if Run(st1, h).ok {
        RunIsIdle(st1, h);
        CutIndependence(Run(st1, h).st, segments[1..], h);
      }
    }
  }

  // ---- The stream against the batch decoder ----

  /** The callbacks that a message must produce: one per chunk, then the final flag. */
  function Events(m: Message): seq<Event>
    decreases |m.chunks|
  {
    if m.chunks == [] then [FINAL] else [Event(m.chunks[0].data, false)] + Events(m.(chunks := m.chunks[1..]))
  }

  function Delivered(trace: seq<Event>): string {
    if trace == [] then "" else trace[0].data + Delivered(trace[1..])
  }

  /** The final flag is raised once, by the last callback. */
  predicate FinalExactlyOnce(trace: seq<Event>) {
    trace != [] && trace[|trace| - 1].final && forall i :: 0 <= i < |trace| - 1 ==> !trace[i].final
  }

  lemma {:induction false} EventsDeliverPayload(m: Message)
    ensures Delivered(Events(m)) == Payload(m)
    ensures FinalExactlyOnce(Events(m))
    decreases |m.chunks|
  {
    if m.chunks == [] {
      assert Events(m)[1..] == [];
    } else {
      var m' := m.(chunks := m.chunks[1..]);
      EventsDeliverPayload(m');
      assert Events(m)[1..] == Events(m');
    }
  }

  predicate AtHeader(st: Stream) { st.remaining == -1 && !st.trailers }

  lemma {:induction false} RunStep(st: Stream, st': Stream, h: Handler)
    requires StepOf(st, h) == Next(st')
    ensures Run(st, h) == Run(st', h)
  {
    hide StepOf;
    StepShrinks(st, h);
  }

  lemma {:induction false} RunWaits(st: Stream, h: Handler)
    requires StepOf(st, h).Wait?
    ensures Run(st, h) == Outcome(true, st)
  {
    hide StepOf;
  }

  /** No complete line: the reader waits in the trailer section. */
  lemma {:induction false} TrailerWaits(st: Stream, h: Handler)
    requires st.trailers && Crlf(st.buffer).None?
    ensures Run(st, h) == Outcome(true, st)
  {
    hide Crlf, Run;
    RunWaits(st, h);
  }

  /** A non-empty line is skipped. */
  lemma {:induction false} TrailerGoesOn(st: Stream, h: Handler, n: nat)
    requires st.trailers && Crlf(st.buffer) == Some(n) && n > 0
    ensures Run(st, h) == Run(st.(buffer := st.buffer[n + 2..]), h)
  {
    hide Crlf, Run;
    RunStep(st, st.(buffer := st.buffer[n + 2..]), h);
  }

  function AfterTrailers(st: Stream, k: nat): Stream
    requires k <= |st.buffer|
  {
    st.(buffer := st.buffer[k..], trailers := false, finalSent := true, trace := st.trace + [FINAL])
  }

  /** The empty line raises the final flag. */
  lemma {:induction false} TrailerFinishes(st: Stream, h: Handler)
    requires AcceptsAll(h) && st.trailers && !st.finalSent && Crlf(st.buffer) == Some(0)
    ensures Run(st, h) == Run(AfterTrailers(st, 2), h)
  {
    hide Crlf, Run;
    RunStep(st, AfterTrailers(st, 2), h);
  }

  /** Through the trailer section, up to the callback that raises the final flag. */
  lemma {:induction false} RunTrailers(st: Stream, h: Handler)
    requires AcceptsAll(h) && st.trailers && st.remaining == -1 && !st.finalSent
    ensures match TrailerLength(st.buffer)
            case None => Run(st, h).ok && !Run(st, h).st.finalSent
            case Some(k) => Run(st, h) == Run(AfterTrailers(st, k), h)
    decreases |st.buffer|
  {
    hide Crlf, Run, StepOf, AcceptsAll;
    var s := st.buffer;
    match Crlf(s)
    case None => TrailerWaits(st, h);
    case Some(n) =>
      if n == 0 {
        TrailerFinishes(st, h);
      } else {
        var st' := st.(buffer := s[n + 2..]);
        TrailerGoesOn(st, h, n);
        RunTrailers(st', h);
        if TrailerLength(s[n + 2..]).Some? {
          DropTwice(s, n + 2, TrailerLength(s[n + 2..]).value);
        }
      }
  }

  lemma DropTwice(s: string, a: nat, b: nat)
    requires a + b <= |s|
    ensures s[a..][b..] == s[a + b..]
  {}

  /** A chunk that is complete in the buffer takes two rounds: its size line, then its data. */
  lemma RunChunk(st: Stream, h: Handler, size: nat, next: nat)
    requires AcceptsAll(h) && AtHeader(st)
    requires ReadHeader(st.buffer) == Sized(size, next) && size > 0
    requires DataEnds(st.buffer[next..], size)
    ensures Run(st, h) == Run(st.(buffer := st.buffer[next..][size + 2..],
                                  trace := st.trace + [Event(st.buffer[next..][..size], false)]), h)
  {
    hide ReadHeader;
    var st1 := st.(buffer := st.buffer[next..], remaining := size);
    assert StepOf(st, h) == Next(st1);
    var st2 := st.(buffer := st1.buffer[size + 2..], trace := st.trace + [Event(st1.buffer[..size], false)]);
    assert StepOf(st1, h) == Next(st2);
  }

  lemma RegroupTrace(a: seq<Event>, e: Event, b: seq<Event>)
    ensures (a + [e]) + b == a + ([e] + b)
  {}

  /** A message of the grammar drives the reader through exactly its callbacks; the reader then goes on
      with the bytes behind the message. */
  lemma {:induction false} RunOfMessage(m: Message, rest: string, st: Stream, h: Handler)
    requires ValidMessage(m) && AcceptsAll(h) && AtHeader(st) && !st.finalSent
    requires st.buffer == Render(m) + rest
    ensures Run(st, h) == Run(st.(buffer := rest, finalSent := true, trace := st.trace + Events(m)), h)
    decreases |m.chunks|
  {
    hide Run, StepOf, ReadHeader, TrailerLength, DataEnds, SizeLine, ParseHex;
    if m.chunks == [] {
      RunOfLastChunk(m, rest, st, h);
    } else {
      var c, m' := m.chunks[0], m.(chunks := m.chunks[1..]);
      assert ValidChunk(c);
      var tail := Render(m') + rest;
      RegroupChunk(c.line, c.data, Render(m'), rest);
      RunOfFirstChunk(c, tail, st, h);
      var st' := st.(buffer := tail, trace := st.trace + [Event(c.data, false)]);
      assert ValidMessage(m');
      RunOfMessage(m', rest, st', h);
      RegroupTrace(st.trace, Event(c.data, false), Events(m'));
    }
  }

  lemma RunOfFirstChunk(c: Chunk, tail: string, st: Stream, h: Handler)
    requires ValidChunk(c) && AcceptsAll(h) && AtHeader(st)
    requires st.buffer == c.line + CRLF + (c.data + CRLF + tail)
    ensures Run(st, h) == Run(st.(buffer := tail, trace := st.trace + [Event(c.data, false)]), h)
  {
    hide Run, StepOf, ReadHeader, SizeLine, ParseHex;
    var after := c.data + CRLF + tail;
    HeaderOfLine(c.line, |c.data|, after);
    assert after[..|c.data|] == c.data && after[|c.data| + 2..] == tail;
    assert DataEnds(after, |c.data|);
    RunChunk(st, h, |c.data|, |c.line| + 2);
  }

  lemma RunOfLastChunk(m: Message, rest: string, st: Stream, h: Handler)
    requires ValidMessage(m) && m.chunks == [] && AcceptsAll(h) && AtHeader(st) && !st.finalSent
    requires st.buffer == Render(m) + rest
    ensures Run(st, h) == Run(st.(buffer := rest, finalSent := true, trace := st.trace + Events(m)), h)
  {
    hide ReadHeader, TrailerLength, ParseHex;
    var ts := RenderTrailers(m.trailers);
    RegroupLast(m.lastLine, ts, rest);
    HeaderOfLine(m.lastLine, 0, ts + rest);
    var st1 := st.(buffer := ts + rest, trailers := true);
    assert StepOf(st, h) == Next(st1);
    TrailersDecode(m.trailers, rest);
    RunTrailers(st1, h);
    DropOfExtended(ts, rest, |ts|);
    assert ts[|ts|..] + rest == rest;
  }

  /** A chunk whose data is short or badly ended stops the reader, waiting or with an error. */
  lemma RunOfBrokenChunk(st: Stream, h: Handler, size: nat, next: nat)
    requires AcceptsAll(h) && AtHeader(st)
    requires ReadHeader(st.buffer) == Sized(size, next) && size > 0
    requires !DataEnds(st.buffer[next..], size)
    ensures Run(st, h).st.finalSent == st.finalSent
  {
    hide ReadHeader;
    var st1 := st.(buffer := st.buffer[next..], remaining := size);
    assert StepOf(st, h) == Next(st1);
    assert !StepOf(st1, h).Next?;
  }

  /** An input that the batch decoder does not accept never raises the final flag. */
  lemma {:induction false} NoFinalWithoutMessage(st: Stream, h: Handler)
    requires AcceptsAll(h) && AtHeader(st) && !st.finalSent
    requires !Decode(st.buffer).ok
    ensures !Run(st, h).st.finalSent
    decreases |st.buffer|, 1
  {
    hide ReadHeader, TrailerLength, Decode, DataEnds;
    RejectedStep(st.buffer);
    var s, hd := st.buffer, ReadHeader(st.buffer);
    if hd.Sized? {
      var rest := s[hd.next..];
      if hd.size == 0 {
        var st1 := st.(buffer := rest, trailers := true);
        assert StepOf(st, h) == Next(st1);
        RunTrailers(st1, h);
      } else if DataEnds(rest, hd.size) {
        RunChunk(st, h, hd.size, hd.next);
        NoFinalAfterChunk(st, h, rest, hd.size);
      } else {
        RunOfBrokenChunk(st, h, hd.size, hd.next);
      }
    }
  }

  lemma {:induction false} NoFinalAfterChunk(st: Stream, h: Handler, rest: string, size: nat)
    requires AcceptsAll(h) && AtHeader(st) && !st.finalSent
    requires DataEnds(rest, size) && |rest| <= |st.buffer| && !Decode(rest[size + 2..]).ok
    ensures !Run(st.(buffer := rest[size + 2..], trace := st.trace + [Event(rest[..size], false)]), h).st.finalSent
    decreases |st.buffer|, 0
  {
    hide Run, Decode;
    NoFinalWithoutMessage(st.(buffer := rest[size + 2..], trace := st.trace + [Event(rest[..size], false)]), h);
  }

  /** The final flag never falls back. */
  lemma {:induction false} FinalStays(st: Stream, h: Handler)
    requires st.finalSent
    ensures Run(st, h).st.finalSent
    decreases |st.buffer|
  {
    hide Crlf, ReadHeader;
    StepShrinks(st, h);
    if StepOf(st, h).Next? {
      FinalStays(StepOf(st, h).st, h);
    }
  }

  /** The reader raises the final flag exactly on the inputs that the batch decoder accepts. */
  lemma FinalIffDecodes(s: string, h: Handler)
    requires AcceptsAll(h)
    ensures Run(Extend(FRESH, s), h).st.finalSent <==> Decode(s).ok
  {
    hide Run, Decode;
    assert Extend(FRESH, s) == FRESH.(buffer := s) by { assert "" + s == s; }
    if Decode(s).ok {
      var m := ParseOfDecode(s);
      var rest := s[Decode(s).consumed..];
      assert s == Render(m) + rest;
      RunOfMessage(m, rest, FRESH.(buffer := s), h);
      FinalStays(FRESH.(buffer := rest, finalSent := true, trace := Events(m)), h);
      assert [] + Events(m) == Events(m);
    } else {
      NoFinalWithoutMessage(FRESH.(buffer := s), h);
    }
  }

  /** The input is one message, to its last byte. */
  ghost predicate Complete(s: string) { Decode(s).ok && Decode(s).consumed == |s| }

  /** The callbacks and the state that the reader owes to a complete input. */
  ghost predicate Finished(s: string, st: Stream) {
    && st == FRESH.(finalSent := true, trace := st.trace)
    && Delivered(st.trace) == Decode(s).body
    && FinalExactlyOnce(st.trace)
  }

  lemma CompleteIsMessage(s: string) returns (m: Message)
    requires Complete(s)
    ensures ValidMessage(m) && s == Render(m) + "" && Payload(m) == Decode(s).body
  {
    hide Decode, ValidMessage, Render;
    m := ParseOfDecode(s);
    assert s[..|s|] == s;
  }

  lemma CompleteRun(s: string, h: Handler)
    requires AcceptsAll(h) && Complete(s)
    ensures Run(Extend(FRESH, s), h).ok && Finished(s, Run(Extend(FRESH, s), h).st)
  {
    var m := CompleteIsMessage(s);
    hide Decode, Run, ValidMessage, Render, Events, Payload, Delivered, FinalExactlyOnce;
    assert "" + s == s && [] + Events(m) == Events(m);
    RunOfMessage(m, "", FRESH.(buffer := s), h);
    EventsDeliverPayload(m);
    RunEmpty(FRESH.(finalSent := true, trace := Events(m)), h);
  }

  /** The central theorem. Whenever the batch decoder accepts the whole of an input, every way of cutting
      it into segments makes the stream succeed, deliver the same body in order, raise the final flag once
      and last, and leave nothing behind. */
  lemma StreamMatchesBatch(s: string, segments: seq<string>, h: Handler)
    requires AcceptsAll(h) && Concat(segments) == s
    requires Decode(s).ok && Decode(s).consumed == |s|
    ensures var r := Feed(FRESH, segments, h);
            && r.ok
            && r.st == FRESH.(finalSent := true, trace := r.st.trace)
            && Delivered(r.st.trace) == Decode(s).body
            && FinalExactlyOnce(r.st.trace)
  {
    hide Decode, Feed, Run, Delivered, FinalExactlyOnce;
    CompleteRun(s, h);
    RunEmpty(FRESH, h);
    CutIndependence(FRESH, segments, h);
  }

  // ---- The handler's verdicts ----

  /** The callbacks made between two states: those before stay, each was accepted except possibly the last, and that one
      too if the outcome is a success. */
  ghost predicate Obeys(h: Handler, before: seq<Event>, after: seq<Event>, ok: bool) {
    && before <= after
    && (forall k :: |before| < k < |after| ==> h(after[..k]))
    && (ok && |before| < |after| ==> h(after))
  }

  lemma StepObeys(st: Stream, h: Handler)
    ensures var step := StepOf(st, h);
            && (step.Next? ==> Obeys(h, st.trace, step.st.trace, true) && |step.st.trace| <= |st.trace| + 1)
            && (step.Fail? ==> Obeys(h, st.trace, step.st.trace, false))
  {
    hide Crlf, ReadHeader, DataEnds;
  }

  lemma ObeysTransitively(h: Handler, a: seq<Event>, b: seq<Event>, c: seq<Event>, ok: bool)
    requires Obeys(h, a, b, true) && Obeys(h, b, c, ok)
    ensures Obeys(h, a, c, ok)
  {
    forall k | |a| < k < |c| ensures h(c[..k]) {
      if k < |b| {
        assert c[..k] == b[..k];
      } else if k == |b| {
        assert c[..k] == b;
      }
    }
    if |b| == |c| {
      assert b == c;
    }
  }

  lemma ObeysNothing(h: Handler, a: seq<Event>)
    ensures Obeys(h, a, a, true)
  {}

  /** Whatever the handler answers and whatever the input: the reader makes no callback after a refused one, and a refusal
      is never a success. */
  lemma {:induction false} RunObeys(st: Stream, h: Handler)
    ensures Obeys(h, st.trace, Run(st, h).st.trace, Run(st, h).ok)
    decreases |st.buffer|
  {
    hide StepOf, Obeys;
    StepShrinks(st, h);
    StepObeys(st, h);
    ObeysNothing(h, st.trace);
    if StepOf(st, h).Next? {
      var st' := StepOf(st, h).st;
      RunObeys(st', h);
      ObeysTransitively(h, st.trace, st'.trace, Run(st, h).st.trace, Run(st, h).ok);
    }
  }

  // ---- When the reader gives up ----

  /** What the reader takes off its buffer as a whole: a chunk, or a last chunk with its trailers. */
  datatype Element = Data(chunk: Chunk) | End(line: string, trailers: seq<string>)

  ghost predicate ValidElement(e: Element) {
    match e
    case Data(chunk) => ValidChunk(chunk)
    case End(line, trailers) => SizeLine(line, 0) && forall i :: 0 <= i < |trailers| ==> ValidTrailer(trailers[i])
  }

  function RenderElement(e: Element): string {
    match e
    case Data(chunk) => chunk.line + CRLF + (chunk.data + CRLF)
    case End(line, trailers) => line + CRLF + RenderTrailers(trailers)
  }

  ghost predicate ValidElements(es: seq<Element>) { forall i :: 0 <= i < |es| ==> ValidElement(es[i]) }

  function RenderElements(es: seq<Element>): string {
    if es == [] then "" else RenderElement(es[0]) + RenderElements(es[1..])
  }

  /** A complete line that is no size line, or a whole chunk's worth of bytes that does not end in CRLF. */
  ghost predicate Garbled(s: string) {
    || (exists line, rest :: s == line + CRLF + rest && NoCrlf(line) && ParseHex(line) == None)
    || (exists line, size, rest :: s == line + CRLF + rest && SizeLine(line, size) && GarbledData(rest, size))
  }

  ghost predicate GarbledData(rest: string, size: nat) {
    0 < size && size + 2 <= |rest| && rest[size..size + 2] != CRLF
  }

  /** Behind whole elements the input is garbled. */
  ghost predicate GarbledBehind(s: string) {
    exists es, rest :: ValidElements(es) && s == RenderElements(es) + rest && Garbled(rest)
  }

  lemma GarbledHeader(s: string)
    ensures Garbled(s) <==>
            var h := ReadHeader(s);
            h.BadLine? || (h.Sized? && h.size > 0 && h.size + 2 <= |s[h.next..]| && !DataEnds(s[h.next..], h.size))
  {
    hide ParseHex, Crlf;
    forall line, rest | s == line + CRLF + rest && NoCrlf(line)
      ensures Crlf(s) == Some(|line|) && s[..|line|] == line && s[|line| + 2..] == rest
    {
      CrlfOfLine(line, rest);
      assert s[..|line|] == line && s[|line| + 2..] == rest;
    }
    if Crlf(s).Some? {
      LineBeforeCrlf(s);
      var n := Crlf(s).value;
      var line, rest := s[..n], s[n + 2..];
      forall size | ParseHex(line) == Some(size) ensures GarbledData(rest, size) <==> 0 < size && size + 2 <= |rest| && !DataEnds(rest, size) {
        SameEnd(rest, size);
      }
    }
  }

  lemma SameEnd(rest: string, size: nat)
    ensures size + 2 <= |rest| ==> (DataEnds(rest, size) <==> rest[size..size + 2] == CRLF)
  {
    if size + 2 <= |rest| {
      assert rest[size..size + 2] == [rest[size], rest[size + 1]];
    }
  }

  /** After the final flag the trailers of another last chunk are read without a callback. */
  function AfterEnd(st: Stream, k: nat): Stream
    requires k <= |st.buffer|
  {
    if st.finalSent then st.(buffer := st.buffer[k..], trailers := false) else AfterTrailers(st, k)
  }

  lemma {:induction false} RunEnd(st: Stream, h: Handler)
    requires AcceptsAll(h) && st.trailers && st.remaining == -1
    ensures match TrailerLength(st.buffer)
            case None => Run(st, h).ok
            case Some(k) => Run(st, h) == Run(AfterEnd(st, k), h)
    decreases |st.buffer|
  {
    hide Crlf, Run, StepOf, AcceptsAll;
    var s := st.buffer;
    if !st.finalSent {
      RunTrailers(st, h);
    } else {
      match Crlf(s)
      case None => TrailerWaits(st, h);
      case Some(n) =>
        if n == 0 {
          SilentTrailerEnds(st, h);
        } else {
          TrailerGoesOn(st, h, n);
          RunEnd(st.(buffer := s[n + 2..]), h);
          if TrailerLength(s[n + 2..]).Some? {
            DropTwice(s, n + 2, TrailerLength(s[n + 2..]).value);
          }
        }
    }
  }

  lemma {:induction false} SilentTrailerEnds(st: Stream, h: Handler)
    requires st.trailers && st.finalSent && Crlf(st.buffer) == Some(0)
    ensures Run(st, h) == Run(st.(buffer := st.buffer[2..], trailers := false), h)
  {
    hide Crlf, Run;
    RunStep(st, st.(buffer := st.buffer[2..], trailers := false), h);
  }

  /** One element: the reader is at a size line again, with the rest in its buffer. */
  lemma RunElement(e: Element, rest: string, st: Stream, h: Handler) returns (st': Stream)
    requires AcceptsAll(h) && AtHeader(st) && ValidElement(e) && st.buffer == RenderElement(e) + rest
    ensures AtHeader(st') && st'.buffer == rest && Run(st, h) == Run(st', h)
  {
    hide Run, StepOf, ReadHeader, TrailerLength, ParseHex, AcceptsAll;
    match e
    case Data(c) =>
      assert st.buffer == c.line + CRLF + (c.data + CRLF + rest);
      RunOfFirstChunk(c, rest, st, h);
      st' := st.(buffer := rest, trace := st.trace + [Event(c.data, false)]);
    case End(line, trailers) =>
      var ts := RenderTrailers(trailers);
      RegroupLast(line, ts, rest);
      HeaderOfLine(line, 0, ts + rest);
      var st1 := st.(buffer := ts + rest, trailers := true);
      EndLineRead(st, h, |line| + 2);
      TrailersDecode(trailers, rest);
      RunEnd(st1, h);
      DropOfExtended(ts, rest, |ts|);
      assert ts[|ts|..] + rest == rest;
      st' := AfterEnd(st1, |ts|);
  }

  lemma {:induction false} EndLineRead(st: Stream, h: Handler, next: nat)
    requires AtHeader(st) && ReadHeader(st.buffer) == Sized(0, next)
    ensures Run(st, h) == Run(st.(buffer := st.buffer[next..], trailers := true), h)
  {
    hide Run, ReadHeader;
    RunStep(st, st.(buffer := st.buffer[next..], trailers := true), h);
  }

  lemma {:induction false} RunElements(es: seq<Element>, rest: string, st: Stream, h: Handler) returns (st': Stream)
    requires AcceptsAll(h) && AtHeader(st) && ValidElements(es) && st.buffer == RenderElements(es) + rest
    ensures AtHeader(st') && st'.buffer == rest && Run(st, h) == Run(st', h)
    decreases |es|
  {
    hide Run, ValidElement, RenderElement, AcceptsAll;
    if es == [] {
      assert "" + rest == rest;
      st' := st;
    } else {
      var tail := RenderElements(es[1..]);
      assert st.buffer == RenderElement(es[0]) + (tail + rest);
      var st1 := RunElement(es[0], tail + rest, st, h);
      st' := RunElements(es[1..], rest, st1, h);
    }
  }

  /** Garbled bytes at a size line make the reader give up. */
  lemma {:induction false} GarbledFails(st: Stream, h: Handler)
    requires AcceptsAll(h) && AtHeader(st) && Garbled(st.buffer)
    ensures !Run(st, h).ok
  {
    hide Garbled, ReadHeader;
    GarbledHeader(st.buffer);
    var hd := ReadHeader(st.buffer);
    if hd.Sized? {
      var st1 := st.(buffer := st.buffer[hd.next..], remaining := hd.size);
      assert StepOf(st, h) == Next(st1);
      assert StepOf(st1, h).Fail?;
    } else {
      assert StepOf(st, h).Fail?;
    }
  }

  lemma {:induction false} BrokenDataFails(st: Stream, h: Handler, size: nat, next: nat)
    requires AcceptsAll(h) && AtHeader(st) && ReadHeader(st.buffer) == Sized(size, next) && size > 0
    requires !Run(st, h).ok && !DataEnds(st.buffer[next..], size)
    ensures Garbled(st.buffer)
  {
    hide ReadHeader, Garbled;
    GarbledHeader(st.buffer);
    var st1 := st.(buffer := st.buffer[next..], remaining := size);
    assert StepOf(st, h) == Next(st1);
    assert |st1.buffer| < size + 2 <==> StepOf(st1, h).Wait?;
  }

  lemma PrependElement(e: Element, s: string)
    requires ValidElement(e) && GarbledBehind(s)
    ensures GarbledBehind(RenderElement(e) + s)
  {
    hide ValidElement, RenderElement, Garbled;
    var es, rest :| ValidElements(es) && s == RenderElements(es) + rest && Garbled(rest);
    var all := [e] + es;
    assert all[1..] == es;
    assert RenderElements(all) + rest == RenderElement(e) + s;
    assert ValidElements(all);
  }

  lemma GarbledHere(s: string)
    requires Garbled(s)
    ensures GarbledBehind(s)
  {
    hide Garbled;
    assert s == RenderElements([]) + s;
  }

  /** A failed run has met garbled bytes behind whole elements. */
  lemma {:induction false} FailureIsGarbled(st: Stream, h: Handler)
    requires AcceptsAll(h) && AtHeader(st) && !Run(st, h).ok
    ensures GarbledBehind(st.buffer)
    decreases |st.buffer|
  {
    hide ReadHeader, TrailerLength, DataEnds, GarbledBehind, Garbled, Run, AcceptsAll, ValidElement;
    var s, hd := st.buffer, ReadHeader(st.buffer);
    match hd
    case NoLine => WaitsForLine(st, h);
    case BadLine =>
      GarbledHeader(s);
      GarbledHere(s);
    case Sized(size, next) =>
      LineOfHeader(s);
      if size == 0 {
        FailureBehindEnd(st, h, next);
      } else if DataEnds(s[next..], size) {
        FailureBehindChunk(st, h, size, next);
      } else {
        BrokenDataFails(st, h, size, next);
        GarbledHere(s);
      }
  }

  lemma {:induction false} WaitsForLine(st: Stream, h: Handler)
    requires AtHeader(st) && ReadHeader(st.buffer).NoLine?
    ensures Run(st, h).ok
  {
    hide ReadHeader, Run;
    RunWaits(st, h);
  }

  lemma {:induction false} FailureBehindChunk(st: Stream, h: Handler, size: nat, next: nat)
    requires AcceptsAll(h) && AtHeader(st) && !Run(st, h).ok
    requires ReadHeader(st.buffer) == Sized(size, next) && size > 0 && DataEnds(st.buffer[next..], size)
    ensures GarbledBehind(st.buffer)
    decreases |st.buffer|, 0
  {
    hide ReadHeader, GarbledBehind, Run, AcceptsAll, SizeLine;
    LineOfHeader(st.buffer);
    RunChunk(st, h, size, next);
    var line, rest := st.buffer[..next - 2], st.buffer[next..];
    var c := Chunk(line, rest[..size]);
    SplitData(rest, size);
    FailureIsGarbled(st.(buffer := rest[size + 2..], trace := st.trace + [Event(rest[..size], false)]), h);
    PrependElement(Data(c), rest[size + 2..]);
    assert st.buffer == c.line + CRLF + (c.data + CRLF) + rest[size + 2..];
  }

  lemma {:induction false} FailureBehindEnd(st: Stream, h: Handler, next: nat)
    requires AcceptsAll(h) && AtHeader(st) && !Run(st, h).ok && ReadHeader(st.buffer) == Sized(0, next)
    ensures GarbledBehind(st.buffer)
    decreases |st.buffer|, 0
  {
    hide ReadHeader, GarbledBehind, Run, AcceptsAll, SizeLine, TrailerLength;
    LineOfHeader(st.buffer);
    EndLineRead(st, h, next);
    var line, rest := st.buffer[..next - 2], st.buffer[next..];
    var st1 := st.(buffer := rest, trailers := true);
    RunEnd(st1, h);
    var k := TrailerLength(rest).value;
    var ts := TrailersParse(rest);
    FailureIsGarbled(AfterEnd(st1, k), h);
    hide ValidTrailer, RenderTrailers;
    PrependElement(End(line, ts), rest[k..]);
    RegroupEnd(line, rest, k);
  }

  lemma RegroupEnd(line: string, rest: string, k: nat)
    requires k <= |rest|
    ensures line + CRLF + rest == (line + CRLF + rest[..k]) + rest[k..]
  {
    assert rest == rest[..k] + rest[k..];
  }

  /** The reader gives up exactly when, behind whole chunks and trailer sections, a complete line is no size line or
      the bytes of a chunk are all there and do not end in CRLF; and so it does however the input is cut. */
  lemma ReaderFailsExactly(segments: seq<string>, h: Handler)
    requires AcceptsAll(h)
    ensures !Feed(FRESH, segments, h).ok <==> GarbledBehind(Concat(segments))
  {
    hide Run, GarbledBehind, Feed, AcceptsAll;
    var s := Concat(segments);
    RunEmpty(FRESH, h);
    CutIndependence(FRESH, segments, h);
    assert Extend(FRESH, s) == FRESH.(buffer := s) by { assert "" + s == s; }
    if !Run(FRESH.(buffer := s), h).ok {
      FailureIsGarbled(FRESH.(buffer := s), h);
    }
    if GarbledBehind(s) {
      GarbledInputFails(s, h);
    }
  }

  lemma GarbledInputFails(s: string, h: Handler)
    requires AcceptsAll(h) && GarbledBehind(s)
    ensures !Run(FRESH.(buffer := s), h).ok
  {
    hide Run, Garbled, ValidElements, RenderElements, AcceptsAll;
    var es, rest :| ValidElements(es) && s == RenderElements(es) + rest && Garbled(rest);
    var st' := RunElements(es, rest, FRESH.(buffer := s), h);
    GarbledFails(st', h);
  }

  /** Why the theorem speaks of inputs consumed to the end: bytes behind the terminating chunk that arrive
      in the same segment are parsed as a new message, and data is delivered after the final flag. */
  lemma SurplusIsDeliveredAfterFinal(h: Handler)
    requires AcceptsAll(h)
    ensures var s := "0\r\n\r\n" + "1\r\na\r\n";
            && Decode(s) == Decoded(true, "", 5)
            && Run(Extend(FRESH, s), h) == Outcome(true, FRESH.(finalSent := true, trace := [FINAL, Event("a", false)]))
  {
    hide Run, Decode;
    assert SizeField("0") == "0" && HexValue("0") == 0 by { assert "0"[..0] == ""; }
    assert SizeField("1") == "1" && HexValue("1") == 1 by { assert "1"[..0] == ""; }
    var m := Message([], "0", []);
    var rest := "1\r\na\r\n";
    assert Render(m) == "0\r\n\r\n";
    DecodeOfRender(m, rest);
    var s := "0\r\n\r\n" + rest;
    assert "" + s == s;
    RunOfMessage(m, rest, FRESH.(buffer := s), h);
    assert [] + Events(m) == [FINAL];
    var st := FRESH.(buffer := rest, finalSent := true, trace := [FINAL]);
    var c := Chunk("1", "a");
    assert rest == c.line + CRLF + (c.data + CRLF + "");
    RunOfFirstChunk(c, "", st, h);
    assert [FINAL] + [Event("a", false)] == [FINAL, Event("a", false)];
    RunEmpty(FRESH.(finalSent := true, trace := [FINAL, Event("a", false)]), h);
  }

  lemma RunEmpty(st: Stream, h: Handler)
    requires AtHeader(st) && st.buffer == ""
    ensures StepOf(st, h).Wait? && Run(st, h) == Outcome(true, st)
  {}
}
