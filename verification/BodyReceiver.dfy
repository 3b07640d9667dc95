/** Delivery of a response body to a streaming handler: `api_http_streaming_flush_buffer` and the body
    part of `api_http_receive_response` (Modules/API/api_http_plain.cpp). */
module BodyReceiver {
  import opened Prelude
  import opened HttpSyntax
  import opened ChunkedBody
  import opened ChunkedStream

  /** How the response headers frame the body: a declared length, chunked coding, or until close. */
  datatype Framing = Framing(hasLength: bool, contentLength: nat, chunked: bool)

  // ---- The flush as a function of the reader's variables ----

  function FlushLength(st: Stream, length: nat, h: Handler): Outcome {
    if st.delivered < length then
      var size := Min(|st.buffer|, length - st.delivered);
      var final := st.delivered + size == length;
      var trace := st.trace + [Event(st.buffer[..size], final)];
      if !h(trace) then Outcome(false, st.(trace := trace))
      else
        var st' := st.(buffer := st.buffer[size..], delivered := st.delivered + size,
                       finalSent := st.finalSent || final, trace := trace);
        Outcome(!(st'.finalSent && st'.buffer != ""), st')
    else Outcome(!(st.finalSent && st.buffer != ""), st)
  }

  function FlushChunked(st: Stream, h: Handler): Outcome {
    var r := Run(st, h);
    Outcome(r.ok && !(r.st.finalSent && r.st.buffer != ""), r.st)
  }

  function FlushAll(st: Stream, h: Handler): Outcome {
    var trace := st.trace + [Event(st.buffer, false)];
    if h(trace) then Outcome(true, st.(buffer := "", trace := trace)) else Outcome(false, st.(trace := trace))
  }

  function Flush(f: Framing, st: Stream, h: Handler): Outcome {
    if st.buffer == "" then Outcome(true, st)
    else if f.hasLength then FlushLength(st, f.contentLength, h)
    else if f.chunked then FlushChunked(st, h)
    else FlushAll(st, h)
  }

  /** The connection was closed by the peer. */
  function AtEof(f: Framing, st: Stream, h: Handler): Outcome {
    var r := Flush(f, st, h);
    if !r.ok then r
    else if f.chunked then
      Outcome(r.st.finalSent && !r.st.trailers && r.st.remaining < 0 && r.st.buffer == "", r.st)
    else if f.hasLength && r.st.delivered != f.contentLength then Outcome(false, r.st)
    else if f.hasLength && r.st.finalSent then Outcome(true, r.st)
    else
      var trace := r.st.trace + [FINAL];
      if h(trace) then Outcome(true, r.st.(trace := trace, finalSent := true))
      else Outcome(false, r.st.(trace := trace))
  }

  /** Segments as the socket returns them, then end of file, which an empty read also means; reading stops at
      the final flag. */
  function Receive(f: Framing, st: Stream, segments: seq<string>, h: Handler): Outcome
    decreases |segments|
  {
    if segments == [] || segments[0] == "" then AtEof(f, st, h)
    else
      var r := Flush(f, Extend(st, segments[0]), h);
      if !r.ok || r.st.finalSent then r else Receive(f, r.st, segments[1..], h)
  }

  ghost predicate NonEmpty(segments: seq<string>) {
    forall i :: 0 <= i < |segments| ==> segments[i] != ""
  }

  // ---- Chunked bodies ----

  const CHUNKED := Framing(false, 0, true)

  lemma FreshIsIdle(h: Handler)
    ensures StepOf(FRESH, h).Wait?
    ensures Run(FRESH, h) == Outcome(true, FRESH)
  {}

  lemma {:induction false} ConcatOfNonEmpty(segments: seq<string>)
    requires NonEmpty(segments)
    ensures |segments| <= |Concat(segments)|
  {
    if segments != [] {
      ConcatOfNonEmpty(segments[1..]);
    }
  }

  lemma ConcatPrefix(segments: seq<string>, k: nat)
    requires segments != [] && 0 < k <= |segments|
    ensures Concat(segments[..k]) == segments[0] + Concat(segments[1..][..k - 1])
  {
    assert segments[..k][1..] == segments[1..][..k - 1];
  }

  /** The bytes `done` have been read without error, and no message was complete in them. */
  ghost predicate Reading(done: string, st: Stream, h: Handler) {
    Run(Extend(FRESH, done), h) == Outcome(true, st) && !st.finalSent
  }

  lemma ReadingStarts(h: Handler)
    ensures Reading("", FRESH, h)
  {
    FreshIsIdle(h);
    assert Extend(FRESH, "") == FRESH;
  }

  lemma RegroupExtend(st: Stream, a: string, b: string)
    ensures Extend(Extend(st, a), b) == Extend(st, a + b)
  {
    assert st.buffer + a + b == st.buffer + (a + b);
  }

  /** A segment more: the reader is where reading everything at once would leave it, and its final flag tells
      whether a message is complete in what was read so far. */
  lemma ReadMore(done: string, st: Stream, segment: string, h: Handler)
    requires AcceptsAll(h) && Reading(done, st, h)
    ensures Run(Extend(st, segment), h) == Run(Extend(FRESH, done + segment), h)
    ensures Run(Extend(st, segment), h).st.finalSent <==> Decode(done + segment).ok
  {
    hide Run, Decode;
    RunExtends(Extend(FRESH, done), segment, h);
    RegroupExtend(FRESH, done, segment);
    FinalIffDecodes(done + segment, h);
  }

  /** An error before a message is complete is never followed by one. */
  lemma ErrorIsFinal(read: string, more: string, h: Handler)
    requires AcceptsAll(h) && !Run(Extend(FRESH, read), h).ok && !Decode(read).ok
    ensures !Decode(read + more).ok
  {
    hide Run, Decode;
    FinalIffDecodes(read, h);
    RunExtends(Extend(FRESH, read), more, h);
    RegroupExtend(FRESH, read, more);
    FinalIffDecodes(read + more, h);
  }

  /** After `k` more segments, and not earlier, a message is complete. */
  ghost predicate FirstDecodes(done: string, segments: seq<string>, k: nat) {
    && k <= |segments| && Decode(done + Concat(segments[..k])).ok
    && forall j :: 0 <= j < k ==> !Decode(done + Concat(segments[..j])).ok
  }

  /** The loop stops behind the segment that completes a message, in the state of a single flush of all that
      was read until then; only the buffer behind an error may differ. */
  lemma {:induction false} ReceiveStopsAtMessage(done: string, st: Stream, segments: seq<string>, k: nat, h: Handler)
    requires AcceptsAll(h) && NonEmpty(segments) && Reading(done, st, h)
    requires 0 < k <= |segments| && FirstDecodes(done, segments, k)
    ensures var r, whole := Receive(CHUNKED, st, segments, h), Run(Extend(FRESH, done + Concat(segments[..k])), h);
            && r.ok == (whole.ok && whole.st.buffer == "")
            && SameButBuffer(r.st, whole.st)
            && (r.ok ==> r.st == whole.st)
    decreases |segments|
  {
    hide Run, Decode, FirstDecodes;
    var first, tail := segments[0], segments[1..];
    FirstDecodesStep(done, segments, k);
    ReadMore(done, st, first, h);
    var r := Run(Extend(st, first), h);
    assert first != "";
    ConcatPrefix(segments, k);
    RegroupDone(done, first, Concat(tail[..k - 1]));
    if k == 1 {
      assert done + Concat(segments[..k]) == done + first;
    } else {
      if !r.ok {
        ErrorIsFinal(done + first, Concat(tail[..k - 1]), h);
        assert false;
      }
      ReceiveStopsAtMessage(done + first, r.st, tail, k - 1, h);
    }
  }

  lemma FirstDecodesStep(done: string, segments: seq<string>, k: nat)
    requires 0 < k <= |segments| && FirstDecodes(done, segments, k)
    ensures Decode((done + segments[0]) + Concat(segments[1..][..k - 1])).ok
    ensures k == 1 ==> Decode(done + segments[0]).ok && Concat(segments[1..][..k - 1]) == ""
    ensures k > 1 ==> !Decode(done + segments[0]).ok && FirstDecodes(done + segments[0], segments[1..], k - 1)
  {
    hide Decode, Concat;
    var first, tail := segments[0], segments[1..];
    forall j | 0 < j <= k ensures done + Concat(segments[..j]) == (done + first) + Concat(tail[..j - 1]) {
      ConcatPrefix(segments, j);
      RegroupDone(done, first, Concat(tail[..j - 1]));
    }
    assert tail[..0] == [] && Concat<char>([]) == "" by { ConcatNil(); }
    assert (done + first) + "" == done + first;
    if k > 1 {
      assert !Decode(done + Concat(segments[..1])).ok;
      forall j | 0 <= j < k - 1 ensures !Decode((done + first) + Concat(tail[..j])).ok {
        assert !Decode(done + Concat(segments[..j + 1])).ok;
      }
    }
  }

  lemma ConcatNil()
    ensures Concat<char>([]) == ""
  {}

  /** Success needs a message: when no prefix of the segments decodes, the loop fails. */
  lemma {:induction false} NoMessageNoSuccess(done: string, st: Stream, segments: seq<string>, h: Handler)
    requires AcceptsAll(h) && NonEmpty(segments) && Reading(done, st, h)
    requires forall j :: 0 <= j <= |segments| ==> !Decode(done + Concat(segments[..j])).ok
    ensures !Receive(CHUNKED, st, segments, h).ok
    decreases |segments|
  {
    hide Run, Decode;
    if segments == [] {
      RunIsIdle(Extend(FRESH, done), h);
      RunWaits(st, h);
    } else {
      var first, tail := segments[0], segments[1..];
      forall j | 0 <= j <= |tail| ensures !Decode((done + first) + Concat(tail[..j])).ok {
        ConcatPrefix(segments, j + 1);
        RegroupDone(done, first, Concat(tail[..j]));
        assert !Decode(done + Concat(segments[..j + 1])).ok;
      }
      ReadMore(done, st, first, h);
      assert !Decode(done + first).ok by {
        assert tail[..0] == [] && (done + first) + "" == done + first;
      }
      assert first != "";
      var r := Run(Extend(st, first), h);
      if r.ok {
        NoMessageNoSuccess(done + first, r.st, tail, h);
      }
    }
  }

  /** The chunked receive loop can succeed only after a segment that completes a message. */
  lemma SuccessNeedsMessage(segments: seq<string>, h: Handler)
    requires AcceptsAll(h) && NonEmpty(segments) && Receive(CHUNKED, FRESH, segments, h).ok
    ensures exists k :: 0 < k <= |segments| && Decode(Concat(segments[..k])).ok
  {
    hide Run, Decode, Receive;
    ReadingStarts(h);
    forall j | 0 <= j <= |segments| ensures "" + Concat(segments[..j]) == Concat(segments[..j]) {}
    assert !Decode(Concat(segments[..0])).ok by { EmptyIsIncomplete(); }
    if forall j :: 0 < j <= |segments| ==> !Decode(Concat(segments[..j])).ok {
      NoMessageNoSuccess("", FRESH, segments, h);
    }
  }

  lemma EmptyIsIncomplete()
    ensures !Decode("").ok
  {}

  // ---- Surplus behind a chunked body ----

  /** The surplus that a flush swallows without a trace: zero-size chunks with their trailer lines, and at
      the very end possibly a lone size line. */
  predicate Silent(s: string, inTrailers: bool)
    decreases |s|
  {
    if s == "" then true
    else if inTrailers then
      match Crlf(s)
      case None => false
      case Some(n) => Silent(s[n + 2..], n != 0)
    else
      var h := ReadHeader(s);
      h.Sized? && if h.size == 0 then Silent(s[h.next..], true) else h.next == |s|
  }

  lemma StepTraceGrows(st: Stream, h: Handler)
    ensures var step := StepOf(st, h); !step.Wait? ==> st.trace <= step.st.trace
  {
    hide Crlf, ReadHeader, DataEnds;
  }

  lemma {:induction false} TraceGrows(st: Stream, h: Handler)
    ensures st.trace <= Run(st, h).st.trace
    decreases |st.buffer|
  {
    hide StepOf;
    StepShrinks(st, h);
    StepTraceGrows(st, h);
    if StepOf(st, h).Next? {
      TraceGrows(StepOf(st, h).st, h);
    }
  }

  /** After the final flag the buffer drains without any further callback exactly on silent surplus. */
  lemma {:induction false} SilentIffDrains(st: Stream, h: Handler)
    requires AcceptsAll(h) && st.finalSent && st.remaining == -1
    ensures (Run(st, h).ok && Run(st, h).st.buffer == "" && Run(st, h).st.trace == st.trace)
            <==> Silent(st.buffer, st.trailers)
    decreases |st.buffer|
  {
    hide ReadHeader, Crlf, DataEnds;
    var s := st.buffer;
    if st.trailers {
      if Crlf(s).Some? {
        var n := Crlf(s).value;
        var st' := st.(buffer := s[n + 2..], trailers := n != 0);
        assert StepOf(st, h) == Next(st');
        SilentIffDrains(st', h);
      } else {
        assert StepOf(st, h) == Wait;
        SilentNeedsLine(s);
      }
    } else {
      var hd := ReadHeader(s);
      if hd.Sized? && hd.size == 0 {
        var st' := st.(buffer := s[hd.next..], trailers := true);
        assert StepOf(st, h) == Next(st');
        SilentIffDrains(st', h);
      } else if hd.Sized? {
        SurplusChunk(st, h, hd.size, hd.next);
      } else {
        SilentNeedsHeader(st, h);
      }
    }
  }

  lemma SilentNeedsLine(s: string)
    requires Crlf(s).None?
    ensures Silent(s, true) <==> s == ""
  {}

  lemma SilentNeedsHeader(st: Stream, h: Handler)
    requires AtHeader(st) && !ReadHeader(st.buffer).Sized?
    ensures (Run(st, h).ok && Run(st, h).st.buffer == "" && Run(st, h).st.trace == st.trace)
            <==> Silent(st.buffer, false)
  {}

  lemma SurplusChunk(st: Stream, h: Handler, size: nat, next: nat)
    requires AcceptsAll(h) && AtHeader(st) && ReadHeader(st.buffer) == Sized(size, next) && size > 0
    ensures (Run(st, h).ok && Run(st, h).st.buffer == "" && Run(st, h).st.trace == st.trace)
            <==> Silent(st.buffer, false)
  {
    hide ReadHeader;
    var st1 := st.(buffer := st.buffer[next..], remaining := size);
    assert StepOf(st, h) == Next(st1);
    assert Run(st, h) == Run(st1, h);
    if StepOf(st1, h).Next? {
      TraceGrows(StepOf(st1, h).st, h);
    }
  }

  /** A reader that sees a whole message and surplus bytes behind it: the message is reported first, and alone
      exactly when the surplus is silent. In particular empty surplus is; any other surplus is either an error
      or delivers data after the final flag. */
  lemma RunOfSurplus(m: Message, surplus: string, h: Handler)
    requires AcceptsAll(h) && ValidMessage(m)
    ensures var r := Run(Extend(FRESH, Render(m) + surplus), h);
            && r.st.finalSent && Events(m) <= r.st.trace
            && ((r.ok && r.st.buffer == "" && r.st.trace == Events(m)) <==> Silent(surplus, false))
  {
    hide Run, ReadHeader, Crlf, Render, ValidMessage, Events;
    var st := FRESH.(buffer := surplus, finalSent := true, trace := Events(m));
    assert "" + (Render(m) + surplus) == Render(m) + surplus && [] + Events(m) == Events(m);
    RunOfMessage(m, surplus, FRESH.(buffer := Render(m) + surplus), h);
    FinalStays(st, h);
    TraceGrows(st, h);
    SilentIffDrains(st, h);
  }

  /** The same for a flush, which takes unread surplus for an error. */
  lemma FlushOfSurplus(m: Message, surplus: string, h: Handler)
    requires AcceptsAll(h) && ValidMessage(m)
    ensures var r := FlushChunked(FRESH.(buffer := Render(m) + surplus), h);
            (r.ok && r.st.trace == Events(m)) <==> Silent(surplus, false)
  {
    hide Run, Render, ValidMessage, Events, Silent;
    RunOfSurplus(m, surplus, h);
    assert "" + (Render(m) + surplus) == Render(m) + surplus;
  }

  /** The k-th segment is the first that brings `n` bytes together. */
  ghost predicate FirstReaches(segments: seq<string>, n: nat, k: nat) {
    && k <= |segments| && n <= |Concat(segments[..k])|
    && forall j :: 0 <= j < k ==> |Concat(segments[..j])| < n
  }

  lemma SplitConcat(segments: seq<string>, k: nat)
    requires k <= |segments|
    ensures Concat(segments) == Concat(segments[..k]) + Concat(segments[k..])
  {
    assert segments == segments[..k] + segments[k..];
    ConcatAppend(segments[..k], segments[k..]);
  }

  /** A message decodes exactly from its last byte on. */
  lemma MessageDecodesAt(m: Message, surplus: string, front: string, back: string)
    requires ValidMessage(m) && Render(m) + surplus == front + back
    ensures Decode(front).ok <==> |Render(m)| <= |front|
    ensures |Render(m)| <= |front| ==> front == Render(m) + front[|Render(m)|..]
  {
    hide Decode, Render, ValidMessage;
    var n := |Render(m)|;
    DecodeOfRender(m, surplus);
    if n <= |front| {
      var s := front + back;
      assert Render(m) == s[..n] == front[..n];
      assert front == front[..n] + front[n..];
      DecodeOfRender(m, front[n..]);
    } else if Decode(front).ok {
      DecodeIgnoresSurplus(front, back);
      assert false;
    }
  }

  lemma MessageIsFirst(m: Message, surplus: string, segments: seq<string>, k: nat)
    requires ValidMessage(m) && Concat(segments) == Render(m) + surplus && FirstReaches(segments, |Render(m)|, k)
    ensures 0 < k <= |segments| && FirstDecodes("", segments, k)
    ensures Concat(segments[..k]) == Render(m) + Concat(segments[..k])[|Render(m)|..]
  {
    hide Decode, Render, ValidMessage, Concat;
    forall j | 0 <= j <= k ensures Decode("" + Concat(segments[..j])).ok <==> |Render(m)| <= |Concat(segments[..j])| {
      SplitConcat(segments, j);
      assert "" + Concat(segments[..j]) == Concat(segments[..j]);
      MessageDecodesAt(m, surplus, Concat(segments[..j]), Concat(segments[j..]));
    }
    SplitConcat(segments, k);
    MessageDecodesAt(m, surplus, Concat(segments[..k]), Concat(segments[k..]));
    assert !Decode("" + Concat(segments[..0])).ok by {
      assert segments[..0] == [];
      ConcatNil();
      EmptyIsIncomplete();
    }
  }

  /** A message and any surplus behind it, cut into segments in any way. The loop reports the message first
      and the final flag is up; it succeeds with that message alone exactly when the surplus that arrived with
      the message's last segment is silent. Later segments are never read. */
  lemma ReceiveOfSurplus(m: Message, surplus: string, segments: seq<string>, k: nat, h: Handler)
    requires AcceptsAll(h) && NonEmpty(segments) && ValidMessage(m)
    requires Concat(segments) == Render(m) + surplus && FirstReaches(segments, |Render(m)|, k)
    ensures var r, seen := Receive(CHUNKED, FRESH, segments, h), Concat(segments[..k])[|Render(m)|..];
            && r.st.finalSent && Events(m) <= r.st.trace
            && ((r.ok && r.st.trace == Events(m)) <==> Silent(seen, false))
            && (r.ok ==> r.st.buffer == "")
  {
    hide Run, Decode, Render, ValidMessage, Concat, FirstReaches, FirstDecodes, Events, Silent, Receive;
    MessageIsFirst(m, surplus, segments, k);
    ReadingStarts(h);
    ReceiveStopsAtMessage("", FRESH, segments, k, h);
    var all := Concat(segments[..k]);
    var seen := all[|Render(m)|..];
    assert "" + all == all;
    RunOfSurplus(m, seen, h);
  }

  /** A complete chunked body, however the socket cuts it, is received with success at its last byte:
      the decoded body is delivered in order, the final flag comes once and last. */
  lemma ChunkedBodyIsReceived(s: string, segments: seq<string>, h: Handler)
    requires AcceptsAll(h) && NonEmpty(segments) && Concat(segments) == s && Complete(s)
    ensures var r := Receive(CHUNKED, FRESH, segments, h);
            && r.ok && r.st.finalSent && r.st.buffer == ""
            && Delivered(r.st.trace) == Decode(s).body
            && FinalExactlyOnce(r.st.trace)
  {
    var m := CompleteIsMessage(s);
    assert Silent("", false);
    hide Run, Decode, Render, ValidMessage, Events, Payload, Silent, Receive, Complete, Delivered, FinalExactlyOnce;
    LastSegmentReaches(segments);
    var n := |segments|;
    assert segments[..n] == segments && s[|s|..] == "" && s + "" == s && Render(m) + "" == Render(m);
    ReceiveOfSurplus(m, "", segments, n, h);
    EventsDeliverPayload(m);
  }

  lemma LastSegmentReaches(segments: seq<string>)
    requires NonEmpty(segments)
    ensures FirstReaches(segments, |Concat(segments)|, |segments|)
  {
    hide Concat;
    assert segments[..|segments|] == segments;
    forall j | 0 <= j < |segments| ensures |Concat(segments[..j])| < |Concat(segments)| {
      SplitConcat(segments, j);
      assert NonEmpty(segments[j..]);
      ConcatOfNonEmpty(segments[j..]);
    }
  }

  // ---- Bodies with a declared length ----

  function LengthFraming(length: nat): Framing { Framing(true, length, false) }

  /** What the loop has done after the bytes `done`, none of them surplus. */
  ghost predicate LengthInvariant(done: string, st: Stream, length: nat) {
    && |done| < length
    && st.buffer == "" && st.delivered == |done| && !st.finalSent
    && Delivered(st.trace) == done
    && forall i :: 0 <= i < |st.trace| ==> !st.trace[i].final
  }

  lemma {:induction false} DeliveredAppend(trace: seq<Event>, e: Event)
    ensures Delivered(trace + [e]) == Delivered(trace) + e.data
  {
    if trace == [] {
      assert [] + [e] == [e] && [e][1..] == [];
    } else {
      assert (trace + [e])[1..] == trace[1..] + [e];
      DeliveredAppend(trace[1..], e);
    }
  }

  lemma FlushOfSegment(done: string, st: Stream, segment: string, length: nat, h: Handler)
    requires AcceptsAll(h) && LengthInvariant(done, st, length) && segment != ""
    ensures var r, all := Flush(LengthFraming(length), Extend(st, segment), h), done + segment;
            if |all| < length then r.ok && LengthInvariant(all, r.st, length)
            else
              && r.st.finalSent && r.ok == (|all| == length)
              && Delivered(r.st.trace) == all[..length] && FinalExactlyOnce(r.st.trace)
  {
    hide Delivered;
    var size := Min(|segment|, length - |done|);
    var e := Event(segment[..size], |done| + size == length);
    assert "" + segment == segment;
    DeliveredAppend(st.trace, e);
    TakeOfBoth(done, segment, size);
  }

  lemma TakeOfBoth(a: string, b: string, k: nat)
    requires k <= |b|
    ensures a + b[..k] == (a + b)[..|a| + k]
    ensures k == |b| ==> b[..k] == b && b[k..] == ""
  {}

  /** The loop from any point where the length has not been reached: the bytes delivered are the first ones of the body, as
      many as have arrived but no more than the length; the loop succeeds exactly when some segment ends on
      the declared length; then, and when a segment runs past it, the final flag is raised once and last. */
  lemma {:induction false} LengthBodyFrom(done: string, st: Stream, segments: seq<string>, length: nat, h: Handler)
    requires AcceptsAll(h) && NonEmpty(segments) && LengthInvariant(done, st, length)
    ensures var r, all := Receive(LengthFraming(length), st, segments, h), done + Concat(segments);
            && Delivered(r.st.trace) == all[..Min(|all|, length)]
            && (r.st.finalSent <==> |all| >= length)
            && (r.st.finalSent ==> FinalExactlyOnce(r.st.trace))
            && (r.ok <==> exists k :: 0 <= k <= |segments| && |done| + |Concat(segments[..k])| == length)
    decreases |segments|
  {
    if segments == [] {
      assert done + Concat(segments) == done && done[..|done|] == done;
      assert forall k :: 0 <= k <= |segments| ==> segments[..k] == [] && |Concat(segments[..k])| == 0;
    } else {
      LengthBodyStep(done, st, segments, length, h);
    }
  }

  lemma {:induction false} LengthBodyStep(done: string, st: Stream, segments: seq<string>, length: nat, h: Handler)
    requires AcceptsAll(h) && NonEmpty(segments) && LengthInvariant(done, st, length) && segments != []
    ensures var r, all := Receive(LengthFraming(length), st, segments, h), done + Concat(segments);
            && Delivered(r.st.trace) == all[..Min(|all|, length)]
            && (r.st.finalSent <==> |all| >= length)
            && (r.st.finalSent ==> FinalExactlyOnce(r.st.trace))
            && (r.ok <==> exists k :: 0 <= k <= |segments| && |done| + |Concat(segments[..k])| == length)
    decreases |segments|, 0
  {
    hide Flush, Delivered, FinalExactlyOnce;
    var first, tail := segments[0], segments[1..];
    var done' := done + first;
    assert first != "";
    FlushOfSegment(done, st, first, length, h);
    RegroupDone(done, first, Concat(tail));
    var r1 := Flush(LengthFraming(length), Extend(st, first), h);
    forall k | 0 < k <= |segments| ensures Concat(segments[..k]) == first + Concat(tail[..k - 1]) {
      ConcatPrefix(segments, k);
    }
    assert segments[..0] == [];
    if |done'| < length {
      LengthBodyFrom(done', r1.st, tail, length, h);
      LengthSplit(segments, |done|, length);
    } else {
      var all := done' + Concat(tail);
      assert all[..length] == done'[..length];
      assert segments[..1] == [first] && Concat([first]) == first by { assert [first][1..] == []; }
    }
  }

  lemma LengthSplit(segments: seq<string>, start: nat, length: nat)
    requires segments != [] && start < length
    ensures (exists k :: 0 <= k <= |segments| && start + |Concat(segments[..k])| == length) <==>
            (exists k :: 0 <= k <= |segments[1..]| && start + |segments[0]| + |Concat(segments[1..][..k])| == length)
  {
    var tail := segments[1..];
    forall k | 0 < k <= |segments| ensures |Concat(segments[..k])| == |segments[0]| + |Concat(tail[..k - 1])| {
      ConcatPrefix(segments, k);
    }
    assert segments[..0] == [];
    if k :| 0 <= k <= |tail| && start + |segments[0]| + |Concat(tail[..k])| == length {
      assert start + |Concat(segments[..k + 1])| == length;
    }
    if k :| 0 <= k <= |segments| && start + |Concat(segments[..k])| == length {
      assert start + |segments[0]| + |Concat(tail[..k - 1])| == length;
    }
  }

  /** A declared length of zero: the delivering loop never runs, so the final flag is not raised before the end
      of the connection, and whatever arrives is left in the buffer without a callback and without an error. */
  lemma {:induction false} ZeroLengthFrom(st: Stream, segments: seq<string>, h: Handler)
    requires AcceptsAll(h) && NonEmpty(segments) && st.delivered == 0 && !st.finalSent
    ensures Receive(LengthFraming(0), st, segments, h)
         == Outcome(true, st.(buffer := st.buffer + Concat(segments), finalSent := true, trace := st.trace + [FINAL]))
    decreases |segments|
  {
    if segments == [] {
      assert st.buffer + "" == st.buffer;
    } else {
      var first, rest := segments[0], Concat(segments[1..]);
      assert first != "";
      ZeroLengthFrom(Extend(st, first), segments[1..], h);
      RegroupDone(st.buffer, first, rest);
    }
  }

  /** Every length and every segmentation: delivered is always the first min(received, length) bytes; the final
      flag is raised exactly when the length is reached, once and last; the loop succeeds exactly when the bytes
      received after some number of segments, possibly none, are as many as declared. */
  lemma LengthBodyIsReceived(segments: seq<string>, length: nat, h: Handler)
    requires AcceptsAll(h) && NonEmpty(segments)
    ensures var r, all := Receive(LengthFraming(length), FRESH, segments, h), Concat(segments);
            && Delivered(r.st.trace) == all[..Min(|all|, length)]
            && (r.st.finalSent <==> |all| >= length)
            && (r.st.finalSent ==> FinalExactlyOnce(r.st.trace))
            && (r.ok <==> exists k :: 0 <= k <= |segments| && |Concat(segments[..k])| == length)
  {
    hide Receive;
    if length == 0 {
      ZeroLengthFrom(FRESH, segments, h);
      assert [] + [FINAL] == [FINAL] && [FINAL][1..] == [];
      assert segments[..0] == [] && |Concat(segments[..0])| == 0;
    } else {
      LengthBodyFrom("", FRESH, segments, length, h);
      assert "" + Concat(segments) == Concat(segments);
      assert forall k :: 0 <= k <= |segments| ==> |""| + |Concat(segments[..k])| == |Concat(segments[..k])|;
    }
  }

  /** The k-th segment is the first after which the declared length has been received. */
  ghost predicate CompletesAt(segments: seq<string>, length: nat, k: nat) {
    && 0 < k <= |segments| && length <= |Concat(segments[..k])|
    && forall j :: 0 < j < k ==> |Concat(segments[..j])| < length
  }

  /** Surplus in the completing segment is an error if and only if the declared length is positive. */
  lemma SurplusIsErrorIffPositive(segments: seq<string>, length: nat, k: nat, h: Handler)
    requires AcceptsAll(h) && NonEmpty(segments) && CompletesAt(segments, length, k)
    ensures Receive(LengthFraming(length), FRESH, segments, h).ok <==> length == 0 || |Concat(segments[..k])| == length
  {
    hide Receive, Concat, Delivered, FinalExactlyOnce;
    LengthBodyIsReceived(segments, length, h);
    assert segments[..0] == [] && |Concat(segments[..0])| == 0 by { ConcatNil(); }
    forall j | k < j <= |segments| ensures length < |Concat(segments[..j])| {
      PrefixesGrow(segments, k, j);
    }
  }

  lemma PrefixesGrow(segments: seq<string>, k: nat, j: nat)
    requires NonEmpty(segments) && k < j <= |segments|
    ensures |Concat(segments[..k])| < |Concat(segments[..j])|
  {
    hide Concat;
    var front := segments[..j];
    assert front[..k] == segments[..k];
    SplitConcat(front, k);
    ConcatOfNonEmpty(front[k..]);
  }

  /** With `Content-Length: 0` the bytes `ab` behind the headers are neither delivered nor refused. */
  lemma ZeroLengthKeepsSurplus(h: Handler)
    requires AcceptsAll(h)
    ensures Receive(LengthFraming(0), FRESH, ["ab"], h)
         == Outcome(true, FRESH.(buffer := "ab", finalSent := true, trace := [FINAL]))
  {
    hide Receive;
    ZeroLengthFrom(FRESH, ["ab"], h);
    assert Concat(["ab"]) == "ab" by { assert ["ab"][1..] == []; }
    assert "" + "ab" == "ab" && [] + [FINAL] == [FINAL];
  }

  // ---- Bodies until the connection is closed ----

  const UNTIL_CLOSE := Framing(false, 0, false)

  /** One callback per segment. */
  function SegmentEvents(segments: seq<string>): seq<Event> {
    if segments == [] then [] else [Event(segments[0], false)] + SegmentEvents(segments[1..])
  }

  lemma {:induction false} CloseBodyFrom(st: Stream, segments: seq<string>, h: Handler)
    requires AcceptsAll(h) && NonEmpty(segments) && st.buffer == "" && !st.finalSent
    ensures Receive(UNTIL_CLOSE, st, segments, h)
         == Outcome(true, st.(finalSent := true, trace := st.trace + (SegmentEvents(segments) + [FINAL])))
    decreases |segments|
  {
    if segments == [] {
      assert [] + [FINAL] == [FINAL];
    } else {
      var e, rest := Event(segments[0], false), SegmentEvents(segments[1..]);
      assert segments[0] != "" && "" + segments[0] == segments[0];
      CloseBodyFrom(st.(trace := st.trace + [e]), segments[1..], h);
      assert (st.trace + [e]) + (rest + [FINAL]) == st.trace + (([e] + rest) + [FINAL]);
    }
  }

  lemma {:induction false} SegmentsAreDelivered(segments: seq<string>)
    ensures Delivered(SegmentEvents(segments)) == Concat(segments)
    ensures forall i :: 0 <= i < |SegmentEvents(segments)| ==> !SegmentEvents(segments)[i].final
  {
    if segments != [] {
      SegmentsAreDelivered(segments[1..]);
      assert SegmentEvents(segments)[1..] == SegmentEvents(segments[1..]);
    }
  }

  /** A body framed by neither length nor chunks: every segmentation succeeds, delivers everything in order and raises
      the final flag once and last. */
  lemma CloseBodyIsReceived(segments: seq<string>, h: Handler)
    requires AcceptsAll(h) && NonEmpty(segments)
    ensures var r := Receive(UNTIL_CLOSE, FRESH, segments, h);
            && r.ok && r.st.finalSent && r.st.buffer == ""
            && Delivered(r.st.trace) == Concat(segments)
            && FinalExactlyOnce(r.st.trace)
  {
    hide Receive, Delivered;
    CloseBodyFrom(FRESH, segments, h);
    SegmentsAreDelivered(segments);
    var events := SegmentEvents(segments);
    assert [] + (events + [FINAL]) == events + [FINAL];
    DeliveredAppend(events, FINAL);
    assert Concat(segments) + "" == Concat(segments);
  }

  // ---- The handler's verdicts ----

  lemma FlushObeys(f: Framing, st: Stream, h: Handler)
    ensures var r := Flush(f, st, h); Obeys(h, st.trace, r.st.trace, r.ok)
  {
    hide Run;
    RunObeys(st, h);
  }

  lemma EofObeys(f: Framing, st: Stream, h: Handler)
    ensures var r := AtEof(f, st, h); Obeys(h, st.trace, r.st.trace, r.ok)
  {
    hide Flush;
    FlushObeys(f, st, h);
    var r := Flush(f, st, h);
    if r.ok {
      OneMore(h, r.st.trace, FINAL);
      ObeysTransitively(h, st.trace, r.st.trace, r.st.trace + [FINAL], h(r.st.trace + [FINAL]));
      ObeysNothing(h, r.st.trace);
    }
  }

  lemma OneMore(h: Handler, trace: seq<Event>, e: Event)
    ensures Obeys(h, trace, trace + [e], h(trace + [e]))
  {}

  /** Every framing, input and handler: the receive loop makes no callback after a refused one, and succeeds only if every
      callback was accepted. */
  lemma {:induction false} ReceiveObeys(f: Framing, st: Stream, segments: seq<string>, h: Handler)
    ensures var r := Receive(f, st, segments, h); Obeys(h, st.trace, r.st.trace, r.ok)
    decreases |segments|
  {
    hide Flush, AtEof, Obeys;
    if segments == [] || segments[0] == "" {
      EofObeys(f, st, h);
    } else {
      var st1 := Extend(st, segments[0]);
      var r := Flush(f, st1, h);
      FlushObeys(f, st1, h);
      if r.ok && !r.st.finalSent {
        ReceiveObeys(f, r.st, segments[1..], h);
        var end := Receive(f, st, segments, h);
        ObeysTransitively(h, st.trace, r.st.trace, end.st.trace, end.ok);
      }
    }
  }

  // ---- The object ----

  /** The receive loop's variables and the handler, as an object. */
  class Receiver {
    const framing: Framing
    const accepts: Handler
    var buffer: string
    var delivered: nat
    var remaining: int
    var trailers: bool
    var finalSent: bool
    var trace: seq<Event>

    constructor (framing: Framing, accepts: Handler)
      ensures this.framing == framing && this.accepts == accepts && View() == FRESH
    {
      this.framing, this.accepts := framing, accepts;
      buffer, delivered, remaining, trailers, finalSent, trace := "", 0, -1, false, false, [];
    }

    ghost function View(): Stream
      reads this
    {
      Stream(buffer, delivered, remaining, trailers, finalSent, trace)
    }

    /** `api_http_stream_invoke_body`. */
    method Invoke(data: string, final: bool) returns (ok: bool)
      modifies this`trace
      ensures trace == old(trace) + [Event(data, final)] && ok == accepts(trace)
    {
      trace := trace + [Event(data, final)];
      ok := accepts(trace);
    }

    /** The trailer branch of the chunk loop. */
    method TrailerRound() returns (wait: bool, ok: bool)
      requires trailers
      modifies this
      ensures wait ==> StepOf(old(View()), accepts) == Wait && View() == old(View())
      ensures !wait ==> StepOf(old(View()), accepts) == if ok then Next(View()) else Fail(View())
    {
      var at := FindCrlf(buffer, 0, |buffer|);
      assert buffer[0..|buffer|] == buffer;
      if at == -1 {
        return true, true;
      }
      buffer := buffer[at + 2..];
      if at == 0 {
        trailers := false;
        if !finalSent {
          var accepted := Invoke("", true);
          if !accepted {
            return false, false;
          }
          finalSent := true;
        }
      }
      return false, true;
    }

    /** The size-line branch of the chunk loop. */
    method HeaderRound() returns (wait: bool, ok: bool)
      requires !trailers && remaining < 0
      modifies this
      ensures wait ==> StepOf(old(View()), accepts) == Wait && View() == old(View())
      ensures !wait ==> StepOf(old(View()), accepts) == if ok then Next(View()) else Fail(View())
    {
      var header := ScanHeader(buffer, 0);
      assert buffer[0..] == buffer;
      match header
      case NoLine => return true, true;
      case BadLine => return false, false;
      case Sized(size, next) =>
        buffer := buffer[next..];
        if size == 0 {
          remaining, trailers := -1, true;
        } else {
          remaining := size;
        }
        return false, true;
    }

    /** The data branch of the chunk loop. */
    method DataRound() returns (wait: bool, ok: bool)
      requires !trailers && remaining >= 0
      modifies this
      ensures wait ==> StepOf(old(View()), accepts) == Wait && View() == old(View())
      ensures !wait ==> StepOf(old(View()), accepts) == if ok then Next(View()) else Fail(View())
    {
      var size: nat := remaining;
      if |buffer| < size + 2 {
        return true, true;
      }
      var accepted := Invoke(buffer[..size], false);
      if !accepted {
        return false, false;
      }
      ghost var before := buffer;
      buffer := buffer[size..];
      assert buffer[0] == before[size] && buffer[1] == before[size + 1];
      if buffer[0] != '\r' || buffer[1] != '\n' {
        return false, false;
      }
      buffer := buffer[2..];
      assert buffer == before[size + 2..];
      remaining := -1;
      return false, true;
    }

    /** `api_http_stream_process_chunked_buffer`. */
    method ProcessChunkedBuffer() returns (ok: bool)
      modifies this
      ensures Outcome(ok, View()) == Run(old(View()), accepts)
    {
      hide StepOf;
      while true
        invariant Run(View(), accepts) == Run(old(View()), accepts)
        decreases |buffer|
      {
        StepShrinks(View(), accepts);
        var wait;
        if trailers {
          wait, ok := TrailerRound();
        } else if remaining < 0 {
          wait, ok := HeaderRound();
        } else {
          wait, ok := DataRound();
        }
        if wait {
          return true;
        }
        if !ok {
          return false;
        }
      }
    }

    /** The declared-length loop of the flush. */
    method FlushDeclaredLength() returns (ok: bool)
      requires buffer != ""
      modifies this
      ensures Outcome(ok, View()) == FlushLength(old(View()), framing.contentLength, accepts)
    {
      ghost var start := View();
      var rounds := 0;
      while |buffer| > 0 && delivered < framing.contentLength
        invariant rounds == 0 ==> View() == start
        invariant rounds > 0 ==> buffer == "" && FlushLength(start, framing.contentLength, accepts) == Outcome(true, View())
        decreases |buffer|
      {
        var size := Min(|buffer|, framing.contentLength - delivered);
        var final := delivered + size == framing.contentLength;
        var accepted := Invoke(buffer[..size], final);
        if !accepted {
          return false;
        }
        buffer := buffer[size..];
        delivered := delivered + size;
        if final {
          finalSent := true;
          break;
        }
        rounds := rounds + 1;
      }
      return !(finalSent && |buffer| > 0);
    }

    /** `api_http_streaming_flush_buffer`. */
    method FlushBuffer() returns (ok: bool)
      modifies this
      ensures Outcome(ok, View()) == Flush(framing, old(View()), accepts)
    {
      hide Run;
      if |buffer| == 0 {
        return true;
      }
      if framing.hasLength {
        ok := FlushDeclaredLength();
        return;
      }
      if framing.chunked {
        ok := ProcessChunkedBuffer();
        if !ok {
          return false;
        }
        return !(finalSent && |buffer| > 0);
      }
      ok := Invoke(buffer, false);
      if !ok {
        return false;
      }
      buffer := "";
    }

    /** The end-of-file branch of the receive loop. */
    method FinishAtEof() returns (ok: bool)
      modifies this
      ensures Outcome(ok, View()) == AtEof(framing, old(View()), accepts)
    {
      hide Flush;
      ok := FlushBuffer();
      if !ok {
        return false;
      }
      if framing.chunked {
        return !(!finalSent || trailers || remaining >= 0 || |buffer| > 0);
      }
      if framing.hasLength {
        if delivered != framing.contentLength {
          return false;
        }
        if !finalSent {
          ok := Invoke("", true);
          if !ok {
            return false;
          }
          finalSent := true;
        }
        return true;
      }
      ok := Invoke("", true);
      if ok {
        finalSent := true;
      }
    }

    /** The streaming receive loop over the segments the socket returns before it is closed. */
    method ReceiveBody(segments: seq<string>) returns (ok: bool)
      modifies this
      ensures Outcome(ok, View()) == Receive(framing, old(View()), segments, accepts)
    {
      hide Flush, AtEof;
      var index := 0;
      assert segments[0..] == segments;
      while index < |segments|
        invariant 0 <= index <= |segments|
        invariant Receive(framing, View(), segments[index..], accepts)
               == Receive(framing, old(View()), segments, accepts)
      {
        if |segments[index]| == 0 {
          break;
        }
        assert segments[index..][1..] == segments[index + 1..];
        buffer := buffer + segments[index];
        ok := FlushBuffer();
        if !ok {
          return false;
        }
        if finalSent {
          return true;
        }
        index := index + 1;
      }
      ok := FinishAtEof();
    }
  }
}
