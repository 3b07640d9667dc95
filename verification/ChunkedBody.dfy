/** Batch side of chunked transfer coding: the completeness check and the whole-body decoder
    (Modules/API/api_http_common.cpp), and the message grammar that they accept. */
module ChunkedBody {
  import opened Prelude
  import opened HttpSyntax

  // ---- The grammar ----

  /** One chunk as it is sent: its size line (size, optional extensions) and its data. */
  datatype Chunk = Chunk(line: string, data: string)

  /** A chunked message: data chunks, the size line of the last chunk, trailer lines. */
  datatype Message = Message(chunks: seq<Chunk>, lastLine: string, trailers: seq<string>)

  ghost predicate SizeLine(line: string, size: nat) {
    NoCrlf(line) && ParseHex(line) == Some(size)
  }

  ghost predicate ValidChunk(c: Chunk) { c.data != "" && SizeLine(c.line, |c.data|) }

  ghost predicate ValidTrailer(t: string) { t != "" && NoCrlf(t) }

  ghost predicate ValidMessage(m: Message) {
    && (forall i :: 0 <= i < |m.chunks| ==> ValidChunk(m.chunks[i]))
    && SizeLine(m.lastLine, 0)
    && forall i :: 0 <= i < |m.trailers| ==> ValidTrailer(m.trailers[i])
  }

  function RenderTrailers(ts: seq<string>): string {
    if ts == [] then CRLF else ts[0] + CRLF + RenderTrailers(ts[1..])
  }

  function Render(m: Message): string
    decreases |m.chunks|
  {
    if m.chunks == [] then m.lastLine + CRLF + RenderTrailers(m.trailers)
    else m.chunks[0].line + CRLF + m.chunks[0].data + CRLF + Render(m.(chunks := m.chunks[1..]))
  }

  function Payload(m: Message): string
    decreases |m.chunks|
  {
    if m.chunks == [] then "" else m.chunks[0].data + Payload(m.(chunks := m.chunks[1..]))
  }

  // ---- The decoder as a function of the input suffix ----

  datatype Decoded = Decoded(ok: bool, body: string, consumed: nat)

  /** What the front of the input says about the next chunk. */
  datatype Header = NoLine | BadLine | Sized(size: nat, next: nat)

  /** The size line at the front of `s`; `next` is the position after its CRLF. */
  function ReadHeader(s: string): (h: Header)
    ensures h.Sized? ==> 2 <= h.next <= |s| && h.size <= INT64_MAX
  {
    match Crlf(s)
    case None => NoLine
    case Some(n) =>
      match ParseHex(s[..n])
      case None => BadLine
      case Some(size) => Sized(size, n + 2)
  }

  /** Data of the given size, followed by CRLF, stands at the front of `s`. */
  predicate DataEnds(s: string, size: nat) {
    size + 2 <= |s| && s[size] == '\r' && s[size + 1] == '\n'
  }

  /** Bytes up to and including the empty line that ends the trailer section. */
  function TrailerLength(s: string): (r: Option<nat>)
    ensures r.Some? ==> 2 <= r.value <= |s|
    decreases |s|
  {
    match Crlf(s)
    case None => None
    case Some(n) =>
      if n == 0 then Some(2)
      else
        match TrailerLength(s[n + 2..])
        case None => None
        case Some(k) => Some(n + 2 + k)
  }

  /** Verdict, decoded bytes (also the partial ones of a failed decode) and consumed length. */
  function Decode(s: string): (r: Decoded)
    ensures r.consumed <= |s| && (!r.ok ==> r.consumed == 0)
    decreases |s|
  {
    var h := ReadHeader(s);
    if !h.Sized? then Decoded(false, "", 0)
    else
      var rest := s[h.next..];
      if h.size == 0 then
        match TrailerLength(rest)
        case None => Decoded(false, "", 0)
        case Some(k) => Decoded(true, "", h.next + k)
      else if h.size > |rest| then Decoded(false, "", 0)
      else if !DataEnds(rest, h.size) then Decoded(false, rest[..h.size], 0)
      else
        var tail := Decode(rest[h.size + 2..]);
        Decoded(tail.ok, rest[..h.size] + tail.body,
                if tail.ok then h.next + h.size + 2 + tail.consumed else 0)
  }

  lemma HeaderOfLine(line: string, size: nat, rest: string)
    requires SizeLine(line, size)
    ensures ReadHeader(line + CRLF + rest) == Sized(size, |line| + 2)
    ensures (line + CRLF + rest)[|line| + 2..] == rest
  {
    CrlfOfLine(line, rest);
    assert (line + CRLF + rest)[..|line|] == line;
  }

  lemma HeaderExtends(s: string, more: string)
    requires !ReadHeader(s).NoLine?
    ensures ReadHeader(s + more) == ReadHeader(s)
  {
    CrlfExtends(s, more);
    var n := Crlf(s).value;
    assert (s + more)[..n] == s[..n];
  }

  lemma LineOfHeader(s: string)
    requires ReadHeader(s).Sized?
    ensures var h := ReadHeader(s);
            && SizeLine(s[..h.next - 2], h.size)
            && s == s[..h.next - 2] + CRLF + s[h.next..]
  {
    LineBeforeCrlf(s);
  }

  // ---- The decoder accepts exactly the grammar ----

  lemma DropLine(line: string, rest: string)
    ensures (line + CRLF + rest)[|line| + 2..] == rest
  {}

  lemma {:induction false} TrailerLengthNext(s: string, n: nat)
    requires Crlf(s) == Some(n) && n > 0
    ensures var k := TrailerLength(s[n + 2..]); TrailerLength(s) == if k.Some? then Some(n + 2 + k.value) else None
  {
    hide Crlf;
  }

  /** A non-empty trailer line in front adds its length. */
  lemma {:induction false} TrailerLengthCons(line: string, tail: string)
    requires ValidTrailer(line)
    ensures var k := TrailerLength(tail);
            TrailerLength(line + CRLF + tail) == if k.Some? then Some(|line| + 2 + k.value) else None
  {
    hide Crlf, TrailerLength, NoCrlf;
    var s := line + CRLF + tail;
    CrlfOfLine(line, tail);
    DropLine(line, tail);
    TrailerLengthNext(s, |line|);
  }

  lemma TrailerLengthNil(rest: string)
    ensures TrailerLength(CRLF + rest) == Some(2)
  {
    CrlfOfLine("", rest);
    assert "" + CRLF + rest == CRLF + rest;
  }

  lemma {:induction false} TrailersDecode(ts: seq<string>, rest: string)
    requires forall i :: 0 <= i < |ts| ==> ValidTrailer(ts[i])
    ensures TrailerLength(RenderTrailers(ts) + rest) == Some(|RenderTrailers(ts)|)
  {
    hide TrailerLength, ValidTrailer;
    if ts == [] {
      TrailerLengthNil(rest);
    } else {
      var tail := RenderTrailers(ts[1..]);
      assert ValidTrailer(ts[0]);
      TrailersDecode(ts[1..], rest);
      TrailerLengthCons(ts[0], tail + rest);
      RegroupLast(ts[0], tail, rest);
    }
  }

  lemma RegroupLast(line: string, trailers: string, rest: string)
    ensures (line + CRLF + trailers) + rest == line + CRLF + (trailers + rest)
  {}

  lemma RegroupChunk(line: string, data: string, tail: string, rest: string)
    ensures (line + CRLF + data + CRLF + tail) + rest == line + CRLF + (data + CRLF + (tail + rest))
  {}

  lemma TakeChunk(line: string, data: string, tail: string, k: nat)
    requires k <= |tail|
    ensures (line + CRLF + (data + CRLF + tail))[..|line| + 2 + |data| + 2 + k]
         == line + CRLF + data + CRLF + tail[..k]
  {}

  lemma TakeLast(line: string, rest: string, k: nat)
    requires k <= |rest|
    ensures (line + CRLF + rest)[..|line| + 2 + k] == line + CRLF + rest[..k]
  {}

  lemma RegroupSurplus(s: string, k: nat, more: string)
    requires k <= |s|
    ensures s + more == s[..k] + (s[k..] + more)
  {}

  lemma DecodeLast(line: string, rest: string, k: nat)
    requires SizeLine(line, 0) && TrailerLength(rest) == Some(k)
    ensures Decode(line + CRLF + rest) == Decoded(true, "", |line| + 2 + k)
  {
    HeaderOfLine(line, 0, rest);
  }

  lemma DecodeChunk(c: Chunk, tail: string)
    requires ValidChunk(c)
    ensures var d := Decode(tail);
            Decode(c.line + CRLF + (c.data + CRLF + tail)) ==
            Decoded(d.ok, c.data + d.body, if d.ok then |c.line| + 2 + |c.data| + 2 + d.consumed else 0)
  {
    var after := c.data + CRLF + tail;
    HeaderOfLine(c.line, |c.data|, after);
    assert after[..|c.data|] == c.data && after[|c.data| + 2..] == tail;
    assert DataEnds(after, |c.data|);
  }

  /** Every message of the grammar decodes to its payload and its exact length, whatever follows it. */
  lemma {:induction false} DecodeOfRender(m: Message, rest: string)
    requires ValidMessage(m)
    ensures Decode(Render(m) + rest) == Decoded(true, Payload(m), |Render(m)|)
    decreases |m.chunks|
  {
    if m.chunks == [] {
      var tail := RenderTrailers(m.trailers) + rest;
      TrailersDecode(m.trailers, rest);
      DecodeLast(m.lastLine, tail, |RenderTrailers(m.trailers)|);
      RegroupLast(m.lastLine, RenderTrailers(m.trailers), rest);
    } else {
      var c, m' := m.chunks[0], m.(chunks := m.chunks[1..]);
      assert ValidChunk(c);
      DecodeOfRender(m', rest);
      DecodeChunk(c, Render(m') + rest);
      RegroupChunk(c.line, c.data, Render(m'), rest);
    }
  }

  /** The first line of a trailer section, and where the others start. */
  lemma TrailerSplit(s: string)
    requires TrailerLength(s).Some?
    ensures Crlf(s).Some?
    ensures var n := Crlf(s).value;
            && s == s[..n] + CRLF + s[n + 2..] && NoCrlf(s[..n])
            && if n == 0 then TrailerLength(s) == Some(2)
               else TrailerLength(s[n + 2..]).Some? && TrailerLength(s).value == n + 2 + TrailerLength(s[n + 2..]).value
  {
    hide Crlf;
    LineBeforeCrlf(s);
  }

  lemma {:induction false} TrailersParse(s: string) returns (ts: seq<string>)
    requires TrailerLength(s).Some?
    ensures forall i :: 0 <= i < |ts| ==> ValidTrailer(ts[i])
    ensures s[..TrailerLength(s).value] == RenderTrailers(ts)
    decreases |s|
  {
    hide TrailerLength, Crlf, NoCrlf;
    TrailerSplit(s);
    var n := Crlf(s).value;
    var line, rest := s[..n], s[n + 2..];
    if n == 0 {
      ts := [];
      assert s[..2] == CRLF;
    } else {
      var tail := TrailersParse(rest);
      ts := [line] + tail;
      assert ts[1..] == tail;
      TakeLast(line, rest, TrailerLength(rest).value);
    }
  }

  /** One unfolding of an accepting decode. */
  lemma AcceptedStep(s: string)
    requires Decode(s).ok
    ensures ReadHeader(s).Sized?
    ensures var h := ReadHeader(s);
            var rest := s[h.next..];
            if h.size == 0 then
              TrailerLength(rest).Some? && Decode(s) == Decoded(true, "", h.next + TrailerLength(rest).value)
            else
              && DataEnds(rest, h.size)
              && var tail := Decode(rest[h.size + 2..]);
              && tail.ok
              && Decode(s) == Decoded(true, rest[..h.size] + tail.body, h.next + h.size + 2 + tail.consumed)
  {
    hide ReadHeader, TrailerLength;
  }

  lemma RejectedStep(s: string)
    requires !Decode(s).ok
    ensures var h := ReadHeader(s);
            h.Sized? ==>
              && var rest := s[h.next..];
              && (h.size == 0 ==> TrailerLength(rest).None?)
              && (h.size > 0 && DataEnds(rest, h.size) ==> !Decode(rest[h.size + 2..]).ok)
  {
    hide ReadHeader, TrailerLength;
  }

  lemma SplitData(rest: string, size: nat)
    requires DataEnds(rest, size)
    ensures rest == rest[..size] + CRLF + rest[size + 2..]
  {
    assert rest[size..size + 2] == CRLF;
  }

  lemma TakeOfAccepted(s: string) returns (line: string, data: string, tail: string)
    requires Decode(s).ok && ReadHeader(s).size > 0
    ensures ValidChunk(Chunk(line, data)) && s == line + CRLF + (data + CRLF + tail)
    ensures |tail| < |s|
    ensures Decode(tail).ok && Decode(s).body == data + Decode(tail).body
    ensures Decode(s).consumed == |line| + 2 + |data| + 2 + Decode(tail).consumed
  {
    hide Decode, ReadHeader;
    AcceptedStep(s);
    LineOfHeader(s);
    var h := ReadHeader(s);
    var rest := s[h.next..];
    line, data, tail := s[..h.next - 2], rest[..h.size], rest[h.size + 2..];
    SplitData(rest, h.size);
  }

  /** Conversely an accepted input starts with a message of the grammar, the one that was decoded. */
  lemma {:induction false} ParseOfDecode(s: string) returns (m: Message)
    requires Decode(s).ok
    ensures ValidMessage(m)
    ensures s[..Decode(s).consumed] == Render(m)
    ensures Decode(s).body == Payload(m)
    decreases |s|
  {
    hide Decode, ReadHeader, SizeLine;
    AcceptedStep(s);
    var h := ReadHeader(s);
    if h.size == 0 {
      LineOfHeader(s);
      var line, rest := s[..h.next - 2], s[h.next..];
      var ts := TrailersParse(rest);
      m := Message([], line, ts);
      var k := TrailerLength(rest).value;
      TakeLast(line, rest, k);
    } else {
      var line, data, tail := TakeOfAccepted(s);
      var m' := ParseOfDecode(tail);
      m := PrependChunk(Chunk(line, data), m');
      TakeChunk(line, data, tail, Decode(tail).consumed);
    }
  }

  lemma PrependChunk(c: Chunk, m': Message) returns (m: Message)
    requires ValidMessage(m') && ValidChunk(c)
    ensures ValidMessage(m)
    ensures Render(m) == c.line + CRLF + c.data + CRLF + Render(m')
    ensures Payload(m) == c.data + Payload(m')
  {
    m := m'.(chunks := [c] + m'.chunks);
    assert m.(chunks := m.chunks[1..]) == m';
  }

  /** The accepted language, exactly: some message of the grammar stands at the front of the input. */
  lemma DecodeAcceptsExactly(s: string)
    ensures Decode(s).ok <==> exists m, rest :: ValidMessage(m) && s == Render(m) + rest
  {
    hide Decode, ValidMessage, Render;
    if Decode(s).ok {
      var m := ParseOfDecode(s);
      var k := Decode(s).consumed;
      assert s == s[..k] + s[k..];
    }
    forall m, rest | ValidMessage(m) && s == Render(m) + rest ensures Decode(s).ok {
      DecodeOfRender(m, rest);
    }
  }

  /** The frame is self-delimiting: two messages at the front of one input have the same bytes and
      carry the same payload. */
  lemma FramingIsUnambiguous(m1: Message, rest1: string, m2: Message, rest2: string)
    requires ValidMessage(m1) && ValidMessage(m2)
    requires Render(m1) + rest1 == Render(m2) + rest2
    ensures Render(m1) == Render(m2) && rest1 == rest2 && Payload(m1) == Payload(m2)
  {
    DecodeOfRender(m1, rest1);
    DecodeOfRender(m2, rest2);
    var s := Render(m1) + rest1;
    assert Render(m1) == s[..|Render(m1)|] == Render(m2);
    assert rest1 == s[|Render(m1)|..] == rest2;
  }

  /** Bytes after an accepted body change neither the decoded body nor the consumed length. */
  lemma DecodeIgnoresSurplus(s: string, more: string)
    requires Decode(s).ok
    ensures Decode(s + more) == Decode(s)
  {
    var m := ParseOfDecode(s);
    var k := Decode(s).consumed;
    RegroupSurplus(s, k, more);
    DecodeOfRender(m, s[k..] + more);
  }

  /** No input is accepted earlier than its last byte and again later: acceptance is prefix-free. */
  lemma AcceptedBodiesArePrefixFree(s: string, more: string)
    requires Decode(s).ok && Decode(s).consumed == |s|
    requires Decode(s + more).ok && Decode(s + more).consumed == |s + more|
    ensures more == ""
  {
    DecodeIgnoresSurplus(s, more);
  }

  // ---- What a failed decode leaves ----

  function RenderChunks(cs: seq<Chunk>): string {
    if cs == [] then "" else cs[0].line + CRLF + (cs[0].data + CRLF) + RenderChunks(cs[1..])
  }

  function DataOf(cs: seq<Chunk>): string { if cs == [] then "" else cs[0].data + DataOf(cs[1..]) }

  /** The data of a chunk that is all there but not ended by CRLF. */
  function Unended(rest: string): string {
    var h := ReadHeader(rest);
    if h.Sized? && 0 < h.size <= |rest[h.next..]| && !DataEnds(rest[h.next..], h.size) then rest[h.next..][..h.size] else ""
  }

  predicate WholeChunkInFront(rest: string) {
    var h := ReadHeader(rest);
    h.Sized? && h.size > 0 && DataEnds(rest[h.next..], h.size)
  }

  /** A failed decode returns the data of all whole chunks in front, and that of one more whose end is wrong. */
  lemma {:induction false} FailedDecodeKeepsChunks(s: string) returns (cs: seq<Chunk>, rest: string)
    requires !Decode(s).ok
    ensures (forall i :: 0 <= i < |cs| ==> ValidChunk(cs[i])) && s == RenderChunks(cs) + rest && !WholeChunkInFront(rest)
    ensures Decode(s).body == DataOf(cs) + Unended(rest)
    decreases |s|
  {
    hide ReadHeader, TrailerLength, SizeLine, DataEnds;
    if WholeChunkInFront(s) {
      var h := ReadHeader(s);
      hide Decode;
      DataIsThere(s[h.next..], h.size);
      DecodeNext(s, h);
      LineOfHeader(s);
      var line, data, tail := s[..h.next - 2], s[h.next..][..h.size], s[h.next..][h.size + 2..];
      SplitData(s[h.next..], h.size);
      var cs', rest' := FailedDecodeKeepsChunks(tail);
      cs, rest := [Chunk(line, data)] + cs', rest';
      assert cs[1..] == cs';
      assert ValidChunk(cs[0]);
      RegroupFailed(line, data, RenderChunks(cs'), rest);
      RegroupDone(data, DataOf(cs'), Unended(rest));
    } else {
      cs, rest := [], s;
      assert "" + s == s;
      UnendedBody(s);
    }
  }

  lemma DataIsThere(rest: string, size: nat)
    requires DataEnds(rest, size)
    ensures size + 2 <= |rest|
  {}

  lemma RegroupFailed(line: string, data: string, chunks: string, rest: string)
    ensures line + CRLF + (data + CRLF + (chunks + rest)) == (line + CRLF + (data + CRLF) + chunks) + rest
  {}

  lemma UnendedBody(s: string)
    requires !Decode(s).ok && !WholeChunkInFront(s)
    ensures Decode(s).body == "" + Unended(s)
  {
    hide ReadHeader, TrailerLength;
    assert "" + Unended(s) == Unended(s);
  }

  // ---- The methods ----

  /** The trailer section read from `offset` ends where the one read from `start` ends. */
  ghost predicate SameTrailers(body: string, start: nat, offset: nat)
    requires start <= offset <= |body|
  {
    var whole, rest := TrailerLength(body[start..]), TrailerLength(body[offset..]);
    (whole.Some? <==> rest.Some?) && (whole.Some? ==> start + whole.value == offset + rest.value)
  }

  /** One line of the trailer section at `offset`. */
  lemma TrailerLine(body: string, offset: nat)
    requires offset <= |body| && Crlf(body[offset..]).Some?
    ensures var n := Crlf(body[offset..]).value;
            && offset + n + 2 <= |body|
            && (n == 0 ==> TrailerLength(body[offset..]) == Some(2))
            && (n != 0 ==> SameTrailers(body, offset, offset + n + 2))
  {
    hide Crlf;
    var n := Crlf(body[offset..]).value;
    assert body[offset..][n + 2..] == body[offset + n + 2..];
  }

  lemma NoTrailerLine(s: string)
    requires Crlf(s).None?
    ensures TrailerLength(s).None?
  {
    hide Crlf;
  }

  /** The trailer loop shared by both scanners, from `start` to the end of the body. */
  method SkipTrailers(body: string, start: nat) returns (ok: bool, end: nat)
    requires start <= |body|
    ensures ok <==> TrailerLength(body[start..]).Some?
    ensures ok ==> end == start + TrailerLength(body[start..]).value
    ensures !ok ==> end == 0
  {
    hide Crlf, TrailerLength;
    var offset := start;
    while true
      invariant start <= offset <= |body|
      invariant SameTrailers(body, start, offset)
      decreases |body| - offset
    {
      var at := FindCrlf(body, offset, |body|);
      assert body[offset..|body|] == body[offset..];
      if at == -1 {
        NoTrailerLine(body[offset..]);
        return false, 0;
      }
      var length := at - offset;
      TrailerLine(body, offset);
      offset := offset + length + 2;
      if length == 0 {
        return true, offset;
      }
    }
  }

  /** The size line at `offset`, as both scanners read it: first the line end, then the number. */
  method ScanHeader(body: string, offset: nat) returns (h: Header)
    requires offset <= |body|
    ensures h == ReadHeader(body[offset..])
  {
    ghost var s := body[offset..];
    var lineEnd := FindCrlf(body, offset, |body|);
    assert body[offset..|body|] == s;
    if lineEnd == -1 {
      return NoLine;
    }
    var n := lineEnd - offset;
    var parsed, size := ScanHex(body, offset, lineEnd);
    assert body[offset..lineEnd] == s[..n];
    return if parsed then Sized(size, n + 2) else BadLine;
  }

  /** What remains to be decoded at `offset` for the whole decode to be `total`. */
  ghost predicate Remaining(total: Decoded, body: string, offset: nat, done: string)
    requires offset <= |body|
  {
    var d := Decode(body[offset..]);
    total == Decoded(d.ok, done + d.body, if d.ok then offset + d.consumed else 0)
  }

  /** No readable size line at `offset`: the end of the body, a line without end or a bad number. */
  lemma RemainingFails(total: Decoded, body: string, offset: nat, done: string)
    requires offset <= |body| && Remaining(total, body, offset, done)
    requires offset == |body| || !ReadHeader(body[offset..]).Sized?
    ensures total == Decoded(false, done, 0)
  {
    assert done + "" == done;
  }

  lemma RemainingLast(total: Decoded, body: string, offset: nat, done: string, h: Header)
    requires offset <= |body| && Remaining(total, body, offset, done)
    requires h == ReadHeader(body[offset..]) && h.Sized? && h.size == 0
    ensures var k := TrailerLength(body[offset + h.next..]);
            total == if k.Some? then Decoded(true, done, offset + h.next + k.value) else Decoded(false, done, 0)
  {
    assert body[offset..][h.next..] == body[offset + h.next..];
    assert done + "" == done;
  }

  lemma RemainingShort(total: Decoded, body: string, offset: nat, done: string, h: Header)
    requires offset <= |body| && Remaining(total, body, offset, done)
    requires h == ReadHeader(body[offset..]) && h.Sized? && h.size > 0
    requires h.size > |body| - (offset + h.next)
    ensures total == Decoded(false, done, 0)
  {
    hide ReadHeader;
    assert done + "" == done;
  }

  lemma RemainingUnended(total: Decoded, body: string, offset: nat, done: string, h: Header)
    requires offset <= |body| && Remaining(total, body, offset, done)
    requires h == ReadHeader(body[offset..]) && h.Sized? && h.size > 0
    requires h.size <= |body| - (offset + h.next) && !DataEnds(body[offset + h.next..], h.size)
    ensures total == Decoded(false, done + body[offset + h.next..offset + h.next + h.size], 0)
  {
    var start := offset + h.next;
    assert body[offset..][h.next..] == body[start..];
    assert body[start..][..h.size] == body[start..start + h.size];
  }

  lemma RegroupDone(done: string, data: string, tail: string)
    ensures done + (data + tail) == (done + data) + tail
  {}

  /** One unfolding of the decoder at a complete chunk. */
  lemma DecodeNext(s: string, h: Header)
    requires h == ReadHeader(s) && h.Sized? && h.size > 0 && DataEnds(s[h.next..], h.size)
    ensures var rest := s[h.next..];
            var tail := Decode(rest[h.size + 2..]);
            Decode(s) == Decoded(tail.ok, rest[..h.size] + tail.body,
                                 if tail.ok then h.next + h.size + 2 + tail.consumed else 0)
  {
    hide ReadHeader, TrailerLength;
  }

  lemma ChunkSlices(body: string, offset: nat, next: nat, size: nat)
    requires offset + next + size + 2 <= |body|
    ensures var rest := body[offset..][next..];
            && rest == body[offset + next..]
            && rest[..size] == body[offset + next..offset + next + size]
            && rest[size + 2..] == body[offset + next + size + 2..]
  {}

  lemma RemainingNext(total: Decoded, body: string, offset: nat, done: string, h: Header)
    requires offset <= |body| && Remaining(total, body, offset, done)
    requires h == ReadHeader(body[offset..]) && h.Sized? && h.size > 0
    requires h.size <= |body| - (offset + h.next) && DataEnds(body[offset + h.next..], h.size)
    ensures Remaining(total, body, offset + h.next + h.size + 2,
                      done + body[offset + h.next..offset + h.next + h.size])
  {
    hide ReadHeader, Decode;
    var start := offset + h.next;
    var data, tail := body[start..start + h.size], Decode(body[start + h.size + 2..]);
    ChunkSlices(body, offset, h.next, h.size);
    DecodeNext(body[offset..], h);
    RegroupDone(done, data, tail.body);
  }

  /** The part of the completeness loop after a non-zero size line: step over data and CRLF. */
  method SkipData(body: string, start: nat, h: Header, ghost total: Decoded, ghost done: string)
    returns (ok: bool, next: nat)
    requires start <= |body| && Remaining(total, body, start, done)
    requires h == ReadHeader(body[start..]) && h.Sized? && h.size > 0
    ensures !ok ==> !total.ok
    ensures ok ==> start + h.next + h.size + 2 == next <= |body|
    ensures ok ==> Remaining(total, body, next, done + body[start + h.next..start + h.next + h.size])
  {
    hide Decode, ReadHeader;
    var offset := start + h.next;
    next := 0;
    if h.size > |body| - offset {
      RemainingShort(total, body, start, done, h);
      return false, 0;
    }
    offset := offset + h.size;
    if |body| - offset < 2 {
      RemainingUnended(total, body, start, done, h);
      return false, 0;
    }
    if body[offset] != '\r' || body[offset + 1] != '\n' {
      RemainingUnended(total, body, start, done, h);
      return false, 0;
    }
    RemainingNext(total, body, start, done, h);
    return true, offset + 2;
  }

  /** `api_http_chunked_body_complete`: the decoder's verdict and consumed length, without the data. */
  method ChunkedBodyComplete(body: string) returns (ok: bool, consumed: nat)
    ensures ok == Decode(body).ok
    ensures consumed == Decode(body).consumed
  {
    hide Decode, ReadHeader, TrailerLength, Remaining;
    var offset := 0;
    ghost var done := "";
    ghost var total := Decode(body);
    RemainingStart(body);
    while offset < |body|
      invariant offset <= |body|
      invariant Remaining(total, body, offset, done)
    {
      var h := ScanHeader(body, offset);
      if !h.Sized? {
        RemainingFails(total, body, offset, done);
        return false, 0;
      }
      if h.size == 0 {
        RemainingLast(total, body, offset, done, h);
        ok, consumed := SkipTrailers(body, offset + h.next);
        return;
      }
      ghost var data := offset + h.next;
      var more, next := SkipData(body, offset, h, total, done);
      if !more {
        return false, 0;
      }
      done := done + body[data..data + h.size];
      offset := next;
    }
    RemainingFails(total, body, offset, done);
    return false, 0;
  }

  lemma RemainingStart(body: string)
    ensures Remaining(Decode(body), body, 0, "")
  {
    assert body[0..] == body;
    assert "" + Decode(body).body == Decode(body).body;
  }

  /** The part of the decoding loop after a non-zero size line: copy the data, step over CRLF. */
  method TakeData(body: string, start: nat, h: Header, before: string, ghost total: Decoded)
    returns (ok: bool, decoded: string, next: nat)
    requires start <= |body| && Remaining(total, body, start, before)
    requires h == ReadHeader(body[start..]) && h.Sized? && h.size > 0
    ensures !ok ==> total == Decoded(false, decoded, 0)
    ensures ok ==> start < next <= |body| && Remaining(total, body, next, decoded)
  {
    hide Decode, ReadHeader;
    var offset := start + h.next;
    if h.size > |body| - offset {
      RemainingShort(total, body, start, before, h);
      return false, before, 0;
    }
    decoded := CopyBytes(body, offset, h.size, before);
    offset := offset + h.size;
    if |body| - offset < 2 {
      RemainingUnended(total, body, start, before, h);
      return false, decoded, 0;
    }
    if body[offset] != '\r' || body[offset + 1] != '\n' {
      RemainingUnended(total, body, start, before, h);
      return false, decoded, 0;
    }
    RemainingNext(total, body, start, before, h);
    return true, decoded, offset + 2;
  }

  /** `api_http_decode_chunked`, byte-by-byte copy included. */
  method DecodeChunked(body: string) returns (ok: bool, decoded: string, consumed: nat)
    ensures Decoded(ok, decoded, consumed) == Decode(body)
  {
    hide Decode, ReadHeader, TrailerLength, Remaining;
    var offset := 0;
    decoded := "";
    ghost var total := Decode(body);
    RemainingStart(body);
    while offset < |body|
      invariant offset <= |body|
      invariant Remaining(total, body, offset, decoded)
    {
      var h := ScanHeader(body, offset);
      if !h.Sized? {
        RemainingFails(total, body, offset, decoded);
        return false, decoded, 0;
      }
      if h.size == 0 {
        RemainingLast(total, body, offset, decoded, h);
        ok, consumed := SkipTrailers(body, offset + h.next);
        return;
      }
      ok, decoded, offset := TakeData(body, offset, h, decoded, total);
      if !ok {
        return false, decoded, 0;
      }
    }
    RemainingFails(total, body, offset, decoded);
    return false, decoded, 0;
  }

  /** The copy loop of the decoder. */
  method CopyBytes(body: string, offset: nat, size: nat, before: string) returns (decoded: string)
    requires offset + size <= |body|
    ensures decoded == before + body[offset..offset + size]
  {
    decoded := before;
    var index := 0;
    while index < size
      invariant 0 <= index <= size
      invariant decoded == before + body[offset..offset + index]
    {
      decoded := decoded + [body[offset + index]];
      index := index + 1;
    }
  }
}
