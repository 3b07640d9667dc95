/** Measuring and streaming of JSON request bodies (Modules/API/api_http_common.cpp). */
module JsonPayload {
  import opened Prelude

  /** None stands for a null pointer, which is read as the empty text. */
  datatype Item = Item(key: Option<string>, isBig: bool, big: Option<string>, value: Option<string>)

  datatype Group = Group(name: Option<string>, items: seq<Item>)

  /** The linked list of groups; the null pointer is the empty list. */
  type Payload = seq<Group>

  function TextOf(t: Option<string>): string { if t.Some? then t.value else "" }

  /** A big number is written bare, any other value in quotes. */
  predicate IsBigNumber(i: Item) { i.isBig && i.big.Some? }

  function ValueText(i: Item): string { if IsBigNumber(i) then i.big.value else TextOf(i.value) }

  function Quote(i: Item): string { if IsBigNumber(i) then "" else "\"" }

  function ItemEnd(last: bool): string { if last then "\n" else ",\n" }

  function GroupEnd(last: bool): string { if last then "  }\n" else "  },\n" }

  function RenderItem(i: Item, last: bool): string {
    "    \"" + TextOf(i.key) + "\": " + Quote(i) + ValueText(i) + Quote(i) + ItemEnd(last)
  }

  /** The items of a group from position k on. */
  function RenderItems(items: seq<Item>, k: nat): string
    requires k <= |items|
    decreases |items| - k
  {
    if k == |items| then "" else RenderItem(items[k], k + 1 == |items|) + RenderItems(items, k + 1)
  }

  function RenderGroup(g: Group, last: bool): string {
    "  \"" + TextOf(g.name) + "\": {\n" + RenderItems(g.items, 0) + GroupEnd(last)
  }

  function RenderGroups(p: Payload, k: nat): string
    requires k <= |p|
    decreases |p| - k
  {
    if k == |p| then "" else RenderGroup(p[k], k + 1 == |p|) + RenderGroups(p, k + 1)
  }

  /** The body as the server receives it. */
  function Render(p: Payload): string {
    if p == [] then "" else "{\n" + RenderGroups(p, 0) + "}\n"
  }

  // ---- Measuring ----

  /** `api_http_measure_add`: overflow of the 64-bit size is detected before the addition. */
  method MeasureAdd(total: nat, increment: nat) returns (ok: bool, total': nat)
    requires total <= SIZE_MAX
    ensures ok <==> total + increment <= SIZE_MAX
    ensures total' == if ok then total + increment else total
  {
    if SIZE_MAX - total < increment {
      return false, total;
    }
    return true, total + increment;
  }

  /** Room for `size` more bytes: exactly then the measuring of a part succeeds, and adds its size. */
  ghost predicate Measured(total: nat, size: nat, ok: bool, total': nat) {
    && (ok <==> total + size <= SIZE_MAX)
    && (ok ==> total' == total + size)
  }

  method MeasureItem(total: nat, i: Item, last: bool) returns (ok: bool, total': nat)
    requires total <= SIZE_MAX
    ensures Measured(total, |RenderItem(i, last)|, ok, total')
  {
    ok, total' := MeasureAdd(total, 5);
    if !ok { return; }
    ok, total' := MeasureAdd(total', |TextOf(i.key)|);
    if !ok { return; }
    ok, total' := MeasureAdd(total', 3);
    if !ok { return; }
    if !IsBigNumber(i) {
      ok, total' := MeasureAdd(total', 1);
      if !ok { return; }
    }
    ok, total' := MeasureAdd(total', |ValueText(i)|);
    if !ok { return; }
    if !IsBigNumber(i) {
      ok, total' := MeasureAdd(total', 1);
      if !ok { return; }
    }
    if !last {
      ok, total' := MeasureAdd(total', 2);
    } else {
      ok, total' := MeasureAdd(total', 1);
    }
  }

  method MeasureItems(total: nat, items: seq<Item>) returns (ok: bool, total': nat)
    requires total <= SIZE_MAX
    ensures Measured(total, |RenderItems(items, 0)|, ok, total')
  {
    total' := total;
    var k := 0;
    while k < |items|
      invariant 0 <= k <= |items| && total' <= SIZE_MAX
      invariant total + |RenderItems(items, 0)| == total' + |RenderItems(items, k)|
    {
      hide RenderItem;
      ok, total' := MeasureItem(total', items[k], k + 1 == |items|);
      if !ok { return; }
      k := k + 1;
    }
    ok := true;
  }

  method MeasureGroup(total: nat, g: Group, last: bool) returns (ok: bool, total': nat)
    requires total <= SIZE_MAX
    ensures Measured(total, |RenderGroup(g, last)|, ok, total')
  {
    hide RenderItems;
    ok, total' := MeasureAdd(total, 3);
    if !ok { return; }
    ok, total' := MeasureAdd(total', |TextOf(g.name)|);
    if !ok { return; }
    ok, total' := MeasureAdd(total', 5);
    if !ok { return; }
    ok, total' := MeasureItems(total', g.items);
    if !ok { return; }
    if !last {
      ok, total' := MeasureAdd(total', 5);
    } else {
      ok, total' := MeasureAdd(total', 4);
    }
  }

  /** `api_http_measure_json_payload`: the exact size of the body, failing exactly when it does not fit. */
  method Measure(p: Payload) returns (ok: bool, length: nat)
    ensures ok <==> |Render(p)| <= SIZE_MAX
    ensures length == if ok then |Render(p)| else 0
  {
    length := 0;
    if p == [] {
      return true, 0;
    }
    var total: nat;
    ok, total := MeasureAdd(0, 2);
    if !ok { return; }
    var k := 0;
    while k < |p|
      invariant 0 <= k <= |p| && total <= SIZE_MAX
      invariant 2 + |RenderGroups(p, 0)| == total + |RenderGroups(p, k)|
    {
      hide RenderGroup;
      ok, total := MeasureGroup(total, p[k], k + 1 == |p|);
      if !ok { return; }
      k := k + 1;
    }
    ok, total := MeasureAdd(total, 2);
    if !ok { return; }
    length := total;
  }

  // ---- Streaming ----

  /** The send callback's verdict on the newest of the pieces it has seen; false stops the stream. */
  type Callback = seq<string> -> bool

  /** What the callback has seen, and whether it accepted all of it. */
  datatype Sent = Sent(pieces: seq<string>, ok: bool)

  /** Pieces handed over one after the other, up to the first refusal; an empty piece is not handed over. */
  function Send(accepts: Callback, sent: seq<string>, pieces: seq<string>): Sent
    decreases |pieces|
  {
    if pieces == [] then Sent(sent, true)
    else if pieces[0] == "" then Send(accepts, sent, pieces[1..])
    else
      var now := sent + [pieces[0]];
      if accepts(now) then Send(accepts, now, pieces[1..]) else Sent(now, false)
  }

  lemma SendNothing(accepts: Callback, sent: seq<string>)
    ensures Send(accepts, sent, []) == Sent(sent, true)
  {}

  /** One piece, then the others. */
  lemma {:induction false} SendCons(accepts: Callback, sent: seq<string>, piece: string, rest: seq<string>)
    ensures var r := Send(accepts, sent, [piece]);
            Send(accepts, sent, [piece] + rest) == if r.ok then Send(accepts, r.pieces, rest) else r
  {
    assert ([piece] + rest)[1..] == rest && [piece][1..] == [];
  }

  lemma {:induction false} SendAppend(accepts: Callback, sent: seq<string>, xs: seq<string>, ys: seq<string>)
    ensures var r := Send(accepts, sent, xs);
            Send(accepts, sent, xs + ys) == if r.ok then Send(accepts, r.pieces, ys) else r
    decreases |xs|
  {
    hide Send;
    if xs == [] {
      SendNothing(accepts, sent);
      assert xs + ys == ys;
    } else {
      var r := Send(accepts, sent, [xs[0]]);
      assert xs == [xs[0]] + xs[1..] && xs + ys == [xs[0]] + (xs[1..] + ys);
      SendCons(accepts, sent, xs[0], xs[1..]);
      SendCons(accepts, sent, xs[0], xs[1..] + ys);
      SendAppend(accepts, r.pieces, xs[1..], ys);
    }
  }

  /** Every piece after the first `from` ones was accepted when it was the newest. */
  ghost predicate AcceptedFrom(accepts: Callback, pieces: seq<string>, from: nat) {
    forall k :: from < k <= |pieces| ==> accepts(pieces[..k])
  }

  /** What sending means for the callback: what it saw before stays, the verdict is positive exactly when it
      accepted every new piece, and after a refusal nothing more is sent. */
  ghost predicate Heard(accepts: Callback, before: seq<string>, pieces: seq<string>, ok: bool) {
    && before <= pieces
    && (ok <==> AcceptedFrom(accepts, pieces, |before|))
    && (!ok ==> |before| < |pieces| && !accepts(pieces) && AcceptedFrom(accepts, pieces[..|pieces| - 1], |before|))
  }

  lemma {:induction false} SendIsHeard(accepts: Callback, sent: seq<string>, pieces: seq<string>)
    ensures var r := Send(accepts, sent, pieces); Heard(accepts, sent, r.pieces, r.ok)
    decreases |pieces|
  {
    hide Heard;
    if pieces == [] {
      HeardNothing(accepts, sent);
    } else if pieces[0] == "" {
      SendIsHeard(accepts, sent, pieces[1..]);
    } else {
      var now, r := sent + [pieces[0]], Send(accepts, sent, pieces);
      if accepts(now) {
        SendIsHeard(accepts, now, pieces[1..]);
        HeardMore(accepts, sent, pieces[0], r.pieces, r.ok);
      } else {
        HeardRefusal(accepts, sent, pieces[0]);
      }
    }
  }

  lemma HeardNothing(accepts: Callback, sent: seq<string>)
    ensures Heard(accepts, sent, sent, true)
  {}

  lemma HeardRefusal(accepts: Callback, sent: seq<string>, piece: string)
    requires !accepts(sent + [piece])
    ensures Heard(accepts, sent, sent + [piece], false)
  {
    var now := sent + [piece];
    assert now[..|now|] == now && now[..|now| - 1] == sent;
  }

  lemma HeardMore(accepts: Callback, sent: seq<string>, piece: string, pieces: seq<string>, ok: bool)
    requires accepts(sent + [piece]) && Heard(accepts, sent + [piece], pieces, ok)
    ensures Heard(accepts, sent, pieces, ok)
  {
    var n := |sent|;
    assert pieces[..n + 1] == sent + [piece];
    assert pieces[..n] == sent;
    if !ok {
      var front := pieces[..|pieces| - 1];
      assert front[..n + 1] == sent + [piece];
    }
  }

  /** The bytes: all of them when everything is accepted, else a prefix. */
  lemma {:induction false} SendBytes(accepts: Callback, sent: seq<string>, pieces: seq<string>)
    ensures var r := Send(accepts, sent, pieces);
            if r.ok then Concat(r.pieces) == Concat(sent) + Concat(pieces)
            else Concat(r.pieces) <= Concat(sent) + Concat(pieces)
    decreases |pieces|
  {
    hide Concat;
    if pieces == [] {
      ConcatNone();
      assert Concat(sent) + "" == Concat(sent);
    } else {
      var piece, rest := pieces[0], pieces[1..];
      assert pieces == [piece] + rest;
      ConcatCons(piece, rest);
      if piece == "" {
        SendBytes(accepts, sent, rest);
        assert "" + Concat(rest) == Concat(rest);
      } else {
        ConcatAppend(sent, [piece]);
        ConcatOne(piece);
        RegroupBytes(Concat(sent), piece, Concat(rest));
        if accepts(sent + [piece]) {
          SendBytes(accepts, sent + [piece], rest);
        }
      }
    }
  }

  lemma RegroupBytes(a: string, b: string, c: string)
    ensures (a + b) + c == a + (b + c) && a + b <= a + (b + c)
  {
    assert (a + b) + c == a + (b + c);
  }

  lemma ConcatNone()
    ensures Concat<char>([]) == ""
  {}

  lemma ConcatOne(x: string)
    ensures Concat([x]) == x
  {
    assert [x][1..] == [];
  }

  lemma ConcatCons(x: string, xs: seq<string>)
    ensures Concat([x] + xs) == x + Concat(xs)
  {
    assert ([x] + xs)[1..] == xs;
  }

  // ---- The pieces of a body, in the order in which they are handed over ----

  function ItemPieces(i: Item, last: bool): seq<string> {
    ["    \"", TextOf(i.key), "\": ", Quote(i), ValueText(i), Quote(i), ItemEnd(last)]
  }

  function ItemsPieces(items: seq<Item>, k: nat): seq<string>
    requires k <= |items|
    decreases |items| - k
  {
    if k == |items| then [] else ItemPieces(items[k], k + 1 == |items|) + ItemsPieces(items, k + 1)
  }

  function GroupHead(g: Group): seq<string> { ["  \"", TextOf(g.name), "\": {\n"] }

  function GroupPieces(g: Group, last: bool): seq<string> {
    GroupHead(g) + (ItemsPieces(g.items, 0) + [GroupEnd(last)])
  }

  function GroupsPieces(p: Payload, k: nat): seq<string>
    requires k <= |p|
    decreases |p| - k
  {
    if k == |p| then [] else GroupPieces(p[k], k + 1 == |p|) + GroupsPieces(p, k + 1)
  }

  function BodyPieces(p: Payload): seq<string> {
    if p == [] then [] else ["{\n"] + (GroupsPieces(p, 0) + ["}\n"])
  }

  lemma ItemPiecesRender(i: Item, last: bool)
    ensures Concat(ItemPieces(i, last)) == RenderItem(i, last)
  {
    hide Concat;
    var k, q, v, e := TextOf(i.key), Quote(i), ValueText(i), ItemEnd(last);
    ConcatCons("    \"", [k, "\": ", q, v, q, e]);
    ConcatCons(k, ["\": ", q, v, q, e]);
    ConcatCons("\": ", [q, v, q, e]);
    ConcatCons(q, [v, q, e]);
    ConcatCons(v, [q, e]);
    ConcatCons(q, [e]);
    ConcatOne(e);
    assert ItemPieces(i, last) == ["    \""] + [k, "\": ", q, v, q, e];
    assert [k, "\": ", q, v, q, e] == [k] + ["\": ", q, v, q, e];
    assert ["\": ", q, v, q, e] == ["\": "] + [q, v, q, e];
    assert [q, v, q, e] == [q] + [v, q, e];
    assert [v, q, e] == [v] + [q, e];
    assert [q, e] == [q] + [e];
  }

  lemma {:induction false} ItemsPiecesRender(items: seq<Item>, k: nat)
    requires k <= |items|
    ensures Concat(ItemsPieces(items, k)) == RenderItems(items, k)
    decreases |items| - k
  {
    hide Concat, ItemPieces, RenderItem;
    if k == |items| {
      ConcatNone();
    } else {
      ItemPiecesRender(items[k], k + 1 == |items|);
      ItemsPiecesRender(items, k + 1);
      ConcatAppend(ItemPieces(items[k], k + 1 == |items|), ItemsPieces(items, k + 1));
    }
  }

  lemma GroupHeadRender(g: Group)
    ensures Concat(GroupHead(g)) == "  \"" + TextOf(g.name) + "\": {\n"
  {
    hide Concat;
    var n := TextOf(g.name);
    ConcatCons("  \"", [n, "\": {\n"]);
    ConcatCons(n, ["\": {\n"]);
    ConcatOne("\": {\n");
    assert GroupHead(g) == ["  \""] + [n, "\": {\n"];
    assert [n, "\": {\n"] == [n] + ["\": {\n"];
  }

  lemma GroupPiecesRender(g: Group, last: bool)
    ensures Concat(GroupPieces(g, last)) == RenderGroup(g, last)
  {
    hide Concat, ItemsPieces, RenderItems;
    var items, end := ItemsPieces(g.items, 0), [GroupEnd(last)];
    GroupHeadRender(g);
    ItemsPiecesRender(g.items, 0);
    ConcatOne(GroupEnd(last));
    ConcatAppend(items, end);
    ConcatAppend(GroupHead(g), items + end);
  }

  lemma {:induction false} GroupsPiecesRender(p: Payload, k: nat)
    requires k <= |p|
    ensures Concat(GroupsPieces(p, k)) == RenderGroups(p, k)
    decreases |p| - k
  {
    hide Concat, GroupPieces, RenderGroup;
    if k == |p| {
      ConcatNone();
    } else {
      GroupPiecesRender(p[k], k + 1 == |p|);
      GroupsPiecesRender(p, k + 1);
      ConcatAppend(GroupPieces(p[k], k + 1 == |p|), GroupsPieces(p, k + 1));
    }
  }

  lemma BodyPiecesRender(p: Payload)
    ensures Concat(BodyPieces(p)) == Render(p)
  {
    hide Concat, GroupsPieces, RenderGroups;
    if p == [] {
      ConcatNone();
    } else {
      GroupsPiecesRender(p, 0);
      ConcatOne("}\n");
      ConcatAppend(GroupsPieces(p, 0), ["}\n"]);
      ConcatCons("{\n", GroupsPieces(p, 0) + ["}\n"]);
    }
  }

  // ---- The object ----

  /** The send callback and the pieces it has seen. */
  class Sender {
    const accepts: Callback
    var sent: seq<string>

    constructor (accepts: Callback)
      ensures this.accepts == accepts && sent == []
    {
      this.accepts := accepts;
      sent := [];
    }

    ghost function Bytes(): string
      reads this
    {
      Concat(sent)
    }

    /** `api_http_stream_literal`: nothing is sent for an empty literal. */
    method Literal(text: string) returns (ok: bool)
      modifies this
      ensures Sent(sent, ok) == Send(accepts, old(sent), [text])
      ensures sent == if text == "" then old(sent) else old(sent) + [text]
      ensures ok == (text == "" || accepts(sent))
    {
      assert [text][1..] == [];
      if text == "" {
        return true;
      }
      sent := sent + [text];
      ok := accepts(sent);
    }

    /** A literal in the middle of a row: the verdict on the row is known, or `rest` is still to be sent. */
    method Next(text: string, ghost rest: seq<string>, ghost total: Sent) returns (ok: bool)
      requires total == Send(accepts, sent, [text] + rest)
      modifies this
      ensures total == if ok then Send(accepts, sent, rest) else Sent(sent, false)
    {
      hide Send;
      SendCons(accepts, sent, text, rest);
      ok := Literal(text);
    }

    method StreamItem(i: Item, last: bool) returns (ok: bool)
      modifies this
      ensures Sent(sent, ok) == Send(accepts, old(sent), ItemPieces(i, last))
    {
      hide Send;
      ghost var k, q, v, e := TextOf(i.key), Quote(i), ValueText(i), ItemEnd(last);
      ghost var total := Send(accepts, sent, ItemPieces(i, last));
      assert ItemPieces(i, last) == ["    \""] + [k, "\": ", q, v, q, e];
      assert [k, "\": ", q, v, q, e] == [k] + ["\": ", q, v, q, e];
      assert ["\": ", q, v, q, e] == ["\": "] + [q, v, q, e];
      ok := Next("    \"", [k, "\": ", q, v, q, e], total);
      if !ok { return; }
      ok := Next(TextOf(i.key), ["\": ", q, v, q, e], total);
      if !ok { return; }
      ok := Next("\": ", [q, v, q, e], total);
      if !ok { return; }
      ok := StreamValue(i, last);
    }

    /** The value of an item, in quotes unless it is a big number, and the end of its line. */
    method StreamValue(i: Item, last: bool) returns (ok: bool)
      modifies this
      ensures Sent(sent, ok) == Send(accepts, old(sent), [Quote(i), ValueText(i), Quote(i), ItemEnd(last)])
    {
      hide Send;
      ghost var q, v, e := Quote(i), ValueText(i), ItemEnd(last);
      ghost var total := Send(accepts, sent, [q, v, q, e]);
      assert [q, v, q, e] == [q] + [v, q, e] && [v, q, e] == [v] + [q, e] && [q, e] == [q] + [e] && [e] == [e] + [];
      ok := Next(Quote(i), [v, q, e], total);
      if !ok { return; }
      ok := Next(ValueText(i), [q, e], total);
      if !ok { return; }
      ok := Next(Quote(i), [e], total);
      if !ok { return; }
      ok := Literal(ItemEnd(last));
    }

    method StreamItems(items: seq<Item>) returns (ok: bool)
      modifies this
      ensures Sent(sent, ok) == Send(accepts, old(sent), ItemsPieces(items, 0))
    {
      hide Send, ItemPieces;
      ghost var total := Send(accepts, sent, ItemsPieces(items, 0));
      var k := 0;
      ok := true;
      while k < |items|
        invariant 0 <= k <= |items| && ok
        invariant total == Send(accepts, sent, ItemsPieces(items, k))
      {
        SendAppend(accepts, sent, ItemPieces(items[k], k + 1 == |items|), ItemsPieces(items, k + 1));
        ok := StreamItem(items[k], k + 1 == |items|);
        if !ok {
          return;
        }
        k := k + 1;
      }
      SendNothing(accepts, sent);
    }

    method StreamGroup(g: Group, last: bool) returns (ok: bool)
      modifies this
      ensures Sent(sent, ok) == Send(accepts, old(sent), GroupPieces(g, last))
    {
      hide Send, ItemsPieces;
      ghost var items, end := ItemsPieces(g.items, 0), [GroupEnd(last)];
      SendAppend(accepts, sent, GroupHead(g), items + end);
      ok := StreamHead(g);
      if !ok { return; }
      SendAppend(accepts, sent, items, end);
      ok := StreamItems(g.items);
      if !ok { return; }
      ok := Literal(GroupEnd(last));
    }

    method StreamHead(g: Group) returns (ok: bool)
      modifies this
      ensures Sent(sent, ok) == Send(accepts, old(sent), GroupHead(g))
    {
      hide Send;
      ghost var n := TextOf(g.name);
      ghost var total := Send(accepts, sent, GroupHead(g));
      assert GroupHead(g) == ["  \""] + [n, "\": {\n"] && [n, "\": {\n"] == [n] + ["\": {\n"];
      ok := Next("  \"", [n, "\": {\n"], total);
      if !ok { return; }
      ok := Next(TextOf(g.name), ["\": {\n"], total);
      if !ok { return; }
      ok := Literal("\": {\n");
    }

    method StreamGroups(p: Payload) returns (ok: bool)
      modifies this
      ensures Sent(sent, ok) == Send(accepts, old(sent), GroupsPieces(p, 0))
    {
      hide Send, GroupPieces;
      ghost var total := Send(accepts, sent, GroupsPieces(p, 0));
      var k := 0;
      ok := true;
      while k < |p|
        invariant 0 <= k <= |p| && ok
        invariant total == Send(accepts, sent, GroupsPieces(p, k))
      {
        SendAppend(accepts, sent, GroupPieces(p[k], k + 1 == |p|), GroupsPieces(p, k + 1));
        ok := StreamGroup(p[k], k + 1 == |p|);
        if !ok {
          return;
        }
        k := k + 1;
      }
      SendNothing(accepts, sent);
    }

    /** `api_http_stream_json_payload`. The verdict is positive exactly when the callback accepted every piece
        it was handed; then the bytes it saw are the rendered body. After a refusal nothing more is sent, and
        the bytes are a prefix. */
    method Stream(p: Payload) returns (ok: bool)
      modifies this
      ensures Sent(sent, ok) == Send(accepts, old(sent), BodyPieces(p))
      ensures Heard(accepts, old(sent), sent, ok)
      ensures if ok then Bytes() == old(Bytes()) + Render(p) else Bytes() <= old(Bytes()) + Render(p)
    {
      hide Send, GroupsPieces, Heard, Concat, RenderGroups;
      SendIsHeard(accepts, sent, BodyPieces(p));
      SendBytes(accepts, sent, BodyPieces(p));
      BodyPiecesRender(p);
      if p == [] {
        SendNothing(accepts, sent);
        return true;
      }
      ghost var total := Send(accepts, sent, BodyPieces(p));
      ghost var groups := GroupsPieces(p, 0);
      ok := Next("{\n", groups + ["}\n"], total);
      if !ok { return; }
      SendAppend(accepts, sent, groups, ["}\n"]);
      ok := StreamGroups(p);
      if !ok { return; }
      ok := Literal("}\n");
    }
  }

  ghost predicate AcceptsAll(accepts: Callback) { forall t :: accepts(t) }

  /** The two passes together, as a request makes them: the length announced first is the number of bytes sent
      afterwards, whenever the callback accepts them all; nothing is sent when the length does not fit. */
  method MeasureAndStream(sender: Sender, p: Payload) returns (ok: bool, length: nat)
    modifies sender
    ensures |Render(p)| > SIZE_MAX ==> !ok && sender.sent == old(sender.sent)
    ensures |Render(p)| <= SIZE_MAX ==> Sent(sender.sent, ok) == Send(sender.accepts, old(sender.sent), BodyPieces(p))
    ensures |Render(p)| <= SIZE_MAX && AcceptsAll(sender.accepts) ==> ok
    ensures ok ==> |sender.Bytes()| == |old(sender.Bytes())| + length
  {
    hide Send, Concat, Render, BodyPieces;
    ok, length := Measure(p);
    if !ok {
      return;
    }
    ok := sender.Stream(p);
  }
}
