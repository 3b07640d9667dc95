/** Chunked messages as a sender writes them, with sizes printed in base 16 from a table of digits: a reference for
    the size parser and the decoder that shares nothing with either. */
module ChunkWriter {
  import opened Prelude
  import opened HttpSyntax
  import opened ChunkedBody
  import opened ChunkRfc

  const LOWER: string := "0123456789abcdef"
  const UPPER: string := "0123456789ABCDEF"

  /** The d-th character of either table has the value d. */
  lemma TableDigits(d: nat)
    requires d < 16
    ensures HexDigit(LOWER[d]) == Some(d) && HexDigit(UPPER[d]) == Some(d)
  {
    LowerDigits(d);
    UpperDigits(d);
    hide HexDigit;
  }

  lemma LowerDigits(d: nat)
    requires d < 16
    ensures HexDigit(LOWER[d]) == Some(d)
  {}

  lemma UpperDigits(d: nat)
    requires d < 16
    ensures HexDigit(UPPER[d]) == Some(d)
  {}

  /** No other character is a hexadecimal digit. */
  lemma HexDigitsAreInTables(c: char)
    ensures HexDigit(c).Some? <==> c in LOWER || c in UPPER
    ensures HexDigit(c).Some? ==> c == LOWER[HexDigit(c).value] || c == UPPER[HexDigit(c).value]
  {
    if HexDigit(c).Some? {
      var d := HexDigit(c).value;
      assert c == LOWER[d] || c == UPPER[d];
    }
  }

  /** The d-th decimal digit has the value d, and no other character is one. */
  lemma DecimalDigits(d: nat, c: char)
    requires d < 10
    ensures DecDigit("0123456789"[d]) == Some(d)
    ensures DecDigit(c).Some? <==> c in "0123456789"
  {
    if DecDigit(c).Some? {
      assert c == "0123456789"[DecDigit(c).value];
    }
  }

  /** A number in base 16 with the digits of a table. */
  function Print(n: nat, table: string): (r: string)
    requires |table| == 16
    ensures r != ""
  {
    if n < 16 then [table[n]] else Print(n / 16, table) + [table[n % 16]]
  }

  predicate IsTable(table: string) { table == LOWER || table == UPPER }

  lemma {:induction false} OneMoreDigit(front: string, c: char, d: nat)
    requires AllHex(front) && HexDigit(c) == Some(d)
    ensures AllHex(front + [c]) && HexValue(front + [c]) == HexValue(front) * 16 + d
  {
    hide HexDigit;
    assert (front + [c])[..|front|] == front;
  }

  /** The d-th character of the table has the value d. */
  ghost predicate Valued(table: string) { |table| == 16 && forall d :: 0 <= d < 16 ==> HexDigit(table[d]) == Some(d) }

  lemma TablesAreValued(table: string)
    requires IsTable(table)
    ensures Valued(table)
  {
    forall d: nat | d < 16 ensures HexDigit(table[d]) == Some(d) {
      TableDigits(d);
    }
  }

  lemma {:induction false} PrintedDenotes(n: nat, table: string)
    requires Valued(table)
    ensures AllHex(Print(n, table)) && HexValue(Print(n, table)) == n
  {
    hide HexDigit, HexValue, AllHex;
    if n < 16 {
      NoDigits();
      OneMoreDigit("", table[n], n);
      assert "" + [table[n]] == [table[n]];
    } else {
      PrintedDenotes(n / 16, table);
      OneMoreDigit(Print(n / 16, table), table[n % 16], n % 16);
    }
  }

  lemma NoDigits()
    ensures AllHex("") && HexValue("") == 0
  {}

  /** A printed size, with or without anything behind a `;`, reads back as that size; it is refused exactly when it
      does not fit 64 bits. */
  lemma PrintedSizeReadsBack(n: nat, table: string, extension: string)
    requires IsTable(table) && (extension == "" || extension[0] == ';')
    ensures ParseHex(Print(n, table) + extension) == if n <= INT64_MAX then Some(n) else None
  {
    hide HexValue, Print;
    var digits := Print(n, table);
    TablesAreValued(table);
    PrintedDenotes(n, table);
    HexHasNoSemicolon(digits);
    SizeFieldOf(digits, extension);
  }

  /** The pieces of a body, each sent as one chunk. */
  function Write(pieces: seq<string>, table: string): string
    requires |table| == 16
  {
    if pieces == [] then "0\r\n\r\n"
    else Print(|pieces[0]|, table) + "\r\n" + pieces[0] + "\r\n" + Write(pieces[1..], table)
  }

  lemma PrintedLine(n: nat, table: string)
    requires IsTable(table) && n <= INT64_MAX
    ensures SizeLine(Print(n, table), n)
  {
    hide Print;
    var digits := Print(n, table);
    TablesAreValued(table);
    PrintedDenotes(n, table);
    PrintedSizeReadsBack(n, table, "");
    assert digits + "" == digits;
    HexHasNoCr(digits);
    NoCrIsNoCrlf(digits);
  }

  lemma HexHasNoCr(digits: string)
    requires AllHex(digits)
    ensures NoCr(digits)
  {
    assert HexDigit('\r').None?;
  }

  function MessageOf(pieces: seq<string>, table: string): Message
    requires |table| == 16
  {
    if pieces == [] then Message([], "0", [])
    else
      var m := MessageOf(pieces[1..], table);
      m.(chunks := [Chunk(Print(|pieces[0]|, table), pieces[0])] + m.chunks)
  }

  ghost predicate Sendable(pieces: seq<string>) {
    forall i :: 0 <= i < |pieces| ==> 0 < |pieces[i]| <= INT64_MAX
  }

  lemma LastMessage()
    ensures ValidMessage(Message([], "0", [])) && Render(Message([], "0", [])) == "0\r\n\r\n"
  {
    PrintedLine(0, LOWER);
    assert Print(0, LOWER) == "0";
    assert RenderTrailers([]) == "\r\n";
  }

  lemma {:induction false} WrittenIsMessage(pieces: seq<string>, table: string)
    requires IsTable(table) && Sendable(pieces)
    ensures ValidMessage(MessageOf(pieces, table)) && Render(MessageOf(pieces, table)) == Write(pieces, table)
    ensures Payload(MessageOf(pieces, table)) == Concat(pieces)
  {
    hide Print, SizeLine, ValidMessage;
    if pieces == [] {
      LastMessage();
    } else {
      var m' := MessageOf(pieces[1..], table);
      WrittenIsMessage(pieces[1..], table);
      var c := Chunk(Print(|pieces[0]|, table), pieces[0]);
      PrintedLine(|pieces[0]|, table);
      assert ValidChunk(c);
      PrependIsValid(c, m');
    }
  }

  lemma PrependIsValid(c: Chunk, m: Message)
    requires ValidChunk(c) && ValidMessage(m)
    ensures var m' := m.(chunks := [c] + m.chunks);
            && ValidMessage(m') && Render(m') == c.line + "\r\n" + c.data + "\r\n" + Render(m)
            && Payload(m') == c.data + Payload(m)
  {
    hide ValidChunk, SizeLine;
    var m' := m.(chunks := [c] + m.chunks);
    assert m'.(chunks := m'.chunks[1..]) == m;
  }

  /** Whatever a sender writes in this form, in lower or upper case and followed by anything, decodes to the pieces
      with exactly its own length consumed. */
  lemma WrittenBodyDecodes(pieces: seq<string>, table: string, rest: string)
    requires IsTable(table) && Sendable(pieces)
    ensures Decode(Write(pieces, table) + rest) == Decoded(true, Concat(pieces), |Write(pieces, table)|)
  {
    hide Decode, Render, ValidMessage, Write, MessageOf;
    WrittenIsMessage(pieces, table);
    DecodeOfRender(MessageOf(pieces, table), rest);
  }
}
