/** What the chunk decoder makes of the grammar of section 7.1 of RFC 9112: which of its messages are
    decoded, and which accepted size lines belong to it. */
module ChunkRfc {
  import opened Prelude
  import opened HttpSyntax
  import opened ChunkedBody

  // ---- The grammar of the RFC ----

  predicate IsBlank(c: char) { c == ' ' || c == '\t' }

  /** `BWS`: any number of spaces and tabs. */
  predicate Blank(s: string) { forall i :: 0 <= i < |s| ==> IsBlank(s[i]) }

  predicate IsTokenChar(c: char) {
    '0' <= c <= '9' || 'a' <= c <= 'z' || 'A' <= c <= 'Z' || c in "!#$%&'*+-.^_`|~"
  }

  predicate Token(s: string) { s != "" && forall i :: 0 <= i < |s| ==> IsTokenChar(s[i]) }

  /** A visible character, a blank or `obs-text`: what field values hold and what a backslash may quote. */
  predicate IsTextChar(c: char) { IsBlank(c) || '!' <= c <= '~' || 0x80 as char <= c <= 0xFF as char }

  /** The inside of a `quoted-string`: text without quote and backslash, and quoted pairs. */
  predicate QuotedText(s: string) {
    s == ""
    || (s[0] != '"' && s[0] != '\\' && IsTextChar(s[0]) && QuotedText(s[1..]))
    || (|s| >= 2 && s[0] == '\\' && IsTextChar(s[1]) && QuotedText(s[2..]))
  }

  predicate QuotedString(s: string) {
    |s| >= 2 && s[0] == '"' && s[|s| - 1] == '"' && QuotedText(s[1..|s| - 1])
  }

  /** `[ BWS "=" BWS chunk-ext-val ]`. */
  ghost predicate ExtensionValue(s: string) {
    s == "" || exists before, after, value ::
      s == before + "=" + after + value && Blank(before) && Blank(after) && (Token(value) || QuotedString(value))
  }

  /** `BWS ";" BWS chunk-ext-name [ BWS "=" BWS chunk-ext-val ]`. */
  ghost predicate Extension(s: string) {
    exists before, after, name, value ::
      s == before + ";" + after + name + value && Blank(before) && Blank(after) && Token(name) && ExtensionValue(value)
  }

  /** `chunk-ext`: any number of extensions. */
  ghost predicate Extensions(s: string) {
    s == "" || exists k :: 0 < k <= |s| && Extension(s[..k]) && Extensions(s[k..])
  }

  /** `chunk-size [ chunk-ext ]` with the size that the digits denote. */
  ghost predicate RfcSizeLine(line: string, digits: string, extensions: string, size: nat) {
    && line == digits + extensions
    && digits != "" && AllHex(digits) && HexValue(digits) == size
    && Extensions(extensions)
  }

  ghost predicate IsRfcSizeLine(line: string, size: nat) {
    exists digits, extensions :: RfcSizeLine(line, digits, extensions, size)
  }

  /** `field-line`: a token, a colon and text. */
  ghost predicate FieldLine(s: string) {
    exists name, value :: s == name + ":" + value && Token(name) && forall i :: 0 <= i < |value| ==> IsTextChar(value[i])
  }

  /** A message of the RFC: every chunk non-empty, every size line with its digits and extensions, trailer
      field lines. */
  ghost predicate RfcMessage(m: Message) {
    && (forall i :: 0 <= i < |m.chunks| ==> RfcChunk(m.chunks[i]))
    && IsRfcSizeLine(m.lastLine, 0)
    && forall i :: 0 <= i < |m.trailers| ==> FieldLine(m.trailers[i])
  }

  ghost predicate RfcChunk(c: Chunk) { c.data != "" && IsRfcSizeLine(c.line, |c.data|) }

  // ---- No line of the grammar contains a line end ----

  predicate NoCr(s: string) { forall i :: 0 <= i < |s| ==> s[i] != '\r' }

  lemma NoCrIsNoCrlf(s: string)
    requires NoCr(s)
    ensures NoCrlf(s)
  {}

  lemma NoCrOfBoth(a: string, b: string)
    requires NoCr(a) && NoCr(b)
    ensures NoCr(a + b)
  {}

  lemma NoCrOfParts(a: string, mark: string, b: string, c: string)
    requires NoCr(a) && (mark == "=" || mark == ";") && NoCr(b) && NoCr(c)
    ensures NoCr(a + mark + b + c)
  {
    assert NoCr(mark);
    hide NoCr;
    NoCrOfBoth(a, mark);
    NoCrOfBoth(a + mark, b);
    NoCrOfBoth(a + mark + b, c);
  }

  lemma TokenHasNoCr(s: string)
    requires Token(s)
    ensures NoCr(s)
  {}

  lemma TextHasNoCr(s: string)
    requires forall i :: 0 <= i < |s| ==> IsTextChar(s[i])
    ensures NoCr(s)
  {}

  lemma BlankHasNoCr(s: string)
    requires Blank(s)
    ensures NoCr(s)
  {}

  lemma {:induction false} QuotedTextHasNoCr(s: string)
    requires QuotedText(s)
    ensures NoCr(s)
  {
    if s == "" {
    } else if s[0] == '\\' {
      QuotedTextHasNoCr(s[2..]);
      assert s == [s[0], s[1]] + s[2..];
    } else {
      QuotedTextHasNoCr(s[1..]);
      assert s == [s[0]] + s[1..];
    }
  }

  lemma QuotedStringHasNoCr(s: string)
    requires QuotedString(s)
    ensures NoCr(s)
  {
    QuotedTextHasNoCr(s[1..|s| - 1]);
    assert forall i :: 0 < i < |s| - 1 ==> s[i] == s[1..|s| - 1][i - 1];
  }

  lemma ExtensionValueHasNoCr(s: string)
    requires ExtensionValue(s)
    ensures NoCr(s)
  {
    hide QuotedString, Token, Blank, NoCr;
    if s != "" {
      var before, after, value :|
        s == before + "=" + after + value && Blank(before) && Blank(after) && (Token(value) || QuotedString(value));
      if QuotedString(value) { QuotedStringHasNoCr(value); } else { TokenHasNoCr(value); }
      BlankHasNoCr(before);
      BlankHasNoCr(after);
      NoCrOfParts(before, "=", after, value);
    } else {
      BlankHasNoCr(s);
    }
  }

  lemma ExtensionHasNoCr(s: string)
    requires Extension(s)
    ensures NoCr(s)
  {
    hide ExtensionValue;
    var before, after, name, value :|
      s == before + ";" + after + name + value && Blank(before) && Blank(after) && Token(name) && ExtensionValue(value);
    ExtensionValueHasNoCr(value);
    TokenHasNoCr(name);
    BlankHasNoCr(before);
    BlankHasNoCr(after);
    hide Token, Blank, NoCr;
    NoCrOfParts(before, ";", after, name);
    NoCrOfBoth(before + ";" + after + name, value);
  }

  lemma {:induction false} ExtensionsHaveNoCr(s: string)
    requires Extensions(s)
    ensures NoCr(s)
    decreases |s|
  {
    hide Extension;
    if s != "" {
      var k :| 0 < k <= |s| && Extension(s[..k]) && Extensions(s[k..]);
      ExtensionHasNoCr(s[..k]);
      ExtensionsHaveNoCr(s[k..]);
      assert s == s[..k] + s[k..];
    }
  }

  lemma RfcLineHasNoCrlf(line: string, size: nat)
    requires IsRfcSizeLine(line, size)
    ensures NoCrlf(line)
  {
    hide Extensions, HexValue;
    var digits, extensions :| RfcSizeLine(line, digits, extensions, size);
    ExtensionsHaveNoCr(extensions);
    assert NoCr(digits);
    NoCrIsNoCrlf(line);
  }

  lemma FieldLineIsTrailer(s: string)
    requires FieldLine(s)
    ensures ValidTrailer(s)
  {
    var name, value :| s == name + ":" + value && Token(name) && forall i :: 0 <= i < |value| ==> IsTextChar(value[i]);
    TokenHasNoCr(name);
    TextHasNoCr(value);
    assert NoCr(":");
    hide Token, NoCr, NoCrlf, IsTextChar;
    NoCrOfBoth(name, ":");
    NoCrOfBoth(name + ":", value);
    NoCrIsNoCrlf(s);
  }

  // ---- Size lines ----

  lemma {:induction false} SizeFieldOf(digits: string, extension: string)
    requires ';' !in digits
    requires extension == "" || extension[0] == ';'
    ensures SizeField(digits + extension) == digits
  {
    if digits == "" {
      assert digits + extension == extension;
    } else {
      assert (digits + extension)[1..] == digits[1..] + extension;
      SizeFieldOf(digits[1..], extension);
    }
  }

  lemma HexHasNoSemicolon(digits: string)
    requires AllHex(digits)
    ensures ';' !in digits
  {
    assert forall i :: 0 <= i < |digits| ==> digits[i] != ';';
  }

  /** No blank stands before the first `;` of a size line, or anywhere when it has none. */
  predicate Tight(line: string) {
    forall i :: 0 <= i < |SizeField(line)| ==> !IsBlank(line[i])
  }

  lemma FirstOfExtension(before: string, after: string, name: string, value: string)
    requires Blank(before) && name != ""
    ensures var s := before + ";" + after + name + value; |s| >= 2 && (s[0] == ';' || IsBlank(s[0]))
  {
    var s := before + ";" + after + name + value;
    assert if before == "" then s[0] == ';' else s[0] == before[0];
  }

  lemma ExtensionStarts(s: string)
    requires Extension(s)
    ensures |s| >= 2 && (s[0] == ';' || IsBlank(s[0]))
  {
    hide ExtensionValue, Blank, IsTokenChar;
    var before, after, name, value :|
      s == before + ";" + after + name + value && Blank(before) && Blank(after) && Token(name) && ExtensionValue(value);
    FirstOfExtension(before, after, name, value);
  }

  /** Extensions start with `;` or with a blank. */
  lemma ExtensionsStart(s: string)
    requires Extensions(s) && s != ""
    ensures s[0] == ';' || IsBlank(s[0])
  {
    hide Extension;
    var k :| 0 < k <= |s| && Extension(s[..k]) && Extensions(s[k..]);
    ExtensionStarts(s[..k]);
  }

  /** A blank directly behind the digits belongs to the text before the first `;`. */
  lemma {:induction false} SizeFieldReaches(digits: string, extension: string)
    requires ';' !in digits && extension != "" && extension[0] != ';'
    ensures |digits| < |SizeField(digits + extension)|
    ensures SizeField(digits + extension)[|digits|] == extension[0]
  {
    if digits == "" {
      assert digits + extension == extension;
    } else {
      assert (digits + extension)[1..] == digits[1..] + extension;
      SizeFieldReaches(digits[1..], extension);
    }
  }

  /** A size line of the RFC has no blank before its first `;` exactly when its extensions are missing or
      start with `;`. */
  lemma TightIffNoLeadingBlank(line: string, digits: string, extensions: string, size: nat)
    requires RfcSizeLine(line, digits, extensions, size)
    ensures Tight(line) <==> extensions == "" || extensions[0] == ';'
  {
    hide Extensions, HexValue;
    HexHasNoSemicolon(digits);
    if extensions == "" || extensions[0] == ';' {
      SizeFieldOf(digits, extensions);
      assert forall i :: 0 <= i < |digits| ==> line[i] == digits[i];
    } else {
      ExtensionsStart(extensions);
      SizeFieldReaches(digits, extensions);
      assert line[|digits|] == extensions[0];
    }
  }

  /** Every size line of the RFC: it is read as its size if no blank stands before its first `;` and the size
      fits 64 bits, and is refused otherwise. */
  lemma RfcLineIsReadIffTight(line: string, size: nat)
    requires IsRfcSizeLine(line, size)
    ensures ParseHex(line) == if Tight(line) && size <= INT64_MAX then Some(size) else None
  {
    hide Extensions, HexValue, Tight;
    var digits, extensions :| RfcSizeLine(line, digits, extensions, size);
    TightIffNoLeadingBlank(line, digits, extensions, size);
    HexHasNoSemicolon(digits);
    if extensions == "" || extensions[0] == ';' {
      SizeFieldOf(digits, extensions);
    } else {
      ExtensionsStart(extensions);
      SizeFieldReaches(digits, extensions);
      assert !AllHex(SizeField(line));
    }
  }

  /** An accepted line of the RFC splits where the parser splits it. */
  lemma AcceptedSplit(line: string, digits: string, extensions: string, size: nat)
    requires RfcSizeLine(line, digits, extensions, size) && ParseHex(line).Some?
    ensures SizeField(line) == digits && line[|digits|..] == extensions
  {
    hide Extensions, HexValue, Tight, ParseHex;
    RfcLineIsReadIffTight(line, size);
    TightIffNoLeadingBlank(line, digits, extensions, size);
    HexHasNoSemicolon(digits);
    SizeFieldOf(digits, extensions);
  }

  lemma SplitAtField(line: string)
    requires ParseHex(line).Some? && line[0] != ';' && Extensions(line[|SizeField(line)|..])
    ensures RfcSizeLine(line, SizeField(line), line[|SizeField(line)|..], ParseHex(line).value)
  {
    hide Extensions, HexValue, SizeField;
    var field := SizeField(line);
    assert field == line[..|field|];
    assert line == field + line[|field|..];
  }

  /** An accepted line belongs to the RFC exactly when it does not start with `;` and what follows its size is
      a list of well-formed extensions. */
  lemma AcceptedLineIsRfcIff(line: string)
    requires ParseHex(line).Some?
    ensures IsRfcSizeLine(line, ParseHex(line).value) <==> line[0] != ';' && Extensions(line[|SizeField(line)|..])
  {
    assert line != "";
    hide Extensions, HexValue, ParseHex;
    var size := ParseHex(line).value;
    if IsRfcSizeLine(line, size) {
      var digits, extensions :| RfcSizeLine(line, digits, extensions, size);
      AcceptedSplit(line, digits, extensions, size);
      HexHasNoSemicolon(digits);
      assert line[0] == digits[0];
    } else if line[0] != ';' && Extensions(line[|SizeField(line)|..]) {
      SplitAtField(line);
    }
  }

  /** The RFC allows blanks before `;`; the parser refuses them. */
  lemma BlankBeforeSemicolonIsRefused()
    ensures IsRfcSizeLine("5 ;a=b", 5) && ParseHex("5 ;a=b") == None
  {
    hide Extensions, HexValue, ParseHex;
    SpacedExtension();
    FiveIsHex();
    var line, digits, extensions := "5 ;a=b", "5", " ;a=b";
    assert line == digits + extensions;
    assert RfcSizeLine(line, digits, extensions, 5);
    TightIffNoLeadingBlank(line, digits, extensions, 5);
    RfcLineIsReadIffTight(line, 5);
  }

  lemma FiveIsHex()
    ensures AllHex("5") && HexValue("5") == 5
  {
    assert "5"[..0] == "";
  }

  lemma PlainValue()
    ensures ExtensionValue("=b")
  {
    assert Token("b") && Blank("");
    hide Token, Blank;
    assert "=b" == "" + "=" + "" + "b";
  }

  lemma SpacedExtension()
    ensures Extensions(" ;a=b")
  {
    var s := " ;a=b";
    assert Extension(s) by {
      PlainValue();
      assert Blank(" ") && Blank("") && Token("a");
      hide ExtensionValue, Token, Blank;
      assert s == " " + ";" + "" + "a" + "=b";
    }
    hide Extension;
    assert s[..5] == s && s[5..] == "";
  }

  /** An extension without a name is not one of the RFC; the parser does not look at it. */
  lemma NamelessExtensionIsAccepted()
    ensures ParseHex("5;") == Some(5) && !IsRfcSizeLine("5;", 5)
  {
    FiveIsHex();
    SizeFieldOf("5", ";");
    assert "5" + ";" == "5;";
    LoneSemicolonIsNoExtension();
    AcceptedLineIsRfcIff("5;");
    assert "5;"[1..] == ";";
  }

  lemma LoneSemicolonIsNoExtension()
    ensures !Extensions(";")
  {
    hide Extension;
    forall k | 0 < k <= 1 ensures !Extension(";"[..k]) {
      if Extension(";"[..k]) { ExtensionStarts(";"[..k]); }
    }
  }

  /** A line that starts with `;` is read as size zero although the RFC asks for at least one digit. */
  lemma EmptySizeIsAccepted()
    ensures ParseHex(";") == Some(0) && !IsRfcSizeLine(";", 0)
  {
    assert SizeField(";") == "";
    AcceptedLineIsRfcIff(";");
  }

  // ---- Messages ----

  /** The messages that the decoder can read: no blank before a `;`, no size above 64 bits. */
  predicate Readable(m: Message) {
    && (forall i :: 0 <= i < |m.chunks| ==> Tight(m.chunks[i].line) && |m.chunks[i].data| <= INT64_MAX)
    && Tight(m.lastLine)
  }

  function Data(m: Message): seq<string> {
    seq(|m.chunks|, i requires 0 <= i < |m.chunks| => m.chunks[i].data)
  }

  lemma {:induction false} PayloadIsConcat(m: Message)
    ensures Payload(m) == Concat(Data(m))
    decreases |m.chunks|
  {
    if m.chunks != [] {
      var m' := m.(chunks := m.chunks[1..]);
      PayloadIsConcat(m');
      assert Data(m)[1..] == Data(m');
    }
  }

  lemma ReadableIsValid(m: Message)
    requires RfcMessage(m) && Readable(m)
    ensures ValidMessage(m)
  {
    hide IsRfcSizeLine, Tight, ParseHex, FieldLine;
    forall i | 0 <= i < |m.chunks| ensures ValidChunk(m.chunks[i]) {
      var c := m.chunks[i];
      assert RfcChunk(c);
      RfcLineIsReadIffTight(c.line, |c.data|);
      RfcLineHasNoCrlf(c.line, |c.data|);
    }
    RfcLineIsReadIffTight(m.lastLine, 0);
    RfcLineHasNoCrlf(m.lastLine, 0);
    forall i | 0 <= i < |m.trailers| ensures ValidTrailer(m.trailers[i]) {
      FieldLineIsTrailer(m.trailers[i]);
    }
  }

  /** A refused size line at the front of the input ends the decoding. */
  lemma RefusedLineFails(line: string, rest: string)
    requires NoCrlf(line) && ParseHex(line) == None
    ensures !Decode(line + CRLF + rest).ok
  {
    CrlfOfLine(line, rest);
    assert (line + CRLF + rest)[..|line|] == line;
    assert ReadHeader(line + CRLF + rest) == BadLine;
  }

  lemma {:induction false} UnreadableFails(m: Message, rest: string)
    requires RfcMessage(m) && !Readable(m)
    ensures !Decode(Render(m) + rest).ok
    decreases |m.chunks|
  {
    hide Decode, IsRfcSizeLine, Tight, ParseHex, FieldLine;
    if m.chunks == [] {
      RfcLineIsReadIffTight(m.lastLine, 0);
      RfcLineHasNoCrlf(m.lastLine, 0);
      RefusedLineFails(m.lastLine, RenderTrailers(m.trailers) + rest);
      RegroupLast(m.lastLine, RenderTrailers(m.trailers), rest);
    } else {
      var c, m' := m.chunks[0], m.(chunks := m.chunks[1..]);
      assert RfcChunk(c);
      RfcLineIsReadIffTight(c.line, |c.data|);
      RfcLineHasNoCrlf(c.line, |c.data|);
      RegroupChunk(c.line, c.data, Render(m'), rest);
      if Tight(c.line) && |c.data| <= INT64_MAX {
        assert !Readable(m') by { RestIsUnreadable(m); }
        UnreadableFails(m', rest);
        DecodeChunk(c, Render(m') + rest);
      } else {
        RefusedLineFails(c.line, c.data + CRLF + (Render(m') + rest));
      }
    }
  }

  lemma RestIsUnreadable(m: Message)
    requires m.chunks != [] && !Readable(m)
    requires Tight(m.chunks[0].line) && |m.chunks[0].data| <= INT64_MAX
    ensures !Readable(m.(chunks := m.chunks[1..]))
  {
    hide Tight;
    var m' := m.(chunks := m.chunks[1..]);
    if Readable(m') {
      forall i | 0 <= i < |m.chunks| ensures Tight(m.chunks[i].line) && |m.chunks[i].data| <= INT64_MAX {
        assert i > 0 ==> m.chunks[i] == m'.chunks[i - 1];
      }
    }
  }

  /** Every message of the RFC, whatever bytes follow it: it decodes to the concatenation of its chunks with
      its exact length consumed if no size line has a blank before its first `;` and no size exceeds 64 bits,
      and is refused otherwise. */
  lemma RfcMessageDecodesIffReadable(m: Message, rest: string)
    requires RfcMessage(m)
    ensures if Readable(m) then Decode(Render(m) + rest) == Decoded(true, Concat(Data(m)), |Render(m)|)
            else !Decode(Render(m) + rest).ok
  {
    hide Decode, Render, RfcMessage, Readable;
    if Readable(m) {
      ReadableIsValid(m);
      DecodeOfRender(m, rest);
      PayloadIsConcat(m);
    } else {
      UnreadableFails(m, rest);
    }
  }

  /** A size field is there, and what follows it is well formed. */
  ghost predicate Strict(line: string) {
    line != "" && line[0] != ';' && Extensions(line[|SizeField(line)|..])
  }

  /** Which of the messages that the decoder accepts belong to the RFC: those whose size lines are strict and
      whose trailer lines are field lines. */
  lemma AcceptedMessageIsRfcIff(m: Message)
    requires ValidMessage(m)
    ensures RfcMessage(m) <==>
            && (forall i :: 0 <= i < |m.chunks| ==> Strict(m.chunks[i].line))
            && Strict(m.lastLine)
            && forall i :: 0 <= i < |m.trailers| ==> FieldLine(m.trailers[i])
  {
    hide IsRfcSizeLine, Strict, ParseHex, FieldLine;
    forall i | 0 <= i < |m.chunks| ensures RfcChunk(m.chunks[i]) <==> Strict(m.chunks[i].line) {
      assert ValidChunk(m.chunks[i]);
      StrictIffRfc(m.chunks[i].line, |m.chunks[i].data|);
    }
    StrictIffRfc(m.lastLine, 0);
  }

  lemma StrictIffRfc(line: string, size: nat)
    requires SizeLine(line, size)
    ensures IsRfcSizeLine(line, size) <==> Strict(line)
  {
    assert line != "";
    hide IsRfcSizeLine, Extensions;
    AcceptedLineIsRfcIff(line);
  }

  /** A size line with at least one digit and, behind its digits, nothing or anything that starts with `;`. */
  ghost predicate LooseSizeLine(line: string, digits: string, extension: string, size: nat) {
    && line == digits + extension
    && digits != "" && AllHex(digits) && HexValue(digits) == size
    && (extension == "" || extension[0] == ';')
  }

  ghost predicate LooseChunk(c: Chunk) {
    && 0 < |c.data| <= INT64_MAX && NoCrlf(c.line)
    && exists d, e :: LooseSizeLine(c.line, d, e, |c.data|)
  }

  ghost predicate LooseMessage(m: Message) {
    && (forall i :: 0 <= i < |m.chunks| ==> LooseChunk(m.chunks[i]))
    && NoCrlf(m.lastLine) && (exists d, e :: LooseSizeLine(m.lastLine, d, e, 0))
    && forall i :: 0 <= i < |m.trailers| ==> ValidTrailer(m.trailers[i])
  }

  lemma LooseLineIsRead(line: string, digits: string, extension: string, size: nat)
    requires LooseSizeLine(line, digits, extension, size) && size <= INT64_MAX
    ensures ParseHex(line) == Some(size)
  {
    HexHasNoSemicolon(digits);
    SizeFieldOf(digits, extension);
  }

  /** Well-formed extensions and trailer fields are not needed: whatever stands between `;` and the line end,
      and whatever non-empty trailer lines follow, the message decodes to the concatenation of its chunks. */
  lemma LooseMessageDecodes(m: Message, rest: string)
    requires LooseMessage(m)
    ensures Decode(Render(m) + rest) == Decoded(true, Concat(Data(m)), |Render(m)|)
  {
    hide Decode, Render, ParseHex, LooseSizeLine;
    forall i | 0 <= i < |m.chunks| ensures ValidChunk(m.chunks[i]) {
      var c := m.chunks[i];
      assert LooseChunk(c);
      var d, e :| LooseSizeLine(c.line, d, e, |c.data|);
      LooseLineIsRead(c.line, d, e, |c.data|);
    }
    var d, e :| LooseSizeLine(m.lastLine, d, e, 0);
    LooseLineIsRead(m.lastLine, d, e, 0);
    DecodeOfRender(m, rest);
    PayloadIsConcat(m);
  }
}
