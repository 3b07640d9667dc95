/** UTF-8 and UTF-16 conversion (Modules/Advanced/advanced_wide.cpp with the primitives of
    Modules/Basic/basic_utf8_decode.cpp and basic_utf8_encode.cpp). Bytes and code units are integers;
    masks and shifts are written as division and remainder by powers of two. */
module Unicode {
  import opened Prelude

  type Byte = b: int | 0 <= b < 0x100

  type Unit = u: int | 0 <= u < 0x1_0000

  predicate IsScalar(c: int) { 0 <= c <= 0x10_FFFF && !(0xD800 <= c <= 0xDFFF) }

  type Scalar = c: int | IsScalar(c)

  /** A decoded element and the number of code units it took. */
  datatype Item = Item(code: Scalar, length: nat)

  // ---- One UTF-8 sequence ----

  predicate Trailing(b: Byte) { b / 64 == 2 }

  /** Length, payload of the first byte and smallest allowed value; None for bytes that start nothing. */
  datatype Lead = Lead(length: nat, bits: nat, minimum: nat)

  function DetectLead(b: Byte): Option<Lead> {
    if b <= 0x7F then Some(Lead(1, b, 0))
    else if b / 32 == 6 then Some(Lead(2, b % 32, 0x80))
    else if b / 16 == 14 then Some(Lead(3, b % 16, 0x800))
    else if b / 8 == 30 then Some(Lead(4, b % 8, 0x1_0000))
    else None
  }

  /** Value of a lead payload followed by continuation bytes. */
  function Accumulate(bits: nat, tail: seq<Byte>): nat {
    if tail == [] then bits else Accumulate(bits, tail[..|tail| - 1]) * 64 + tail[|tail| - 1] % 64
  }

  /** `ft_utf8_next` at the front of `s`. */
  function Next8(s: seq<Byte>): (r: Option<Item>)
    ensures r.Some? ==> 1 <= r.value.length <= |s| && r.value.length <= 4
  {
    if s == [] then None
    else
      match DetectLead(s[0])
      case None => None
      case Some(lead) =>
        if lead.length > |s| then None
        else if !forall i :: 1 <= i < lead.length ==> Trailing(s[i]) then None
        else
          var v := Accumulate(lead.bits, s[1..lead.length]);
          if v < lead.minimum || !IsScalar(v) then None else Some(Item(v, lead.length))
  }

  /** `ft_utf8_encode` into a buffer of five bytes. */
  function Encode8(c: Scalar): (r: seq<Byte>)
    ensures 1 <= |r| <= 4
  {
    assert IsScalar(c);
    if c <= 0x7F then
      var b: Byte := c;
      [b]
    else if c <= 0x7FF then [0xC0 + c / 64 % 32, 0x80 + c % 64]
    else if c <= 0xFFFF then [0xE0 + c / 4096 % 16, 0x80 + c / 64 % 64, 0x80 + c % 64]
    else [0xF0 + c / 262144 % 8, 0x80 + c / 4096 % 64, 0x80 + c / 64 % 64, 0x80 + c % 64]
  }

  lemma Accumulate1(bits: nat, a: Byte)
    ensures Accumulate(bits, [a]) == bits * 64 + a % 64
  {
    assert [a][..0] == [];
  }

  lemma Accumulate2(bits: nat, a: Byte, b: Byte)
    ensures Accumulate(bits, [a, b]) == (bits * 64 + a % 64) * 64 + b % 64
  {
    Accumulate1(bits, a);
    assert [a, b][..1] == [a];
  }

  lemma Accumulate3(bits: nat, a: Byte, b: Byte, c: Byte)
    ensures Accumulate(bits, [a, b, c]) == ((bits * 64 + a % 64) * 64 + b % 64) * 64 + c % 64
  {
    Accumulate2(bits, a, b);
    assert [a, b, c][..2] == [a, b];
  }

  lemma DetectLeads(x: nat)
    ensures x < 32 ==> DetectLead(0xC0 + x) == Some(Lead(2, x, 0x80))
    ensures x < 16 ==> DetectLead(0xE0 + x) == Some(Lead(3, x, 0x800))
    ensures x < 8 ==> DetectLead(0xF0 + x) == Some(Lead(4, x, 0x1_0000))
  {}

  lemma TrailingBytes(x: nat)
    requires x < 64
    ensures Trailing(0x80 + x) && (0x80 + x) % 64 == x
  {}

  lemma TrailingIs(b: Byte)
    requires Trailing(b)
    ensures b == 0x80 + b % 64
  {}

  /** A code point taken apart into base-64 digits. */
  lemma Split2(c: nat) returns (w: nat, x: nat)
    requires c <= 0x7FF
    ensures w < 32 && x < 64 && c == w * 64 + x
  {
    w, x := c / 64, c % 64;
  }

  lemma Split3(c: nat) returns (w: nat, x: nat, y: nat)
    requires c <= 0xFFFF
    ensures w < 16 && x < 64 && y < 64 && c == (w * 64 + x) * 64 + y
  {
    var v := c / 64;
    w, x, y := v / 64, v % 64, c % 64;
  }

  lemma Split4(c: nat) returns (w: nat, x: nat, y: nat, z: nat)
    requires c <= 0x10_FFFF
    ensures w < 8 && x < 64 && y < 64 && z < 64 && c == ((w * 64 + x) * 64 + y) * 64 + z
  {
    var v := c / 64;
    var u := v / 64;
    w, x, y, z := u / 64, u % 64, v % 64, c % 64;
  }

  lemma Compose64(w: nat, x: nat, y: nat, z: nat)
    requires x < 64 && y < 64 && z < 64
    ensures var v := ((w * 64 + x) * 64 + y) * 64 + z;
            v % 64 == z && v / 64 % 64 == y && v / 4096 % 64 == x && v / 4096 / 64 == w && v / 262144 == w
  {
    var v := ((w * 64 + x) * 64 + y) * 64 + z;
    assert v / 64 == (w * 64 + x) * 64 + y;
    assert v / 4096 == v / 64 / 64 == w * 64 + x;
  }

  /** Decoding what was encoded, whatever follows. */
  lemma NextOfEncode8(c: Scalar, rest: seq<Byte>)
    ensures Next8(Encode8(c) + rest) == Some(Item(c, |Encode8(c)|))
  {
    assert IsScalar(c);
    hide DetectLead, Trailing, Encode8, Next8;
    if c <= 0x7F {
      EncodeAscii(c);
      NextAscii(c, rest);
    } else if c <= 0x7FF {
      var w, x := Split2(c);
      Encode2(w, x);
      Next2(w, x, rest);
    } else if c <= 0xFFFF {
      var w, x, y := Split3(c);
      Encode3(w, x, y);
      Next3(w, x, y, rest);
    } else {
      var w, x, y, z := Split4(c);
      Encode4(w, x, y, z);
      Next4(w, x, y, z, rest);
    }
  }

  lemma NextAscii(b: Byte, rest: seq<Byte>)
    requires b <= 0x7F
    ensures Next8([b] + rest) == Some(Item(b, 1))
  {
    assert ([b] + rest)[1..1] == [];
  }

  lemma Next2(w: nat, x: nat, rest: seq<Byte>)
    requires w < 32 && x < 64 && w * 64 + x >= 0x80
    ensures Next8([0xC0 + w, 0x80 + x] + rest) == Some(Item(w * 64 + x, 2))
  {
    var s: seq<Byte> := [0xC0 + w, 0x80 + x] + rest;
    DetectLeads(w);
    TrailingBytes(x);
    assert s[1..2] == [s[1]];
    Accumulate1(w, s[1]);
    hide DetectLead, Trailing;
  }

  lemma Next3(w: nat, x: nat, y: nat, rest: seq<Byte>)
    requires w < 16 && x < 64 && y < 64
    requires (w * 64 + x) * 64 + y >= 0x800 && IsScalar((w * 64 + x) * 64 + y)
    ensures Next8([0xE0 + w, 0x80 + x, 0x80 + y] + rest) == Some(Item((w * 64 + x) * 64 + y, 3))
  {
    hide DetectLead, Trailing;
    var s: seq<Byte> := [0xE0 + w, 0x80 + x, 0x80 + y] + rest;
    DetectLeads(w);
    TrailingBytes(x);
    TrailingBytes(y);
    assert s[1..3] == [s[1], s[2]];
    Accumulate2(w, s[1], s[2]);
  }

  lemma Next4(w: nat, x: nat, y: nat, z: nat, rest: seq<Byte>)
    requires w < 8 && x < 64 && y < 64 && z < 64
    requires ((w * 64 + x) * 64 + y) * 64 + z >= 0x1_0000 && IsScalar(((w * 64 + x) * 64 + y) * 64 + z)
    ensures Next8([0xF0 + w, 0x80 + x, 0x80 + y, 0x80 + z] + rest)
         == Some(Item(((w * 64 + x) * 64 + y) * 64 + z, 4))
  {
    hide DetectLead, Trailing;
    var s: seq<Byte> := [0xF0 + w, 0x80 + x, 0x80 + y, 0x80 + z] + rest;
    DetectLeads(w);
    TrailingBytes(x);
    TrailingBytes(y);
    TrailingBytes(z);
    assert s[1..4] == [s[1], s[2], s[3]];
    Accumulate3(w, s[1], s[2], s[3]);
  }

  lemma LeadIs(b: Byte)
    requires DetectLead(b).Some?
    ensures var l := DetectLead(b).value;
            || (l == Lead(1, b, 0) && b <= 0x7F)
            || (l == Lead(2, b - 0xC0, 0x80) && l.bits < 32)
            || (l == Lead(3, b - 0xE0, 0x800) && l.bits < 16)
            || (l == Lead(4, b - 0xF0, 0x1_0000) && l.bits < 8)
  {}

  lemma Encode2(w: nat, x: nat)
    requires w < 32 && x < 64 && w * 64 + x >= 0x80
    ensures Encode8(w * 64 + x) == [0xC0 + w, 0x80 + x]
  {}

  lemma Encode3(w: nat, x: nat, y: nat)
    requires w < 16 && x < 64 && y < 64
    requires (w * 64 + x) * 64 + y >= 0x800 && IsScalar((w * 64 + x) * 64 + y)
    ensures Encode8((w * 64 + x) * 64 + y) == [0xE0 + w, 0x80 + x, 0x80 + y]
  {
    var v := (w * 64 + x) * 64 + y;
    Compose64(0, w, x, y);
    assert v <= 0xFFFF && v / 4096 == w;
  }

  lemma Encode4(w: nat, x: nat, y: nat, z: nat)
    requires w < 8 && x < 64 && y < 64 && z < 64
    requires ((w * 64 + x) * 64 + y) * 64 + z >= 0x1_0000 && IsScalar(((w * 64 + x) * 64 + y) * 64 + z)
    ensures Encode8(((w * 64 + x) * 64 + y) * 64 + z) == [0xF0 + w, 0x80 + x, 0x80 + y, 0x80 + z]
  {
    Compose64(w, x, y, z);
  }

  /** Encoding what was decoded gives back the consumed bytes: overlong forms are not accepted. */
  lemma EncodeOfNext8(s: seq<Byte>)
    requires Next8(s).Some?
    ensures Encode8(Next8(s).value.code) == s[..Next8(s).value.length]
  {
    hide DetectLead, Trailing, Encode8;
    var lead := DetectLead(s[0]).value;
    LeadIs(s[0]);
    if lead.length == 1 {
      assert s[1..1] == [];
      EncodeAscii(s[0]);
      assert s[..1] == [s[0]];
    } else if lead.length == 2 {
      EncodeOfTwo(s);
    } else if lead.length == 3 {
      EncodeOfThree(s);
    } else {
      EncodeOfFour(s);
    }
  }

  lemma EncodeOfTwo(s: seq<Byte>)
    requires Next8(s).Some? && DetectLead(s[0]).value.length == 2
    ensures Encode8(Next8(s).value.code) == s[..2] && Next8(s).value.length == 2
  {
    hide DetectLead, Trailing, Encode8;
    LeadIs(s[0]);
    assert Trailing(s[1]);
    TrailingIs(s[1]);
    assert s[1..2] == [s[1]];
    Accumulate1(s[0] - 0xC0, s[1]);
    Encode2(s[0] - 0xC0, s[1] % 64);
    assert s[..2] == [s[0], s[1]];
  }

  lemma EncodeOfThree(s: seq<Byte>)
    requires Next8(s).Some? && DetectLead(s[0]).value.length == 3
    ensures Encode8(Next8(s).value.code) == s[..3] && Next8(s).value.length == 3
  {
    hide DetectLead, Trailing, Encode8;
    LeadIs(s[0]);
    assert Trailing(s[1]) && Trailing(s[2]);
    TrailingIs(s[1]);
    TrailingIs(s[2]);
    assert s[1..3] == [s[1], s[2]];
    Accumulate2(s[0] - 0xE0, s[1], s[2]);
    Encode3(s[0] - 0xE0, s[1] % 64, s[2] % 64);
    assert s[..3] == [s[0], s[1], s[2]];
  }

  lemma EncodeOfFour(s: seq<Byte>)
    requires Next8(s).Some? && DetectLead(s[0]).value.length == 4
    ensures Encode8(Next8(s).value.code) == s[..4] && Next8(s).value.length == 4
  {
    hide DetectLead, Trailing, Encode8;
    LeadIs(s[0]);
    assert Trailing(s[1]) && Trailing(s[2]) && Trailing(s[3]);
    TrailingIs(s[1]);
    TrailingIs(s[2]);
    TrailingIs(s[3]);
    assert s[1..4] == [s[1], s[2], s[3]];
    Accumulate3(s[0] - 0xF0, s[1], s[2], s[3]);
    Encode4(s[0] - 0xF0, s[1] % 64, s[2] % 64, s[3] % 64);
    assert s[..4] == [s[0], s[1], s[2], s[3]];
  }

  lemma EncodeAscii(b: Byte)
    requires b <= 0x7F
    ensures Encode8(b) == [b]
  {}

  // ---- One UTF-16 sequence ----

  predicate High(u: Unit) { 0xD800 <= u <= 0xDBFF }

  predicate Low(u: Unit) { 0xDC00 <= u <= 0xDFFF }

  /** `ft_utf16_decode_unit` at the front of `s`. */
  function Next16(s: seq<Unit>): (r: Option<Item>)
    ensures r.Some? ==> 1 <= r.value.length <= |s| && r.value.length <= 2
  {
    if s == [] then None
    else if High(s[0]) then
      if |s| < 2 || !Low(s[1]) then None
      else
        var first: int, second: int := s[0], s[1];
        Some(Item(0x1_0000 + (first - 0xD800) * 1024 + (second - 0xDC00), 2))
    else if Low(s[0]) then None
    else Some(Item(s[0], 1))
  }

  /** The one or two units written for a code point. */
  function Encode16(c: Scalar): (r: seq<Unit>)
    ensures 1 <= |r| <= 2
  {
    assert IsScalar(c);
    if c <= 0xFFFF then
      var u: Unit := c;
      [u]
    else
      var a: int := c - 0x1_0000;
      [0xD800 + a / 1024, 0xDC00 + a % 1024]
  }

  lemma NextOfEncode16(c: Scalar, rest: seq<Unit>)
    ensures Next16(Encode16(c) + rest) == Some(Item(c, |Encode16(c)|))
  {
    assert IsScalar(c);
    var e := Encode16(c);
    assert (e + rest)[0] == e[0];
    if c > 0xFFFF {
      assert (e + rest)[1] == e[1];
    }
  }

  lemma EncodeOfNext16(s: seq<Unit>)
    requires Next16(s).Some?
    ensures Encode16(Next16(s).value.code) == s[..Next16(s).value.length]
  {
    if High(s[0]) {
      var x: int, y: int := s[0] - 0xD800, s[1] - 0xDC00;
      assert (x * 1024 + y) / 1024 == x && (x * 1024 + y) % 1024 == y;
      assert s[..2] == [s[0], s[1]];
    } else {
      assert s[..1] == [s[0]];
    }
  }

  // ---- Whole strings ----

  function Encode8All(cs: seq<Scalar>): seq<Byte> {
    if cs == [] then [] else Encode8(cs[0]) + Encode8All(cs[1..])
  }

  function Encode16All(cs: seq<Scalar>): seq<Unit> {
    if cs == [] then [] else Encode16(cs[0]) + Encode16All(cs[1..])
  }

  function Decode8All(s: seq<Byte>): Option<seq<Scalar>>
    decreases |s|
  {
    if s == [] then Some([])
    else
      match Next8(s)
      case None => None
      case Some(item) =>
        match Decode8All(s[item.length..])
        case None => None
        case Some(cs) => Some([item.code] + cs)
  }

  function Decode16All(s: seq<Unit>): Option<seq<Scalar>>
    decreases |s|
  {
    if s == [] then Some([])
    else
      match Next16(s)
      case None => None
      case Some(item) =>
        match Decode16All(s[item.length..])
        case None => None
        case Some(cs) => Some([item.code] + cs)
  }

  lemma {:induction false} DecodeOfEncode8(cs: seq<Scalar>)
    ensures Decode8All(Encode8All(cs)) == Some(cs)
  {
    hide Next8, Encode8;
    if cs != [] {
      var e, rest := Encode8(cs[0]), Encode8All(cs[1..]);
      NextOfEncode8(cs[0], rest);
      DecodeOfEncode8(cs[1..]);
      assert (e + rest)[|e|..] == rest;
      assert [cs[0]] + cs[1..] == cs;
    }
  }

  lemma {:induction false} DecodeOfEncode16(cs: seq<Scalar>)
    ensures Decode16All(Encode16All(cs)) == Some(cs)
  {
    hide Next16, Encode16;
    if cs != [] {
      var e, rest := Encode16(cs[0]), Encode16All(cs[1..]);
      NextOfEncode16(cs[0], rest);
      DecodeOfEncode16(cs[1..]);
      assert (e + rest)[|e|..] == rest;
      assert [cs[0]] + cs[1..] == cs;
    }
  }

  lemma {:induction false} EncodeOfDecode8(s: seq<Byte>)
    requires Decode8All(s).Some?
    ensures Encode8All(Decode8All(s).value) == s
    decreases |s|
  {
    hide Next8, Encode8;
    if s != [] {
      var n := Next8(s).value.length;
      EncodeOfNext8(s);
      EncodeOfDecode8(s[n..]);
      assert Decode8All(s).value[1..] == Decode8All(s[n..]).value;
      assert s == s[..n] + s[n..];
    }
  }

  lemma {:induction false} EncodeOfDecode16(s: seq<Unit>)
    requires Decode16All(s).Some?
    ensures Encode16All(Decode16All(s).value) == s
    decreases |s|
  {
    hide Next16, Encode16;
    if s != [] {
      var n := Next16(s).value.length;
      EncodeOfNext16(s);
      EncodeOfDecode16(s[n..]);
      assert Decode16All(s).value[1..] == Decode16All(s[n..]).value;
      assert s == s[..n] + s[n..];
    }
  }

  // ---- Well-formedness ----

  /** Section 2.1 of RFC 2781, by position: high and low surrogates come in adjacent pairs. */
  ghost predicate Paired(s: seq<Unit>) {
    && (forall i :: 0 <= i < |s| && High(s[i]) ==> i + 1 < |s| && Low(s[i + 1]))
    && (forall i :: 0 <= i < |s| && Low(s[i]) ==> i > 0 && High(s[i - 1]))
  }

  lemma PairedTail(s: seq<Unit>, n: nat)
    requires 1 <= n <= |s| && n <= 2
    requires if n == 2 then High(s[0]) && Low(s[1]) else !High(s[0]) && !Low(s[0])
    ensures Paired(s) <==> Paired(s[n..])
  {
    var t := s[n..];
    if Paired(t) {
      forall i | 0 <= i < |s| && High(s[i]) ensures i + 1 < |s| && Low(s[i + 1]) {
        if i >= n {
          assert t[i - n] == s[i];
        }
      }
      forall i | 0 <= i < |s| && Low(s[i]) ensures i > 0 && High(s[i - 1]) {
        if i >= n {
          assert t[i - n] == s[i];
        }
      }
    }
    if Paired(s) {
      forall i | 0 <= i < |t| && High(t[i]) ensures i + 1 < |t| && Low(t[i + 1]) {
        assert t[i] == s[i + n];
      }
      forall i | 0 <= i < |t| && Low(t[i]) ensures i > 0 && High(t[i - 1]) {
        assert t[i] == s[i + n];
      }
    }
  }

  /** The UTF-16 decoder rejects exactly the inputs with an unpaired surrogate. */
  lemma {:induction false} Decode16AcceptsPaired(s: seq<Unit>)
    ensures Decode16All(s).Some? <==> Paired(s)
    decreases |s|
  {
    if s != [] && Next16(s).Some? {
      var n := Next16(s).value.length;
      PairedTail(s, n);
      Decode16AcceptsPaired(s[n..]);
    }
  }

  /** The UTF-8 decoder accepts exactly the encodings of scalar sequences. */
  lemma Decode8AcceptsEncodings(s: seq<Byte>)
    ensures Decode8All(s).Some? <==> exists cs :: s == Encode8All(cs)
  {
    if Decode8All(s).Some? {
      EncodeOfDecode8(s);
    }
    forall cs | s == Encode8All(cs) ensures Decode8All(s).Some? {
      DecodeOfEncode8(cs);
    }
  }

  // ---- Conversions ----

  function ToUtf16(s: seq<Byte>): Option<seq<Unit>>
    decreases |s|
  {
    if s == [] then Some([])
    else
      match Next8(s)
      case None => None
      case Some(item) =>
        match ToUtf16(s[item.length..])
        case None => None
        case Some(rest) => Some(Encode16(item.code) + rest)
  }

  function ToUtf8(s: seq<Unit>): Option<seq<Byte>>
    decreases |s|
  {
    if s == [] then Some([])
    else
      match Next16(s)
      case None => None
      case Some(item) =>
        match ToUtf8(s[item.length..])
        case None => None
        case Some(rest) => Some(Encode8(item.code) + rest)
  }

  /** The one-pass conversion is decoding to scalars followed by encoding. */
  lemma {:induction false} ToUtf16Meaning(s: seq<Byte>)
    ensures ToUtf16(s).Some? <==> Decode8All(s).Some?
    ensures ToUtf16(s).Some? ==> ToUtf16(s).value == Encode16All(Decode8All(s).value)
    decreases |s|
  {
    hide Next8, Encode16;
    if s != [] && Next8(s).Some? {
      var n := Next8(s).value.length;
      ToUtf16Meaning(s[n..]);
      if Decode8All(s[n..]).Some? {
        assert Decode8All(s).value[1..] == Decode8All(s[n..]).value;
      }
    }
  }

  lemma {:induction false} ToUtf8Meaning(s: seq<Unit>)
    ensures ToUtf8(s).Some? <==> Decode16All(s).Some?
    ensures ToUtf8(s).Some? ==> ToUtf8(s).value == Encode8All(Decode16All(s).value)
    decreases |s|
  {
    hide Next16, Encode8;
    if s != [] && Next16(s).Some? {
      var n := Next16(s).value.length;
      ToUtf8Meaning(s[n..]);
      if Decode16All(s[n..]).Some? {
        assert Decode16All(s).value[1..] == Decode16All(s[n..]).value;
      }
    }
  }

  /** UTF-8 to UTF-16 and back is the identity on everything that converts. */
  lemma RoundTrip8(s: seq<Byte>)
    requires ToUtf16(s).Some?
    ensures ToUtf8(ToUtf16(s).value) == Some(s)
  {
    hide ToUtf16, ToUtf8, Decode8All, Decode16All, Encode8All, Encode16All;
    ToUtf16Meaning(s);
    var cs := Decode8All(s).value;
    DecodeOfEncode16(cs);
    ToUtf8Meaning(ToUtf16(s).value);
    EncodeOfDecode8(s);
  }

  /** UTF-16 to UTF-8 and back is the identity on everything that converts. */
  lemma RoundTrip16(s: seq<Unit>)
    requires ToUtf8(s).Some?
    ensures ToUtf16(ToUtf8(s).value) == Some(s)
  {
    hide ToUtf16, ToUtf8, Decode8All, Decode16All, Encode8All, Encode16All;
    ToUtf8Meaning(s);
    var cs := Decode16All(s).value;
    DecodeOfEncode8(cs);
    ToUtf16Meaning(ToUtf8(s).value);
    EncodeOfDecode16(s);
  }

  // ---- The methods ----

  /** `ft_utf8_next` at `index`, byte by byte. */
  method ScanUtf8(s: seq<Byte>, index: nat) returns (item: Option<Item>)
    requires index < |s|
    ensures item == Next8(s[index..])
  {
    ghost var tail := s[index..];
    var lead := DetectLead(s[index]);
    if lead.None? {
      return None;
    }
    var n := lead.value.length;
    if index + n > |s| {
      return None;
    }
    var value := lead.value.bits;
    var processed := 1;
    while processed < n
      invariant 1 <= processed <= n
      invariant forall i :: 1 <= i < processed ==> Trailing(tail[i])
      invariant value == Accumulate(lead.value.bits, tail[1..processed])
    {
      var continuation := s[index + processed];
      assert continuation == tail[processed];
      if !Trailing(continuation) {
        return None;
      }
      assert tail[1..processed + 1][..processed - 1] == tail[1..processed];
      value := value * 64 + continuation % 64;
      processed := processed + 1;
    }
    if value < lead.value.minimum || value > 0x10_FFFF {
      return None;
    }
    if 0xD800 <= value <= 0xDFFF {
      return None;
    }
    return Some(Item(value, n));
  }

  /** What an explicit length, or else the terminating zero, makes of the memory behind the pointer. */
  function Effective<T(==)>(memory: seq<T>, length: nat, zero: T): (r: seq<T>)
    requires length <= |memory|
    ensures r <= memory
  {
    if length != 0 then memory[..length]
    else if memory == [] || memory[0] == zero then []
    else [memory[0]] + Effective(memory[1..], 0, zero)
  }

  lemma {:induction false} TerminatorAt<T>(memory: seq<T>, zero: T, n: nat)
    requires n < |memory| && memory[n] == zero && zero !in memory[..n]
    ensures Effective(memory, 0, zero) == memory[..n]
    decreases n
  {
    if n > 0 {
      assert memory[0] in memory[..n];
      assert memory[1..][..n - 1] == memory[..n][1..];
      TerminatorAt(memory[1..], zero, n - 1);
    }
  }

  /** The length scan shared by the converters. */
  method EffectiveLength<T(==)>(memory: seq<T>, length: nat, zero: T) returns (n: nat)
    requires length <= |memory|
    requires length == 0 ==> zero in memory
    ensures n <= |memory| && memory[..n] == Effective(memory, length, zero)
  {
    n := length;
    if n != 0 {
      return;
    }
    while memory[n] != zero
      invariant n < |memory| && zero !in memory[..n]
      decreases |memory| - n
    {
      n := n + 1;
    }
    TerminatorAt(memory, zero, n);
  }

  /** The bytes that a caller's pointer and length stand for; a null pointer stands for no bytes. */
  function Argument<T(==)>(input: Option<seq<T>>, length: nat, zero: T): seq<T>
    requires input.Some? ==> length <= |input.value|
  {
    if input.None? then [] else Effective(input.value, length, zero)
  }

  /** At `index`, with `output` written, the conversion of all units is `total`. */
  ghost predicate Converting(total: Option<seq<Byte>>, units: seq<Unit>, index: nat, output: seq<Byte>)
    requires index <= |units|
  {
    match ToUtf8(units[index..])
    case None => total.None?
    case Some(rest) => total == Some(output + rest)
  }

  lemma ConvertStarts(units: seq<Unit>)
    ensures Converting(ToUtf8(units), units, 0, [])
  {
    hide ToUtf8;
    assert units[0..] == units;
    if ToUtf8(units).Some? {
      assert [] + ToUtf8(units).value == ToUtf8(units).value;
    }
  }

  lemma ConvertStep(total: Option<seq<Byte>>, units: seq<Unit>, index: nat, output: seq<Byte>, item: Item)
    requires index < |units| && Converting(total, units, index, output)
    requires Next16(units[index..]) == Some(item)
    ensures Converting(total, units, index + item.length, output + Encode8(item.code))
  {
    hide Next16, Encode8;
    var s := units[index..];
    assert s[item.length..] == units[index + item.length..];
    if ToUtf8(s[item.length..]).Some? {
      Associative(output, Encode8(item.code), ToUtf8(s[item.length..]).value);
    }
  }

  lemma Associative<T>(a: seq<T>, b: seq<T>, c: seq<T>)
    ensures a + (b + c) == (a + b) + c
  {}

  lemma ConvertFails(total: Option<seq<Byte>>, units: seq<Unit>, index: nat, output: seq<Byte>)
    requires index < |units| && Converting(total, units, index, output) && Next16(units[index..]).None?
    ensures total.None?
  {
    hide Next16;
  }

  lemma ConvertEnds(total: Option<seq<Byte>>, units: seq<Unit>, output: seq<Byte>)
    requires Converting(total, units, |units|, output)
    ensures total == Some(output)
  {
    assert units[|units|..] == [] && output + [] == output;
  }

  /** `adv_utf16_to_utf8`. */
  method Utf16ToUtf8(input: Option<seq<Unit>>, inputLength: nat) returns (result: Option<seq<Byte>>)
    requires input.Some? ==> inputLength <= |input.value|
    requires input.Some? && inputLength == 0 ==> 0 in input.value
    ensures input.None? && inputLength != 0 ==> result == None
    ensures !(input.None? && inputLength != 0) ==> result == ToUtf8(Argument(input, inputLength, 0))
  {
    hide ToUtf8, Next16, Encode8, Effective;
    if input.None? && inputLength != 0 {
      return None;
    }
    var units: seq<Unit> := [];
    if input.Some? {
      var length := EffectiveLength(input.value, inputLength, 0);
      units := input.value[..length];
    }
    ghost var total := ToUtf8(units);
    var output: seq<Byte> := [];
    var index := 0;
    ConvertStarts(units);
    hide Converting;
    while index < |units|
      invariant 0 <= index <= |units|
      invariant Converting(total, units, index, output)
    {
      var item := DecodeUnit(units, index);
      if item.None? {
        ConvertFails(total, units, index, output);
        return None;
      }
      ConvertStep(total, units, index, output, item.value);
      output := output + Encode8(item.value.code);
      index := index + item.value.length;
    }
    ConvertEnds(total, units, output);
    return Some(output);
  }

  /** `ft_utf16_decode_unit` at `index`. */
  method DecodeUnit(s: seq<Unit>, index: nat) returns (item: Option<Item>)
    requires index < |s|
    ensures item == Next16(s[index..])
  {
    var first: int := s[index];
    if 0xD800 <= first <= 0xDBFF {
      if index + 1 >= |s| {
        return None;
      }
      var second: int := s[index + 1];
      if second < 0xDC00 || second > 0xDFFF {
        return None;
      }
      var code := 0x1_0000;
      code := code + (first - 0xD800) * 1024;
      code := code + (second - 0xDC00);
      return Some(Item(code, 2));
    }
    if 0xDC00 <= first <= 0xDFFF {
      return None;
    }
    return Some(Item(first, 1));
  }

  /** At `index` the units `rest` are still to be written. */
  ghost predicate Pending(bytes: seq<Byte>, index: nat, rest: Option<seq<Unit>>)
    requires index <= |bytes|
  {
    ToUtf16(bytes[index..]) == rest
  }

  lemma PendingStarts(bytes: seq<Byte>)
    ensures Pending(bytes, 0, ToUtf16(bytes))
  {
    assert bytes[0..] == bytes;
  }

  lemma PendingEnds(bytes: seq<Byte>)
    ensures Pending(bytes, |bytes|, Some([]))
  {
    assert bytes[|bytes|..] == [];
  }

  /** One decoded element in front of a conversion that goes on. */
  lemma PendingStep(bytes: seq<Byte>, index: nat, rest: Option<seq<Unit>>, item: Item) returns (next: Option<seq<Unit>>)
    requires index < |bytes| && Pending(bytes, index, rest) && Next8(bytes[index..]) == Some(item)
    ensures Pending(bytes, index + item.length, next)
    ensures rest == if next.None? then None else Some(Encode16(item.code) + next.value)
  {
    hide Next8, Encode16;
    next := ToUtf16(bytes[index + item.length..]);
    assert bytes[index..][item.length..] == bytes[index + item.length..];
  }

  lemma PendingFails(bytes: seq<Byte>, index: nat, rest: Option<seq<Unit>>)
    requires index < |bytes| && Pending(bytes, index, rest) && Next8(bytes[index..]).None?
    ensures rest.None?
  {
    hide Next8;
  }

  lemma Encode16Length(c: Scalar)
    ensures |Encode16(c)| == if c <= 0xFFFF then 1 else 2
  {}

  /** The counting pass: how many units the second pass will write. */
  method CountUnits(bytes: seq<Byte>) returns (ok: bool, count: nat)
    ensures ok <==> ToUtf16(bytes).Some?
    ensures ok ==> count == |ToUtf16(bytes).value|
  {
    hide Next8, ToUtf16, Encode16, Pending;
    ghost var total := ToUtf16(bytes);
    ghost var rest := total;
    PendingStarts(bytes);
    count := 0;
    var index := 0;
    while index < |bytes|
      invariant 0 <= index <= |bytes|
      invariant Pending(bytes, index, rest)
      invariant total.Some? <==> rest.Some?
      invariant total.Some? ==> |total.value| == count + |rest.value|
    {
      var item := ScanUtf8(bytes, index);
      if item.None? {
        PendingFails(bytes, index, rest);
        return false, 0;
      }
      rest := PendingStep(bytes, index, rest, item.value);
      Encode16Length(item.value.code);
      if item.value.code <= 0xFFFF {
        count := count + 1;
      } else {
        count := count + 2;
      }
      index := index + item.value.length;
    }
    PendingEnds(bytes);
    PendingIsUnique(bytes, |bytes|, rest, Some([]));
    ok := true;
  }

  lemma PendingIsUnique(bytes: seq<Byte>, index: nat, r1: Option<seq<Unit>>, r2: Option<seq<Unit>>)
    requires index <= |bytes| && Pending(bytes, index, r1) && Pending(bytes, index, r2)
    ensures r1 == r2
  {}

  /** The second pass: the units of one element behind the ones already written. */
  method WriteUnits(buffer: array<Unit>, at: nat, code: Scalar) returns (next: nat)
    requires at + |Encode16(code)| <= buffer.Length
    modifies buffer
    ensures next == at + |Encode16(code)|
    ensures buffer[..next] == old(buffer[..at]) + Encode16(code)
    ensures buffer[next..] == old(buffer[next..])
  {
    assert IsScalar(code);
    if code <= 0xFFFF {
      buffer[at] := code;
      next := at + 1;
    } else {
      var adjusted: int := code - 0x1_0000;
      buffer[at] := 0xD800 + adjusted / 1024;
      buffer[at + 1] := 0xDC00 + adjusted % 1024;
      next := at + 2;
    }
  }

  /** The filling pass over bytes that the counting pass has accepted. */
  method FillUnits(bytes: seq<Byte>, buffer: array<Unit>) returns (written: nat)
    requires ToUtf16(bytes).Some? && buffer.Length == |ToUtf16(bytes).value| + 1
    modifies buffer
    ensures written == buffer.Length - 1
    ensures buffer[..written] == ToUtf16(bytes).value && buffer[written] == old(buffer[written])
  {
    hide Next8, ToUtf16, Encode16, Pending;
    ghost var expected := ToUtf16(bytes).value;
    ghost var last := buffer.Length - 1;
    ghost var rest := ToUtf16(bytes);
    PendingStarts(bytes);
    written := 0;
    var index := 0;
    while index < |bytes|
      invariant 0 <= index <= |bytes| && written <= last
      invariant Pending(bytes, index, rest) && rest.Some?
      invariant expected == buffer[..written] + rest.value
      invariant buffer[last] == old(buffer[last])
    {
      var item := ScanUtf8(bytes, index);
      if item.None? {
        PendingFails(bytes, index, rest);
        assert false;
        return;
      }
      rest := PendingStep(bytes, index, rest, item.value);
      ghost var before := buffer[..written];
      Associative(before, Encode16(item.value.code), rest.value);
      assert |expected| == |before| + |Encode16(item.value.code)| + |rest.value|;
      written := WriteUnits(buffer, written, item.value.code);
      assert buffer[written..][last - written] == buffer[last];
      index := index + item.value.length;
    }
    PendingEnds(bytes);
    PendingIsUnique(bytes, |bytes|, rest, Some([]));
    assert buffer[..written] + [] == buffer[..written];
  }

  /** `ft_utf8_to_utf16`: count, allocate, fill. The buffer is filled exactly, up to its terminator. */
  method Utf8ToUtf16(input: Option<seq<Byte>>, inputLength: nat) returns (result: array?<Unit>, outputLength: nat)
    requires input.Some? ==> inputLength <= |input.value|
    requires input.Some? && inputLength == 0 ==> 0 in input.value
    ensures input.None? && inputLength != 0 ==> result == null
    ensures !(input.None? && inputLength != 0) ==>
              var expected := ToUtf16(Argument(input, inputLength, 0));
              if expected.None? then result == null && outputLength == 0
              else
                && result != null && fresh(result) && outputLength == |expected.value|
                && result[..] == expected.value + [0]
  {
    hide ToUtf16, Effective;
    outputLength := 0;
    if input.None? && inputLength != 0 {
      return null, 0;
    }
    var bytes: seq<Byte> := [];
    if input.Some? {
      var length := EffectiveLength(input.value, inputLength, 0);
      bytes := input.value[..length];
    }
    var ok, count := CountUnits(bytes);
    if !ok {
      return null, 0;
    }
    var buffer := new Unit[count + 1](_ => 0);
    outputLength := FillUnits(bytes, buffer);
    assert buffer[..] == buffer[..count] + [buffer[count]];
    result := buffer;
  }

  /** The examples of section 7 of RFC 3629, one per length, and the example of section 2.1 of RFC 2781. */
  lemma StandardExamples()
    ensures Encode8(0x41) == [0x41] && Encode8(0x391) == [0xCE, 0x91]
    ensures Encode8(0xD55C) == [0xED, 0x95, 0x9C] && Encode8(0x2_33B4) == [0xF0, 0xA3, 0x8E, 0xB4]
    ensures Encode16(0x1_2345) == [0xD808, 0xDF45]
  {}
}
