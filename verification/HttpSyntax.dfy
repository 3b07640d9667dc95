/** Line scanning and number parsing of HTTP/1.1 text (Modules/API/api_http_common.cpp). */
module HttpSyntax {
  import opened Prelude

  const CRLF: string := "\r\n"

  // ---- Line ends ----

  ghost predicate CrlfAt(s: string, i: int) {
    0 <= i < |s| - 1 && s[i] == '\r' && s[i + 1] == '\n'
  }

  ghost predicate NoCrlf(s: string) {
    forall i :: 0 <= i < |s| ==> !CrlfAt(s, i)
  }

  /** Position of the first CRLF, None when there is none. */
  function Crlf(s: string): (r: Option<nat>)
    ensures r.Some? ==> r.value + 2 <= |s|
  {
    if |s| < 2 then None
    else if s[0] == '\r' && s[1] == '\n' then Some(0)
    else
      match Crlf(s[1..])
      case None => None
      case Some(n) => Some(n + 1)
  }

  lemma {:induction false} CrlfSpec(s: string)
    ensures Crlf(s).Some? ==> CrlfAt(s, Crlf(s).value) && forall i :: 0 <= i < Crlf(s).value ==> !CrlfAt(s, i)
    ensures Crlf(s).None? ==> NoCrlf(s)
  {
    if |s| >= 2 && !(s[0] == '\r' && s[1] == '\n') {
      CrlfSpec(s[1..]);
      assert forall i :: 1 <= i < |s| ==> CrlfAt(s, i) == CrlfAt(s[1..], i - 1);
    }
  }

  lemma CrlfIsFirst(s: string, n: nat)
    requires CrlfAt(s, n)
    requires forall i :: 0 <= i < n ==> !CrlfAt(s, i)
    ensures Crlf(s) == Some(n)
  {
    CrlfSpec(s);
    assert Crlf(s).Some?;
    assert CrlfAt(s, Crlf(s).value);
  }

  /** More input after a found line end leaves that line end the first one. */
  lemma CrlfExtends(s: string, more: string)
    requires Crlf(s).Some?
    ensures Crlf(s + more) == Crlf(s)
  {
    var n := Crlf(s).value;
    CrlfSpec(s);
    forall i | 0 <= i < n ensures !CrlfAt(s + more, i) {
      assert !CrlfAt(s, i);
    }
    CrlfIsFirst(s + more, n);
  }

  /** A line without CRLF, ended by CRLF, is cut exactly at that end. */
  lemma CrlfOfLine(line: string, rest: string)
    requires NoCrlf(line)
    ensures Crlf(line + CRLF + rest) == Some(|line|)
  {
    var s := line + CRLF + rest;
    forall i | 0 <= i < |line| ensures !CrlfAt(s, i) {
      assert !CrlfAt(line, i);
    }
    assert CrlfAt(s, |line|);
    CrlfIsFirst(s, |line|);
  }

  lemma LineBeforeCrlf(s: string)
    requires Crlf(s).Some?
    ensures var n := Crlf(s).value;
            && NoCrlf(s[..n])
            && s == s[..n] + CRLF + s[n + 2..]
  {
    var n := Crlf(s).value;
    CrlfSpec(s);
    forall i | 0 <= i < n ensures !CrlfAt(s[..n], i) {
      assert !CrlfAt(s, i);
    }
    assert s[n..n + 2] == CRLF;
  }

  /** `api_http_find_crlf` over the window [start, end) of a buffer; -1 stands for the null result. */
  method FindCrlf(s: string, start: nat, end: nat) returns (at: int)
    requires start <= end <= |s|
    ensures at == -1 ==> Crlf(s[start..end]) == None
    ensures at != -1 ==> start <= at && at + 2 <= end && Crlf(s[start..end]) == Some(at - start)
  {
    ghost var window := s[start..end];
    var walker := start;
    while walker < end
      invariant start <= walker <= end
      invariant forall i :: 0 <= i < walker - start ==> !CrlfAt(window, i)
    {
      if s[walker] == '\r' {
        if walker + 1 >= end {
          CrlfSpec(window);
          return -1;
        }
        if s[walker + 1] == '\n' {
          CrlfIsFirst(window, walker - start);
          return walker;
        }
      }
      walker := walker + 1;
    }
    CrlfSpec(window);
    return -1;
  }

  // ---- Digits ----

  function ToLower(c: char): char {
    if 'A' <= c <= 'Z' then c - 'A' + 'a' else c
  }

  function HexDigit(c: char): (r: Option<nat>)
    ensures r.Some? ==> r.value < 16
  {
    var l := ToLower(c);
    if '0' <= l <= '9' then Some((l - '0') as nat)
    else if 'a' <= l <= 'f' then Some((l - 'a') as nat + 10)
    else None
  }

  function DecDigit(c: char): (r: Option<nat>)
    ensures r.Some? ==> r.value < 10
  {
    if '0' <= c <= '9' then Some((c - '0') as nat) else None
  }

  predicate AllHex(s: string) { forall i :: 0 <= i < |s| ==> HexDigit(s[i]).Some? }

  predicate AllDec(s: string) { forall i :: 0 <= i < |s| ==> DecDigit(s[i]).Some? }

  /** Positional value, most significant digit first. */
  function HexValue(s: string): nat
    requires AllHex(s)
  {
    if s == "" then 0 else HexValue(s[..|s| - 1]) * 16 + HexDigit(s[|s| - 1]).value
  }

  function DecValue(s: string): nat
    requires AllDec(s)
  {
    if s == "" then 0 else DecValue(s[..|s| - 1]) * 10 + DecDigit(s[|s| - 1]).value
  }

  lemma {:induction false} HexValueGrows(s: string, k: nat)
    requires AllHex(s) && k <= |s|
    ensures HexValue(s[..k]) <= HexValue(s)
    decreases |s|
  {
    if k < |s| {
      HexValueGrows(s[..|s| - 1], k);
      assert s[..|s| - 1][..k] == s[..k];
    } else {
      assert s[..k] == s;
    }
  }

  lemma {:induction false} DecValueGrows(s: string, k: nat)
    requires AllDec(s) && k <= |s|
    ensures DecValue(s[..k]) <= DecValue(s)
    decreases |s|
  {
    if k < |s| {
      DecValueGrows(s[..|s| - 1], k);
      assert s[..|s| - 1][..k] == s[..k];
    } else {
      assert s[..k] == s;
    }
  }

  /** The part of a chunk-size line that is read as a number: everything before the first `;`. */
  function SizeField(line: string): (r: string)
    ensures r <= line && ';' !in r
    ensures |r| < |line| ==> line[|r|] == ';'
  {
    if line == "" || line[0] == ';' then "" else [line[0]] + SizeField(line[1..])
  }

  /** What `api_http_parse_hex` accepts: a non-empty line whose size field is hexadecimal and fits. */
  function ParseHex(line: string): Option<nat> {
    var f := SizeField(line);
    if line != "" && AllHex(f) && HexValue(f) <= INT64_MAX then Some(HexValue(f)) else None
  }

  /** What `api_http_parse_decimal` accepts: a non-empty run of digits not above the 64-bit maximum. */
  function ParseDecimal(s: string): Option<nat> {
    if s != "" && AllDec(s) && DecValue(s) <= INT64_MAX then Some(DecValue(s)) else None
  }

  /** The first k digits have been read, and their value still fits. */
  ghost predicate HexRead(field: string, k: nat, value: nat) {
    k <= |field| && AllHex(field[..k]) && HexValue(field[..k]) == value <= INT64_MAX
  }

  lemma HexStarts(field: string)
    ensures HexRead(field, 0, 0)
  {}

  /** One more digit: it is read when the value still fits, and then the whole can fit only if it does. */
  lemma HexAdvances(field: string, k: nat, value: nat, digit: nat)
    requires HexRead(field, k, value) && k < |field| && HexDigit(field[k]) == Some(digit)
    ensures value * 16 + digit <= INT64_MAX ==> HexRead(field, k + 1, value * 16 + digit)
    ensures value * 16 + digit > INT64_MAX && AllHex(field) ==> HexValue(field) > INT64_MAX
  {
    assert field[..k + 1][..k] == field[..k];
    assert AllHex(field[..k + 1]) && HexValue(field[..k + 1]) == value * 16 + digit;
    if AllHex(field) {
      HexValueGrows(field, k + 1);
    }
  }

  lemma HexEnds(line: string, value: nat)
    requires line != "" && HexRead(SizeField(line), |SizeField(line)|, value)
    ensures ParseHex(line) == Some(value)
  {
    hide HexValue, SizeField;
    var field := SizeField(line);
    assert field[..|field|] == field;
  }

  lemma HexFails(line: string, k: nat)
    requires var field := SizeField(line);
             (k < |field| && HexDigit(field[k]) == None) || (AllHex(field) ==> HexValue(field) > INT64_MAX)
    ensures ParseHex(line) == None
  {}

  lemma SizeFieldAt(line: string, k: nat)
    requires k < |line| && k <= |SizeField(line)|
    ensures if line[k] == ';' then k == |SizeField(line)| else k < |SizeField(line)| && SizeField(line)[k] == line[k]
  {}

  /** `api_http_parse_hex` over the window [start, end), with its overflow tests. */
  method ScanHex(s: string, start: nat, end: nat) returns (ok: bool, value: nat)
    requires start <= end <= |s|
    ensures ok <==> ParseHex(s[start..end]).Some?
    ensures ok ==> ParseHex(s[start..end]) == Some(value)
  {
    ghost var line := s[start..end];
    ghost var field := SizeField(line);
    ok, value := false, 0;
    if start == end {
      return false, 0;
    }
    hide SizeField, HexRead, ParseHex, HexDigit;
    HexStarts(field);
    var walker := start;
    while walker < end
      invariant start <= walker <= end && walker - start <= |field|
      invariant HexRead(field, walker - start, value) && value <= INT64_MAX
    {
      ghost var k := walker - start;
      assert s[walker] == line[k];
      SizeFieldAt(line, k);
      if s[walker] == ';' {
        break;
      }
      var digit := HexDigit(s[walker]);
      if digit.None? {
        HexFails(line, k);
        return false, 0;
      }
      HexAdvances(field, k, value, digit.value);
      if value > INT64_MAX / 16 {
        HexFails(line, k);
        return false, 0;
      }
      value := value * 16;
      if value > INT64_MAX - digit.value {
        // The test before already bounds the shifted value by INT64_MAX - 15.
        assert false;
        return;
      }
      value := value + digit.value;
      walker := walker + 1;
    }
    assert walker - start == |field|;
    HexEnds(line, value);
    ok := true;
  }

  /** The first k digits have been read, and their value still fits. */
  ghost predicate DecRead(field: string, k: nat, value: nat) {
    k <= |field| && AllDec(field[..k]) && DecValue(field[..k]) == value <= INT64_MAX
  }

  lemma DecStarts(field: string)
    ensures DecRead(field, 0, 0)
  {}

  lemma DecAdvances(field: string, k: nat, value: nat, digit: nat)
    requires DecRead(field, k, value) && k < |field| && DecDigit(field[k]) == Some(digit)
    ensures value * 10 + digit <= INT64_MAX ==> DecRead(field, k + 1, value * 10 + digit)
    ensures value * 10 + digit > INT64_MAX && AllDec(field) ==> DecValue(field) > INT64_MAX
  {
    assert field[..k + 1][..k] == field[..k];
    assert AllDec(field[..k + 1]) && DecValue(field[..k + 1]) == value * 10 + digit;
    if AllDec(field) {
      DecValueGrows(field, k + 1);
    }
  }

  lemma DecEnds(field: string, value: nat)
    requires field != "" && DecRead(field, |field|, value)
    ensures ParseDecimal(field) == Some(value)
  {
    hide DecValue;
    assert field[..|field|] == field;
  }

  lemma DecFails(field: string, k: nat)
    requires (k < |field| && DecDigit(field[k]) == None) || (AllDec(field) ==> DecValue(field) > INT64_MAX)
    ensures ParseDecimal(field) == None
  {}

  /** `api_http_parse_decimal` over the window [start, end), with its overflow tests. */
  method ScanDecimal(s: string, start: nat, end: nat) returns (ok: bool, value: nat)
    requires start <= end <= |s|
    ensures ok <==> ParseDecimal(s[start..end]).Some?
    ensures ok ==> ParseDecimal(s[start..end]) == Some(value)
  {
    ghost var field := s[start..end];
    value := 0;
    if start == end {
      return false, 0;
    }
    hide DecRead, ParseDecimal, DecDigit;
    DecStarts(field);
    var walker := start;
    while walker < end
      invariant start <= walker <= end
      invariant DecRead(field, walker - start, value) && value <= INT64_MAX
    {
      ghost var k := walker - start;
      assert s[walker] == field[k];
      var digit := DecDigit(s[walker]);
      if digit.None? {
        DecFails(field, k);
        return false, 0;
      }
      DecAdvances(field, k, value, digit.value);
      if value > INT64_MAX / 10 {
        DecFails(field, k);
        return false, 0;
      }
      value := value * 10;
      if value > INT64_MAX - digit.value {
        DecFails(field, k);
        return false, 0;
      }
      value := value + digit.value;
      walker := walker + 1;
    }
    DecEnds(field, value);
    ok := true;
  }
}
