/** Printing of the Content-Length header (Modules/API/api_content_length.cpp). */
module ContentLength {
  import opened Prelude
  import opened HttpSyntax

  function DigitChar(d: int): char
    requires 0 <= d < 10
  {
    '0' + d as char
  }

  /** Decimal digits without leading zeros. */
  function Digits(n: nat): (r: string)
    ensures |r| > 0
  {
    if n < 10 then [DigitChar(n)] else Digits(n / 10) + [DigitChar(n % 10)]
  }

  /** The digits are decimal and denote the number. */
  lemma {:induction false} DigitsDenote(n: nat)
    ensures AllDec(Digits(n)) && DecValue(Digits(n)) == n
    ensures Digits(n) == "0" || Digits(n)[0] != '0'
  {
    if n < 10 {
      assert Digits(n)[..0] == "";
    } else {
      DigitsDenote(n / 10);
      assert Digits(n)[..|Digits(n)| - 1] == Digits(n / 10);
      assert DecValue("0") == 0 by { assert "0"[..0] == ""; }
    }
  }

  /** No other digit string without a leading zero denotes the same number. */
  lemma {:induction false} DigitsAreUnique(s: string)
    requires s != "" && AllDec(s) && (s == "0" || s[0] != '0')
    ensures s == Digits(DecValue(s))
    decreases |s|
  {
    var front, last := s[..|s| - 1], s[|s| - 1];
    assert s == front + [last];
    if front == "" {
      assert DecValue(front) == 0;
    } else {
      DigitsAreUnique(front);
      DigitsOfStep(DecValue(front), last);
    }
  }

  lemma DigitsOfStep(v: nat, c: char)
    requires DecDigit(c).Some?
    ensures Digits(0) == "0"
    ensures v > 0 ==> Digits(v * 10 + DecDigit(c).value) == Digits(v) + [c]
  {
    var d := DecDigit(c).value;
    assert (v * 10 + d) / 10 == v && (v * 10 + d) % 10 == d;
  }

  /** The printed length reads back through the header parser, unless it is above the 64-bit maximum. */
  lemma PrintedLengthReadsBack(n: nat)
    ensures ParseDecimal(Digits(n)) == if n <= INT64_MAX then Some(n) else None
  {
    DigitsDenote(n);
  }

  function TenTo(k: nat): nat { if k == 0 then 1 else 10 * TenTo(k - 1) }

  lemma {:induction false} DigitsAreFew(n: nat, k: nat)
    requires k > 0 && n < TenTo(k)
    ensures |Digits(n)| <= k
  {
    if n >= 10 {
      DigitsAreFew(n / 10, k - 1);
    }
  }

  /** 64-bit lengths have at most twenty digits, so the 32-character buffers suffice. */
  lemma SizeHasTwentyDigits(n: nat)
    requires n <= SIZE_MAX
    ensures |Digits(n)| <= 20
  {
    assert TenTo(5) == 100_000;
    assert TenTo(10) == 100_000 * TenTo(5);
    assert TenTo(15) == 100_000 * TenTo(10);
    assert TenTo(20) == 100_000 * TenTo(15);
    DigitsAreFew(n, 20);
  }

  /** The do-while loop: digits from the least significant one into a reversed buffer. */
  method ReversedDigits(n: nat) returns (ok: bool, reversed: array<char>, length: nat)
    requires n <= SIZE_MAX
    ensures ok && fresh(reversed) && reversed.Length == 32 && length < 32
    ensures Reverse(reversed[..length]) == Digits(n)
  {
    SizeHasTwentyDigits(n);
    reversed := new char[32](_ => ' ');
    length := 0;
    ok := false;
    var rest := n;
    var more := true;
    assert Digits(n) + Reverse(reversed[..0]) == Digits(n);
    while more
      invariant length <= |Digits(n)|
      invariant more ==> Digits(n) == Digits(rest) + Reverse(reversed[..length]) && length + |Digits(rest)| == |Digits(n)|
      invariant !more ==> Digits(n) == Reverse(reversed[..length])
      decreases more, rest
    {
      if length >= 31 {
        assert false;
        return;
      }
      ghost var before := reversed[..length];
      reversed[length] := DigitChar(rest % 10);
      assert reversed[..length + 1] == before + [DigitChar(rest % 10)];
      ReverseAppend(before, DigitChar(rest % 10));
      ReversePrepends(rest, Reverse(before));
      rest := rest / 10;
      length := length + 1;
      more := rest != 0;
    }
    ok := true;
  }

  lemma ReversePrepends(rest: nat, tail: string)
    ensures Digits(rest) + tail ==
            if rest < 10 then [DigitChar(rest % 10)] + tail else Digits(rest / 10) + ([DigitChar(rest % 10)] + tail)
  {}

  /** `api_append_content_length_header`. */
  method AppendHeader(request: string, length: nat) returns (ok: bool, request': string)
    requires length <= SIZE_MAX
    ensures ok && request' == request + "\r\nContent-Length: " + Digits(length)
  {
    var converted, reversed, count := ReversedDigits(length);
    if !converted {
      assert false;
      return false, request;
    }
    var buffer := new char[32](_ => ' ');
    ghost var source := reversed[..count];
    var index := 0;
    ReverseMirrors(source);
    while index < count
      invariant 0 <= index <= count == |Reverse(source)| && reversed[..count] == source
      invariant buffer[..index] == Reverse(source)[..index]
    {
      buffer[index] := reversed[count - index - 1];
      index := index + 1;
    }
    assert Reverse(source)[..count] == Reverse(source);
    request' := request + "\r\nContent-Length: ";
    request' := request' + buffer[..count];
    ok := true;
  }
}
