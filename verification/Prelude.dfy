/** Shared vocabulary: optional values (null pointers and failure returns) and machine limits. */
module Prelude {
  datatype Option<+T> = None | Some(value: T)

  const INT32_MAX: int := 0x7FFF_FFFF
  const INT64_MAX: int := 0x7FFF_FFFF_FFFF_FFFF
  const SIZE_MAX: int := 0xFFFF_FFFF_FFFF_FFFF

  function Min(a: int, b: int): int { if a <= b then a else b }

  function Max(a: int, b: int): int { if a >= b then a else b }

  /** Concatenation of a list of pieces. */
  function Concat<T>(pieces: seq<seq<T>>): seq<T> {
    if pieces == [] then [] else pieces[0] + Concat(pieces[1..])
  }

  lemma {:induction false} ConcatAppend<T>(xs: seq<seq<T>>, ys: seq<seq<T>>)
    ensures Concat(xs + ys) == Concat(xs) + Concat(ys)
  {
    if xs == [] {
      assert xs + ys == ys;
    } else {
      assert (xs + ys)[1..] == xs[1..] + ys;
      ConcatAppend(xs[1..], ys);
    }
  }

  function Reverse<T>(xs: seq<T>): seq<T> {
    if xs == [] then [] else Reverse(xs[1..]) + [xs[0]]
  }

  lemma {:induction false} ReverseAppend<T>(xs: seq<T>, x: T)
    ensures Reverse(xs + [x]) == [x] + Reverse(xs)
  {
    if xs == [] {
      assert [] + [x] == [x] && [x][1..] == [];
    } else {
      assert (xs + [x])[1..] == xs[1..] + [x];
      ReverseAppend(xs[1..], x);
    }
  }

  lemma {:induction false} ReverseMirrors<T>(xs: seq<T>)
    ensures |Reverse(xs)| == |xs|
    ensures forall k :: 0 <= k < |xs| ==> Reverse(xs)[k] == xs[|xs| - 1 - k]
  {
    if xs != [] {
      ReverseMirrors(xs[1..]);
    }
  }

  /** A text is cut at its first separator in only one way. */
  lemma CutAtSeparator<T>(a: seq<T>, b: seq<T>, a': seq<T>, b': seq<T>, sep: T)
    requires sep !in a && sep !in a' && a + [sep] + b == a' + [sep] + b'
    ensures a == a' && b == b'
  {
    var s := a + [sep] + b;
    assert s == a' + [sep] + b';
    assert s[|a|] == sep && s[|a'|] == sep;
    assert forall i :: 0 <= i < |a| ==> s[i] == a[i];
    assert forall i :: 0 <= i < |a'| ==> s[i] == a'[i];
    assert |a| == |a'|;
    assert a == s[..|a|] && a' == s[..|a'|];
    assert b == s[|a| + 1..] && b' == s[|a'| + 1..];
  }

  // ---- Row-major indices ----

  lemma MulLe(a: nat, x: int, y: int)
    requires x <= y
    ensures a * x <= a * y
  {}

  lemma MulGap(a: nat, x: int, y: int)
    ensures x > y ==> a * x >= a * y + a
  {
    if x > y {
      MulLe(a, y + 1, x);
      assert a * (y + 1) == a * y + a;
    }
  }

  lemma IndexInRange(width: nat, height: nat, x: int, y: int)
    requires 0 <= x < width && 0 <= y < height
    ensures 0 <= y * width + x < width * height
  {
    MulLe(width, y + 1, height);
    assert width * (y + 1) == y * width + width;
  }

  lemma IndexIsInjective(width: nat, x: int, y: int, x': int, y': int)
    requires 0 <= x < width && 0 <= x' < width && y * width + x == y' * width + x'
    ensures x == x' && y == y'
  {
    MulGap(width, y', y);
    MulGap(width, y, y');
  }
}
