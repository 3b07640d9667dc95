/** The demo's top-five leaderboard and its text file (Demo/demo_leaderboard.cpp). */
module Leaderboard {
  import opened Prelude
  import opened HttpSyntax
  import opened ContentLength

  const U32 := 0x1_0000_0000

  datatype Score = Score(name: string, time: int)

  predicate ValidScore(e: Score) { |e.name| == 3 && 0 <= e.time < U32 }

  predicate ValidScores(b: seq<Score>) { forall i :: 0 <= i < |b| ==> ValidScore(b[i]) }

  // ---- Insertion ----

  /** Position of the first strictly slower entry, the end when there is none. */
  function Position(b: seq<Score>, time: int): (k: nat)
    ensures k <= |b|
    ensures forall i :: 0 <= i < k ==> b[i].time <= time
    ensures k < |b| ==> time < b[k].time
  {
    if b == [] || time < b[0].time then 0 else Position(b[1..], time) + 1
  }

  /** Insertion behind all entries that are at least as fast. */
  function Insert(b: seq<Score>, e: Score): seq<Score> {
    var k := Position(b, e.time);
    b[..k] + [e] + b[k..]
  }

  function TopFive(b: seq<Score>): seq<Score> { if |b| <= 5 then b else b[..5] }

  /** Everything ever inserted, kept without a limit. */
  function SortAll(history: seq<Score>): seq<Score> {
    if history == [] then [] else Insert(SortAll(history[..|history| - 1]), history[|history| - 1])
  }

  /** The board that the insertions leave. */
  function BoardAfter(history: seq<Score>): seq<Score> {
    if history == [] then [] else TopFive(Insert(BoardAfter(history[..|history| - 1]), history[|history| - 1]))
  }

  predicate Sorted(b: seq<Score>) { forall i, j :: 0 <= i < j < |b| ==> b[i].time <= b[j].time }

  /** The entries with a given time, in their order. */
  function WithTime(b: seq<Score>, t: int): seq<Score> {
    if b == [] then [] else WithTime(b[..|b| - 1], t) + (if b[|b| - 1].time == t then [b[|b| - 1]] else [])
  }

  /** r is the stable sort of h: sorted, a permutation, and ties keep their order. */
  ghost predicate IsStableSort(r: seq<Score>, h: seq<Score>) {
    Sorted(r) && multiset(r) == multiset(h) && forall t :: WithTime(r, t) == WithTime(h, t)
  }

  lemma {:induction false} WithTimeConcat(a: seq<Score>, b: seq<Score>, t: int)
    ensures WithTime(a + b, t) == WithTime(a, t) + WithTime(b, t)
    decreases |b|
  {
    if b == [] {
      assert a + b == a;
    } else {
      assert (a + b)[..|a + b| - 1] == a + b[..|b| - 1];
      WithTimeConcat(a, b[..|b| - 1], t);
    }
  }

  lemma {:induction false} NoneWithTime(b: seq<Score>, t: int)
    requires forall i :: 0 <= i < |b| ==> b[i].time != t
    ensures WithTime(b, t) == []
  {
    if b != [] {
      NoneWithTime(b[..|b| - 1], t);
    }
  }

  lemma InsertKeepsSorted(b: seq<Score>, e: Score)
    requires Sorted(b)
    ensures Sorted(Insert(b, e)) && multiset(Insert(b, e)) == multiset(b) + multiset{e}
  {
    hide Position;
    var k := Position(b, e.time);
    assert b == b[..k] + b[k..];
  }

  lemma OneWithTime(e: Score, t: int)
    ensures WithTime([e], t) == if e.time == t then [e] else []
  {
    assert [e][..0] == [];
  }

  lemma InsertIsLastOfTies(b: seq<Score>, e: Score, t: int)
    requires Sorted(b)
    ensures WithTime(Insert(b, e), t) == WithTime(b, t) + (if e.time == t then [e] else [])
  {
    hide Position, WithTime;
    var k := Position(b, e.time);
    var front, back := b[..k], b[k..];
    assert b == front + back;
    WithTimeConcat(front, back, t);
    WithTimeConcat(front + [e], back, t);
    WithTimeConcat(front, [e], t);
    OneWithTime(e, t);
    if e.time == t {
      NoneWithTime(back, t);
    }
  }

  lemma {:induction false} SortAllIsStableSort(history: seq<Score>)
    ensures IsStableSort(SortAll(history), history)
    decreases |history|
  {
    hide Insert;
    if history != [] {
      var n := |history| - 1;
      var h, e := history[..n], history[n];
      SortAllIsStableSort(h);
      InsertKeepsSorted(SortAll(h), e);
      assert history == h + [e];
      forall t ensures WithTime(SortAll(history), t) == WithTime(history, t) {
        InsertIsLastOfTies(SortAll(h), e, t);
      }
    }
  }

  lemma {:induction false} PositionInPrefix(b: seq<Score>, time: int, n: nat)
    requires n <= |b|
    ensures Position(b[..n], time) == Min(n, Position(b, time))
  {
    hide Position;
  }

  /** The element at position i after e is put at position k. */
  function Spliced(b: seq<Score>, e: Score, k: nat, i: nat): Score
    requires k <= |b| && i <= |b|
  {
    if i < k then b[i] else if i == k then e else b[i - 1]
  }

  lemma SplicedAt(b: seq<Score>, e: Score, k: nat, i: nat)
    requires k <= |b| && i <= |b|
    ensures (b[..k] + [e] + b[k..])[i] == Spliced(b, e, k, i)
  {}

  lemma InsertAt(b: seq<Score>, e: Score, i: nat)
    requires i <= |b|
    ensures |Insert(b, e)| == |b| + 1 && Insert(b, e)[i] == Spliced(b, e, Position(b, e.time), i)
  {
    hide Spliced;
    SplicedAt(b, e, Position(b, e.time), i);
  }

  lemma IsTopFive(all: seq<Score>, r: seq<Score>)
    requires |r| == Min(5, |all|) && forall i :: 0 <= i < |r| ==> r[i] == all[i]
    ensures r == TopFive(all)
  {}

  /** The board after an insertion, position by position. */
  lemma TopOfInsert(b: seq<Score>, e: Score, r: seq<Score>)
    requires |r| == Min(5, |b| + 1)
    requires forall i :: 0 <= i < |r| ==> r[i] == Spliced(b, e, Position(b, e.time), i)
    ensures r == TopFive(Insert(b, e))
  {
    hide Position, Insert, Spliced, TopFive;
    InsertAt(b, e, 0);
    forall i | 0 <= i < |r| ensures r[i] == Insert(b, e)[i] {
      InsertAt(b, e, i);
    }
    IsTopFive(Insert(b, e), r);
  }

  /** Cutting to five before an insertion loses nothing that could matter after it. */
  lemma CutBeforeInsert(b: seq<Score>, e: Score)
    ensures TopFive(Insert(TopFive(b), e)) == TopFive(Insert(b, e))
  {
    if |b| > 5 {
      var k := Position(b, e.time);
      PositionInPrefix(b, e.time, 5);
      var r := seq(5, i requires 0 <= i < 5 => Spliced(b, e, k, i));
      TopOfInsert(b, e, r);
      hide Position, Insert;
      forall i | 0 <= i < 5 ensures r[i] == Spliced(b[..5], e, Min(5, k), i) {}
      TopOfInsert(b[..5], e, r);
    }
  }

  /** After any sequence of insertions the board is the first five of the stable sort of everything inserted. */
  lemma {:induction false} BoardIsTopOfStableSort(history: seq<Score>)
    ensures BoardAfter(history) == TopFive(SortAll(history))
    ensures IsStableSort(SortAll(history), history)
    decreases |history|
  {
    hide Insert, TopFive;
    SortAllIsStableSort(history);
    if history == [] {
      TopOfNothing();
    } else {
      var n := |history| - 1;
      BoardIsTopOfStableSort(history[..n]);
      CutBeforeInsert(SortAll(history[..n]), history[n]);
    }
  }

  lemma TopOfNothing()
    ensures TopFive([]) == []
  {}

  /** A sorted list is its own stable sort. */
  lemma {:induction false} SortOfSorted(b: seq<Score>)
    requires Sorted(b)
    ensures SortAll(b) == b
    decreases |b|
  {
    if b != [] {
      var n := |b| - 1;
      SortOfSorted(b[..n]);
      InsertAtEnd(b[..n], b[n]);
      assert b == b[..n] + [b[n]];
      hide Insert;
    }
  }

  lemma InsertAtEnd(b: seq<Score>, e: Score)
    requires forall i :: 0 <= i < |b| ==> b[i].time <= e.time
    ensures Insert(b, e) == b + [e]
  {
    hide Position;
    PositionIs(b, e.time, |b|);
    assert b[..|b|] == b && b[|b|..] == [];
  }

  lemma PositionIs(b: seq<Score>, time: int, k: nat)
    requires k <= |b| && (forall i :: 0 <= i < k ==> b[i].time <= time) && (k < |b| ==> time < b[k].time)
    ensures Position(b, time) == k
  {
    hide Position;
  }

  // ---- The object ----

  class Board {
    const entries: array<Score>
    var count: nat

    constructor ()
      ensures Valid() && fresh(entries) && Contents() == []
    {
      entries := new Score[5](_ => Score("AAA", 0));
      count := 0;
    }

    ghost predicate Valid()
      reads this
    {
      entries.Length == 5 && count <= 5
    }

    ghost function Contents(): seq<Score>
      reads this, entries
      requires Valid()
    {
      entries[..count]
    }

    /** The search loop: the first strictly slower entry. */
    method FindPlace(time: int) returns (place: nat)
      requires Valid()
      ensures place == Position(Contents(), time)
    {
      place := count;
      var index := 0;
      while index < count
        invariant 0 <= index <= count && place == count
        invariant forall i :: 0 <= i < index ==> entries[i].time <= time
      {
        if time < entries[index].time {
          place := index;
          break;
        }
        index := index + 1;
      }
      PositionIs(Contents(), time, place);
    }

    /** `demo_leaderboard_insert`: find the place, shift the slower entries down, store if there is room. */
    method InsertScore(e: Score)
      requires Valid()
      modifies this, entries
      ensures Valid() && Contents() == TopFive(Insert(old(Contents()), e))
    {
      hide Position;
      ghost var before := entries[..count];
      var place := FindPlace(e.time);
      if count < 5 {
        count := count + 1;
      }
      ShiftDown(place, before);
      if place < 5 {
        entries[place] := e;
      }
      ghost var r := entries[..count];
      assert forall i :: 0 <= i < |r| && i < place ==> r[i] == before[i];
      assert forall i :: 0 <= i < |r| && i > place ==> r[i] == before[i - 1];
      assert place < |r| ==> r[place] == e;
      TopOfInsert(before, e, r);
    }

    /** The shifting loop: entries from `place` on move one position down, the last one may fall off. */
    method ShiftDown(place: nat, ghost before: seq<Score>)
      requires Valid() && place <= |before| <= count && count <= |before| + 1
      requires entries[..|before|] == before
      modifies entries
      ensures forall i :: 0 <= i < place ==> entries[i] == before[i]
      ensures forall i :: place < i < count ==> entries[i] == before[i - 1]
    {
      var move := count;
      while move > place + 1
        invariant place <= move <= count
        invariant forall i :: 0 <= i < move && i < |before| ==> entries[i] == before[i]
        invariant forall i :: move <= i < count && place < i ==> entries[i] == before[i - 1]
      {
        entries[move - 1] := entries[move - 2];
        move := move - 1;
      }
    }
  }

  // ---- The text file ----

  function Line(e: Score): string
    requires e.time >= 0
  {
    e.name + " " + Digits(e.time) + "\n"
  }

  /** What `demo_leaderboard_save` writes. */
  function Format(b: seq<Score>): string
    requires ValidScores(b)
  {
    if b == [] then "" else Line(b[0]) + Format(b[1..])
  }

  lemma U32HasTenDigits(n: nat)
    requires n < U32
    ensures |Digits(n)| <= 10
  {
    assert TenTo(5) == 100_000;
    assert TenTo(10) == 100_000 * TenTo(5);
    DigitsAreFew(n, 10);
  }

  /** Five lines fill at most 75 characters, so the 256-character buffer never truncates. */
  lemma {:induction false} FormatFits(b: seq<Score>)
    requires ValidScores(b)
    ensures |Format(b)| <= 15 * |b|
  {
    if b != [] {
      assert ValidScore(b[0]);
      U32HasTenDigits(b[0].time);
      FormatFits(b[1..]);
    }
  }

  /** `demo_leaderboard_save`: the characters handed to the file. */
  method Save(b: seq<Score>) returns (text: string)
    requires ValidScores(b) && |b| <= 5
    ensures text == Format(b) && |text| < 256
  {
    text := "";
    var index := 0;
    FormatFits(b);
    assert b[0..] == b;
    while index < |b|
      invariant 0 <= index <= |b|
      invariant Format(b) == text + Format(b[index..])
    {
      assert ValidScore(b[index]);
      assert b[index..][1..] == b[index + 1..];
      text := text + Line(b[index]);
      index := index + 1;
    }
    assert b[index..] == [];
  }

  predicate IsLetter(c: char) { 'A' <= c <= 'Z' }

  predicate Letters(s: string) { |s| >= 3 && IsLetter(s[0]) && IsLetter(s[1]) && IsLetter(s[2]) }

  /** The suffix after the first line end, empty when there is none. */
  function AfterLine(s: string): (r: string)
    ensures |r| <= |s| && (s != "" ==> |r| < |s|)
  {
    if s == "" then "" else if s[0] == '\n' then s[1..] else AfterLine(s[1..])
  }

  datatype Number = Number(value: int, rest: string)

  /** `demo_parse_u32` from an accumulated value; it wraps around at 32 bits. */
  function ParseFrom(v: int, s: string): (n: Number)
    ensures |n.rest| <= |s|
    decreases |s|
  {
    if s == "" || DecDigit(s[0]).None? then Number(v, s)
    else ParseFrom((v * 10 + DecDigit(s[0]).value) % U32, s[1..])
  }

  /** The loop of `demo_leaderboard_load` on the unread suffix with the board so far. */
  function LoadFrom(s: string, board: seq<Score>): seq<Score>
    decreases |s|
  {
    if |s| <= 4 || |board| >= 5 then board
    else if !Letters(s) then LoadFrom(AfterLine(s), board)
    else if s[3] != ' ' then board
    else
      var n := ParseFrom(0, s[4..]);
      LoadFrom(AfterLine(n.rest), TopFive(Insert(board, Score(s[..3], n.value))))
  }

  // ---- Any text, line by line ----

  lemma {:induction false} LineEnds(line: string, tail: string)
    requires '\n' !in line
    ensures AfterLine(line + "\n" + tail) == tail
  {
    var s := line + "\n" + tail;
    if line == "" {
      assert s[1..] == tail;
    } else {
      assert s[1..] == line[1..] + "\n" + tail;
      LineEnds(line[1..], tail);
    }
  }

  lemma LoadNeedsRoom(s: string, board: seq<Score>)
    requires |s| <= 4 || |board| >= 5
    ensures LoadFrom(s, board) == board
  {}

  /** A line that does not start with three letters changes nothing. */
  lemma OtherLineIsSkipped(line: string, tail: string, board: seq<Score>)
    requires '\n' !in line && !Letters(line)
    ensures LoadFrom(line + "\n" + tail, board) == LoadFrom(tail, board)
  {
    hide AfterLine, ParseFrom, Insert, TopFive;
    var s := line + "\n" + tail;
    if |s| <= 4 || |board| >= 5 {
      LoadNeedsRoom(s, board);
      LoadNeedsRoom(tail, board);
    } else {
      NoLettersHere(line, tail);
      LineEnds(line, tail);
    }
  }

  lemma NoLettersHere(line: string, tail: string)
    requires '\n' !in line && !Letters(line)
    ensures !Letters(line + "\n" + tail)
  {
    var s := line + "\n" + tail;
    assert s[|line|] == '\n' && forall i :: 0 <= i < |line| ==> s[i] == line[i];
  }

  /** Three letters with anything but a blank behind them end the loading. */
  lemma NameWithoutBlankEndsLoading(s: string, board: seq<Score>)
    requires Letters(s) && (|s| > 3 ==> s[3] != ' ')
    ensures LoadFrom(s, board) == board
  {}

  /** The digits are read modulo 2^32 and end at the first other character. */
  lemma {:induction false} ParseWraps(v: int, s: string, rest: string)
    requires 0 <= v && AllDec(s) && (rest == "" || DecDigit(rest[0]).None?)
    ensures ParseFrom(v % U32, s + rest) == Number((v * TenTo(|s|) + DecValue(s)) % U32, rest)
    decreases |s|
  {
    if s == "" {
      assert s + rest == rest;
    } else {
      var d := DecDigit(s[0]).value;
      assert (s + rest)[1..] == s[1..] + rest;
      WrapStep(v, d);
      ParseWraps(v * 10 + d, s[1..], rest);
      FirstDigit(s);
      assert (v * 10 + d) * TenTo(|s| - 1) == v * TenTo(|s|) + d * TenTo(|s| - 1) by { TenTimes(v, d, TenTo(|s| - 1)); }
    }
  }

  lemma TenTimes(v: int, d: int, t: int)
    ensures (v * 10 + d) * t == v * (10 * t) + d * t
  {}

  lemma WrapStep(v: int, d: int)
    requires 0 <= v && 0 <= d
    ensures (v % U32 * 10 + d) % U32 == (v * 10 + d) % U32
  {
    var q := v / U32;
    assert v == q * U32 + v % U32;
    assert v * 10 + d == (v % U32 * 10 + d) + (q * 10) * U32;
  }

  lemma LastDigit(s: string)
    requires s != "" && AllDec(s)
    ensures DecValue(s) == DecValue(s[..|s| - 1]) * 10 + DecDigit(s[|s| - 1]).value
  {}

  lemma Regroup10(d: int, t: int, v: int)
    ensures (d * t + v) * 10 == d * (10 * t) + v * 10
  {}

  lemma {:induction false} FirstDigit(s: string)
    requires s != "" && AllDec(s)
    ensures DecValue(s) == DecDigit(s[0]).value * TenTo(|s| - 1) + DecValue(s[1..])
    decreases |s|
  {
    hide DecDigit;
    var n := |s| - 1;
    LastDigit(s);
    if n == 0 {
      assert s[..0] == "" && s[1..] == "";
    } else {
      var front, tail := s[..n], s[1..];
      FirstDigit(front);
      assert tail[..|tail| - 1] == front[1..] && front[0] == s[0] && tail[|tail| - 1] == s[n];
      LastDigit(tail);
      hide DecValue;
      Regroup10(DecDigit(s[0]).value, TenTo(n - 1), DecValue(front[1..]));
    }
  }

  /** A line of three letters, a blank, digits and anything else inserts that name with the number modulo 2^32. */
  lemma ScoreLineIsInserted(name: string, digits: string, other: string, tail: string, board: seq<Score>)
    requires |name| == 3 && Letters(name) && AllDec(digits) && |board| < 5
    requires '\n' !in other && (other == "" || DecDigit(other[0]).None?)
    ensures LoadFrom(name + " " + digits + other + "\n" + tail, board)
         == LoadFrom(tail, TopFive(Insert(board, Score(name, DecValue(digits) % U32))))
  {
    hide Insert, TopFive, DecValue, AfterLine, DecDigit, ParseFrom, LoadFrom, Letters, TenTo;
    var rest := other + "\n" + tail;
    SplitScoreLine(name, digits, rest);
    assert name + " " + digits + other + "\n" + tail == name + " " + (digits + rest);
    NewlineIsNoDigit();
    ParseWraps(0, digits, rest);
    LineEnds(other, tail);
    LoadOneLine(name + " " + (digits + rest), Number(DecValue(digits) % U32, rest), board);
  }

  lemma SplitScoreLine(name: string, digits: string, rest: string)
    requires |name| == 3 && Letters(name) && rest != ""
    ensures var s := name + " " + (digits + rest);
            |s| > 4 && Letters(s) && s[3] == ' ' && s[..3] == name && s[4..] == digits + rest
  {}

  /** One turn of the loading loop on a line with a name and a number. */
  lemma {:induction false} LoadOneLine(s: string, n: Number, board: seq<Score>)
    requires |s| > 4 && |board| < 5 && Letters(s) && s[3] == ' ' && ParseFrom(0, s[4..]) == n
    ensures LoadFrom(s, board) == LoadFrom(AfterLine(n.rest), TopFive(Insert(board, Score(s[..3], n.value))))
  {
    hide Insert, TopFive, AfterLine, ParseFrom, Letters;
  }

  lemma NewlineIsNoDigit()
    ensures DecDigit('\n').None?
  {}

  // ---- Saving and loading ----

  lemma LoadOfLine(e: Score, tail: string, board: seq<Score>)
    requires ValidScore(e) && Letters(e.name) && |board| < 5
    ensures LoadFrom(Line(e) + tail, board) == LoadFrom(tail, TopFive(Insert(board, e)))
  {
    hide Digits, Insert, TopFive, DecValue, LoadFrom, Letters;
    var digits := Digits(e.time);
    DigitsDenote(e.time);
    ScoreLineIsInserted(e.name, digits, "", tail, board);
    assert Line(e) + tail == e.name + " " + digits + "" + "\n" + tail;
  }

  predicate LetterNames(b: seq<Score>) { forall i :: 0 <= i < |b| ==> Letters(b[i].name) }

  lemma {:induction false} LoadOfFormat(b: seq<Score>, k: nat)
    requires ValidScores(b) && LetterNames(b) && |b| <= 5 && k <= |b|
    ensures LoadFrom(Format(b[k..]), SortAll(b[..k])) == SortAll(b)
    decreases |b| - k
  {
    hide Insert, Line;
    if k == |b| {
      assert b[k..] == [] && b[..k] == b;
    } else {
      var tail := Format(b[k + 1..]);
      assert b[k..][1..] == b[k + 1..];
      assert ValidScore(b[k]) && Letters(b[k].name);
      SortLength(b[..k]);
      LoadOfLine(b[k], tail, SortAll(b[..k]));
      assert b[..k + 1][..k] == b[..k];
      SortLength(b[..k + 1]);
      LoadOfFormat(b, k + 1);
    }
  }

  lemma {:induction false} SortLength(b: seq<Score>)
    ensures |SortAll(b)| == |b|
    decreases |b|
  {
    if b != [] {
      SortLength(b[..|b| - 1]);
    }
  }

  /** Whatever the file holds, every loaded name consists of letters. */
  lemma {:induction false} LoadedNames(s: string, board: seq<Score>)
    requires LetterNames(board)
    ensures LetterNames(LoadFrom(s, board)) && |LoadFrom(s, board)| <= Max(5, |board|)
    decreases |s|
  {
    hide AfterLine, ParseFrom;
    if |s| > 4 && |board| < 5 {
      if !Letters(s) {
        LoadedNames(AfterLine(s), board);
      } else if s[3] == ' ' {
        var n := ParseFrom(0, s[4..]);
        InsertKeepsLetters(board, Score(s[..3], n.value));
        LoadedNames(AfterLine(n.rest), TopFive(Insert(board, Score(s[..3], n.value))));
      }
    }
  }

  lemma InsertKeepsLetters(board: seq<Score>, e: Score)
    requires LetterNames(board) && Letters(e.name)
    ensures LetterNames(TopFive(Insert(board, e)))
  {
    hide Position, Letters;
  }

  /** Saving and loading gives back the board exactly when it is sorted and its names are letters. */
  lemma SavedBoardLoads(b: seq<Score>)
    requires ValidScores(b) && |b| <= 5
    ensures LoadFrom(Format(b), []) == b <==> Sorted(b) && LetterNames(b)
  {
    hide Format, LoadFrom, SortAll;
    LoadedNames(Format(b), []);
    if LetterNames(b) {
      assert b[0..] == b && b[..0] == [];
      LoadOfFormat(b, 0);
      assert SortAll([]) == [] by { SortNothing(); }
      SortAllIsStableSort(b);
      if Sorted(b) {
        SortOfSorted(b);
      }
    }
  }

  lemma SortNothing()
    ensures SortAll([]) == []
  {}

  // ---- Loading ----

  /** `demo_parse_u32` at `index`. */
  method ParseU32(text: string, start: nat) returns (value: int, index: nat)
    requires start <= |text|
    ensures start <= index <= |text|
    ensures ParseFrom(0, text[start..]) == Number(value, text[index..])
  {
    value, index := 0, start;
    while index < |text| && '0' <= text[index] <= '9'
      invariant start <= index <= |text|
      invariant ParseFrom(0, text[start..]) == ParseFrom(value, text[index..])
    {
      assert text[index..][1..] == text[index + 1..];
      value := (value * 10 + (text[index] - '0') as int) % U32;
      index := index + 1;
    }
  }

  /** Both loops that step over the rest of a line. */
  method SkipLine(text: string, start: nat) returns (index: nat)
    requires start <= |text|
    ensures start <= index <= |text| && (start < |text| ==> start < index)
    ensures text[index..] == AfterLine(text[start..])
  {
    index := start;
    while index < |text| && text[index] != '\n'
      invariant start <= index <= |text|
      invariant AfterLine(text[start..]) == AfterLine(text[index..])
    {
      assert text[index..][1..] == text[index + 1..];
      index := index + 1;
    }
    if index < |text| {
      assert text[index..][1..] == text[index + 1..];
      index := index + 1;
    }
  }

  /** `demo_leaderboard_load` of a file that could be read. */
  method Load(board: Board, text: string)
    requires board.Valid()
    modifies board, board.entries
    ensures board.Valid() && board.Contents() == LoadFrom(text, [])
  {
    hide LoadFrom;
    board.count := 0;
    var index := 0;
    assert text[0..] == text;
    while index + 4 < |text| && board.count < 5
      invariant board.Valid() && 0 <= index <= |text|
      invariant LoadFrom(text[index..], board.Contents()) == LoadFrom(text, [])
    {
      hide TopFive, Insert, AfterLine, ParseFrom;
      LoadStep(text, index, board.Contents());
      if !IsLetter(text[index]) || !IsLetter(text[index + 1]) || !IsLetter(text[index + 2]) {
        index := SkipLine(text, index);
        continue;
      }
      var name := text[index..index + 3];
      index := index + 3;
      if text[index] != ' ' {
        return;
      }
      index := index + 1;
      var value;
      value, index := ParseU32(text, index);
      board.InsertScore(Score(name, value));
      index := SkipLine(text, index);
    }
    LoadStops(text[index..], board.Contents());
  }

  lemma LoadStops(s: string, board: seq<Score>)
    requires |s| <= 4 || |board| >= 5
    ensures LoadFrom(s, board) == board
  {}

  /** One line of the file, in terms of positions in the text. */
  lemma LoadStep(text: string, i: nat, board: seq<Score>)
    requires i + 4 < |text| && |board| < 5
    ensures LoadFrom(text[i..], board) ==
            if !IsLetter(text[i]) || !IsLetter(text[i + 1]) || !IsLetter(text[i + 2]) then
              LoadFrom(AfterLine(text[i..]), board)
            else if text[i + 3] != ' ' then board
            else
              var n := ParseFrom(0, text[i + 4..]);
              LoadFrom(AfterLine(n.rest), TopFive(Insert(board, Score(text[i..i + 3], n.value))))
  {
    hide TopFive, Insert, AfterLine, ParseFrom;
    var s := text[i..];
    assert s[0] == text[i] && s[1] == text[i + 1] && s[2] == text[i + 2] && s[3] == text[i + 3];
    assert s[..3] == text[i..i + 3] && s[4..] == text[i + 4..];
  }
}
