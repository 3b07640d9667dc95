/** A reader of JSON texts after sections 2 to 7 of RFC 8259, for objects, numbers and strings without escapes, and
    what it makes of the request bodies that are measured and streamed. It shares nothing with their rendering. */
module JsonReader {
  import opened Prelude
  import opened JsonPayload

  datatype Json = Text(text: string) | Number(text: string) | Object(members: seq<Member>)

  datatype Member = Member(name: string, value: Json)

  /** A value read off the front of a text, and what follows it. */
  datatype Read<+T> = Fail | Done(value: T, rest: string)

  // ---- The reader ----

  predicate IsSpace(c: char) { c == ' ' || c == '\t' || c == '\n' || c == '\r' }

  function SkipSpace(s: string): (r: string)
    ensures |r| <= |s|
  {
    if s != "" && IsSpace(s[0]) then SkipSpace(s[1..]) else s
  }

  /** A character that stands for itself in a string: no quote, no backslash, no control character. */
  predicate Unescaped(c: char) { ' ' <= c && c != '"' && c != '\\' }

  predicate Plain(s: string) { forall i :: 0 <= i < |s| ==> Unescaped(s[i]) }

  /** The rest of a string behind its opening quote. */
  function ReadText(s: string): (r: Read<string>)
    ensures r.Done? ==> |r.rest| < |s|
  {
    if s == "" then Fail
    else if s[0] == '"' then Done("", s[1..])
    else if !Unescaped(s[0]) then Fail
    else
      match ReadText(s[1..])
      case Fail => Fail
      case Done(text, rest) => Done([s[0]] + text, rest)
  }

  predicate IsDigit(c: char) { '0' <= c <= '9' }

  predicate AllDigits(s: string) { s != "" && forall i :: 0 <= i < |s| ==> IsDigit(s[i]) }

  predicate IsWhole(s: string) { AllDigits(s) && (s == "0" || s[0] != '0') }

  predicate IsFraction(s: string) { s == "" || (s[0] == '.' && AllDigits(s[1..])) }

  predicate IsExponent(s: string) {
    || s == ""
    || (|s| > 1 && (s[0] == 'e' || s[0] == 'E')
        && (AllDigits(s[1..]) || ((s[1] == '+' || s[1] == '-') && AllDigits(s[2..]))))
  }

  ghost predicate IsNumber(s: string) {
    exists sign, whole, fraction, exponent ::
      && s == sign + whole + fraction + exponent && (sign == "" || sign == "-")
      && IsWhole(whole) && IsFraction(fraction) && IsExponent(exponent)
  }

  predicate InNumber(c: char) { IsDigit(c) || c == '+' || c == '-' || c == '.' || c == 'e' || c == 'E' }

  /** How many characters at the front can belong to a number. */
  function NumberLength(s: string): (n: nat)
    ensures n <= |s|
  {
    if s != "" && InNumber(s[0]) then 1 + NumberLength(s[1..]) else 0
  }

  ghost function ReadNumber(s: string): (r: Read<Json>)
    ensures r.Done? ==> |r.rest| < |s|
  {
    var n := NumberLength(s);
    if n > 0 && IsNumber(s[..n]) then Done(Number(s[..n]), s[n..]) else Fail
  }

  ghost function ReadValue(s: string): (r: Read<Json>)
    ensures r.Done? ==> |r.rest| < |s|
    decreases |s|, 0
  {
    var t := SkipSpace(s);
    if t == "" then Fail
    else if t[0] == '{' then ReadObject(t[1..])
    else if t[0] == '"' then
      match ReadText(t[1..])
      case Fail => Fail
      case Done(text, rest) => Done(Text(text), rest)
    else ReadNumber(t)
  }

  /** The rest of an object behind its opening brace. */
  ghost function ReadObject(s: string): (r: Read<Json>)
    ensures r.Done? ==> |r.rest| < |s|
    decreases |s|, 3
  {
    var t := SkipSpace(s);
    if t != "" && t[0] == '}' then Done(Object([]), t[1..])
    else
      match ReadMembers(t)
      case Fail => Fail
      case Done(members, rest) => Done(Object(members), rest)
  }

  /** At least one member, up to and including the closing brace. */
  ghost function ReadMembers(s: string): (r: Read<seq<Member>>)
    ensures r.Done? ==> |r.rest| < |s|
    decreases |s|, 2
  {
    match ReadMember(s)
    case Fail => Fail
    case Done(member, rest) =>
      var t := SkipSpace(rest);
      if t != "" && t[0] == '}' then Done([member], t[1..])
      else if t != "" && t[0] == ',' then
        match ReadMembers(t[1..])
        case Fail => Fail
        case Done(members, rest') => Done([member] + members, rest')
      else Fail
  }

  ghost function ReadMember(s: string): (r: Read<Member>)
    ensures r.Done? ==> |r.rest| < |s|
    decreases |s|, 1
  {
    var t := SkipSpace(s);
    if t == "" || t[0] != '"' then Fail
    else
      match ReadText(t[1..])
      case Fail => Fail
      case Done(name, rest) =>
        var u := SkipSpace(rest);
        if u == "" || u[0] != ':' then Fail
        else
          match ReadValue(u[1..])
          case Fail => Fail
          case Done(value, rest') => Done(Member(name, value), rest')
  }

  /** A whole text is one value with space around it. */
  ghost function ReadDocument(s: string): Option<Json> {
    match ReadValue(s)
    case Fail => None
    case Done(value, rest) => if SkipSpace(rest) == "" then Some(value) else None
  }

  // ---- What a payload says ----

  /** The number, if the item has one, else the text of its value. */
  function ItemValue(i: Item): Json {
    if i.isBig && i.big.Some? then Number(i.big.value)
    else Text(if i.value.Some? then i.value.value else "")
  }

  function NameOf(t: Option<string>): string { if t.Some? then t.value else "" }

  function ItemMember(i: Item): Member { Member(NameOf(i.key), ItemValue(i)) }

  function ItemMembers(items: seq<Item>): seq<Member> { seq(|items|, k requires 0 <= k < |items| => ItemMember(items[k])) }

  function GroupMember(g: Group): Member { Member(NameOf(g.name), Object(ItemMembers(g.items))) }

  function GroupMembers(p: Payload): seq<Member> { seq(|p|, k requires 0 <= k < |p| => GroupMember(p[k])) }

  /** Names and texts need no escapes, and bare values are numbers. */
  ghost predicate PlainItem(i: Item) {
    Plain(NameOf(i.key)) && match ItemValue(i) case Text(t) => Plain(t) case Number(t) => IsNumber(t)
  }

  ghost predicate PlainGroup(g: Group) {
    Plain(NameOf(g.name)) && forall k :: 0 <= k < |g.items| ==> PlainItem(g.items[k])
  }

  ghost predicate PlainPayload(p: Payload) { forall k :: 0 <= k < |p| ==> PlainGroup(p[k]) }

  // ---- Reading single elements ----

  lemma SkipOne(c: char, s: string)
    ensures SkipSpace([c] + s) == if IsSpace(c) then SkipSpace(s) else [c] + s
  {
    assert ([c] + s)[1..] == s;
  }

  lemma SkipTwo(c: char, s: string)
    requires !IsSpace(c)
    ensures SkipSpace("  " + [c] + s) == [c] + s
  {
    hide SkipSpace;
    assert "  " + [c] + s == [' '] + ([' '] + ([c] + s));
    SkipOne(' ', [' '] + ([c] + s));
    SkipOne(' ', [c] + s);
    SkipOne(c, s);
  }

  lemma SkipFour(c: char, s: string)
    requires !IsSpace(c)
    ensures SkipSpace("    " + [c] + s) == [c] + s
  {
    hide SkipSpace;
    SkipTwo(c, s);
    assert "    " + [c] + s == [' '] + ([' '] + ("  " + [c] + s));
    SkipOne(' ', [' '] + ("  " + [c] + s));
    SkipOne(' ', "  " + [c] + s);
  }

  lemma {:induction false} ReadTextOf(t: string, rest: string)
    requires Plain(t)
    ensures ReadText(t + "\"" + rest) == Done(t, rest)
  {
    var s := t + "\"" + rest;
    if t == "" {
      assert s[1..] == rest;
    } else {
      assert s[1..] == t[1..] + "\"" + rest;
      ReadTextOf(t[1..], rest);
      assert t == [t[0]] + t[1..];
    }
  }

  lemma {:induction false} NumberLengthOf(t: string, rest: string)
    requires forall i :: 0 <= i < |t| ==> InNumber(t[i])
    requires rest == "" || !InNumber(rest[0])
    ensures NumberLength(t + rest) == |t|
  {
    hide InNumber;
    if t == "" {
      assert t + rest == rest;
    } else {
      assert (t + rest)[1..] == t[1..] + rest;
      NumberLengthOf(t[1..], rest);
    }
  }

  lemma NumberAlphabet(s: string)
    requires IsNumber(s)
    ensures s != "" && (IsDigit(s[0]) || s[0] == '-') && forall i :: 0 <= i < |s| ==> InNumber(s[i])
  {
    var sign, whole, fraction, exponent :|
      && s == sign + whole + fraction + exponent && (sign == "" || sign == "-")
      && IsWhole(whole) && IsFraction(fraction) && IsExponent(exponent);
    FractionAlphabet(fraction);
    ExponentAlphabet(exponent);
    hide IsWhole, IsFraction, IsExponent;
    assert whole != "" && forall i :: 0 <= i < |whole| ==> IsDigit(whole[i]) by { WholeAlphabet(whole); }
  }

  lemma WholeAlphabet(s: string)
    requires IsWhole(s)
    ensures s != "" && forall i :: 0 <= i < |s| ==> IsDigit(s[i])
  {}

  lemma FractionAlphabet(s: string)
    requires IsFraction(s)
    ensures forall i :: 0 <= i < |s| ==> InNumber(s[i])
  {
    assert forall i :: 0 < i < |s| ==> s[i] == s[1..][i - 1];
  }

  lemma ExponentAlphabet(s: string)
    requires IsExponent(s)
    ensures forall i :: 0 <= i < |s| ==> InNumber(s[i])
  {
    assert forall i :: 0 < i < |s| ==> s[i] == s[1..][i - 1];
    assert forall i :: 1 < i < |s| ==> s[i] == s[2..][i - 2];
  }

  lemma ReadNumberOf(t: string, rest: string)
    requires IsNumber(t) && (rest == "" || !InNumber(rest[0]))
    ensures ReadNumber(t + rest) == Done(Number(t), rest)
  {
    hide IsNumber, InNumber;
    NumberAlphabet(t);
    NumberLengthOf(t, rest);
    assert (t + rest)[..|t|] == t && (t + rest)[|t|..] == rest;
  }

  lemma {:induction false} ReadValueText(t: string, rest: string)
    requires Plain(t)
    ensures ReadValue(" \"" + t + "\"" + rest) == Done(Text(t), rest)
  {
    hide Plain, ReadText, SkipSpace;
    var u := t + "\"" + rest;
    RegroupQuoted(t, rest);
    SkipOne(' ', ['"'] + u);
    SkipOne('"', u);
    ReadTextOf(t, rest);
    TailOf('"', u);
  }

  lemma RegroupQuoted(t: string, rest: string)
    ensures " \"" + t + "\"" + rest == [' '] + (['"'] + (t + "\"" + rest))
  {}

  lemma TailOf(c: char, s: string)
    ensures ([c] + s)[0] == c && ([c] + s)[1..] == s
  {}

  lemma {:induction false} ReadValueNumber(t: string, rest: string)
    requires IsNumber(t) && (rest == "" || !InNumber(rest[0]))
    ensures ReadValue(" " + t + rest) == Done(Number(t), rest)
  {
    hide IsNumber, SkipSpace, ReadNumber, InNumber;
    NumberAlphabet(t);
    assert " " + t + rest == [' '] + (t + rest);
    SkipOne(' ', t + rest);
    assert t + rest == [t[0]] + (t[1..] + rest);
    SkipOne(t[0], t[1..] + rest);
    ReadNumberOf(t, rest);
  }

  /** A name, its colon and a value. */
  lemma {:induction false} ReadMemberOf(blanks: string, name: string, value: string, rest: string, v: Json)
    requires (blanks == "  " || blanks == "    ") && Plain(name) && ReadValue(value) == Done(v, rest)
    ensures ReadMember(blanks + "\"" + name + "\":" + value) == Done(Member(name, v), rest)
  {
    hide Plain, ReadText, SkipSpace, ReadValue;
    var behind := [':'] + value;
    var u := name + "\"" + behind;
    assert blanks + "\"" + name + "\":" + value == blanks + ['"'] + u;
    if blanks == "  " { SkipTwo('"', u); } else { SkipFour('"', u); }
    ReadTextOf(name, behind);
    SkipOne(':', value);
    assert (['"'] + u)[1..] == u && behind[1..] == value;
  }

  // ---- Reading items ----

  /** An item without the end of its line. */
  function ItemCore(i: Item): string {
    "    \"" + TextOf(i.key) + "\": " + Quote(i) + ValueText(i) + Quote(i)
  }

  lemma ItemIsCore(i: Item, last: bool)
    ensures RenderItem(i, last) == ItemCore(i) + (if last then "\n" else ",\n")
  {}

  lemma CoreOfNumber(t: string, v: string, rest: string)
    ensures ("    \"" + t + "\": " + "" + v + "") + rest == "    " + "\"" + t + "\":" + (" " + v + rest)
  {}

  lemma CoreOfText(t: string, v: string, rest: string)
    ensures ("    \"" + t + "\": " + "\"" + v + "\"") + rest == "    " + "\"" + t + "\":" + (" \"" + v + "\"" + rest)
  {}

  lemma ReadItem(i: Item, rest: string)
    requires PlainItem(i) && rest != "" && !InNumber(rest[0])
    ensures ReadMember(ItemCore(i) + rest) == Done(ItemMember(i), rest)
  {
    hide IsNumber, Plain, ReadMember, ReadValue, InNumber;
    var t, v := TextOf(i.key), ValueText(i);
    if IsBigNumber(i) {
      ReadValueNumber(v, rest);
      ReadMemberOf("    ", t, " " + v + rest, rest, Number(v));
      CoreOfNumber(t, v, rest);
    } else {
      ReadValueText(v, rest);
      ReadMemberOf("    ", t, " \"" + v + "\"" + rest, rest, Text(v));
      CoreOfText(t, v, rest);
    }
  }

  /** The last member and the closing brace. */
  lemma {:induction false} ReadLast(s: string, m: Member, blanks: string, rest: string)
    requires ReadMember(s) == Done(m, "\n" + blanks + "}" + rest) && (blanks == "" || blanks == "  ")
    ensures ReadMembers(s) == Done([m], rest)
  {
    hide SkipSpace, ReadMember;
    var t := ['}'] + rest;
    assert "\n" + blanks + "}" + rest == ['\n'] + (blanks + ['}'] + rest);
    SkipOne('\n', blanks + ['}'] + rest);
    if blanks == "" { SkipOne('}', rest); assert blanks + ['}'] + rest == t; } else { SkipTwo('}', rest); }
    assert t[1..] == rest;
  }

  /** A member, a comma and further members. */
  lemma {:induction false} ReadMore(s: string, m: Member, more: string, ms: seq<Member>, rest: string)
    requires ReadMember(s) == Done(m, "," + more) && ReadMembers(more) == Done(ms, rest)
    ensures ReadMembers(s) == Done([m] + ms, rest)
  {
    hide SkipSpace, ReadMember;
    SkipOne(',', more);
    assert ([','] + more)[1..] == more;
    assert "," + more == [','] + more;
  }

  /** A line end in front of members is space. */
  lemma {:induction false} MembersSkip(s: string)
    ensures ReadMembers("\n" + s) == ReadMembers(s)
  {
    MemberSkip(s);
    hide ReadMember;
  }

  lemma {:induction false} MemberSkip(s: string)
    ensures ReadMember("\n" + s) == ReadMember(s)
  {
    hide SkipSpace, ReadText, ReadValue;
    assert "\n" + s == ['\n'] + s;
    SkipOne('\n', s);
  }

  lemma {:induction false} ReadItems(items: seq<Item>, k: nat, rest: string)
    requires k < |items| && forall j :: 0 <= j < |items| ==> PlainItem(items[j])
    ensures ReadMembers(RenderItems(items, k) + "  }" + rest) == Done(ItemMembers(items)[k..], rest)
    decreases |items| - k
  {
    hide RenderItem, ItemCore, ReadMembers, ReadMember, PlainItem, ItemMember;
    var i, m := items[k], ItemMember(items[k]);
    var last := k + 1 == |items|;
    ItemIsCore(i, last);
    assert PlainItem(items[k]);
    if last {
      var behind := "\n" + "  " + "}" + rest;
      assert RenderItems(items, k) + "  }" + rest == ItemCore(i) + behind by { RegroupLastItem(ItemCore(i), rest); NoMoreItems(items); }
      ReadItem(i, behind);
      ReadLast(ItemCore(i) + behind, m, "  ", rest);
      assert ItemMembers(items)[k..] == [m];
    } else {
      var more := RenderItems(items, k + 1) + "  }" + rest;
      ReadItems(items, k + 1, rest);
      MembersSkip(more);
      assert RenderItems(items, k) + "  }" + rest == ItemCore(i) + ("," + ("\n" + more)) by {
        RegroupItem(ItemCore(i), RenderItems(items, k + 1), rest);
      }
      ReadItem(i, "," + ("\n" + more));
      ReadMore(ItemCore(i) + ("," + ("\n" + more)), m, "\n" + more, ItemMembers(items)[k + 1..], rest);
      assert ItemMembers(items)[k..] == [m] + ItemMembers(items)[k + 1..];
    }
  }

  lemma NoMoreItems(items: seq<Item>)
    ensures RenderItems(items, |items|) == ""
  {}

  lemma RegroupLastItem(core: string, rest: string)
    ensures (core + "\n" + "") + "  }" + rest == core + ("\n" + "  " + "}" + rest)
  {}

  lemma RegroupItem(core: string, items: string, rest: string)
    ensures ((core + ",\n") + items) + "  }" + rest == core + ("," + ("\n" + (items + "  }" + rest)))
  {}

  /** The object of a group, from behind its brace. */
  lemma {:induction false} ReadItemsObject(items: seq<Item>, rest: string)
    requires forall j :: 0 <= j < |items| ==> PlainItem(items[j])
    ensures ReadObject("\n" + RenderItems(items, 0) + "  }" + rest) == Done(Object(ItemMembers(items)), rest)
  {
    hide SkipSpace, ReadMembers, PlainItem, ItemMember;
    var s := RenderItems(items, 0) + "  }" + rest;
    assert "\n" + RenderItems(items, 0) + "  }" + rest == ['\n'] + s;
    SkipOne('\n', s);
    if items == [] {
      assert s == "  " + ['}'] + rest;
      SkipTwo('}', rest);
      assert (['}'] + rest)[1..] == rest && ItemMembers(items) == [];
    } else {
      ReadItems(items, 0, rest);
      MembersStart(s);
      SkippedMembers(s);
      assert ItemMembers(items)[0..] == ItemMembers(items);
    }
  }

  /** Members may be read with or without the space before them. */
  lemma {:induction false} SkippedMembers(s: string)
    ensures ReadMembers(SkipSpace(s)) == ReadMembers(s)
  {
    SkippedMember(s);
    hide ReadMember;
  }

  lemma {:induction false} SkippedMember(s: string)
    ensures ReadMember(SkipSpace(s)) == ReadMember(s)
  {
    SkipAgain(s);
    hide SkipSpace, ReadText, ReadValue;
  }

  lemma {:induction false} SkipAgain(s: string)
    ensures SkipSpace(SkipSpace(s)) == SkipSpace(s)
  {
    if s != "" && IsSpace(s[0]) {
      SkipAgain(s[1..]);
    }
  }

  /** Members start with a quote, not with a closing brace. */
  lemma {:induction false} MembersStart(s: string)
    requires ReadMembers(s).Done?
    ensures SkipSpace(s) != "" && SkipSpace(s)[0] == '"'
  {
    hide SkipSpace, ReadText, ReadValue;
  }

  // ---- Reading groups ----

  function GroupCore(g: Group): string {
    "  \"" + TextOf(g.name) + "\": {\n" + RenderItems(g.items, 0) + "  }"
  }

  lemma GroupIsCore(g: Group, last: bool)
    ensures RenderGroup(g, last) == GroupCore(g) + (if last then "\n" else ",\n")
  {
    hide RenderItems;
  }

  lemma {:induction false} ReadValueObject(s: string, v: Json, rest: string)
    requires ReadObject(s) == Done(v, rest)
    ensures ReadValue(" {" + s) == Done(v, rest)
  {
    hide SkipSpace, ReadObject;
    assert " {" + s == [' '] + (['{'] + s);
    SkipOne(' ', ['{'] + s);
    SkipOne('{', s);
    assert (['{'] + s)[1..] == s;
  }

  lemma ReadGroup(g: Group, rest: string)
    requires PlainGroup(g)
    ensures ReadMember(GroupCore(g) + rest) == Done(GroupMember(g), rest)
  {
    hide Plain, PlainItem, RenderItems, ItemMembers, ReadMember, ReadValue, ReadObject;
    var s := "\n" + RenderItems(g.items, 0) + "  }" + rest;
    ReadItemsObject(g.items, rest);
    ReadValueObject(s, Object(ItemMembers(g.items)), rest);
    ReadMemberOf("  ", TextOf(g.name), " {" + s, rest, Object(ItemMembers(g.items)));
    assert GroupCore(g) + rest == "  " + "\"" + TextOf(g.name) + "\":" + (" {" + s);
  }

  lemma {:induction false} ReadGroups(p: Payload, k: nat, rest: string)
    requires k < |p| && PlainPayload(p)
    ensures ReadMembers(RenderGroups(p, k) + "}" + rest) == Done(GroupMembers(p)[k..], rest)
    decreases |p| - k
  {
    hide RenderGroup, GroupCore, ReadMembers, ReadMember, PlainGroup, GroupMember;
    var g, m := p[k], GroupMember(p[k]);
    var last := k + 1 == |p|;
    GroupIsCore(g, last);
    assert PlainGroup(p[k]);
    if last {
      var behind := "\n" + "" + "}" + rest;
      assert RenderGroups(p, k) + "}" + rest == GroupCore(g) + behind by { RegroupLastGroup(GroupCore(g), rest); NoMoreGroups(p); }
      ReadGroup(g, behind);
      ReadLast(GroupCore(g) + behind, m, "", rest);
      assert GroupMembers(p)[k..] == [m];
    } else {
      var more := RenderGroups(p, k + 1) + "}" + rest;
      ReadGroups(p, k + 1, rest);
      MembersSkip(more);
      assert RenderGroups(p, k) + "}" + rest == GroupCore(g) + ("," + ("\n" + more)) by {
        RegroupGroup(GroupCore(g), RenderGroups(p, k + 1), rest);
      }
      ReadGroup(g, "," + ("\n" + more));
      ReadMore(GroupCore(g) + ("," + ("\n" + more)), m, "\n" + more, GroupMembers(p)[k + 1..], rest);
      assert GroupMembers(p)[k..] == [m] + GroupMembers(p)[k + 1..];
    }
  }

  lemma NoMoreGroups(p: Payload)
    ensures RenderGroups(p, |p|) == ""
  {}

  lemma RegroupLastGroup(core: string, rest: string)
    ensures (core + "\n" + "") + "}" + rest == core + ("\n" + "" + "}" + rest)
  {}

  lemma RegroupGroup(core: string, groups: string, rest: string)
    ensures ((core + ",\n") + groups) + "}" + rest == core + ("," + ("\n" + (groups + "}" + rest)))
  {}

  lemma {:induction false} ReadGroupsObject(p: Payload, rest: string)
    requires p != [] && PlainPayload(p)
    ensures ReadObject("\n" + RenderGroups(p, 0) + "}" + rest) == Done(Object(GroupMembers(p)), rest)
  {
    hide SkipSpace, ReadMembers, PlainPayload, RenderGroups;
    var s := RenderGroups(p, 0) + "}" + rest;
    assert "\n" + RenderGroups(p, 0) + "}" + rest == ['\n'] + s;
    SkipOne('\n', s);
    ReadGroups(p, 0, rest);
    MembersStart(s);
    SkippedMembers(s);
    assert GroupMembers(p)[0..] == GroupMembers(p);
  }

  lemma PlainBodyReads(p: Payload)
    requires p != [] && PlainPayload(p)
    ensures ReadDocument(Render(p)) == Some(Object(GroupMembers(p)))
  {
    hide RenderGroups, ReadObject, PlainPayload, GroupMembers, SkipSpace;
    var s := "\n" + RenderGroups(p, 0) + "}" + "\n";
    ReadGroupsObject(p, "\n");
    assert Render(p) == ['{'] + s;
    SkipOne('{', s);
    assert (['{'] + s)[1..] == s;
    SkipOne('\n', "");
    assert "\n" == ['\n'] + "" && SkipSpace("") == "" by { SkipNothing(); }
  }

  lemma SkipNothing()
    ensures SkipSpace("") == ""
  {}

  // ---- Only plain texts come out of the reader ----

  ghost predicate WellFormed(j: Json) {
    match j
    case Text(t) => Plain(t)
    case Number(t) => IsNumber(t)
    case Object(members) => forall k :: 0 <= k < |members| ==> Plain(members[k].name) && WellFormed(members[k].value)
  }

  ghost predicate WellFormedMembers(ms: seq<Member>) {
    forall k :: 0 <= k < |ms| ==> Plain(ms[k].name) && WellFormed(ms[k].value)
  }

  lemma {:induction false} TextsArePlain(s: string)
    ensures ReadText(s).Done? ==> Plain(ReadText(s).value)
  {
    if s != "" && s[0] != '"' && Unescaped(s[0]) {
      TextsArePlain(s[1..]);
    }
  }

  lemma {:induction false} ValuesAreWellFormed(s: string)
    ensures ReadValue(s).Done? ==> WellFormed(ReadValue(s).value)
    decreases |s|, 0
  {
    hide SkipSpace, ReadText, ReadObject, Plain, IsNumber;
    var t := SkipSpace(s);
    if t != "" && t[0] == '{' {
      ObjectsAreWellFormed(t[1..]);
    } else if t != "" && t[0] == '"' {
      TextsArePlain(t[1..]);
    }
  }

  lemma {:induction false} ObjectsAreWellFormed(s: string)
    ensures ReadObject(s).Done? ==> WellFormed(ReadObject(s).value)
    decreases |s|, 3
  {
    hide SkipSpace, ReadMembers, Plain;
    MembersAreWellFormed(SkipSpace(s));
  }

  lemma {:induction false} MembersAreWellFormed(s: string)
    ensures ReadMembers(s).Done? ==> WellFormedMembers(ReadMembers(s).value)
    decreases |s|, 2
  {
    hide SkipSpace, ReadMember, Plain, WellFormed;
    MemberIsWellFormed(s);
    if ReadMember(s).Done? {
      var t := SkipSpace(ReadMember(s).rest);
      if t != "" && t[0] == ',' {
        MembersAreWellFormed(t[1..]);
      }
    }
  }

  lemma {:induction false} MemberIsWellFormed(s: string)
    ensures ReadMember(s).Done? ==> Plain(ReadMember(s).value.name) && WellFormed(ReadMember(s).value.value)
    decreases |s|, 1
  {
    hide SkipSpace, ReadText, ReadValue, Plain, WellFormed;
    var t := SkipSpace(s);
    if t != "" && t[0] == '"' {
      TextsArePlain(t[1..]);
      if ReadText(t[1..]).Done? {
        var u := SkipSpace(ReadText(t[1..]).rest);
        if u != "" {
          ValuesAreWellFormed(u[1..]);
        }
      }
    }
  }

  lemma WellFormedIsPlain(p: Payload)
    requires WellFormed(Object(GroupMembers(p)))
    ensures PlainPayload(p)
  {
    hide Plain, IsNumber;
    forall k | 0 <= k < |p| ensures PlainGroup(p[k]) {
      var m := GroupMembers(p)[k];
      assert m == GroupMember(p[k]);
      forall j | 0 <= j < |p[k].items| ensures PlainItem(p[k].items[j]) {
        var i := p[k].items[j];
        assert m.value.members[j] == ItemMember(i);
        assert WellFormed(m.value) && WellFormed(m.value.members[j].value);
        assert WellFormed(ItemValue(i)) && !ItemValue(i).Object?;
      }
    }
  }

  /** A body reads back as the names, keys and values of its payload, in their order, exactly when its names and texts
      need no escapes and its bare values are numbers: the writer does not escape. */
  lemma BodyReadsBackIffPlain(p: Payload)
    requires p != []
    ensures ReadDocument(Render(p)) == Some(Object(GroupMembers(p))) <==> PlainPayload(p)
  {
    hide ReadValue, Render, PlainPayload, WellFormed, GroupMembers;
    if PlainPayload(p) {
      PlainBodyReads(p);
    }
    if ReadDocument(Render(p)) == Some(Object(GroupMembers(p))) {
      ValuesAreWellFormed(Render(p));
      WellFormedIsPlain(p);
    }
  }

  /** A value that is a single quote does not read back. */
  lemma QuoteIsNotEscaped()
    ensures var p := [Group(Some("g"), [Item(Some("k"), false, None, Some("\""))])];
            ReadDocument(Render(p)) != Some(Object(GroupMembers(p)))
  {
    var i := Item(Some("k"), false, None, Some("\""));
    var p := [Group(Some("g"), [i])];
    assert !Plain("\"") by { assert !Unescaped("\""[0]); }
    assert !PlainItem(i);
    assert p[0].items[0] == i;
    assert !PlainGroup(p[0]);
    hide Render, ReadDocument, GroupMembers;
    BodyReadsBackIffPlain(p);
  }
}
