/** A reader of signature base strings after sections 3.4.1 and 3.6 of RFC 5849: split at the ampersands, undo the
    percent encoding of section 2.1 of RFC 3986, split the parameters. It shares nothing with the code that builds the
    string, and says what a built string contains and in which order. */
module BaseStringReader {
  import opened Prelude
  import opened RequestSigning

  // ---- The reader ----

  /** The parts of a text between separators. */
  function Split(s: Text, sep: CByte): (r: seq<Text>)
    ensures r != []
  {
    if s == [] then [[]]
    else if s[0] == sep then [[]] + Split(s[1..], sep)
    else
      var r := Split(s[1..], sep);
      [[s[0]] + r[0]] + r[1..]
  }

  const HEX: string := "0123456789ABCDEF"

  function HexIndex(c: char, k: nat): Option<nat>
    requires k <= 16
    decreases 16 - k
  {
    if k == 16 then None else if HEX[k] == c then Some(k) else HexIndex(c, k + 1)
  }

  /** `%` and two digits stand for the byte that they denote, every other character for itself. */
  function Unescape(s: Text): Option<Text> {
    if s == [] then Some([])
    else if s[0] != '%' then
      match Unescape(s[1..])
      case None => None
      case Some(t) => Some([s[0]] + t)
    else if |s| < 3 then None
    else
      var high, low := HexIndex(s[1], 0), HexIndex(s[2], 0);
      if high.None? || low.None? || high.value * 16 + low.value == 0 || high.value * 16 + low.value > 255 then None
      else
        match Unescape(s[3..])
        case None => None
        case Some(t) => Some([(high.value * 16 + low.value) as char] + t)
  }

  /** What stands in a base string; the entries are still encoded. */
  datatype Reading = Reading(verb: Text, url: Text, entries: seq<Pair>)

  function ReadEntry(s: Text): Option<Pair> {
    var parts := Split(s, '=');
    if |parts| == 2 then Some(Pair(parts[0], parts[1])) else None
  }

  function ReadEntries(parts: seq<Text>): Option<seq<Pair>> {
    if parts == [] then Some([])
    else
      match ReadEntry(parts[0])
      case None => None
      case Some(e) =>
        match ReadEntries(parts[1..])
        case None => None
        case Some(es) => Some([e] + es)
  }

  function ReadBase(b: Text): Option<Reading> {
    var parts := Split(b, '&');
    if |parts| != 3 then None
    else
      var verb, url, normal := Unescape(parts[0]), Unescape(parts[1]), Unescape(parts[2]);
      if verb.None? || url.None? || normal.None? then None
      else
        match ReadEntries(Split(normal.value, '&'))
        case None => None
        case Some(es) => Some(Reading(verb.value, url.value, es))
  }

  // ---- The byte order ----

  /** s is a proper prefix of t, or has the smaller byte where they first differ. */
  ghost predicate Before(s: Text, t: Text) {
    exists k :: 0 <= k <= |s| && k <= |t| && FirstDifference(s, t, k)
  }

  ghost predicate FirstDifference(s: Text, t: Text, k: nat)
    requires k <= |s| && k <= |t|
  {
    s[..k] == t[..k] && k < |t| && (k == |s| || s[k] as int < t[k] as int)
  }

  /** The comparison behind the sort is the order by bytes. */
  lemma {:induction false} CompareIsByBytes(s: Text, t: Text)
    ensures Compare(s, t) < 0 <==> Before(s, t)
  {
    if s == [] || t == [] || s[0] != t[0] {
      if Compare(s, t) < 0 {
        assert s[..0] == t[..0];
        assert FirstDifference(s, t, 0);
      }
      if Before(s, t) {
        var k :| 0 <= k <= |s| && k <= |t| && FirstDifference(s, t, k);
        if k > 0 { SameFirst(s, t, k); }
      }
    } else {
      CompareIsByBytes(s[1..], t[1..]);
      BeforeStep(s, t);
    }
  }

  lemma SameFirst(s: Text, t: Text, k: nat)
    requires 0 < k <= |s| && k <= |t| && s[..k] == t[..k]
    ensures s[0] == t[0]
  {
    assert s[..k][0] == t[..k][0];
  }

  lemma BeforeStep(s: Text, t: Text)
    requires s != [] && t != [] && s[0] == t[0]
    ensures Before(s, t) <==> Before(s[1..], t[1..])
  {
    if Before(s, t) {
      var k :| 0 <= k <= |s| && k <= |t| && FirstDifference(s, t, k);
      assert k > 0;
      assert s[1..][..k - 1] == s[..k][1..] && t[1..][..k - 1] == t[..k][1..];
      assert FirstDifference(s[1..], t[1..], k - 1);
    }
    if Before(s[1..], t[1..]) {
      var k :| 0 <= k <= |s[1..]| && k <= |t[1..]| && FirstDifference(s[1..], t[1..], k);
      assert s[..k + 1] == [s[0]] + s[1..][..k] && t[..k + 1] == [t[0]] + t[1..][..k];
      assert FirstDifference(s, t, k + 1);
    }
  }

  /** Ascending by key and, for equal keys, by value, byte by byte. */
  ghost predicate Ascending(es: seq<Pair>) {
    forall i, j :: 0 <= i < j < |es| ==> InOrder(es[i], es[j])
  }

  ghost predicate InOrder(p: Pair, q: Pair) {
    if p.key == q.key then p.value == q.value || Before(p.value, q.value) else Before(p.key, q.key)
  }

  lemma NotLessIsInOrder(p: Pair, q: Pair)
    requires !Less(q, p)
    ensures InOrder(p, q)
  {
    hide Compare, Before;
    CompareIsOrder(p.key, q.key);
    CompareIsOrder(p.value, q.value);
    CompareIsByBytes(p.key, q.key);
    CompareIsByBytes(p.value, q.value);
  }

  lemma SortedIsAscending(es: seq<Pair>)
    requires Sorted(es)
    ensures Ascending(es)
  {
    hide Less, InOrder;
    forall i, j | 0 <= i < j < |es| ensures InOrder(es[i], es[j]) {
      NotLessIsInOrder(es[i], es[j]);
    }
  }

  // ---- Percent encoding ----

  lemma HexCharIs(n: nat)
    requires n < 16
    ensures HexIndex(HexChar(n), 0) == Some(n)
  {
    HexCharAt(n);
    HexAt(n, 0);
  }

  lemma HexCharAt(n: nat)
    requires n < 16
    ensures HexChar(n) == HEX[n]
  {}

  lemma {:induction false} HexAt(n: nat, k: nat)
    requires k <= n < 16
    ensures HexIndex(HEX[n], k) == Some(n)
    decreases n - k
  {
    if k < n {
      HexDiffer(k, n);
      HexAt(n, k + 1);
    }
  }

  lemma HexDiffer(k: nat, n: nat)
    requires k < n < 16
    ensures HEX[k] != HEX[n]
  {}

  const CAPITALS: string := "ABCDEFGHIJKLMNOPQRSTUVWXYZ"
  const SMALL: string := "abcdefghijklmnopqrstuvwxyz"

  /** Exactly the unreserved characters of section 2.3 of RFC 3986 are left alone. */
  lemma UnreservedCharacters(c: CByte)
    ensures Unreserved(c) <==> c in CAPITALS || c in SMALL || c in "0123456789" || c in "-._~"
    ensures Unreserved(c) <==> EncodeByte(c) == [c]
  {
    CapitalTable(c);
    SmallTable(c);
    DigitTable(c);
    assert c in "-._~" <==> c == '-' || c == '.' || c == '_' || c == '~';
    assert !Unreserved(c) ==> |EncodeByte(c)| == 3;
  }

  lemma CapitalAt(d: nat)
    requires d < 26
    ensures CAPITALS[d] as int == 'A' as int + d
  {}

  lemma SmallAt(d: nat)
    requires d < 26
    ensures SMALL[d] as int == 'a' as int + d
  {}

  /** A table of 26 consecutive characters holds exactly the characters from its first on. */
  lemma ConsecutiveTable(table: string, first: char, c: char)
    requires |table| == 26 && forall d :: 0 <= d < 26 ==> table[d] as int == first as int + d
    ensures c in table <==> first as int <= c as int < first as int + 26
  {
    var d := c as int - first as int;
    if 0 <= d < 26 {
      assert table[d] == c;
    }
  }

  lemma CapitalTable(c: char)
    ensures c in CAPITALS <==> 'A' <= c <= 'Z'
  {
    forall d: nat | d < 26 ensures CAPITALS[d] as int == 'A' as int + d { CapitalAt(d); }
    ConsecutiveTable(CAPITALS, 'A', c);
  }

  lemma SmallTable(c: char)
    ensures c in SMALL <==> 'a' <= c <= 'z'
  {
    forall d: nat | d < 26 ensures SMALL[d] as int == 'a' as int + d { SmallAt(d); }
    ConsecutiveTable(SMALL, 'a', c);
  }

  lemma DigitTable(c: char)
    ensures c in "0123456789" <==> '0' <= c <= '9'
  {
    if '0' <= c <= '9' {
      assert "0123456789"[c as int - '0' as int] == c;
    }
  }

  lemma UnescapeByte(c: CByte, rest: Text)
    ensures Unescape(EncodeByte(c) + rest) ==
            match Unescape(rest) case None => None case Some(t) => Some([c] + t)
  {
    hide HexIndex, HexChar;
    var s := EncodeByte(c) + rest;
    if Unreserved(c) {
      assert s[1..] == rest && s[0] == c;
    } else {
      var n := c as int;
      HexCharIs(n / 16);
      HexCharIs(n % 16);
      assert s[0] == '%' && s[1] == HexChar(n / 16) && s[2] == HexChar(n % 16) && s[3..] == rest;
      assert n / 16 * 16 + n % 16 == n;
    }
  }

  /** Unescaping undoes the encoding. */
  lemma {:induction false} UnescapeOfEncode(s: Text)
    ensures Unescape(Encode(s)) == Some(s)
  {
    hide Unescape, EncodeByte;
    if s == [] {
      UnescapeNothing();
    } else {
      UnescapeOfEncode(s[1..]);
      UnescapeByte(s[0], Encode(s[1..]));
      assert s == [s[0]] + s[1..];
    }
  }

  lemma UnescapeNothing()
    ensures Unescape([]) == Some([])
  {}

  // ---- Splitting ----

  lemma {:induction false} SplitOne(a: Text, sep: CByte)
    requires sep !in a
    ensures Split(a, sep) == [a]
  {
    if a != [] {
      SplitOne(a[1..], sep);
      assert a == [a[0]] + a[1..];
    }
  }

  lemma {:induction false} SplitCons(a: Text, b: Text, sep: CByte)
    requires sep !in a
    ensures Split(a + [sep] + b, sep) == [a] + Split(b, sep)
  {
    var s := a + [sep] + b;
    if a == [] {
      assert s[1..] == b;
    } else {
      assert s[1..] == a[1..] + [sep] + b;
      SplitCons(a[1..], b, sep);
      assert a == [a[0]] + a[1..];
      assert ([a[1..]] + Split(b, sep))[1..] == Split(b, sep);
    }
  }

  lemma ReadEntryOf(p: Pair)
    requires Clean(p.key) && Clean(p.value)
    ensures ReadEntry(JoinPair(p)) == Some(p)
  {
    assert '=' !in p.key && '=' !in p.value;
    hide Split, Clean;
    SplitCons(p.key, p.value, '=');
    SplitOne(p.value, '=');
  }

  lemma ReadSingle(s: Text, e: Pair)
    requires ReadEntry(s) == Some(e)
    ensures ReadEntries([s]) == Some([e])
  {
    hide ReadEntry;
    assert [s][1..] == [] && [e] + [] == [e];
    assert ReadEntries([]) == Some([]);
  }

  lemma {:induction false} ReadEntriesOf(es: seq<Pair>)
    requires es != [] && CleanPairs(es)
    ensures ReadEntries(Split(Join(es), '&')) == Some(es)
    decreases |es|
  {
    hide Split, Clean, JoinPair, ReadEntry;
    JoinPairHasNoSeparator(es[0]);
    ReadEntryOf(es[0]);
    if |es| == 1 {
      SplitOne(JoinPair(es[0]), '&');
      ReadSingle(JoinPair(es[0]), es[0]);
      assert es == [es[0]];
    } else {
      SplitCons(JoinPair(es[0]), Join(es[1..]), '&');
      ReadEntriesOf(es[1..]);
      var parts := [JoinPair(es[0])] + Split(Join(es[1..]), '&');
      assert parts[1..] == Split(Join(es[1..]), '&');
      assert es == [es[0]] + es[1..];
    }
  }

  lemma ReadComposed(verb: Text, url: Text, es: seq<Pair>)
    requires es != [] && CleanPairs(es)
    ensures ReadBase(Compose(verb, url, es)) == Some(Reading(verb, url, es))
  {
    hide Split, CleanPairs, Join, Encode, Unescape, ReadEntries;
    var a, b, c := Encode(verb), Encode(url), Encode(Join(es));
    NoAmpersand(verb);
    NoAmpersand(url);
    NoAmpersand(Join(es));
    SplitCons(a, b + ['&'] + c, '&');
    SplitCons(b, c, '&');
    SplitOne(c, '&');
    UnescapeOfEncode(verb);
    UnescapeOfEncode(url);
    UnescapeOfEncode(Join(es));
    ReadEntriesOf(es);
    assert [a] + ([b] + [c]) == [a, b, c];
  }

  // ---- What a base string says ----

  /** The entries are the encodings of the parameters, one by one. */
  ghost predicate Decodes(es: seq<Pair>, ps: seq<Pair>) {
    && |es| == |ps|
    && forall i :: 0 <= i < |es| ==> Unescape(es[i].key) == Some(ps[i].key) && Unescape(es[i].value) == Some(ps[i].value)
  }

  lemma EntriesOf(es: seq<Pair>, params: seq<Pair>) returns (ps: seq<Pair>)
    requires multiset(es) == multiset(EncodePairs(params))
    ensures EncodePairs(ps) == es && multiset(ps) == multiset(params)
  {
    hide EncodePair, EncodePairs;
    forall i | 0 <= i < |es| ensures es[i] in EncodePairs(params) {
      assert es[i] in multiset(es);
    }
    ps := PreImages(es, params);
    EncodedMultisets(ps, params);
  }

  lemma PreImage(e: Pair, params: seq<Pair>) returns (p: Pair)
    requires e in EncodePairs(params)
    ensures EncodePair(p) == e
  {
    hide EncodePair;
    var k :| 0 <= k < |params| && EncodePairs(params)[k] == e;
    p := params[k];
  }

  lemma {:induction false} PreImages(es: seq<Pair>, params: seq<Pair>) returns (ps: seq<Pair>)
    requires forall i :: 0 <= i < |es| ==> es[i] in EncodePairs(params)
    ensures EncodePairs(ps) == es
    decreases |es|
  {
    hide EncodePair, EncodePairs;
    if es == [] {
      ps := [];
      EncodeNoPairs();
    } else {
      var p := PreImage(es[0], params);
      var rest := PreImages(es[1..], params);
      ps := [p] + rest;
      EncodePairsCons(ps);
      assert ps[1..] == rest && es == [es[0]] + es[1..];
    }
  }

  /** Every base string of a request with parameters reads back as the raised method, the URL and the parameters, each
      encoded, in ascending byte order of encoded keys and then of encoded values. */
  lemma BaseStringReadsBack(b: Text, verb: Text, url: Text, params: seq<Pair>) returns (es: seq<Pair>, ps: seq<Pair>)
    requires IsBaseString(b, verb, url, params) && params != []
    ensures ReadBase(b) == Some(Reading(Upper(verb), url, es))
    ensures Ascending(es) && Decodes(es, ps) && multiset(ps) == multiset(params)
  {
    hide Compose, Upper, Sorted, CleanPairs, EncodePairs, Ascending, Unescape;
    es :| multiset(es) == multiset(EncodePairs(params)) && Sorted(es) && b == Compose(Upper(verb), url, es);
    ps := EntriesOf(es, params);
    EncodedIsClean(params, es);
    assert es != [] by { EncodedLength(params, es); }
    ReadComposed(Upper(verb), url, es);
    SortedIsAscending(es);
    EncodedDecodes(ps);
  }

  lemma EncodedLength(params: seq<Pair>, es: seq<Pair>)
    requires multiset(es) == multiset(EncodePairs(params))
    ensures |es| == |params|
  {
    assert |es| == |multiset(es)| && |EncodePairs(params)| == |multiset(EncodePairs(params))|;
  }

  lemma EncodedDecodes(ps: seq<Pair>)
    ensures Decodes(EncodePairs(ps), ps)
  {
    hide Unescape, Encode;
    forall i | 0 <= i < |ps|
      ensures Unescape(EncodePairs(ps)[i].key) == Some(ps[i].key) && Unescape(EncodePairs(ps)[i].value) == Some(ps[i].value)
    {
      UnescapeOfEncode(ps[i].key);
      UnescapeOfEncode(ps[i].value);
    }
  }

  /** The method in capital letters: the d-th letter of the alphabet is raised to the d-th capital, all else stays. */
  lemma RaisedLetters(c: CByte, d: nat)
    requires d < 26
    ensures UpperByte(SMALL[d]) == CAPITALS[d]
    ensures c !in SMALL ==> UpperByte(c) == c
  {
    RaisedLetter(d);
    SmallTable(c);
  }

  lemma RaisedLetter(d: nat)
    requires d < 26
    ensures UpperByte(SMALL[d]) == CAPITALS[d]
  {}

  /** The parameters that section 3.1 of RFC 5849 asks to be signed, with the defaults of this program. */
  function Signed(r: Request): seq<Pair>
    requires Acceptable(r)
  {
    SignedHead(r) + [SignedVersion(r)] + SignedToken(r) + SignedExtras(r)
  }

  function SignedHead(r: Request): seq<Pair>
    requires Acceptable(r)
  {
    [Pair("oauth_consumer_key", r.consumerKey.value),
     Pair("oauth_nonce", r.nonce.value),
     Pair("oauth_signature_method", if r.signatureMethod.Some? then r.signatureMethod.value else "HMAC-SHA256"),
     Pair("oauth_timestamp", r.timestamp.value)]
  }

  function SignedVersion(r: Request): Pair {
    Pair("oauth_version", if r.version.Some? then r.version.value else "1.0")
  }

  function SignedToken(r: Request): seq<Pair> {
    if r.token.Some? then [Pair("oauth_token", r.token.value)] else []
  }

  function SignedExtras(r: Request): seq<Pair>
    requires Acceptable(r)
  {
    seq(|r.additional|, i requires 0 <= i < |r.additional| =>
      Pair(r.additional[i].key.value, if r.additional[i].value.Some? then r.additional[i].value.value else []))
  }

  lemma {:induction false} ExtrasAt(es: seq<Extra>)
    requires forall i :: 0 <= i < |es| ==> es[i].key.Some?
    ensures |ExtraPairs(es)| == |es|
    ensures forall i :: 0 <= i < |es| ==>
              ExtraPairs(es)[i] == Pair(es[i].key.value, if es[i].value.Some? then es[i].value.value else [])
    decreases |es|
  {
    if es != [] {
      ExtrasAt(es[..|es| - 1]);
    }
  }

  lemma FixedParts(r: Request)
    requires Acceptable(r)
    ensures FixedPairs(r) == SignedHead(r) + SignedToken(r) + [SignedVersion(r)]
  {}

  lemma ExtraParts(r: Request)
    requires Acceptable(r)
    ensures ExtraPairs(r.additional) == SignedExtras(r)
  {
    hide ExtraPairs;
    ExtrasAt(r.additional);
  }

  lemma SignedParameters(r: Request)
    requires Acceptable(r)
    ensures multiset(Parameters(r)) == multiset(Signed(r)) && Parameters(r) != []
  {
    FixedParts(r);
    ExtraParts(r);
    assert SignedHead(r) != [];
    hide FixedPairs, ExtraPairs, SignedHead, SignedToken, SignedVersion, SignedExtras;
    SwapParts(SignedHead(r), SignedToken(r), [SignedVersion(r)], SignedExtras(r));
  }

  lemma SwapParts(a: seq<Pair>, b: seq<Pair>, c: seq<Pair>, d: seq<Pair>)
    ensures multiset((a + b + c) + d) == multiset(a + c + b + d)
  {
    assert multiset((a + b + c) + d) == multiset(a) + multiset(b) + multiset(c) + multiset(d);
  }

  /** The base string that the program builds for a request, read by the rules of the RFC. */
  lemma RequestReadsBack(r: Request, b: Text) returns (es: seq<Pair>, ps: seq<Pair>)
    requires Acceptable(r) && IsBaseString(b, r.verb.value, r.url.value, Parameters(r))
    ensures ReadBase(b) == Some(Reading(Upper(r.verb.value), r.url.value, es))
    ensures Ascending(es) && Decodes(es, ps) && multiset(ps) == multiset(Signed(r))
  {
    hide IsBaseString, Parameters, Signed, ReadBase, Ascending, Decodes, Upper;
    SignedParameters(r);
    es, ps := BaseStringReadsBack(b, r.verb.value, r.url.value, Parameters(r));
  }
}
