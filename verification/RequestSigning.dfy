/** OAuth 1 signature base strings (Modules/API/api_request_signing.cpp; sections 3.4.1 and 3.6 of
    RFC 5849, section 2.3 of RFC 3986). */
module RequestSigning {
  import opened Prelude

  /** A byte of a C string: any value but the terminator. */
  type CByte = c: char | 0 < c as int < 256 witness 'a'

  type Text = seq<CByte>

  // ---- Percent encoding ----

  predicate Unreserved(c: CByte) {
    'A' <= c <= 'Z' || 'a' <= c <= 'z' || '0' <= c <= '9' || c == '-' || c == '.' || c == '_' || c == '~'
  }

  function HexChar(n: int): CByte
    requires 0 <= n < 16
  {
    if n < 10 then '0' + n as char else 'A' + (n - 10) as char
  }

  function EncodeByte(c: CByte): Text {
    if Unreserved(c) then [c] else ['%', HexChar(c as int / 16), HexChar(c as int % 16)]
  }

  function Encode(s: Text): Text {
    if s == [] then [] else EncodeByte(s[0]) + Encode(s[1..])
  }

  lemma HexIsInjective(m: int, n: int)
    requires 0 <= m < 16 && 0 <= n < 16 && HexChar(m) == HexChar(n)
    ensures m == n
  {}

  lemma EncodeByteIsInjective(c: CByte, d: CByte, x: Text, y: Text)
    requires EncodeByte(c) + x == EncodeByte(d) + y
    ensures c == d && x == y
  {
    var s := EncodeByte(c) + x;
    assert s[0] == EncodeByte(c)[0] && s[0] == EncodeByte(d)[0];
    assert x == s[|EncodeByte(c)|..] && y == s[|EncodeByte(d)|..];
    if !Unreserved(c) {
      assert s[1] == EncodeByte(c)[1] && s[2] == EncodeByte(c)[2];
      assert s[1] == EncodeByte(d)[1] && s[2] == EncodeByte(d)[2];
      HexIsInjective(c as int / 16, d as int / 16);
      HexIsInjective(c as int % 16, d as int % 16);
      assert c as int == d as int;
    }
  }

  /** Different texts have different encodings. */
  lemma {:induction false} EncodeIsInjective(s: Text, t: Text)
    requires Encode(s) == Encode(t)
    ensures s == t
    decreases |s|
  {
    hide EncodeByte;
    EncodeIsLong(s);
    EncodeIsLong(t);
    if s != [] && t != [] {
      EncodeByteIsInjective(s[0], t[0], Encode(s[1..]), Encode(t[1..]));
      EncodeIsInjective(s[1..], t[1..]);
      assert s == [s[0]] + s[1..] && t == [t[0]] + t[1..];
    }
  }

  lemma {:induction false} EncodeIsLong(s: Text)
    ensures |s| <= |Encode(s)|
  {
    if s != [] {
      EncodeIsLong(s[1..]);
    }
  }

  /** The alphabet of encoded text: unreserved characters and the percent sign, so no separator. */
  predicate Clean(s: Text) { forall i :: 0 <= i < |s| ==> Unreserved(s[i]) || s[i] == '%' }

  lemma {:induction false} EncodeIsClean(s: Text)
    ensures Clean(Encode(s))
  {
    if s != [] {
      EncodeIsClean(s[1..]);
      EncodeByteIsClean(s[0]);
    }
  }

  lemma EncodeByteIsClean(c: CByte)
    ensures Clean(EncodeByte(c))
  {}

  // ---- Parameters ----

  datatype Pair = Pair(key: Text, value: Text)

  function EncodePair(p: Pair): Pair { Pair(Encode(p.key), Encode(p.value)) }

  function EncodePairs(ps: seq<Pair>): (r: seq<Pair>)
    ensures |r| == |ps| && forall i :: 0 <= i < |ps| ==> r[i] == EncodePair(ps[i])
  {
    if ps == [] then [] else [EncodePair(ps[0])] + EncodePairs(ps[1..])
  }

  lemma EncodePairIsInjective(p: Pair, q: Pair)
    requires EncodePair(p) == EncodePair(q)
    ensures p == q
  {
    hide Encode;
    EncodeIsInjective(p.key, q.key);
    EncodeIsInjective(p.value, q.value);
  }

  /** `strcmp`: negative, zero or positive; a proper prefix comes first. */
  function Compare(s: Text, t: Text): int {
    if s == [] then (if t == [] then 0 else -1)
    else if t == [] then 1
    else if s[0] < t[0] then -1
    else if s[0] > t[0] then 1
    else Compare(s[1..], t[1..])
  }

  lemma {:induction false} CompareIsOrder(s: Text, t: Text)
    ensures Compare(s, t) == 0 <==> s == t
    ensures Compare(s, t) < 0 <==> Compare(t, s) > 0
    ensures Compare(s, t) > 0 <==> Compare(t, s) < 0
  {
    if s != [] && t != [] {
      CompareIsOrder(s[1..], t[1..]);
      assert s == [s[0]] + s[1..] && t == [t[0]] + t[1..];
    }
  }

  lemma {:induction false} CompareIsTransitive(s: Text, t: Text, u: Text)
    requires Compare(s, t) <= 0 && Compare(t, u) <= 0
    ensures Compare(s, u) <= 0
    ensures Compare(s, u) == 0 ==> Compare(s, t) == 0 && Compare(t, u) == 0
  {
    if s != [] && t != [] && u != [] && s[0] == t[0] == u[0] {
      CompareIsTransitive(s[1..], t[1..], u[1..]);
    }
  }

  /** The comparison given to the sort: by key, then by value. */
  predicate Less(p: Pair, q: Pair) {
    var c := Compare(p.key, q.key);
    c < 0 || (c == 0 && Compare(p.value, q.value) < 0)
  }

  lemma LessIsTotal(p: Pair, q: Pair)
    ensures !Less(p, q) && !Less(q, p) ==> p == q
    ensures !(Less(p, q) && Less(q, p))
  {
    CompareIsOrder(p.key, q.key);
    CompareIsOrder(p.value, q.value);
  }

  lemma NotLessIsTransitive(p: Pair, q: Pair, r: Pair)
    requires !Less(q, p) && !Less(r, q)
    ensures !Less(r, p)
  {
    CompareIsOrder(p.key, q.key);
    CompareIsOrder(q.key, r.key);
    CompareIsOrder(p.key, r.key);
    CompareIsOrder(p.value, q.value);
    CompareIsOrder(q.value, r.value);
    CompareIsOrder(p.value, r.value);
    CompareIsTransitive(p.key, q.key, r.key);
    if p.key == q.key == r.key {
      CompareIsTransitive(p.value, q.value, r.value);
    }
  }

  ghost predicate Sorted(ps: seq<Pair>) {
    forall i, j :: 0 <= i < j < |ps| ==> !Less(ps[j], ps[i])
  }

  lemma SortedTail(ps: seq<Pair>)
    requires Sorted(ps) && ps != []
    ensures Sorted(ps[1..]) && ps == [ps[0]] + ps[1..] && multiset(ps[1..]) == multiset(ps) - multiset{ps[0]}
  {
    hide Less;
    assert ps == [ps[0]] + ps[1..];
  }

  lemma SameSize(ps: seq<Pair>, qs: seq<Pair>)
    requires multiset(ps) == multiset(qs)
    ensures |ps| == |qs|
  {
    assert |ps| == |multiset(ps)| && |qs| == |multiset(qs)|;
  }

  /** Two sorted arrangements of the same parameters are the same list: no sort order can matter. */
  lemma {:induction false} SortedIsUnique(ps: seq<Pair>, qs: seq<Pair>)
    requires multiset(ps) == multiset(qs) && Sorted(ps) && Sorted(qs)
    ensures ps == qs
    decreases |ps|
  {
    hide Less, Sorted;
    SameSize(ps, qs);
    if ps != [] {
      FirstIsLeast(ps, qs);
      FirstIsLeast(qs, ps);
      LessIsTotal(ps[0], qs[0]);
      SortedTail(ps);
      SortedTail(qs);
      SortedIsUnique(ps[1..], qs[1..]);
    }
  }

  lemma FirstIsLeast(ps: seq<Pair>, qs: seq<Pair>)
    requires multiset(ps) == multiset(qs) && Sorted(ps) && ps != [] && qs != []
    ensures !Less(qs[0], ps[0])
  {
    hide Less;
    assert qs[0] in multiset(qs);
    assert qs[0] in ps;
    var i :| 0 <= i < |ps| && ps[i] == qs[0];
    if i == 0 {
      LessIsTotal(ps[0], ps[0]);
    }
  }

  // ---- Encoding as a map on multisets ----

  lemma CountCons(x: Pair, s: seq<Pair>, y: Pair)
    ensures multiset([x] + s)[y] == (if x == y then 1 else 0) + multiset(s)[y]
  {}

  lemma EncodePairsCons(ps: seq<Pair>)
    requires ps != []
    ensures EncodePairs(ps) == [EncodePair(ps[0])] + EncodePairs(ps[1..])
    ensures ps == [ps[0]] + ps[1..]
  {
    hide EncodePair;
  }

  lemma {:induction false} CountOfEncoded(ps: seq<Pair>, p: Pair)
    ensures multiset(EncodePairs(ps))[EncodePair(p)] == multiset(ps)[p]
  {
    hide EncodePair, EncodePairs;
    if ps == [] {
      EncodeNoPairs();
    } else {
      EncodePairsCons(ps);
      CountOfEncoded(ps[1..], p);
      CountCons(ps[0], ps[1..], p);
      CountCons(EncodePair(ps[0]), EncodePairs(ps[1..]), EncodePair(p));
      if EncodePair(ps[0]) == EncodePair(p) {
        EncodePairIsInjective(ps[0], p);
      }
    }
  }

  lemma EncodedIsImage(ps: seq<Pair>, e: Pair) returns (p: Pair)
    requires e in EncodePairs(ps)
    ensures e == EncodePair(p)
  {
    var i :| 0 <= i < |ps| && EncodePairs(ps)[i] == e;
    p := ps[i];
  }

  lemma SameEncoded(ps: seq<Pair>, qs: seq<Pair>, e: Pair)
    requires multiset(ps) == multiset(qs)
    ensures multiset(EncodePairs(ps))[e] == multiset(EncodePairs(qs))[e]
  {
    hide EncodePair, EncodePairs;
    if e in EncodePairs(ps) {
      var p := EncodedIsImage(ps, e);
      CountOfEncoded(ps, p);
      CountOfEncoded(qs, p);
    } else if e in EncodePairs(qs) {
      var p := EncodedIsImage(qs, e);
      CountOfEncoded(ps, p);
      CountOfEncoded(qs, p);
    }
  }

  lemma EncodedMultisets(ps: seq<Pair>, qs: seq<Pair>)
    ensures multiset(EncodePairs(ps)) == multiset(EncodePairs(qs)) <==> multiset(ps) == multiset(qs)
  {
    hide EncodePair, EncodePairs;
    if multiset(ps) == multiset(qs) {
      forall e ensures multiset(EncodePairs(ps))[e] == multiset(EncodePairs(qs))[e] {
        SameEncoded(ps, qs, e);
      }
    }
    if multiset(EncodePairs(ps)) == multiset(EncodePairs(qs)) {
      forall p ensures multiset(ps)[p] == multiset(qs)[p] {
        CountOfEncoded(ps, p);
        CountOfEncoded(qs, p);
      }
    }
  }

  // ---- Normalized parameters ----

  function JoinPair(p: Pair): Text { p.key + ['='] + p.value }

  function Join(ps: seq<Pair>): Text {
    if ps == [] then []
    else if |ps| == 1 then JoinPair(ps[0])
    else JoinPair(ps[0]) + ['&'] + Join(ps[1..])
  }

  ghost predicate CleanPairs(ps: seq<Pair>) {
    forall i :: 0 <= i < |ps| ==> Clean(ps[i].key) && Clean(ps[i].value)
  }

  lemma JoinPairIsInjective(p: Pair, q: Pair)
    requires Clean(p.key) && Clean(q.key) && JoinPair(p) == JoinPair(q)
    ensures p == q
  {
    assert '=' !in p.key && '=' !in q.key;
    CutAtSeparator(p.key, p.value, q.key, q.value, '=');
  }

  lemma JoinPairHasNoSeparator(p: Pair)
    requires Clean(p.key) && Clean(p.value)
    ensures '&' !in JoinPair(p)
  {}

  /** The normalized string splits back into its list of pairs in only one way. */
  lemma {:induction false} JoinIsInjective(ps: seq<Pair>, qs: seq<Pair>)
    requires CleanPairs(ps) && CleanPairs(qs) && Join(ps) == Join(qs)
    ensures ps == qs
    decreases |ps|
  {
    hide Clean;
    if ps == [] || qs == [] {
      JoinIsLong(ps);
      JoinIsLong(qs);
    } else {
      hide JoinPair;
      JoinPairHasNoSeparator(ps[0]);
      JoinPairHasNoSeparator(qs[0]);
      if |ps| > 1 && |qs| > 1 {
        CutAtSeparator(JoinPair(ps[0]), Join(ps[1..]), JoinPair(qs[0]), Join(qs[1..]), '&');
        JoinIsInjective(ps[1..], qs[1..]);
        JoinPairIsInjective(ps[0], qs[0]);
        assert ps == [ps[0]] + ps[1..] && qs == [qs[0]] + qs[1..];
      } else if |ps| == 1 && |qs| == 1 {
        JoinPairIsInjective(ps[0], qs[0]);
      } else {
        SeparatorShows(ps, qs);
      }
    }
  }

  lemma SeparatorShows(ps: seq<Pair>, qs: seq<Pair>)
    requires CleanPairs(ps) && CleanPairs(qs) && ps != [] && qs != [] && (|ps| == 1) != (|qs| == 1)
    ensures Join(ps) != Join(qs)
  {
    hide Clean, JoinPair;
    JoinPairHasNoSeparator(ps[0]);
    JoinPairHasNoSeparator(qs[0]);
    assert |ps| > 1 ==> Join(ps)[|JoinPair(ps[0])|] == '&';
    assert |qs| > 1 ==> Join(qs)[|JoinPair(qs[0])|] == '&';
  }

  lemma {:induction false} JoinIsLong(ps: seq<Pair>)
    ensures |ps| <= |Join(ps)|
  {
    if |ps| > 1 {
      JoinIsLong(ps[1..]);
    }
  }

  // ---- The base string ----

  function UpperByte(c: CByte): CByte { if 'a' <= c <= 'z' then c - 'a' + 'A' else c }

  function Upper(s: Text): Text {
    if s == [] then [] else [UpperByte(s[0])] + Upper(s[1..])
  }

  function Compose(verb: Text, url: Text, sorted: seq<Pair>): Text {
    Encode(verb) + ['&'] + (Encode(url) + ['&'] + Encode(Join(sorted)))
  }

  /** b is a signature base string of the request: some sort of the encoded parameters produced it. */
  ghost predicate IsBaseString(b: Text, verb: Text, url: Text, params: seq<Pair>) {
    exists sorted: seq<Pair> ::
      && multiset(sorted) == multiset(EncodePairs(params)) && Sorted(sorted)
      && b == Compose(Upper(verb), url, sorted)
  }

  lemma ComposeIsInjective(v: Text, u: Text, ps: seq<Pair>, v': Text, u': Text, ps': seq<Pair>)
    requires CleanPairs(ps) && CleanPairs(ps') && Compose(v, u, ps) == Compose(v', u', ps')
    ensures v == v' && u == u' && ps == ps'
  {
    hide Encode, Join, Clean;
    NoAmpersand(v);
    NoAmpersand(v');
    NoAmpersand(u);
    NoAmpersand(u');
    var rest, rest' := Encode(u) + ['&'] + Encode(Join(ps)), Encode(u') + ['&'] + Encode(Join(ps'));
    CutAtSeparator(Encode(v), rest, Encode(v'), rest', '&');
    CutAtSeparator(Encode(u), Encode(Join(ps)), Encode(u'), Encode(Join(ps')), '&');
    EncodeIsInjective(v, v');
    EncodeIsInjective(u, u');
    EncodeIsInjective(Join(ps), Join(ps'));
    JoinIsInjective(ps, ps');
  }

  lemma NoAmpersand(s: Text)
    ensures '&' !in Encode(s)
  {
    EncodeIsClean(s);
    hide Encode;
  }

  lemma EncodedIsClean(params: seq<Pair>, sorted: seq<Pair>)
    requires multiset(sorted) == multiset(EncodePairs(params))
    ensures CleanPairs(sorted)
  {
    hide Clean, Encode;
    forall i | 0 <= i < |sorted| ensures Clean(sorted[i].key) && Clean(sorted[i].value) {
      assert sorted[i] in multiset(sorted);
      assert sorted[i] in EncodePairs(params);
      var k :| 0 <= k < |params| && EncodePairs(params)[k] == sorted[i];
      EncodeIsClean(params[k].key);
      EncodeIsClean(params[k].value);
    }
  }

  /** Two requests have the same base string exactly when the upper-cased method, the URL and the multiset
      of parameters agree: the order of parameters never matters, and nothing else is confused. */
  lemma BaseStringIsCanonical(b: Text, verb: Text, url: Text, params: seq<Pair>,
                              b': Text, verb': Text, url': Text, params': seq<Pair>)
    requires IsBaseString(b, verb, url, params) && IsBaseString(b', verb', url', params')
    ensures b == b' <==> Upper(verb) == Upper(verb') && url == url' && multiset(params) == multiset(params')
  {
    hide Compose, Upper, Sorted, CleanPairs, EncodePairs;
    var ps: seq<Pair> :| multiset(ps) == multiset(EncodePairs(params)) && Sorted(ps) && b == Compose(Upper(verb), url, ps);
    var qs: seq<Pair> :| multiset(qs) == multiset(EncodePairs(params')) && Sorted(qs) && b' == Compose(Upper(verb'), url', qs);
    EncodedMultisets(params, params');
    if multiset(params) == multiset(params') {
      SortedIsUnique(ps, qs);
    }
    if b == b' {
      EncodedIsClean(params, ps);
      EncodedIsClean(params', qs);
      ComposeIsInjective(Upper(verb), url, ps, Upper(verb'), url', qs);
    }
  }

  // ---- The request ----

  /** `api_oauth1_parameters`; None stands for a null pointer. */
  datatype Request = Request(
    verb: Option<Text>, url: Option<Text>,
    consumerKey: Option<Text>, consumerSecret: Option<Text>,
    token: Option<Text>, signatureMethod: Option<Text>,
    timestamp: Option<Text>, nonce: Option<Text>, version: Option<Text>,
    additional: seq<Extra>)

  datatype Extra = Extra(key: Option<Text>, value: Option<Text>)

  function OrElse(t: Option<Text>, default: Text): Text { if t.Some? then t.value else default }

  const CONSUMER_KEY: Text := "oauth_consumer_key"
  const NONCE: Text := "oauth_nonce"
  const SIGNATURE_METHOD: Text := "oauth_signature_method"
  const TIMESTAMP: Text := "oauth_timestamp"
  const TOKEN: Text := "oauth_token"
  const VERSION: Text := "oauth_version"
  const HMAC_SHA256: Text := "HMAC-SHA256"
  const VERSION_1_0: Text := "1.0"

  /** What the signing function demands of its caller; everything else is an invalid argument. */
  predicate Acceptable(r: Request) {
    && r.verb.Some? && r.url.Some? && r.consumerKey.Some? && r.consumerSecret.Some?
    && r.timestamp.Some? && r.nonce.Some?
    && forall i :: 0 <= i < |r.additional| ==> r.additional[i].key.Some?
  }

  function ExtraPairs(es: seq<Extra>): seq<Pair>
    requires forall i :: 0 <= i < |es| ==> es[i].key.Some?
  {
    if es == [] then [] else ExtraPairs(es[..|es| - 1]) + [Pair(es[|es| - 1].key.value, OrElse(es[|es| - 1].value, []))]
  }

  /** The parameters that come from the fixed fields of the request. */
  function FixedPairs(r: Request): seq<Pair>
    requires r.consumerKey.Some? && r.nonce.Some? && r.timestamp.Some?
  {
    [Pair(CONSUMER_KEY, r.consumerKey.value),
     Pair(NONCE, r.nonce.value),
     Pair(SIGNATURE_METHOD, OrElse(r.signatureMethod, HMAC_SHA256)),
     Pair(TIMESTAMP, r.timestamp.value)]
    + (if r.token.Some? then [Pair(TOKEN, r.token.value)] else [])
    + [Pair(VERSION, OrElse(r.version, VERSION_1_0))]
  }

  /** The parameters that are signed, before encoding. */
  function Parameters(r: Request): seq<Pair>
    requires Acceptable(r)
  {
    FixedPairs(r) + ExtraPairs(r.additional)
  }

  // ---- The methods ----

  /** `api_request_signing_percent_encode` onto an existing output. */
  method AppendEncoded(input: Text, before: Text) returns (output: Text)
    ensures output == before + Encode(input)
  {
    output := before;
    var index := 0;
    while index < |input|
      invariant 0 <= index <= |input|
      invariant output == before + Encode(input[..index])
    {
      hide EncodeByte, Encode;
      EncodeSnoc(input[..index], input[index]);
      assert input[..index + 1] == input[..index] + [input[index]];
      var c := input[index];
      EncodeByteCases(c);
      if Unreserved(c) {
        output := output + [c];
      } else {
        output := output + ['%', HexChar(c as int / 16), HexChar(c as int % 16)];
      }
      index := index + 1;
    }
    assert input[..index] == input;
  }

  lemma EncodeByteCases(c: CByte)
    ensures EncodeByte(c) == if Unreserved(c) then [c] else ['%', HexChar(c as int / 16), HexChar(c as int % 16)]
  {}

  lemma {:induction false} EncodeSnoc(s: Text, c: CByte)
    ensures Encode(s + [c]) == Encode(s) + EncodeByte(c)
  {
    hide EncodeByte;
    if s == [] {
      assert [] + [c] == [c] && [c][1..] == [];
    } else {
      assert (s + [c])[1..] == s[1..] + [c];
      EncodeSnoc(s[1..], c);
    }
  }

  /** `api_request_signing_uppercase`. */
  method Uppercase(input: Text) returns (output: Text)
    ensures output == Upper(input)
  {
    output := [];
    var index := 0;
    while index < |input|
      invariant 0 <= index <= |input|
      invariant output == Upper(input[..index])
    {
      var c := input[index];
      if 'a' <= c <= 'z' {
        c := c - 'a' + 'A';
      }
      UpperSnoc(input[..index], input[index]);
      assert input[..index + 1] == input[..index] + [input[index]];
      output := output + [c];
      index := index + 1;
    }
    assert input[..index] == input;
  }

  lemma {:induction false} UpperSnoc(s: Text, c: CByte)
    ensures Upper(s + [c]) == Upper(s) + [UpperByte(c)]
  {
    hide UpperByte;
    if s == [] {
      assert [] + [c] == [c] && [c][1..] == [];
    } else {
      assert (s + [c])[1..] == s[1..] + [c];
      UpperSnoc(s[1..], c);
    }
  }

  /** `api_request_signing_add_parameter`: refuse a missing key, read a missing value as empty. */
  method AddParameter(entries: seq<Pair>, key: Option<Text>, value: Option<Text>) returns (ok: bool, entries': seq<Pair>)
    ensures ok == key.Some?
    ensures entries' == if ok then entries + [EncodePair(Pair(key.value, OrElse(value, [])))] else entries
  {
    hide Encode;
    if key.None? {
      return false, entries;
    }
    var encodedKey := AppendEncoded(key.value, []);
    var encodedValue := AppendEncoded(OrElse(value, []), []);
    assert [] + Encode(key.value) == Encode(key.value);
    assert [] + Encode(OrElse(value, [])) == Encode(OrElse(value, []));
    return true, entries + [Pair(encodedKey, encodedValue)];
  }

  /** The library sort: any sorted arrangement of the entries will do, here by insertion. */
  method SortEntries(entries: seq<Pair>) returns (sorted: seq<Pair>)
    ensures multiset(sorted) == multiset(entries) && Sorted(sorted)
  {
    hide Less;
    sorted := [];
    var i := 0;
    while i < |entries|
      invariant 0 <= i <= |entries|
      invariant multiset(sorted) == multiset(entries[..i]) && Sorted(sorted)
    {
      assert entries[..i + 1] == entries[..i] + [entries[i]];
      sorted := InsertEntry(sorted, entries[i]);
      i := i + 1;
    }
    assert entries[..i] == entries;
  }

  method InsertEntry(sorted: seq<Pair>, e: Pair) returns (r: seq<Pair>)
    requires Sorted(sorted)
    ensures multiset(r) == multiset(sorted) + multiset{e} && Sorted(r)
  {
    var k := 0;
    while k < |sorted| && !Less(e, sorted[k])
      invariant 0 <= k <= |sorted|
      invariant forall i :: 0 <= i < k ==> !Less(e, sorted[i])
    {
      k := k + 1;
    }
    r := sorted[..k] + [e] + sorted[k..];
    assert sorted == sorted[..k] + sorted[k..];
    InsertIsSorted(sorted, e, k);
  }

  lemma InsertIsSorted(sorted: seq<Pair>, e: Pair, k: nat)
    requires Sorted(sorted) && k <= |sorted|
    requires forall i :: 0 <= i < k ==> !Less(e, sorted[i])
    requires k < |sorted| ==> Less(e, sorted[k])
    ensures Sorted(sorted[..k] + [e] + sorted[k..])
  {
    hide Less;
    var r := sorted[..k] + [e] + sorted[k..];
    forall j | k <= j < |sorted| ensures !Less(sorted[j], e) {
      LessIsTotal(e, sorted[k]);
      if j > k {
        NotLessIsTransitive(e, sorted[k], sorted[j]);
      }
    }
    assert forall i :: 0 <= i < |r| ==> r[i] == if i < k then sorted[i] else if i == k then e else sorted[i - 1];
  }

  /** The first k pairs joined, and what one more adds. */
  lemma JoinNext(entries: seq<Pair>, k: nat)
    requires k < |entries|
    ensures var pair := JoinPair(entries[k]);
            Join(entries[..k + 1]) == if k == 0 then pair else Join(entries[..k]) + ['&'] + pair
  {
    hide Join, JoinPair;
    assert entries[..k + 1] == entries[..k] + [entries[k]];
    JoinSnoc(entries[..k], entries[k]);
  }

  /** `api_request_signing_append_normalized` onto an empty target. */
  method Normalize(entries: seq<Pair>) returns (target: Text)
    ensures target == Join(entries)
  {
    target := [];
    var index := 0;
    assert entries[..0] == [] && Join([]) == [];
    hide Join, JoinPair;
    while index < |entries|
      invariant 0 <= index <= |entries|
      invariant target == Join(entries[..index])
      invariant index == 0 ==> target == []
    {
      JoinNext(entries, index);
      if index > 0 {
        target := target + ['&'];
      }
      JoinPairParts(target, entries[index]);
      target := target + entries[index].key;
      target := target + ['='];
      target := target + entries[index].value;
      index := index + 1;
    }
    assert entries[..index] == entries;
  }

  lemma JoinPairParts(before: Text, p: Pair)
    ensures before + p.key + ['='] + p.value == before + JoinPair(p)
    ensures before == [] ==> before + JoinPair(p) == JoinPair(p)
  {}

  lemma {:induction false} JoinSnoc(ps: seq<Pair>, p: Pair)
    ensures Join(ps + [p]) == if ps == [] then JoinPair(p) else Join(ps) + ['&'] + JoinPair(p)
  {
    hide JoinPair;
    if |ps| == 1 {
      assert (ps + [p])[1..] == [p];
    } else if |ps| > 1 {
      assert (ps + [p])[1..] == ps[1..] + [p];
      JoinSnoc(ps[1..], p);
    }
  }

  lemma {:induction false} EncodePairsSnoc(ps: seq<Pair>, p: Pair)
    ensures EncodePairs(ps + [p]) == EncodePairs(ps) + [EncodePair(p)]
  {
    hide EncodePair;
  }

  /** The additional parameters, in order, stopping at the first one without a key. */
  method AddAdditional(entries: seq<Pair>, additional: seq<Extra>) returns (ok: bool, entries': seq<Pair>)
    ensures ok <==> forall i :: 0 <= i < |additional| ==> additional[i].key.Some?
    ensures ok ==> entries' == entries + EncodePairs(ExtraPairs(additional))
  {
    hide EncodePair, EncodePairs, ExtraPairs;
    entries' := entries;
    var index := 0;
    NothingAdded(entries, additional);
    while index < |additional|
      invariant 0 <= index <= |additional|
      invariant forall i :: 0 <= i < index ==> additional[i].key.Some?
      invariant entries' == entries + EncodePairs(ExtraPairs(additional[..index]))
    {
      var extra := additional[index];
      var added;
      added, entries' := AddParameter(entries', extra.key, extra.value);
      if !added {
        return false, entries';
      }
      OneAdded(entries, additional, index);
      index := index + 1;
    }
    assert additional[..index] == additional;
    ok := true;
  }

  lemma NothingAdded(entries: seq<Pair>, additional: seq<Extra>)
    ensures entries + EncodePairs(ExtraPairs(additional[..0])) == entries
  {
    assert additional[..0] == [];
    EncodeNoPairs();
  }

  lemma OneAdded(entries: seq<Pair>, additional: seq<Extra>, k: nat)
    requires k < |additional| && forall i :: 0 <= i <= k ==> additional[i].key.Some?
    ensures entries + EncodePairs(ExtraPairs(additional[..k]))
              + [EncodePair(Pair(additional[k].key.value, OrElse(additional[k].value, [])))]
         == entries + EncodePairs(ExtraPairs(additional[..k + 1]))
  {
    hide EncodePair, EncodePairs;
    assert additional[..k + 1][..k] == additional[..k];
    var ps, p := ExtraPairs(additional[..k]), Pair(additional[k].key.value, OrElse(additional[k].value, []));
    assert ExtraPairs(additional[..k + 1]) == ps + [p];
    hide ExtraPairs;
    EncodePairsSnoc(ps, p);
  }

  lemma EncodeNoPairs()
    ensures EncodePairs([]) == []
  {}

  /** The parameter collection and base string of `api_build_oauth1_authorization_header`. */
  method BuildBaseString(r: Request) returns (base: Option<Text>)
    ensures base.Some? <==> Acceptable(r)
    ensures base.Some? ==> IsBaseString(base.value, r.verb.value, r.url.value, Parameters(r))
  {
    hide EncodePair, EncodePairs, Sorted, Encode, Join, ExtraPairs;
    if r.verb.None? || r.url.None? || r.consumerKey.None? || r.consumerSecret.None?
       || r.timestamp.None? || r.nonce.None? {
      return None;
    }
    var entries := AddFixed(r);
    var ok, all := AddAdditional(entries, r.additional);
    if !ok {
      return None;
    }
    ParametersSplit(r, entries, all);
    var sorted := SortEntries(all);
    var normalized := Normalize(sorted);
    var upper := Uppercase(r.verb.value);
    var text := AppendEncoded(upper, []);
    text := text + ['&'];
    text := AppendEncoded(r.url.value, text);
    text := text + ['&'];
    text := AppendEncoded(normalized, text);
    assert text == Compose(Upper(r.verb.value), r.url.value, sorted);
    return Some(text);
  }

  method AddFixed(r: Request) returns (entries: seq<Pair>)
    requires r.consumerKey.Some? && r.nonce.Some? && r.timestamp.Some?
    ensures entries == EncodePairs(FixedPairs(r))
  {
    hide EncodePair, EncodePairs;
    var ok;
    ok, entries := AddParameter([], Some(CONSUMER_KEY), r.consumerKey);
    ok, entries := AddParameter(entries, Some(NONCE), r.nonce);
    ok, entries := AddParameter(entries, Some(SIGNATURE_METHOD), Some(OrElse(r.signatureMethod, HMAC_SHA256)));
    ok, entries := AddParameter(entries, Some(TIMESTAMP), r.timestamp);
    if r.token.Some? {
      ok, entries := AddParameter(entries, Some(TOKEN), r.token);
    }
    ok, entries := AddParameter(entries, Some(VERSION), Some(OrElse(r.version, VERSION_1_0)));
    FixedEncoded(r);
  }

  lemma FixedEncoded(r: Request)
    requires r.consumerKey.Some? && r.nonce.Some? && r.timestamp.Some?
    ensures EncodePairs(FixedPairs(r)) ==
      [] + [EncodePair(Pair(CONSUMER_KEY, r.consumerKey.value))]
      + [EncodePair(Pair(NONCE, r.nonce.value))]
      + [EncodePair(Pair(SIGNATURE_METHOD, OrElse(r.signatureMethod, HMAC_SHA256)))]
      + [EncodePair(Pair(TIMESTAMP, r.timestamp.value))]
      + (if r.token.Some? then [EncodePair(Pair(TOKEN, r.token.value))] else [])
      + [EncodePair(Pair(VERSION, OrElse(r.version, VERSION_1_0)))]
  {
    hide EncodePair;
  }

  lemma ParametersSplit(r: Request, fixed: seq<Pair>, all: seq<Pair>)
    requires Acceptable(r)
    requires fixed == EncodePairs(FixedPairs(r)) && all == fixed + EncodePairs(ExtraPairs(r.additional))
    ensures all == EncodePairs(Parameters(r))
  {
    hide EncodePair, ExtraPairs;
  }
}
