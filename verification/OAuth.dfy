/** The signature base string of OAuth 1 (section 3.4.1 of RFC 5849): inet/oauth.go. Strings are bytes. */
module OAuth {
  import opened Text

  type Bytes = seq<Byte>
  type Params = map<Bytes, Bytes>

  const PERCENT: Byte := 37
  const AMPERSAND: Byte := 38
  const EQUALS: Byte := 61

  // Percent encoding, section 2.1 of RFC 3986

  predicate Unreserved(b: Byte) {
    65 <= b <= 90 || 97 <= b <= 122 || 48 <= b <= 57 || b == 45 || b == 46 || b == 95 || b == 126
  }

  function HexDigit(n: int): Byte
    requires 0 <= n < 16
  {
    if n < 10 then 48 + n else 55 + n
  }

  function HexValue(b: Byte): int { if b <= 57 then b - 48 else b - 55 }

  function EncodeByte(b: Byte): (r: Bytes)
    ensures AMPERSAND !in r && EQUALS !in r && r != []
  {
    if Unreserved(b) then [b] else [PERCENT, HexDigit(b / 16), HexDigit(b % 16)]
  }

  function Encoded(s: Bytes): Bytes {
    if s == [] then [] else EncodeByte(s[0]) + Encoded(s[1..])
  }

  /** PercentEncode. */
  method PercentEncode(input: Bytes) returns (buf: Bytes)
    ensures buf == Encoded(input)
  {
    buf := [];
    for i := 0 to |input|
      invariant buf + Encoded(input[i..]) == Encoded(input)
    {
      EncodedStep(buf, input, i);
      buf := buf + EncodeByte(input[i]);
    }
  }

  lemma {:induction false} EncodedStep(buf: Bytes, input: Bytes, i: nat)
    requires i < |input|
    ensures buf + Encoded(input[i..]) == buf + EncodeByte(input[i]) + Encoded(input[i + 1..])
  {
    assert input[i..][1..] == input[i + 1..];
    Assoc(buf, EncodeByte(input[i]), Encoded(input[i + 1..]));
  }

  function Decoded(s: Bytes): Bytes
    decreases |s|
  {
    if s == [] then []
    else if s[0] == PERCENT && |s| >= 3 then
      var n := 16 * HexValue(s[1]) + HexValue(s[2]);
      (if 0 <= n < 256 then [n] else []) + Decoded(s[3..])
    else [s[0]] + Decoded(s[1..])
  }

  /** Percent encoding is reversible. */
  lemma {:induction false} DecodeEncoded(s: Bytes)
    ensures Decoded(Encoded(s)) == s
  {
    if s == [] {
    } else {
      var rest := Encoded(s[1..]);
      DecodeEncoded(s[1..]);
      if Unreserved(s[0]) {
        assert ([s[0]] + rest)[1..] == rest;
      } else {
        assert Encoded(s)[3..] == rest;
        assert 16 * (s[0] / 16) + s[0] % 16 == s[0];
      }
    }
  }

  lemma {:induction false} EncodedInjective(a: Bytes, b: Bytes)
    requires Encoded(a) == Encoded(b)
    ensures a == b
  {
    DecodeEncoded(a);
    DecodeEncoded(b);
  }

  /** Encoded text contains none of the separators. */
  lemma {:induction false} EncodedPlain(s: Bytes)
    ensures AMPERSAND !in Encoded(s) && EQUALS !in Encoded(s)
  {
    if s == [] {
    } else {
      EncodedPlain(s[1..]);
    }
  }

  // The byte order of strings

  predicate Less(a: Bytes, b: Bytes)
    decreases |a|
  {
    b != [] && (a == [] || a[0] < b[0] || (a[0] == b[0] && Less(a[1..], b[1..])))
  }

  lemma {:induction false} LessTransitive(a: Bytes, b: Bytes, c: Bytes)
    requires Less(a, b) && Less(b, c)
    ensures Less(a, c)
    decreases |a|
  {
    if a == [] || a[0] < b[0] || b[0] < c[0] {
    } else {
      LessTransitive(a[1..], b[1..], c[1..]);
    }
  }

  lemma {:induction false} LessTotal(a: Bytes, b: Bytes)
    ensures !(Less(a, b) && Less(b, a)) && (a == b ==> !Less(a, b))
    ensures Less(a, b) || Less(b, a) || a == b
    decreases |a|
  {
    if a == [] || b == [] {
    } else {
      LessTotal(a[1..], b[1..]);
      assert a == [a[0]] + a[1..] && b == [b[0]] + b[1..];
    }
  }

  /** a is a proper prefix of b, or has the smaller byte where they first differ. */
  ghost predicate Precedes(a: Bytes, b: Bytes) {
    || (a <= b && a != b)
    || exists i :: 0 <= i < |a| && i < |b| && a[..i] == b[..i] && a[i] < b[i]
  }

  /** The comparison is the byte order of strings. */
  lemma {:induction false} LessExactly(a: Bytes, b: Bytes)
    ensures Less(a, b) <==> Precedes(a, b)
    decreases |a|
  {
    if a == [] || b == [] {
    } else {
      var x, y := a[1..], b[1..];
      LessExactly(x, y);
      assert a == [a[0]] + x && b == [b[0]] + y;
      if a[0] == b[0] {
        PrecedesBehind(a[0], x, y);
      } else if a[0] < b[0] {
        assert a[..0] == b[..0];
      } else if Precedes(a, b) {
        FirstBytes(a, b);
      }
    }
  }

  lemma {:induction false} FirstBytes(a: Bytes, b: Bytes)
    requires Precedes(a, b) && a != [] && b != []
    ensures a[0] <= b[0]
  {
    if a <= b {
    } else {
      var i :| 0 <= i < |a| && i < |b| && a[..i] == b[..i] && a[i] < b[i];
      if i > 0 {
        assert a[..i][0] == b[..i][0];
      }
    }
  }

  lemma {:induction false} PrecedesBehind(c: Byte, x: Bytes, y: Bytes)
    ensures Precedes([c] + x, [c] + y) <==> Precedes(x, y)
  {
    var a, b := [c] + x, [c] + y;
    assert a[1..] == x && b[1..] == y;
    assert x <= y <==> a <= b;
    if Precedes(x, y) && !(x <= y) {
      var i :| 0 <= i < |x| && i < |y| && x[..i] == y[..i] && x[i] < y[i];
      assert a[..i + 1] == [c] + x[..i] && b[..i + 1] == [c] + y[..i] && a[i + 1] < b[i + 1];
    }
    if Precedes(a, b) && !(a <= b) {
      var i :| 0 <= i < |a| && i < |b| && a[..i] == b[..i] && a[i] < b[i];
      assert a[..i][1..] == x[..i - 1] && b[..i][1..] == y[..i - 1] && x[i - 1] < y[i - 1];
    }
  }

  /** In byte order. */
  ghost predicate Ascending(keys: seq<Bytes>) {
    forall i, j :: 0 <= i < j < |keys| ==> Precedes(keys[i], keys[j])
  }

  lemma {:induction false} PrecedesTotal(a: Bytes, b: Bytes)
    ensures !(Precedes(a, b) && Precedes(b, a)) && (a == b ==> !Precedes(a, b))
    ensures Precedes(a, b) || Precedes(b, a) || a == b
  {
    LessExactly(a, b);
    LessExactly(b, a);
    LessTotal(a, b);
  }

  lemma {:induction false} PrecedesTransitive(a: Bytes, b: Bytes, c: Bytes)
    requires Precedes(a, b) && Precedes(b, c)
    ensures Precedes(a, c)
  {
    LessExactly(a, b);
    LessExactly(b, c);
    LessExactly(a, c);
    LessTransitive(a, b, c);
  }

  /** There is one ascending listing of a set of strings. */
  lemma {:induction false} AscendingUnique(a: seq<Bytes>, b: seq<Bytes>)
    requires Ascending(a) && Ascending(b) && forall x :: x in a <==> x in b
    ensures a == b
    decreases |a|
  {
    assert b != [] ==> b[0] in b;
    assert a != [] ==> a[0] in a;
    if a == [] {
    } else {
      FirstEqual(a, b);
      forall x ensures x in a[1..] <==> x in b[1..] {
        RestOf(a, x);
        RestOf(b, x);
      }
      AscendingUnique(a[1..], b[1..]);
      assert a == [a[0]] + a[1..] && b == [b[0]] + b[1..];
    }
  }

  lemma {:induction false} FirstEqual(a: seq<Bytes>, b: seq<Bytes>)
    requires Ascending(a) && Ascending(b) && a != [] && b != [] && forall x :: x in a <==> x in b
    ensures a[0] == b[0]
  {
    assert a[0] in b && b[0] in a;
    var i :| 0 <= i < |b| && b[i] == a[0];
    var j :| 0 <= j < |a| && a[j] == b[0];
    PrecedesTotal(a[0], b[0]);
  }

  lemma {:induction false} RestOf(a: seq<Bytes>, x: Bytes)
    requires Ascending(a) && a != []
    ensures x in a[1..] <==> x in a && x != a[0]
  {
    if x in a[1..] {
      var i :| 0 <= i < |a[1..]| && a[1..][i] == x;
      PrecedesTotal(a[0], a[i + 1]);
    }
  }

  // Parameters

  function Pair(k: Bytes, v: Bytes): Bytes { k + [EQUALS] + v }

  function Pairs(params: Params, keys: seq<Bytes>): (r: seq<Bytes>)
    requires forall i :: 0 <= i < |keys| ==> keys[i] in params
    ensures |r| == |keys| && forall i :: 0 <= i < |keys| ==> r[i] == Pair(Encoded(keys[i]), Encoded(params[keys[i]]))
  {
    seq(|keys|, i requires 0 <= i < |keys| => Pair(Encoded(keys[i]), Encoded(params[keys[i]])))
  }

  function AllEncoded(keys: seq<Bytes>): (r: seq<Bytes>)
    ensures |r| == |keys| && forall i :: 0 <= i < |keys| ==> r[i] == Encoded(keys[i])
  {
    seq(|keys|, i requires 0 <= i < |keys| => Encoded(keys[i]))
  }

  /** All keys, in the order of their encodings, section 3.4.1.3.2 of RFC 5849. */
  ghost predicate Canonical(params: Params, keys: seq<Bytes>) {
    && (forall k :: k in keys <==> k in params)
    && (forall i :: 0 <= i < |keys| ==> keys[i] in params)
    && Ascending(AllEncoded(keys))
  }

  /** The canonical order does not depend on the order in which a map is visited. */
  lemma {:induction false} CanonicalUnique(params: Params, a: seq<Bytes>, b: seq<Bytes>)
    requires Canonical(params, a) && Canonical(params, b)
    ensures a == b
  {
    SameEncodings(a, b);
    SameEncodings(b, a);
    AscendingUnique(AllEncoded(a), AllEncoded(b));
    forall i | 0 <= i < |a| ensures a[i] == b[i] {
      assert AllEncoded(a)[i] == AllEncoded(b)[i];
      EncodedInjective(a[i], b[i]);
    }
  }

  lemma {:induction false} SameEncodings(a: seq<Bytes>, b: seq<Bytes>)
    requires forall x :: x in a ==> x in b
    ensures forall x :: x in AllEncoded(a) ==> x in AllEncoded(b)
  {
    forall x | x in AllEncoded(a) ensures x in AllEncoded(b) {
      var i :| 0 <= i < |a| && AllEncoded(a)[i] == x;
      assert a[i] in b;
      var j :| 0 <= j < |b| && b[j] == a[i];
      assert AllEncoded(b)[j] == x;
    }
  }

  /** encoded holds the parameters of the given keys, with keys and values encoded. */
  ghost predicate EncodesKeys(encoded: Params, params: Params, keys: set<Bytes>)
    requires keys <= params.Keys
  {
    && (forall k :: k in keys ==> Encoded(k) in encoded && encoded[Encoded(k)] == Encoded(params[k]))
    && (forall e :: e in encoded ==> Decoded(e) in keys && e == Encoded(Decoded(e)))
  }

  /** encoded is params with keys and values encoded. */
  ghost predicate IsEncodingOf(encoded: Params, params: Params) { EncodesKeys(encoded, params, params.Keys) }

  lemma {:induction false} EncodeOneMore(encoded: Params, params: Params, keys: set<Bytes>, key: Bytes)
    requires keys <= params.Keys && key in params && EncodesKeys(encoded, params, keys)
    ensures EncodesKeys(encoded[Encoded(key) := Encoded(params[key])], params, keys + {key})
  {
    var next := encoded[Encoded(key) := Encoded(params[key])];
    forall k | k in keys + {key} ensures Encoded(k) in next && next[Encoded(k)] == Encoded(params[k]) {
      if Encoded(k) == Encoded(key) {
        EncodedInjective(k, key);
      }
    }
    forall e | e in next ensures Decoded(e) in keys + {key} && e == Encoded(Decoded(e)) {
      DecodeEncoded(key);
    }
  }

  /** encodeParameters, for every order of the map. */
  method EncodeParameters(params: Params) returns (encoded: Params)
    ensures IsEncodingOf(encoded, params)
  {
    encoded := map[];
    var todo := params.Keys;
    while todo != {}
      invariant todo <= params.Keys
      invariant EncodesKeys(encoded, params, params.Keys - todo)
      decreases todo
    {
      var key :| key in todo;
      var k := PercentEncode(key);
      var v := PercentEncode(params[key]);
      EncodeOneMore(encoded, params, params.Keys - todo, key);
      assert params.Keys - (todo - {key}) == params.Keys - todo + {key};
      encoded := encoded[k := v];
      todo := todo - {key};
    }
    assert params.Keys - {} == params.Keys;
  }

  method InsertKey(keys: seq<Bytes>, x: Bytes) returns (r: seq<Bytes>)
    requires Ascending(keys) && x !in keys
    ensures Ascending(r) && forall y :: y in r <==> y == x || y in keys
  {
    var i := 0;
    while i < |keys| && Less(keys[i], x)
      invariant 0 <= i <= |keys| && forall j :: 0 <= j < i ==> Precedes(keys[j], x)
    {
      LessExactly(keys[i], x);
      i := i + 1;
    }
    if i < |keys| {
      LessExactly(keys[i], x);
    }
    KeyInserted(keys, i, x);
    r := keys[..i] + [x] + keys[i..];
    assert keys == keys[..i] + keys[i..];
  }

  lemma {:induction false} KeyInserted(keys: seq<Bytes>, i: nat, x: Bytes)
    requires Ascending(keys) && x !in keys && i <= |keys| && (forall j :: 0 <= j < i ==> Precedes(keys[j], x))
    requires i < |keys| ==> !Precedes(keys[i], x)
    ensures Ascending(keys[..i] + [x] + keys[i..])
  {
    forall j | i <= j < |keys| ensures Precedes(x, keys[j]) {
      PrecedesTotal(keys[i], x);
      assert keys[i] in keys;
      if i < j {
        PrecedesTransitive(x, keys[i], keys[j]);
      }
    }
    AscendingAround(keys, i, x);
  }

  lemma {:induction false} AscendingAround(keys: seq<Bytes>, i: nat, x: Bytes)
    requires Ascending(keys) && i <= |keys|
    requires (forall j :: 0 <= j < i ==> Precedes(keys[j], x)) && (forall j :: i <= j < |keys| ==> Precedes(x, keys[j]))
    ensures Ascending(keys[..i] + [x] + keys[i..])
  {
    var r := keys[..i] + [x] + keys[i..];
    forall a, b | 0 <= a < b < |r| ensures Precedes(r[a], r[b]) {
      assert r[a] == if a < i then keys[a] else if a == i then x else keys[a - 1];
      assert r[b] == if b < i then keys[b] else if b == i then x else keys[b - 1];
    }
  }

  /** The sorted keys of a map: sort.Strings on the keys in any order. */
  method SortedKeys(params: Params) returns (keys: seq<Bytes>)
    ensures Ascending(keys) && forall k :: k in keys <==> k in params
  {
    keys := [];
    var todo := params.Keys;
    while todo != {}
      invariant todo <= params.Keys && Ascending(keys)
      invariant forall k :: k in keys <==> k in params.Keys - todo
      decreases todo
    {
      var key :| key in todo;
      keys := InsertKey(keys, key);
      todo := todo - {key};
    }
  }

  /** All keys of the map, ascending. */
  ghost predicate IsListing(params: Params, keys: seq<Bytes>) {
    && Ascending(keys)
    && (forall k :: k in keys <==> k in params)
    && (forall i :: 0 <= i < |keys| ==> keys[i] in params)
  }

  function PlainPairs(params: Params, keys: seq<Bytes>): (r: seq<Bytes>)
    requires forall i :: 0 <= i < |keys| ==> keys[i] in params
    ensures |r| == |keys| && forall i :: 0 <= i < |keys| ==> r[i] == Pair(keys[i], params[keys[i]])
  {
    seq(|keys|, i requires 0 <= i < |keys| => Pair(keys[i], params[keys[i]]))
  }

  /** sortParameters with the format %s=%s. */
  method SortParameters(params: Params) returns (pairs: seq<Bytes>)
    ensures exists keys :: IsListing(params, keys) && pairs == PlainPairs(params, keys)
  {
    var keys := SortedKeys(params);
    forall i | 0 <= i < |keys| ensures keys[i] in params {
      assert keys[i] in keys;
    }
    pairs := [];
    for i := 0 to |keys|
      invariant |pairs| == i
      invariant forall j :: 0 <= j < i ==> pairs[j] == Pair(keys[j], params[keys[j]])
    {
      pairs := pairs + [Pair(keys[i], params[keys[i]])];
    }
    assert IsListing(params, keys) && pairs == PlainPairs(params, keys);
  }

  // The base string

  function UpperByte(b: Byte): Byte { if 97 <= b <= 122 then b - 32 else b }

  function Upper(s: Bytes): (r: Bytes)
    ensures |r| == |s| && forall i :: 0 <= i < |s| ==> r[i] == UpperByte(s[i])
  {
    seq(|s|, i requires 0 <= i < |s| => UpperByte(s[i]))
  }

  function BaseString(verb: Bytes, url: Bytes, params: Params, keys: seq<Bytes>): Bytes
    requires forall i :: 0 <= i < |keys| ==> keys[i] in params
  {
    Join([Upper(verb), Encoded(url), Encoded(Join(Pairs(params, keys), AMPERSAND))], AMPERSAND)
  }

  /** The normalised parameters: every parameter encoded, in canonical order. */
  method ParameterPairs(params: Params) returns (pairs: seq<Bytes>)
    ensures exists keys :: Canonical(params, keys) && pairs == Pairs(params, keys)
  {
    var encoded := EncodeParameters(params);
    pairs := SortParameters(encoded);
    ghost var encodedKeys :| IsListing(encoded, encodedKeys) && pairs == PlainPairs(encoded, encodedKeys);
    ghost var keys := CanonicalKeys(params, encoded, encodedKeys);
    assert pairs == Pairs(params, keys);
  }

  /** signatureBase; the base URI is a parameter. */
  method SignatureBase(verb: Bytes, url: Bytes, params: Params) returns (base: Bytes)
    ensures exists keys :: Canonical(params, keys) && base == BaseString(verb, url, params, keys)
  {
    var pairs := ParameterPairs(params);
    ghost var keys :| Canonical(params, keys) && pairs == Pairs(params, keys);
    var encodedUrl := PercentEncode(url);
    var encodedParams := PercentEncode(Join(pairs, AMPERSAND));
    base := Join([Upper(verb), encodedUrl, encodedParams], AMPERSAND);
    assert base == BaseString(verb, url, params, keys);
  }

  lemma {:induction false} CanonicalKeys(params: Params, encoded: Params, encodedKeys: seq<Bytes>)
    returns (keys: seq<Bytes>)
    requires IsEncodingOf(encoded, params) && IsListing(encoded, encodedKeys)
    ensures Canonical(params, keys) && AllEncoded(keys) == encodedKeys
    ensures forall i :: 0 <= i < |keys| ==> encodedKeys[i] in encoded && encoded[encodedKeys[i]] == Encoded(params[keys[i]])
  {
    keys := seq(|encodedKeys|, i requires 0 <= i < |encodedKeys| => Decoded(encodedKeys[i]));
    forall i | 0 <= i < |keys|
      ensures keys[i] in params && Encoded(keys[i]) == encodedKeys[i]
      ensures encodedKeys[i] in encoded && encoded[encodedKeys[i]] == Encoded(params[keys[i]])
    {
      assert encodedKeys[i] in encodedKeys;
    }
    assert AllEncoded(keys) == encodedKeys;
    forall k | k in params ensures k in keys {
      KeyListed(params, encoded, encodedKeys, keys, k);
    }
  }

  lemma {:induction false} KeyListed(params: Params, encoded: Params, encodedKeys: seq<Bytes>, keys: seq<Bytes>,
                                     k: Bytes)
    requires IsEncodingOf(encoded, params) && k in params && AllEncoded(keys) == encodedKeys
    requires forall e :: e in encodedKeys <==> e in encoded
    ensures k in keys
  {
    assert Encoded(k) in encodedKeys;
    var i :| 0 <= i < |encodedKeys| && encodedKeys[i] == Encoded(k);
    EncodedInjective(k, keys[i]);
  }

  /** Joined parts that are not empty and do not contain the separator can be told apart. */
  lemma {:induction false} JoinInjective(a: seq<Bytes>, b: seq<Bytes>, sep: Byte)
    requires forall i :: 0 <= i < |a| ==> sep !in a[i] && a[i] != []
    requires forall i :: 0 <= i < |b| ==> sep !in b[i] && b[i] != []
    requires Join(a, sep) == Join(b, sep)
    ensures a == b
  {
    if a != [] && b != [] {
      SplitJoin(a, sep);
      SplitJoin(b, sep);
    }
    JoinNonEmpty(a, sep);
    JoinNonEmpty(b, sep);
  }

  lemma {:induction false} JoinNonEmpty(a: seq<Bytes>, sep: Byte)
    requires forall i :: 0 <= i < |a| ==> a[i] != []
    ensures a != [] ==> Join(a, sep) != []
  {
  }

  lemma {:induction false} PairInjective(k1: Bytes, v1: Bytes, k2: Bytes, v2: Bytes)
    requires Pair(Encoded(k1), Encoded(v1)) == Pair(Encoded(k2), Encoded(v2))
    ensures k1 == k2 && v1 == v2
  {
    SplitPair(k1, v1);
    SplitPair(k2, v2);
    var parts := Split(Pair(Encoded(k1), Encoded(v1)), EQUALS);
    assert parts[0] == Encoded(k1) == Encoded(k2) && parts[1] == Encoded(v1) == Encoded(v2);
    EncodedInjective(k1, k2);
    EncodedInjective(v1, v2);
  }

  lemma {:induction false} SplitPair(k: Bytes, v: Bytes)
    ensures Split(Pair(Encoded(k), Encoded(v)), EQUALS) == [Encoded(k), Encoded(v)]
  {
    EncodedPlain(k);
    EncodedPlain(v);
    SplitAppend(Encoded(k), EQUALS, Encoded(v));
    SplitNone(Encoded(k), EQUALS);
    SplitNone(Encoded(v), EQUALS);
  }

  lemma {:induction false} PairsPlain(params: Params, keys: seq<Bytes>)
    requires forall i :: 0 <= i < |keys| ==> keys[i] in params
    ensures forall i :: 0 <= i < |keys| ==> AMPERSAND !in Pairs(params, keys)[i] && Pairs(params, keys)[i] != []
  {
    forall i | 0 <= i < |keys| ensures AMPERSAND !in Pairs(params, keys)[i] {
      EncodedPlain(keys[i]);
      EncodedPlain(params[keys[i]]);
    }
  }

  lemma {:induction false} PairsInjective(p: Params, ks: seq<Bytes>, q: Params, ls: seq<Bytes>)
    requires Canonical(p, ks) && Canonical(q, ls) && Pairs(p, ks) == Pairs(q, ls)
    ensures p == q
  {
    forall i | 0 <= i < |ks| ensures ks[i] == ls[i] && p[ks[i]] == q[ls[i]] {
      assert Pairs(p, ks)[i] == Pairs(q, ls)[i];
      PairInjective(ks[i], p[ks[i]], ls[i], q[ls[i]]);
    }
    assert ks == ls;
    assert forall k :: k in p <==> k in q;
    forall k | k in p ensures p[k] == q[k] {
      var i :| 0 <= i < |ks| && ks[i] == k;
    }
  }

  lemma {:induction false} SplitBase(verb: Bytes, url: Bytes, params: Params, keys: seq<Bytes>)
    requires (forall i :: 0 <= i < |keys| ==> keys[i] in params) && AMPERSAND !in verb
    ensures Split(BaseString(verb, url, params, keys), AMPERSAND)
         == [Upper(verb), Encoded(url), Encoded(Join(Pairs(params, keys), AMPERSAND))]
  {
    EncodedPlain(url);
    EncodedPlain(Join(Pairs(params, keys), AMPERSAND));
    SplitJoin([Upper(verb), Encoded(url), Encoded(Join(Pairs(params, keys), AMPERSAND))], AMPERSAND);
  }

  /** The base string determines the upper-cased method, the URL and the parameters. */
  lemma {:induction false} BaseStringInjective(v1: Bytes, u1: Bytes, p1: Params, k1: seq<Bytes>,
                                               v2: Bytes, u2: Bytes, p2: Params, k2: seq<Bytes>)
    requires Canonical(p1, k1) && Canonical(p2, k2) && AMPERSAND !in v1 && AMPERSAND !in v2
    requires BaseString(v1, u1, p1, k1) == BaseString(v2, u2, p2, k2)
    ensures Upper(v1) == Upper(v2) && u1 == u2 && p1 == p2
  {
    SplitBase(v1, u1, p1, k1);
    SplitBase(v2, u2, p2, k2);
    var parts := Split(BaseString(v1, u1, p1, k1), AMPERSAND);
    var s1, s2 := Join(Pairs(p1, k1), AMPERSAND), Join(Pairs(p2, k2), AMPERSAND);
    assert parts[0] == Upper(v1) == Upper(v2) && parts[1] == Encoded(u1) == Encoded(u2);
    assert parts[2] == Encoded(s1) == Encoded(s2);
    EncodedInjective(u1, u2);
    EncodedInjective(s1, s2);
    PairsPlain(p1, k1);
    PairsPlain(p2, k2);
    JoinInjective(Pairs(p1, k1), Pairs(p2, k2), AMPERSAND);
    PairsInjective(p1, k1, p2, k2);
  }

  // Reading a base string

  /** The key and the value of one pair, decoded. */
  function ReadPair(pair: Bytes): (Bytes, Bytes) {
    var parts := Split(pair, EQUALS);
    (Decoded(parts[0]), if |parts| > 1 then Decoded(parts[1]) else [])
  }

  function ReadPairs(text: Bytes): (r: seq<(Bytes, Bytes)>) {
    if text == [] then []
    else
      var pairs := Split(text, AMPERSAND);
      seq(|pairs|, i requires 0 <= i < |pairs| => ReadPair(pairs[i]))
  }

  lemma {:induction false} PairRead(k: Bytes, v: Bytes)
    ensures ReadPair(Pair(Encoded(k), Encoded(v))) == (k, v)
  {
    SplitPair(k, v);
    DecodeEncoded(k);
    DecodeEncoded(v);
  }

  lemma {:induction false} PairsRead(params: Params, keys: seq<Bytes>)
    requires forall i :: 0 <= i < |keys| ==> keys[i] in params
    ensures var r := ReadPairs(Join(Pairs(params, keys), AMPERSAND));
      |r| == |keys| && forall i :: 0 <= i < |keys| ==> r[i] == (keys[i], params[keys[i]])
  {
    var pairs := Pairs(params, keys);
    PairsPlain(params, keys);
    JoinNonEmpty(pairs, AMPERSAND);
    if pairs != [] {
      SplitJoin(pairs, AMPERSAND);
    }
    forall i | 0 <= i < |keys| ensures ReadPair(pairs[i]) == (keys[i], params[keys[i]]) {
      PairRead(keys[i], params[keys[i]]);
    }
  }

  /** All parameters as key and value, in the byte order of the encoded keys. */
  ghost predicate IsReading(params: Params, read: seq<(Bytes, Bytes)>) {
    && |read| == |params|
    && (forall k :: k in params ==> exists i :: 0 <= i < |read| && read[i].0 == k)
    && (forall i :: 0 <= i < |read| ==> read[i].0 in params && read[i].1 == params[read[i].0])
    && (forall i, j :: 0 <= i < j < |read| ==> Precedes(Encoded(read[i].0), Encoded(read[j].0)))
  }

  lemma {:induction false} CanonicalReading(params: Params, keys: seq<Bytes>, read: seq<(Bytes, Bytes)>)
    requires Canonical(params, keys) && |read| == |keys|
    requires forall i :: 0 <= i < |keys| ==> read[i] == (keys[i], params[keys[i]])
    ensures IsReading(params, read)
  {
    CanonicalSize(params, keys);
    forall k | k in params ensures exists i :: 0 <= i < |read| && read[i].0 == k {
      assert k in keys;
      var i :| 0 <= i < |keys| && keys[i] == k;
      assert read[i].0 == k;
    }
    forall i, j | 0 <= i < j < |read| ensures Precedes(Encoded(read[i].0), Encoded(read[j].0)) {
      assert Precedes(AllEncoded(keys)[i], AllEncoded(keys)[j]);
    }
  }

  /**
   * The receiver of a request reads its base string: the method, then the URL, then all parameters as key and value,
   * in the byte order of the encoded keys.
   */
  lemma {:induction false} BaseStringRead(verb: Bytes, url: Bytes, params: Params, keys: seq<Bytes>)
    requires Canonical(params, keys) && AMPERSAND !in verb
    ensures var parts := Split(BaseString(verb, url, params, keys), AMPERSAND);
      && |parts| == 3 && parts[0] == Upper(verb) && Decoded(parts[1]) == url
      && IsReading(params, ReadPairs(Decoded(parts[2])))
  {
    var text := Join(Pairs(params, keys), AMPERSAND);
    SplitBase(verb, url, params, keys);
    DecodeEncoded(url);
    DecodeEncoded(text);
    PairsRead(params, keys);
    CanonicalReading(params, keys, ReadPairs(text));
  }

  lemma {:induction false} CanonicalSize(params: Params, keys: seq<Bytes>)
    requires Canonical(params, keys)
    ensures |keys| == |params|
  {
    forall i, j | 0 <= i < j < |keys| ensures keys[i] != keys[j] {
      PrecedesTotal(AllEncoded(keys)[i], AllEncoded(keys)[j]);
    }
    DistinctKeys(keys, params.Keys);
  }

  lemma {:induction false} DistinctKeys(keys: seq<Bytes>, all: set<Bytes>)
    requires (forall i, j :: 0 <= i < j < |keys| ==> keys[i] != keys[j]) && forall k :: k in keys <==> k in all
    ensures |keys| == |all|
  {
    if keys == [] {
      assert all == {};
    } else {
      var rest := keys[1..];
      assert forall k :: k in keys <==> k == keys[0] || k in rest;
      assert forall i :: 0 <= i < |rest| ==> rest[i] == keys[i + 1];
      DistinctKeys(rest, all - {keys[0]});
    }
  }

  const HEX := "0123456789ABCDEF"

  lemma {:induction false} UpperHex(n: nat)
    requires n < 16
    ensures HexDigit(n) == HEX[n] as int
  {
    assert n <= 3 || 4 <= n <= 7 || 8 <= n <= 11 || 12 <= n <= 15;
  }

  predicate IsPlain(c: char) {
    'A' <= c <= 'Z' || 'a' <= c <= 'z' || '0' <= c <= '9' || c in "-._~"
  }

  /** Letters, numerals and four marks stay; another byte becomes a percent sign and two upper-case hex digits. */
  lemma {:induction false} PercentEncodedByte(b: Byte)
    ensures Encoded([b]) == if IsPlain(b as char) then [b] else ['%' as int, HEX[b / 16] as int, HEX[b % 16] as int]
  {
    assert [b][1..] == [];
    UpperHex(b / 16);
    UpperHex(b % 16);
  }
}
