/**
 Percent decoding, query strings and the rewriting of one query parameter of a URL.
 A string is a sequence of bytes; the sorted map that holds the parameters is the list of its entries in key order.
 */
module UrlQueries {
  import opened Bytes
  import opened Wrappers

  type Text = seq<byte>

  const PERCENT: byte := 37
  const PLUS: byte := 43
  const SPACE: byte := 32
  const AMPERSAND: byte := 38
  const EQUALS: byte := 61
  const QUESTION: byte := 63

  // ----- decoding -----

  /** The value of a hexadecimal digit, -1 for any other byte. */
  function HexVal(c: byte): (v: int)
    ensures -1 <= v < 16
  {
    if 48 <= c <= 57 then c - 48 else if 97 <= c <= 102 then c - 87 else if 65 <= c <= 70 then c - 55 else -1
  }

  /** An escaped byte starts the text. */
  predicate Escaped(s: Text) {
    2 < |s| && s[0] == PERCENT && HexVal(s[1]) >= 0 && HexVal(s[2]) >= 0
  }

  function Plain(c: byte): byte {
    if c == PLUS then SPACE else c
  }

  /** One decoding pass. */
  function DecodeOnce(s: Text): Text {
    if s == [] then []
    else if Escaped(s) then [HexVal(s[1]) * 16 + HexVal(s[2])] + DecodeOnce(s[3..])
    else [Plain(s[0])] + DecodeOnce(s[1..])
  }

  method DecodePass(s: Text) returns (out: Text)
    ensures out == DecodeOnce(s)
  {
    hide DecodeOnce, HexVal;
    out := [];
    var i := 0;
    assert s[0..] == s;
    while i < |s|
      invariant i <= |s| && out + DecodeOnce(s[i..]) == DecodeOnce(s)
    {
      DecodeStep(s, i);
      if s[i] == PERCENT && i + 2 < |s| {
        var hi, lo := HexVal(s[i + 1]), HexVal(s[i + 2]);
        if hi >= 0 && lo >= 0 {
          assert (out + [hi * 16 + lo]) + DecodeOnce(s[i + 3..]) == out + ([hi * 16 + lo] + DecodeOnce(s[i + 3..]));
          out := out + [hi * 16 + lo];
          i := i + 3;
          continue;
        }
      }
      var c := if s[i] == PLUS then SPACE else s[i];
      assert (out + [c]) + DecodeOnce(s[i + 1..]) == out + ([c] + DecodeOnce(s[i + 1..]));
      out := out + [c];
      i := i + 1;
    }
    NothingLeftToDecode(s);
  }

  lemma DecodeStep(s: Text, i: nat)
    requires i < |s|
    ensures DecodeOnce(s[i..]) ==
            if i + 2 < |s| && s[i] == PERCENT && HexVal(s[i + 1]) >= 0 && HexVal(s[i + 2]) >= 0 then
              [HexVal(s[i + 1]) * 16 + HexVal(s[i + 2])] + DecodeOnce(s[i + 3..])
            else [Plain(s[i])] + DecodeOnce(s[i + 1..])
  {
    hide HexVal;
    var rest := s[i..];
    assert rest[1..] == s[i + 1..];
    assert i + 2 < |s| ==> rest[3..] == s[i + 3..];
  }

  lemma NothingLeftToDecode(s: Text)
    ensures DecodeOnce(s[|s|..]) == []
  {
  }

  function DoubleDecode(s: Text): Text {
    DecodeOnce(DecodeOnce(s))
  }

  method SafeDoubleDecode(s: Text) returns (out: Text)
    ensures out == DoubleDecode(s)
  {
    out := DecodePass(s);
    out := DecodePass(out);
  }

  /** A decoding pass leaves the text as it is. */
  predicate Stable(s: Text) {
    DecodeOnce(s) == s
  }

  /** Nothing in the text is decoded: no plus sign and no percent sign followed by two hexadecimal digits. */
  predicate NothingToDecode(s: Text) {
    forall i | 0 <= i < |s| :: s[i] != PLUS && !Escaped(s[i..])
  }

  /** The texts that a decoding pass leaves alone are those with nothing to decode. */
  lemma {:induction false} StableMeaning(s: Text)
    ensures |DecodeOnce(s)| <= |s|
    ensures Stable(s) <==> NothingToDecode(s)
  {
    if s == [] {
    } else if Escaped(s) {
      StableMeaning(s[3..]);
      assert s[0..] == s;
    } else {
      StableMeaning(s[1..]);
      LaterSuffixes(s);
      assert DecodeOnce(s)[1..] == DecodeOnce(s[1..]) && DecodeOnce(s)[0] == Plain(s[0]);
      assert Stable(s) ==> DecodeOnce(s)[1..] == s[1..];
      assert Stable(s) <==> Plain(s[0]) == s[0] && Stable(s[1..]);
    }
  }

  lemma LaterSuffixes(s: Text)
    requires s != []
    ensures NothingToDecode(s) <==> s[0] != PLUS && !Escaped(s) && NothingToDecode(s[1..])
  {
    assert s[0..] == s;
    assert forall i | 0 <= i < |s| - 1 :: s[1..][i] == s[i + 1] && s[1..][i..] == s[i + 1..];
    if s[0] != PLUS && !Escaped(s) && NothingToDecode(s[1..]) {
      forall i | 0 <= i < |s| ensures s[i] != PLUS && !Escaped(s[i..]) {
        if i > 0 {
          assert s[1..][i - 1] == s[i] && s[1..][i - 1..] == s[i..];
        }
      }
    }
    if NothingToDecode(s) {
      forall i | 0 <= i < |s| - 1 ensures s[1..][i] != PLUS && !Escaped(s[1..][i..]) {
        assert s[i + 1] != PLUS && !Escaped(s[i + 1..]);
      }
    }
  }

  // ----- encoding -----

  predicate Unreserved(c: byte) {
    65 <= c <= 90 || 97 <= c <= 122 || 48 <= c <= 57 || c == 45 || c == 95 || c == 46 || c == 126
  }

  function HexDigit(v: int): byte
    requires 0 <= v < 16
  {
    if v < 10 then 48 + v else 55 + v
  }

  function EncodeByte(c: byte): Text {
    if Unreserved(c) then [c] else [PERCENT, HexDigit(c / 16), HexDigit(c % 16)]
  }

  function Encode(s: Text): Text {
    if s == [] then [] else EncodeByte(s[0]) + Encode(s[1..])
  }

  lemma EncodeStep(s: Text, i: nat)
    requires i < |s|
    ensures Encode(s[i..]) == EncodeByte(s[i]) + Encode(s[i + 1..])
  {
    assert s[i..][1..] == s[i + 1..];
  }

  lemma NothingToEncode(s: Text)
    ensures Encode(s[|s|..]) == []
  {
  }

  method UrlEncode(s: Text) returns (out: Text)
    ensures out == Encode(s)
  {
    hide Encode, HexDigit;
    out := [];
    assert s[0..] == s;
    NothingToEncode(s);
    for i := 0 to |s|
      invariant out + Encode(s[i..]) == Encode(s)
    {
      EncodeStep(s, i);
      assert out + (EncodeByte(s[i]) + Encode(s[i + 1..])) == (out + EncodeByte(s[i])) + Encode(s[i + 1..]);
      if Unreserved(s[i]) {
        out := out + [s[i]];
      } else {
        out := out + [PERCENT, HexDigit(s[i] / 16), HexDigit(s[i] % 16)];
      }
    }
  }

  lemma DecodeByte(c: byte, t: Text)
    ensures DecodeOnce(EncodeByte(c) + t) == [c] + DecodeOnce(t)
  {
    var s := EncodeByte(c) + t;
    if Unreserved(c) {
      assert s[1..] == t && !Escaped(s);
    } else {
      assert HexVal(HexDigit(c / 16)) == c / 16 && HexVal(HexDigit(c % 16)) == c % 16;
      assert s[3..] == t && Escaped(s);
    }
  }

  /** One decoding pass undoes the encoding. */
  lemma {:induction false} DecodeEncoded(s: Text)
    ensures DecodeOnce(Encode(s)) == s
  {
    if s != [] {
      DecodeByte(s[0], Encode(s[1..]));
      DecodeEncoded(s[1..]);
      assert [s[0]] + s[1..] == s;
    }
  }

  /** An encoded text is read back as decoded once, so it is read back as it was exactly when it has nothing to decode. */
  lemma EncodedThenRead(s: Text)
    ensures DoubleDecode(Encode(s)) == DecodeOnce(s)
    ensures DoubleDecode(Encode(s)) == s <==> NothingToDecode(s)
  {
    DecodeEncoded(s);
    StableMeaning(s);
  }

  lemma {:induction false} EncodedIsClean(s: Text)
    ensures AMPERSAND !in Encode(s) && EQUALS !in Encode(s)
  {
    if s != [] {
      EncodedIsClean(s[1..]);
      assert AMPERSAND !in EncodeByte(s[0]) && EQUALS !in EncodeByte(s[0]);
    }
  }

  // ----- the sorted map of parameters -----

  datatype Param = Param(key: Text, value: Text)

  /** The order of the keys: byte by byte, a prefix first. */
  predicate Less(a: Text, b: Text) {
    b != [] && (a == [] || a[0] < b[0] || (a[0] == b[0] && Less(a[1..], b[1..])))
  }

  lemma {:induction false} LessTrichotomy(a: Text, b: Text)
    ensures !Less(a, a)
    ensures a == b || Less(a, b) || Less(b, a)
    ensures !(Less(a, b) && Less(b, a))
    decreases |a|
  {
    if a != [] {
      LessTrichotomy(a[1..], a[1..]);
      if b != [] {
        LessTrichotomy(a[1..], b[1..]);
        assert a == [a[0]] + a[1..] && b == [b[0]] + b[1..];
      }
    }
  }

  lemma {:induction false} LessTransitive(a: Text, b: Text, c: Text)
    requires Less(a, b) && Less(b, c)
    ensures Less(a, c)
    decreases |a|
  {
    if a != [] && a[0] == b[0] == c[0] {
      LessTransitive(a[1..], b[1..], c[1..]);
    }
  }

  ghost predicate Sorted(ps: seq<Param>) {
    forall i, j | 0 <= i < j < |ps| :: Less(ps[i].key, ps[j].key)
  }

  function Put(ps: seq<Param>, k: Text, v: Text): seq<Param> {
    if ps == [] then [Param(k, v)]
    else if ps[0].key == k then [Param(k, v)] + ps[1..]
    else if Less(k, ps[0].key) then [Param(k, v)] + ps
    else [ps[0]] + Put(ps[1..], k, v)
  }

  function Get(ps: seq<Param>, k: Text): Option<Text> {
    if ps == [] then None else if ps[0].key == k then Some(ps[0].value) else Get(ps[1..], k)
  }

  lemma {:induction false} PutGet(ps: seq<Param>, k: Text, v: Text, k': Text)
    ensures Get(Put(ps, k, v), k') == if k' == k then Some(v) else Get(ps, k')
  {
    if ps != [] {
      PutGet(ps[1..], k, v, k');
      assert ([Param(k, v)] + ps)[1..] == ps;
    }
  }

  lemma {:induction false} PutKeys(ps: seq<Param>, k: Text, v: Text, p: Param)
    requires p in Put(ps, k, v)
    ensures p == Param(k, v) || p in ps
  {
    if ps != [] && p !in ps && p != Param(k, v) && p in Put(ps[1..], k, v) {
      PutKeys(ps[1..], k, v, p);
    }
  }

  lemma SortedCons(p: Param, ps: seq<Param>)
    requires Sorted(ps) && forall q | q in ps :: Less(p.key, q.key)
    ensures Sorted([p] + ps)
  {
  }

  lemma {:induction false} PutSorted(ps: seq<Param>, k: Text, v: Text)
    requires Sorted(ps)
    ensures Sorted(Put(ps, k, v))
  {
    if ps == [] {
    } else if ps[0].key == k {
      SortedCons(Param(k, v), ps[1..]);
    } else if Less(k, ps[0].key) {
      forall q | q in ps ensures Less(k, q.key) {
        if q != ps[0] {
          LessTransitive(k, ps[0].key, q.key);
        }
      }
      SortedCons(Param(k, v), ps);
    } else {
      LessTrichotomy(k, ps[0].key);
      PutSorted(ps[1..], k, v);
      forall q | q in Put(ps[1..], k, v) ensures Less(ps[0].key, q.key) {
        PutKeys(ps[1..], k, v, q);
      }
      SortedCons(ps[0], Put(ps[1..], k, v));
    }
  }

  lemma {:induction false} GetIn(ps: seq<Param>, k: Text)
    ensures Get(ps, k).None? <==> forall p | p in ps :: p.key != k
    ensures Get(ps, k).Some? ==> Param(k, Get(ps, k).value) in ps
  {
    if ps != [] {
      GetIn(ps[1..], k);
      assert forall p | p in ps :: p == ps[0] || p in ps[1..];
    }
  }

  /** The list in key order is determined by what is found in it. */
  lemma {:induction false} SortedUnique(ps: seq<Param>, qs: seq<Param>)
    requires Sorted(ps) && Sorted(qs) && forall k :: Get(ps, k) == Get(qs, k)
    ensures ps == qs
  {
    BothEmpty(ps, qs);
    if ps != [] {
      HeadsAgree(ps, qs);
      forall k ensures Get(ps[1..], k) == Get(qs[1..], k) {
        assert Get(ps, k) == Get(qs, k);
        if k == ps[0].key {
          HeadOnce(ps);
          HeadOnce(qs);
        }
      }
      SortedUnique(ps[1..], qs[1..]);
      assert ps == [ps[0]] + ps[1..] && qs == [qs[0]] + qs[1..];
    }
  }

  lemma BothEmpty(ps: seq<Param>, qs: seq<Param>)
    requires forall k :: Get(ps, k) == Get(qs, k)
    ensures ps == [] <==> qs == []
  {
    assert ps != [] ==> Get(ps, ps[0].key).Some?;
    assert qs != [] ==> Get(qs, qs[0].key).Some?;
  }

  lemma HeadOnce(ps: seq<Param>)
    requires Sorted(ps) && ps != []
    ensures Get(ps[1..], ps[0].key) == None
  {
    GetIn(ps[1..], ps[0].key);
    forall p | p in ps[1..] ensures p.key != ps[0].key {
      LessTrichotomy(ps[0].key, p.key);
    }
  }

  lemma HeadsAgree(ps: seq<Param>, qs: seq<Param>)
    requires Sorted(ps) && Sorted(qs) && ps != [] && qs != [] && forall k :: Get(ps, k) == Get(qs, k)
    ensures ps[0] == qs[0]
  {
    var a, b := ps[0].key, qs[0].key;
    assert Get(qs, a) == Some(ps[0].value) && Get(ps, b) == Some(qs[0].value);
    GetIn(qs, a);
    GetIn(ps, b);
    LessTrichotomy(a, b);
  }

  // ----- query strings -----

  /** The first position of c from i on, or the length of the text. */
  function Find(s: Text, c: byte): (i: nat)
    ensures i <= |s| && (i < |s| ==> s[i] == c) && c !in s[..i]
  {
    if s == [] || s[0] == c then 0
    else
      assert s[..1 + Find(s[1..], c)] == [s[0]] + s[1..][..Find(s[1..], c)];
      1 + Find(s[1..], c)
  }

  lemma {:induction false} FindIs(s: Text, c: byte, i: nat)
    requires i <= |s| && (i < |s| ==> s[i] == c) && c !in s[..i]
    ensures Find(s, c) == i
  {
    if i > 0 {
      assert s[..i][0] == s[0] && s[..i][1..] == s[1..][..i - 1];
      FindIs(s[1..], c, i - 1);
    }
  }

  /** The parts between ampersands, as getline reads them: an empty rest is not a part. */
  function Parts(qs: Text): seq<Text>
    decreases |qs|
  {
    if qs == [] then []
    else
      var i := Find(qs, AMPERSAND);
      if i == |qs| then [qs] else [qs[..i]] + Parts(qs[i + 1..])
  }

  function ParsePart(part: Text): Param {
    var eq := Find(part, EQUALS);
    if eq == |part| then Param(DoubleDecode(part), [])
    else Param(DoubleDecode(part[..eq]), DoubleDecode(part[eq + 1..]))
  }

  function ParseParts(ps: seq<Param>, parts: seq<Text>): seq<Param>
    decreases |parts|
  {
    if parts == [] then ps
    else
      var p := ParsePart(parts[0]);
      ParseParts(Put(ps, p.key, p.value), parts[1..])
  }

  /** parse_query_string, as a function. */
  function ParseQuery(qs: Text): seq<Param> {
    ParseParts([], Parts(qs))
  }

  method ParseQueryString(qs: Text) returns (out: seq<Param>)
    ensures out == ParseQuery(qs) && Sorted(out)
  {
    out := [];
    var rest := qs;
    while rest != []
      invariant ParseParts(out, Parts(rest)) == ParseQuery(qs) && Sorted(out)
      decreases |rest|
    {
      var i := Find(rest, AMPERSAND);
      var part := rest[..i];
      assert Parts(rest)[0] == part && Parts(rest)[1..] == (if i == |rest| then [] else Parts(rest[i + 1..]));
      rest := if i == |rest| then [] else rest[i + 1..];
      var eq := Find(part, EQUALS);
      ghost var was := out;
      if eq == |part| {
        var key := SafeDoubleDecode(part);
        out := Put(out, key, []);
        PutSorted(was, key, []);
      } else {
        var key := SafeDoubleDecode(part[..eq]);
        var value := SafeDoubleDecode(part[eq + 1..]);
        out := Put(out, key, value);
        PutSorted(was, key, value);
      }
    }
  }

  lemma {:induction false} ParsePartsSorted(ps: seq<Param>, parts: seq<Text>)
    requires Sorted(ps)
    ensures Sorted(ParseParts(ps, parts))
    decreases |parts|
  {
    if parts != [] {
      var p := ParsePart(parts[0]);
      PutSorted(ps, p.key, p.value);
      ParsePartsSorted(Put(ps, p.key, p.value), parts[1..]);
    }
  }

  lemma ParseQuerySorted(qs: Text)
    ensures Sorted(ParseQuery(qs))
  {
    ParsePartsSorted([], Parts(qs));
  }

  function Pair(p: Param): Text {
    Encode(p.key) + [EQUALS] + Encode(p.value)
  }

  function Serialize(ps: seq<Param>): Text {
    if ps == [] then []
    else if |ps| == 1 then Pair(ps[0])
    else Pair(ps[0]) + [AMPERSAND] + Serialize(ps[1..])
  }

  function QueryOf(url: Text): Text {
    var q := Find(url, QUESTION);
    if q == |url| then [] else url[q + 1..]
  }

  /** query_param_from_url, as a function. */
  function QueryParam(url: Text, key: Text): Option<Text> {
    if Find(url, QUESTION) == |url| then None else Get(ParseQuery(QueryOf(url)), key)
  }

  method QueryParamFromUrl(url: Text, key: Text) returns (r: Option<Text>)
    ensures r == QueryParam(url, key)
  {
    hide ParseQuery, Get;
    var q := Find(url, QUESTION);
    if q == |url| {
      return None;
    }
    var params := ParseQueryString(url[q + 1..]);
    r := Get(params, key);
  }

  /** set_or_replace_query_param, as a function. */
  function SetParam(url: Text, key: Text, value: Text): Text {
    url[..Find(url, QUESTION)] + [QUESTION] + Serialize(Put(ParseQuery(QueryOf(url)), key, value))
  }

  lemma SerializeStep(ps: seq<Param>, i: nat)
    requires i < |ps|
    ensures Serialize(ps[i..]) == Pair(ps[i]) + (if i + 1 < |ps| then [AMPERSAND] else []) + Serialize(ps[i + 1..])
  {
    hide Pair;
    assert ps[i..][1..] == ps[i + 1..];
    if i + 1 == |ps| {
      assert Pair(ps[i]) + [] + [] == Pair(ps[i]);
    }
  }

  /** The loop that writes the parameters. */
  method WriteParams(params: seq<Param>) returns (out: Text)
    ensures out == Serialize(params)
  {
    hide Serialize, Encode;
    out := [];
    var first := true;
    assert params[0..] == params;
    for i := 0 to |params|
      invariant first <==> i == 0
      invariant Serialize(params) == out + (if 0 < i < |params| then [AMPERSAND] else []) + Serialize(params[i..])
    {
      SerializeStep(params, i);
      ghost var was := out;
      if !first {
        out := out + [AMPERSAND];
      }
      var k := UrlEncode(params[i].key);
      var v := UrlEncode(params[i].value);
      Regrouped(was, if i > 0 then [AMPERSAND] else [], Pair(params[i]), if i + 1 < |params| then [AMPERSAND] else [],
                Serialize(params[i + 1..]));
      out := out + (k + [EQUALS] + v);
      first := false;
    }
    NothingLeft(params);
  }

  lemma NothingLeft(params: seq<Param>)
    ensures Serialize(params[|params|..]) == []
  {
  }

  lemma Regrouped(a: Text, b: Text, c: Text, d: Text, e: Text)
    ensures a + b + (c + d + e) == ((a + b) + c) + d + e
  {
  }

  method SetOrReplaceQueryParam(url: Text, key: Text, value: Text) returns (r: Text)
    ensures r == SetParam(url, key, value)
  {
    hide Serialize, ParseQuery, Put;
    var q := Find(url, QUESTION);
    var base := url[..q];
    var qs := if q == |url| then [] else url[q + 1..];
    var params := ParseQueryString(qs);
    params := Put(params, key, value);
    var out := WriteParams(params);
    r := base + [QUESTION] + out;
  }

  // ----- reading back what was written -----

  function Pairs(ps: seq<Param>): seq<Text> {
    if ps == [] then [] else [Pair(ps[0])] + Pairs(ps[1..])
  }

  lemma PairParts(p: Param)
    ensures AMPERSAND !in Pair(p) && ParsePart(Pair(p)) == Param(DecodeOnce(p.key), DecodeOnce(p.value)) && Pair(p) != []
  {
    hide Encode, DecodeOnce;
    EncodedIsClean(p.key);
    EncodedIsClean(p.value);
    EncodedThenRead(p.key);
    EncodedThenRead(p.value);
    var s, i := Pair(p), |Encode(p.key)|;
    assert s[..i] == Encode(p.key) && s[i] == EQUALS && s[i + 1..] == Encode(p.value);
    FindIs(s, EQUALS, i);
  }

  lemma {:induction false} PartsOfSerialized(ps: seq<Param>)
    ensures Parts(Serialize(ps)) == Pairs(ps)
  {
    if ps != [] {
      PairParts(ps[0]);
      PartsOfSerialized(ps[1..]);
      hide Pair;
      var s, a := Serialize(ps), Pair(ps[0]);
      assert s[..|a|] == a;
      FindIs(s, AMPERSAND, |a|);
      if |ps| == 1 {
        assert ps[1..] == [];
      } else {
        assert s[|a| + 1..] == Serialize(ps[1..]);
      }
    }
  }

  /** Each key and each value decoded once more, in the order of the list. */
  function Reread(ps: seq<Param>, rest: seq<Param>): seq<Param>
    decreases |rest|
  {
    if rest == [] then ps else Reread(Put(ps, DecodeOnce(rest[0].key), DecodeOnce(rest[0].value)), rest[1..])
  }

  lemma {:induction false} ParsePairs(ps: seq<Param>, rest: seq<Param>)
    ensures ParseParts(ps, Pairs(rest)) == Reread(ps, rest)
    decreases |rest|
  {
    if rest != [] {
      PairParts(rest[0]);
      hide Pair, ParsePart;
      assert Pairs(rest)[1..] == Pairs(rest[1..]);
      ParsePairs(Put(ps, DecodeOnce(rest[0].key), DecodeOnce(rest[0].value)), rest[1..]);
    }
  }

  /** For any list of parameters: writing it as a query string and reading it again decodes everything once more. */
  lemma WrittenThenRead(ps: seq<Param>)
    ensures ParseQuery(Serialize(ps)) == Reread([], ps)
  {
    PartsOfSerialized(ps);
    ParsePairs([], ps);
  }

  ghost predicate StableKeys(ps: seq<Param>) {
    forall p | p in ps :: Stable(p.key)
  }

  ghost predicate StableParams(ps: seq<Param>) {
    forall p | p in ps :: Stable(p.key) && Stable(p.value)
  }

  lemma {:induction false} PutLast(ps: seq<Param>, k: Text, v: Text)
    requires forall p | p in ps :: Less(p.key, k)
    ensures Put(ps, k, v) == ps + [Param(k, v)]
  {
    if ps != [] {
      LessTrichotomy(ps[0].key, k);
      PutLast(ps[1..], k, v);
      assert ps + [Param(k, v)] == [ps[0]] + (ps[1..] + [Param(k, v)]);
    }
  }

  function DecodedValues(ps: seq<Param>): seq<Param> {
    if ps == [] then [] else [Param(ps[0].key, DecodeOnce(ps[0].value))] + DecodedValues(ps[1..])
  }

  /** With stable keys in order, each value is decoded once more, and nothing else changes. */
  lemma {:induction false} RereadStable(ps: seq<Param>, rest: seq<Param>)
    requires StableKeys(rest) && Sorted(rest) && forall p, q | p in ps && q in rest :: Less(p.key, q.key)
    ensures Reread(ps, rest) == ps + DecodedValues(rest)
    decreases |rest|
  {
    hide DecodeOnce, Put, Less;
    if rest != [] {
      var r := Param(rest[0].key, DecodeOnce(rest[0].value));
      PutLast(ps, r.key, r.value);
      OneMoreBelow(ps, r, rest);
      RereadStable(ps + [r], rest[1..]);
      assert ps + [r] + DecodedValues(rest[1..]) == ps + ([r] + DecodedValues(rest[1..]));
    } else {
      assert ps + [] == ps;
    }
  }

  lemma OneMoreBelow(ps: seq<Param>, r: Param, rest: seq<Param>)
    requires rest != [] && r.key == rest[0].key && StableKeys(rest) && Sorted(rest)
    requires forall p, q | p in ps && q in rest :: Less(p.key, q.key)
    ensures StableKeys(rest[1..]) && Sorted(rest[1..])
    ensures forall p, q | p in ps + [r] && q in rest[1..] :: Less(p.key, q.key)
  {
    hide DecodeOnce, Less;
    forall p, q | p in ps + [r] && q in rest[1..] ensures Less(p.key, q.key) {
      assert p in ps || p == r;
    }
  }

  lemma {:induction false} GetDecoded(ps: seq<Param>, k: Text)
    ensures Get(DecodedValues(ps), k) == match Get(ps, k) case None => None case Some(v) => Some(DecodeOnce(v))
  {
    if ps != [] {
      hide DecodeOnce;
      GetDecoded(ps[1..], k);
      assert DecodedValues(ps)[1..] == DecodedValues(ps[1..]);
    }
  }

  /** The query of a rewritten URL. */
  lemma QueryOfSet(url: Text, key: Text, value: Text)
    ensures var r := SetParam(url, key, value);
            && Find(r, QUESTION) == Find(url, QUESTION) < |r| && r[..Find(url, QUESTION)] == url[..Find(url, QUESTION)]
            && QueryOf(r) == Serialize(Put(ParseQuery(QueryOf(url)), key, value))
  {
    hide Serialize, ParseQuery, Put;
    var q, ps := Find(url, QUESTION), Put(ParseQuery(QueryOf(url)), key, value);
    var r := SetParam(url, key, value);
    assert r[..q] == url[..q] && r[q] == QUESTION && r[q + 1..] == Serialize(ps);
    FindIs(r, QUESTION, q);
  }

  lemma PutStableKeys(ps: seq<Param>, k: Text, v: Text)
    requires StableKeys(ps) && Stable(k)
    ensures StableKeys(Put(ps, k, v))
  {
    forall p | p in Put(ps, k, v) ensures Stable(p.key) {
      PutKeys(ps, k, v, p);
    }
  }

  lemma PutStableParams(ps: seq<Param>, k: Text, v: Text)
    requires StableParams(ps) && Stable(k) && Stable(v)
    ensures StableParams(Put(ps, k, v))
  {
    forall p | p in Put(ps, k, v) ensures Stable(p.key) && Stable(p.value) {
      PutKeys(ps, k, v, p);
    }
  }

  /** What a rewritten URL means, when the keys are stable: each value decoded once more. */
  lemma ReadRewritten(url: Text, key: Text, value: Text)
    requires StableKeys(ParseQuery(QueryOf(url))) && Stable(key)
    ensures ParseQuery(QueryOf(SetParam(url, key, value))) == DecodedValues(Put(ParseQuery(QueryOf(url)), key, value))
  {
    hide ParseQuery, Put, SetParam, DecodedValues, Reread, Stable, QueryOf, Serialize;
    var ps := ParseQuery(QueryOf(url));
    var qs := Put(ps, key, value);
    QueryOfSet(url, key, value);
    ParseQuerySorted(QueryOf(url));
    PutSorted(ps, key, value);
    PutStableKeys(ps, key, value);
    WrittenThenRead(qs);
    RereadStable([], qs);
    assert [] + DecodedValues(qs) == DecodedValues(qs);
  }

  lemma FoundBefore(url: Text, key: Text)
    ensures QueryParam(url, key) == Get(ParseQuery(QueryOf(url)), key)
  {
    assert Parts([]) == [];
  }

  /** The value that x has when the list is written and read again: that of the last key that decodes to x. */
  function Found(ps: seq<Param>, x: Text): Option<Text> {
    if ps == [] then None
    else
      var later := Found(ps[1..], x);
      if later.Some? then later else if DecodeOnce(ps[0].key) == x then Some(DecodeOnce(ps[0].value)) else None
  }

  lemma {:induction false} RereadGet(ps: seq<Param>, rest: seq<Param>, x: Text)
    ensures Get(Reread(ps, rest), x) == if Found(rest, x).Some? then Found(rest, x) else Get(ps, x)
    decreases |rest|
  {
    if rest != [] {
      hide DecodeOnce, Put;
      var k, v := DecodeOnce(rest[0].key), DecodeOnce(rest[0].value);
      RereadGet(Put(ps, k, v), rest[1..], x);
      PutGet(ps, k, v, x);
    }
  }

  lemma {:induction false} RereadSorted(ps: seq<Param>, rest: seq<Param>)
    requires Sorted(ps)
    ensures Sorted(Reread(ps, rest))
    decreases |rest|
  {
    if rest != [] {
      hide DecodeOnce, Put, Sorted;
      PutSorted(ps, DecodeOnce(rest[0].key), DecodeOnce(rest[0].value));
      RereadSorted(Put(ps, DecodeOnce(rest[0].key), DecodeOnce(rest[0].value)), rest[1..]);
    }
  }

  /** No other key of the list decodes to this one and comes behind it. */
  predicate Prevails(ps: seq<Param>, key: Text) {
    forall i | 0 <= i < |ps| :: DecodeOnce(ps[i].key) == key ==> ps[i].key == key || Less(ps[i].key, key)
  }

  lemma {:induction false} FoundNone(ps: seq<Param>, x: Text)
    ensures Found(ps, x).None? <==> forall i | 0 <= i < |ps| :: DecodeOnce(ps[i].key) != x
  {
    if ps != [] {
      hide DecodeOnce;
      FoundNone(ps[1..], x);
      assert ps == [ps[0]] + ps[1..];
    }
  }

  lemma {:induction false} FoundOther(ps: seq<Param>, key: Text, value: Text, x: Text)
    requires DecodeOnce(key) != x
    ensures Found(Put(ps, key, value), x) == Found(ps, x)
  {
    hide DecodeOnce, Less;
    if ps != [] {
      FoundOther(ps[1..], key, value, x);
      assert ([Param(key, value)] + ps)[1..] == ps;
      assert ([Param(key, value)] + ps[1..])[1..] == ps[1..];
      assert ([ps[0]] + Put(ps[1..], key, value))[1..] == Put(ps[1..], key, value);
    }
  }

  /** A parameter that was put into the list is found, decoded, if it prevails; if not, it makes no difference. */
  lemma {:induction false} FoundSelf(ps: seq<Param>, key: Text, value: Text)
    requires Sorted(ps) && Stable(key)
    ensures Found(Put(ps, key, value), key) == if Prevails(ps, key) then Some(DecodeOnce(value)) else Found(ps, key)
    ensures !Prevails(ps, key) ==> Found(ps, key).Some?
  {
    hide DecodeOnce, Less;
    if ps != [] {
      var tail := ps[1..];
      FoundNone(tail, key);
      FoundNone(ps, key);
      LessTrichotomy(key, ps[0].key);
      if ps[0].key == key {
        assert ([Param(key, value)] + tail)[1..] == tail;
        assert Prevails(ps, key) <==> Found(tail, key).None? by { PrevailsAlone(ps, key); }
      } else if Less(key, ps[0].key) {
        assert ([Param(key, value)] + ps)[1..] == ps;
        assert Prevails(ps, key) <==> Found(ps, key).None? by { PrevailsAlone(ps, key); }
      } else {
        FoundSelf(tail, key, value);
        assert ([ps[0]] + Put(tail, key, value))[1..] == Put(tail, key, value);
        LessTrichotomy(ps[0].key, key);
        PrevailsTail(ps, key);
      }
    }
  }

  /** In a list from the key on, it prevails exactly if no other key decodes to it. */
  lemma PrevailsAlone(ps: seq<Param>, key: Text)
    requires Sorted(ps) && ps != [] && (ps[0].key == key || Less(key, ps[0].key)) && Stable(key)
    ensures ps[0].key == key ==> (Prevails(ps, key) <==> forall i | 0 <= i < |ps[1..]| :: DecodeOnce(ps[1..][i].key) != key)
    ensures Less(key, ps[0].key) ==> (Prevails(ps, key) <==> forall i | 0 <= i < |ps| :: DecodeOnce(ps[i].key) != key)
  {
    hide DecodeOnce, Less;
    LessTrichotomy(key, ps[0].key);
    forall i | 0 < i < |ps| ensures ps[i].key != key && !Less(ps[i].key, key) {
      if Less(key, ps[0].key) {
        LessTransitive(key, ps[0].key, ps[i].key);
      }
      LessTrichotomy(key, ps[i].key);
    }
    assert forall i | 0 < i < |ps| :: ps[i] == ps[1..][i - 1];
  }

  lemma PrevailsTail(ps: seq<Param>, key: Text)
    requires ps != [] && Less(ps[0].key, key)
    ensures Prevails(ps, key) <==> Prevails(ps[1..], key)
  {
    hide DecodeOnce, Less;
    assert ps == [ps[0]] + ps[1..];
  }

  /** What any parameter of a rewritten URL reads as. */
  lemma GetRewritten(url: Text, key: Text, value: Text, x: Text)
    ensures QueryParam(SetParam(url, key, value), x) == Found(Put(ParseQuery(QueryOf(url)), key, value), x)
  {
    hide ParseQuery, Put, SetParam, Reread, QueryOf, Serialize, QueryParam, Get, Found;
    var qs := Put(ParseQuery(QueryOf(url)), key, value);
    QueryOfSet(url, key, value);
    WrittenThenRead(qs);
    RereadGet([], qs, x);
    FoundBefore(SetParam(url, key, value), x);
    NothingPut(x);
  }

  lemma NothingPut(x: Text)
    ensures Get([], x) == None
  {
  }

  /** A setting takes effect, for every value, if and only if the key has nothing to decode and prevails in the URL. */
  lemma SetTakesEffect(url: Text, key: Text)
    ensures (forall value :: QueryParam(SetParam(url, key, value), key) == Some(DecodeOnce(value)))
            <==> NothingToDecode(key) && Prevails(ParseQuery(QueryOf(url)), key)
  {
    hide ParseQuery, Put, SetParam, QueryOf, QueryParam, Found, Prevails, NothingToDecode;
    var ps := ParseQuery(QueryOf(url));
    ParseQuerySorted(QueryOf(url));
    StableMeaning(key);
    forall value
      ensures QueryParam(SetParam(url, key, value), key) ==
              if Stable(key) && Prevails(ps, key) then Some(DecodeOnce(value)) else Found(ps, key)
    {
      GetRewritten(url, key, value, key);
      if Stable(key) {
        FoundSelf(ps, key, value);
      } else {
        FoundOther(ps, key, value, key);
      }
    }
    var a: Text := [65];
    assert DecodeOnce([]) != DecodeOnce(a);
    assert QueryParam(SetParam(url, key, []), key) == QueryParam(SetParam(url, key, a), key) || (Stable(key) && Prevails(ps, key));
  }

  /** The key "%41", set to "x" in an empty URL, is not found. */
  lemma EscapedKeyIsLost()
    ensures var key: Text, value: Text := [PERCENT, 52, 49], [120]; QueryParam(SetParam([], key, value), key) == None
  {
    hide SetParam, QueryParam;
    var key: Text, value: Text := [PERCENT, 52, 49], [120];
    assert Parts([]) == [] && ParseQuery(QueryOf([])) == [];
    assert Escaped(key) && DecodeOnce(key)[0] == 65;
    GetRewritten([], key, value, key);
    FoundOther([], key, value, key);
  }

  /** All bytes of the key are above the percent sign, and none is a plus sign. */
  predicate HighKey(key: Text) {
    forall i | 0 <= i < |key| :: key[i] > PERCENT && key[i] != PLUS
  }

  /** Such a key has nothing to decode, and setting it takes effect in every URL, for good. */
  lemma HighKeysLast(url: Text, key: Text)
    requires HighKey(key)
    ensures Lasting(url, key)
  {
    forall i | 0 <= i <= |key| ensures !Escaped(key[i..]) {
      assert i < |key| ==> key[i..][0] == key[i];
    }
    StableMeaning(key);
    hide DecodeOnce, Less, ParseQuery, QueryOf;
    forall p, t: nat | p in ParseQuery(QueryOf(url)) && DecodeOnce(DecodeTimes(t, p.key)) == key
      ensures DecodeTimes(t, p.key) == key || Less(DecodeTimes(t, p.key), key)
    {
      if DecodeTimes(t, p.key) != key {
        EscapesAreLess(DecodeTimes(t, p.key), key);
      }
    }
  }

  lemma {:induction false} EscapesAreLess(s: Text, key: Text)
    requires DecodeOnce(s) == key && s != key && HighKey(key)
    ensures Less(s, key)
  {
    assert s != [];
    if !Escaped(s) {
      assert key[1..] == DecodeOnce(s[1..]) && key[0] == s[0];
      assert s == [s[0]] + s[1..] && key == [key[0]] + key[1..];
      EscapesAreLess(s[1..], key[1..]);
    }
  }

  /**
   Getting a parameter after setting it, when the setting takes effect: the value that was set is read back exactly when
   it has nothing to decode. If the keys of the URL have nothing to decode, any other parameter is decoded once more.
   */
  lemma GetAfterSet(url: Text, key: Text, value: Text, other: Text)
    requires Stable(key) && Prevails(ParseQuery(QueryOf(url)), key)
    ensures QueryParam(SetParam(url, key, value), key) == Some(DecodeOnce(value))
    ensures QueryParam(SetParam(url, key, value), key) == Some(value) <==> NothingToDecode(value)
    ensures other != key && StableKeys(ParseQuery(QueryOf(url))) ==>
              (QueryParam(SetParam(url, key, value), other) ==
               match QueryParam(url, other) case None => None case Some(v) => Some(DecodeOnce(v)))
  {
    hide ParseQuery, Put, SetParam, DecodedValues, QueryOf, QueryParam, Get, DecodeOnce, NothingToDecode, Prevails, Found;
    var ps := ParseQuery(QueryOf(url));
    ParseQuerySorted(QueryOf(url));
    GetRewritten(url, key, value, key);
    FoundSelf(ps, key, value);
    StableMeaning(value);
    if StableKeys(ps) {
      ReadRewritten(url, key, value);
      GetDecoded(Put(ps, key, value), other);
      PutGet(ps, key, value, other);
      FoundBefore(url, other);
      FoundBefore(SetParam(url, key, value), other);
    }
  }

  // ----- taking effect for good -----

  function DecodeTimes(t: nat, s: Text): Text {
    if t == 0 then s else DecodeTimes(t - 1, DecodeOnce(s))
  }

  /** However often the other key is decoded, it comes before this one when it is about to become it. */
  ghost predicate NeverHides(other: Text, key: Text) {
    forall t: nat :: DecodeOnce(DecodeTimes(t, other)) == key ==> DecodeTimes(t, other) == key || Less(DecodeTimes(t, other), key)
  }

  /** Setting the parameter takes effect, also after other parameters have been set. */
  ghost predicate Lasting(url: Text, key: Text) {
    Stable(key) && forall p | p in ParseQuery(QueryOf(url)) :: NeverHides(p.key, key)
  }

  lemma LastingPrevails(url: Text, key: Text)
    requires Lasting(url, key)
    ensures Stable(key) && Prevails(ParseQuery(QueryOf(url)), key)
  {
    hide DecodeOnce, Less, ParseQuery, QueryOf;
    var ps := ParseQuery(QueryOf(url));
    forall i | 0 <= i < |ps| && DecodeOnce(ps[i].key) == key ensures ps[i].key == key || Less(ps[i].key, key) {
      assert NeverHides(ps[i].key, key) && DecodeTimes(0, ps[i].key) == ps[i].key;
    }
  }

  lemma {:induction false} RereadKeys(ps: seq<Param>, rest: seq<Param>, p: Param)
    requires p in Reread(ps, rest)
    ensures p in ps || exists q | q in rest :: p.key == DecodeOnce(q.key)
    decreases |rest|
  {
    if rest != [] {
      hide DecodeOnce, Put;
      var k, v := DecodeOnce(rest[0].key), DecodeOnce(rest[0].value);
      RereadKeys(Put(ps, k, v), rest[1..], p);
      if p in Put(ps, k, v) {
        PutKeys(ps, k, v, p);
      }
    }
  }

  lemma NeverHidesLater(other: Text, key: Text)
    requires NeverHides(other, key)
    ensures NeverHides(DecodeOnce(other), key)
  {
    hide DecodeOnce, Less;
    forall t: nat ensures DecodeTimes(t, DecodeOnce(other)) == DecodeTimes(t + 1, other) {
    }
  }

  lemma {:induction false} StableStays(t: nat, s: Text)
    requires Stable(s)
    ensures DecodeTimes(t, s) == s
  {
    if t > 0 {
      StableStays(t - 1, s);
    }
  }

  lemma StableNeverHides(other: Text, key: Text)
    requires Stable(other)
    ensures NeverHides(other, key)
  {
    hide DecodeOnce, Less;
    forall t: nat ensures DecodeTimes(t, other) == other {
      StableStays(t, other);
    }
  }

  lemma LastingKept(url: Text, key: Text, value: Text, other: Text)
    requires Lasting(url, other) && Stable(key)
    ensures Lasting(SetParam(url, key, value), other)
  {
    hide DecodeOnce, NeverHides, ParseQuery, QueryOf, Put, SetParam, Reread, Serialize;
    var ps := ParseQuery(QueryOf(url));
    QueryOfSet(url, key, value);
    WrittenThenRead(Put(ps, key, value));
    forall p | p in Reread([], Put(ps, key, value)) ensures NeverHides(p.key, other) {
      RereadKeys([], Put(ps, key, value), p);
      var q :| q in Put(ps, key, value) && p.key == DecodeOnce(q.key);
      PutKeys(ps, key, value, q);
      if q in ps {
        NeverHidesLater(q.key, other);
      } else {
        StableNeverHides(key, other);
      }
    }
  }

  /** In a URL whose keys have nothing to decode, every such key lasts. */
  lemma StableKeysLast(url: Text, key: Text)
    requires StableKeys(ParseQuery(QueryOf(url))) && Stable(key)
    ensures Lasting(url, key)
  {
    hide Stable, NeverHides, ParseQuery, QueryOf;
    forall p | p in ParseQuery(QueryOf(url)) ensures NeverHides(p.key, key) {
      StableNeverHides(p.key, key);
    }
  }

  /** A parameter that prevails in the URL is decoded once more when another one is set. */
  lemma OtherAfterSet(url: Text, key: Text, value: Text, other: Text)
    requires Stable(key) && key != other && Stable(other) && Prevails(ParseQuery(QueryOf(url)), other)
    requires QueryParam(url, other).Some?
    ensures QueryParam(SetParam(url, key, value), other) == Some(DecodeOnce(QueryParam(url, other).value))
  {
    hide ParseQuery, Put, SetParam, QueryOf, QueryParam, Get, Prevails, Found;
    var ps := ParseQuery(QueryOf(url));
    ParseQuerySorted(QueryOf(url));
    GetRewritten(url, key, value, other);
    FoundOther(ps, key, value, other);
    FoundBefore(url, other);
    FoundSelf(ps, other, Get(ps, other).value);
    PutSame(ps, other);
  }

  lemma {:induction false} PutSame(ps: seq<Param>, k: Text)
    requires Sorted(ps) && Get(ps, k).Some?
    ensures Put(ps, k, Get(ps, k).value) == ps
  {
    if ps[0].key != k {
      GetIn(ps[1..], k);
      LessTrichotomy(k, ps[0].key);
      PutSame(ps[1..], k);
    }
    assert ps == [ps[0]] + ps[1..];
  }

  /** What decoding uses up: escapes, and plus signs. */
  function Rank(s: Text): nat {
    if s == [] then 0 else (if s[0] == PLUS then 3 else 2) + Rank(s[1..])
  }

  lemma {:induction false} DecodingLowersRank(s: Text)
    ensures Rank(DecodeOnce(s)) <= Rank(s)
    ensures Rank(DecodeOnce(s)) == Rank(s) ==> Stable(s)
  {
    if s == [] {
    } else if Escaped(s) {
      DecodingLowersRank(s[3..]);
      assert Rank(s) >= 2 + Rank(s[1..]) >= 4 + Rank(s[2..]) >= 6 + Rank(s[3..]) by {
        assert s[1..][1..] == s[2..] && s[2..][1..] == s[3..];
      }
      assert DecodeOnce(s)[1..] == DecodeOnce(s[3..]);
    } else {
      DecodingLowersRank(s[1..]);
      assert DecodeOnce(s)[1..] == DecodeOnce(s[1..]);
      assert s == [s[0]] + s[1..];
    }
  }

  /** Two settings that give the same URL show the same parameters. */
  lemma SameUrl(url: Text, key: Text, value: Text, url': Text, key': Text, value': Text)
    requires SetParam(url, key, value) == SetParam(url', key', value')
    ensures if key == key' then value == value' else QueryParam(url', key) == Some(value) && QueryParam(url, key') == Some(value')
  {
    hide ParseQuery, Put, SetParam, QueryOf, QueryParam, Get, Serialize;
    QueryOfSet(url, key, value);
    QueryOfSet(url', key', value');
    var ps, qs := ParseQuery(QueryOf(url)), ParseQuery(QueryOf(url'));
    SerializeInjective(Put(ps, key, value), Put(qs, key', value'));
    PutGet(ps, key, value, key);
    PutGet(ps, key, value, key');
    PutGet(qs, key', value', key);
    PutGet(qs, key', value', key');
    FoundBefore(url, key');
    FoundBefore(url', key);
  }

  lemma {:induction false} DecodedStable(ps: seq<Param>)
    requires StableParams(ps)
    ensures DecodedValues(ps) == ps
  {
    if ps != [] {
      DecodedStable(ps[1..]);
      assert ps == [ps[0]] + ps[1..];
    }
  }

  /** With stable parameters, setting a parameter of a URL changes that parameter, and nothing else. */
  lemma SetKeepsOthers(url: Text, key: Text, value: Text)
    requires StableParams(ParseQuery(QueryOf(url))) && Stable(key) && Stable(value)
    ensures var r := SetParam(url, key, value);
            ParseQuery(QueryOf(r)) == Put(ParseQuery(QueryOf(url)), key, value) && StableParams(ParseQuery(QueryOf(r)))
  {
    hide ParseQuery, Put, SetParam, DecodedValues, QueryOf, Stable;
    PutStableParams(ParseQuery(QueryOf(url)), key, value);
    ReadRewritten(url, key, value);
    DecodedStable(Put(ParseQuery(QueryOf(url)), key, value));
  }

  /** The other parameters of the URL, when they are stable too, read as before. */
  lemma OthersUnchanged(url: Text, key: Text, value: Text, other: Text)
    requires StableParams(ParseQuery(QueryOf(url))) && Stable(key) && Stable(value) && other != key
    ensures QueryParam(SetParam(url, key, value), other) == QueryParam(url, other)
  {
    hide ParseQuery, Put, SetParam, QueryOf, QueryParam, Get;
    SetKeepsOthers(url, key, value);
    PutGet(ParseQuery(QueryOf(url)), key, value, other);
    FoundBefore(url, other);
    FoundBefore(SetParam(url, key, value), other);
  }

  lemma PairInjective(p: Param, q: Param)
    requires Pair(p) == Pair(q)
    ensures p == q
  {
    hide Encode;
    PairCut(p);
    PairCut(q);
    DecodeEncoded(p.key);
    DecodeEncoded(q.key);
    DecodeEncoded(p.value);
    DecodeEncoded(q.value);
  }

  /** Where a written parameter is cut. */
  lemma PairCut(p: Param)
    ensures var s := Pair(p);
            var i := Find(s, EQUALS);
            i < |s| && s[..i] == Encode(p.key) && s[i + 1..] == Encode(p.value)
  {
    hide Encode;
    EncodedIsClean(p.key);
    var s, i := Pair(p), |Encode(p.key)|;
    assert s[..i] == Encode(p.key) && s[i] == EQUALS && s[i + 1..] == Encode(p.value);
    FindIs(s, EQUALS, i);
  }

  lemma {:induction false} PairsInjective(a: seq<Param>, b: seq<Param>)
    requires Pairs(a) == Pairs(b)
    ensures a == b
    decreases |a|
  {
    hide Pair;
    if a != [] {
      assert Pairs(b)[0] == Pairs(a)[0] == Pair(a[0]);
      assert Pairs(a)[1..] == Pairs(a[1..]);
      assert b != [] && Pairs(b)[1..] == Pairs(b[1..]);
      PairInjective(a[0], b[0]);
      PairsInjective(a[1..], b[1..]);
      assert a == [a[0]] + a[1..] && b == [b[0]] + b[1..];
    }
  }

  /** Different lists of parameters are written differently. */
  lemma SerializeInjective(a: seq<Param>, b: seq<Param>)
    requires Serialize(a) == Serialize(b)
    ensures a == b
  {
    PartsOfSerialized(a);
    PartsOfSerialized(b);
    PairsInjective(a, b);
  }

  /** The part of a URL that setting a parameter leaves alone, with the question mark. */
  function Before(url: Text): Text {
    url[..Find(url, QUESTION)] + [QUESTION]
  }

  /** The parameters after two settings: those of the first are read again, and so decoded once more. */
  function TwiceSet(ps: seq<Param>, j: Text, v: Text, k: Text, w: Text): seq<Param> {
    Put(Reread([], Put(ps, j, v)), k, w)
  }

  lemma SetTwice(url: Text, j: Text, v: Text, k: Text, w: Text)
    ensures SetParam(SetParam(url, j, v), k, w) == Before(url) + Serialize(TwiceSet(ParseQuery(QueryOf(url)), j, v, k, w))
  {
    hide ParseQuery, Put, QueryOf, Serialize, Reread;
    QueryOfSet(url, j, v);
    WrittenThenRead(Put(ParseQuery(QueryOf(url)), j, v));
  }

  lemma TwiceSetGet(ps: seq<Param>, j: Text, v: Text, k: Text, w: Text, x: Text)
    requires Sorted(ps) && Stable(j) && Prevails(ps, j)
    ensures Get(TwiceSet(ps, j, v, k, w), x) == if x == k then Some(w) else if x == j then Some(DecodeOnce(v)) else Found(ps, x)
  {
    hide Put, Get, Reread, DecodeOnce, Found, Prevails, Sorted;
    PutGet(Reread([], Put(ps, j, v)), k, w, x);
    RereadGet([], Put(ps, j, v), x);
    NothingPut(x);
    if x == j {
      FoundSelf(ps, j, v);
    } else {
      FoundOther(ps, j, v, x);
    }
  }

  lemma TwiceSetSorted(ps: seq<Param>, j: Text, v: Text, k: Text, w: Text)
    ensures Sorted(TwiceSet(ps, j, v, k, w))
  {
    hide Put, Reread, Less;
    RereadSorted([], Put(ps, j, v));
    PutSorted(Reread([], Put(ps, j, v)), k, w);
  }

  /** When setting two parameters in either order gives the same list. */
  lemma TwiceSetAgree(ps: seq<Param>, j: Text, v: Text, k: Text, w: Text)
    requires Sorted(ps) && Stable(j) && Prevails(ps, j) && Stable(k) && Prevails(ps, k)
    ensures TwiceSet(ps, j, v, k, w) == TwiceSet(ps, k, w, j, v) <==> if j == k then v == w else Stable(v) && Stable(w)
  {
    hide TwiceSet, Get, DecodeOnce, Sorted, Prevails, Found;
    var a, b := TwiceSet(ps, j, v, k, w), TwiceSet(ps, k, w, j, v);
    TwiceSetSorted(ps, j, v, k, w);
    TwiceSetSorted(ps, k, w, j, v);
    TwiceSetGet(ps, j, v, k, w, j);
    TwiceSetGet(ps, j, v, k, w, k);
    TwiceSetGet(ps, k, w, j, v, j);
    TwiceSetGet(ps, k, w, j, v, k);
    if if j == k then v == w else Stable(v) && Stable(w) {
      forall x ensures Get(a, x) == Get(b, x) {
        TwiceSetGet(ps, j, v, k, w, x);
        TwiceSetGet(ps, k, w, j, v, x);
      }
      SortedUnique(a, b);
    }
  }

  /**
   Setting two parameters in either order, when both settings take effect: for different keys the URLs are the same if
   and only if there is nothing to decode in the two values, whatever the other parameters are; for one key, if and only
   if the values are the same.
   */
  lemma OrdersAgree(url: Text, j: Text, v: Text, k: Text, w: Text)
    requires Stable(j) && Prevails(ParseQuery(QueryOf(url)), j) && Stable(k) && Prevails(ParseQuery(QueryOf(url)), k)
    ensures SetParam(SetParam(url, j, v), k, w) == SetParam(SetParam(url, k, w), j, v)
            <==> if j == k then v == w else NothingToDecode(v) && NothingToDecode(w)
  {
    hide ParseQuery, QueryOf, Serialize, Stable, Prevails, TwiceSet, SetParam, NothingToDecode;
    var ps := ParseQuery(QueryOf(url));
    SetTwice(url, j, v, k, w);
    SetTwice(url, k, w, j, v);
    ParseQuerySorted(QueryOf(url));
    TwiceSetAgree(ps, j, v, k, w);
    StableMeaning(v);
    StableMeaning(w);
    var a, b := TwiceSet(ps, j, v, k, w), TwiceSet(ps, k, w, j, v);
    SamePrefix(Before(url), Serialize(a), Serialize(b));
    if Serialize(a) == Serialize(b) {
      SerializeInjective(a, b);
    }
  }

  lemma SamePrefix(a: Text, b: Text, c: Text)
    ensures a + b == a + c <==> b == c
  {
    assert (a + b)[|a|..] == b && (a + c)[|a|..] == c;
  }

  /** A value that is not stable is not read back: setting n to "%41" reads as "A". */
  lemma UnstableValueChanges()
    ensures exists url: Text, key: Text, value: Text ::
              Stable(key) && StableParams(ParseQuery(QueryOf(url)))
              && QueryParam(SetParam(url, key, value), key).Some? && QueryParam(SetParam(url, key, value), key) != Some(value)
  {
    var url: Text, key: Text, value: Text := [], [110], [PERCENT, 52, 49];
    assert Parts([]) == [] && ParseQuery(QueryOf(url)) == [];
    assert Stable(key) by { StableMeaning(key); }
    assert Prevails([], key);
    GetAfterSet(url, key, value, []);
    assert value[0..] == value && Escaped(value[0..]);
    assert !NothingToDecode(value);
  }
}
