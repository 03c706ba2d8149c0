/**
 How parameters look in the text of a URL: which bytes are written as they are, how the others are escaped, and which
 escapes are read. The alphabets are written out.
 */
module UrlTexts {
  import opened Bytes
  import opened Wrappers
  import opened UrlQueries

  /** The unreserved characters of section 2.3 of RFC 3986. */
  const UNRESERVED := "ABCDEFGHIJKLMNOPQRSTUVWXYZ" + "abcdefghijklmnopqrstuvwxyz" + "0123456789-._~"

  const HEX := "0123456789ABCDEF"
  const SMALL_HEX := "0123456789abcdef"

  /** The bytes of a text in ASCII. */
  function TextOf(s: string): (t: Text)
    requires forall i | 0 <= i < |s| :: s[i] as int < 128
    ensures |t| == |s| && forall i | 0 <= i < |s| :: t[i] == s[i] as int
  {
    seq(|s|, i requires 0 <= i < |s| => s[i] as int)
  }

  predicate InText(c: byte, s: string) {
    c as char in s
  }

  predicate Harmless(t: Text) {
    forall i | 0 <= i < |t| :: InText(t[i], UNRESERVED)
  }

  // ----- writing -----

  lemma UnreservedIs(c: byte)
    ensures Unreserved(c) <==> InText(c, UNRESERVED)
  {
    CapitalIs(c);
    SmallIs(c);
    assert c as char in "0123456789-._~" <==> 48 <= c <= 57 || c == 45 || c == 46 || c == 95 || c == 126;
  }

  lemma CapitalIs(c: byte)
    ensures InText(c, "ABCDEFGHIJKLMNOPQRSTUVWXYZ") <==> 65 <= c <= 90
  {
  }

  lemma SmallIs(c: byte)
    ensures InText(c, "abcdefghijklmnopqrstuvwxyz") <==> 97 <= c <= 122
  {
  }

  lemma HexAt(v: nat)
    requires v < 16
    ensures HEX[v] as int == HexDigit(v) && HexVal(HEX[v] as int) == v && HexVal(SMALL_HEX[v] as int) == v
  {
  }

  /** An unreserved character is written as it is. Any other byte is a percent sign and the two digits of its number. */
  lemma ByteIsWritten(c: byte)
    ensures InText(c, UNRESERVED) ==> EncodeByte(c) == [c]
    ensures !InText(c, UNRESERVED) ==> EncodeByte(c) == ['%' as int, HEX[c / 16] as int, HEX[c % 16] as int]
  {
    UnreservedIs(c);
    HexAt(c / 16);
    HexAt(c % 16);
  }

  /** A text is written byte by byte. */
  lemma {:induction false} WrittenInParts(s: Text, t: Text)
    ensures Encode(s + t) == Encode(s) + Encode(t)
  {
    hide EncodeByte;
    if s == [] {
      assert s + t == t;
    } else {
      WrittenInParts(s[1..], t);
      assert (s + t)[1..] == s[1..] + t;
    }
  }

  /** Unreserved characters are written as they are. */
  lemma {:induction false} HarmlessIsWritten(s: Text)
    requires Harmless(s)
    ensures Encode(s) == s
  {
    hide EncodeByte;
    if s != [] {
      ByteIsWritten(s[0]);
      HarmlessIsWritten(s[1..]);
      assert s == [s[0]] + s[1..];
    }
  }

  // ----- reading -----

  lemma HexDigitIs(c: byte)
    ensures HexVal(c) >= 0 <==> InText(c, HEX) || InText(c, SMALL_HEX)
  {
    assert InText(c, "0123456789ABCDEF") <==> 48 <= c <= 57 || 65 <= c <= 70;
    assert InText(c, "0123456789abcdef") <==> 48 <= c <= 57 || 97 <= c <= 102;
  }

  /** An escape, with capital or small digits, is read as the byte with that number. */
  lemma EscapeIsRead(high: nat, low: nat, x: char, y: char, rest: Text)
    requires high < 16 && low < 16 && (x == HEX[high] || x == SMALL_HEX[high]) && (y == HEX[low] || y == SMALL_HEX[low])
    ensures x as int < 128 && y as int < 128 && DecodeOnce(['%' as int, x as int, y as int] + rest) == [16 * high + low] + DecodeOnce(rest)
  {
    hide HexVal;
    HexAt(high);
    HexAt(low);
    var s: Text := ['%' as int, x as int, y as int] + rest;
    assert s[3..] == rest;
  }

  /** A plus sign is read as a space; any byte that starts no escape is read as it is. */
  lemma ByteIsRead(c: byte, rest: Text)
    requires c == '%' as int ==>
               || |rest| < 2 || !(InText(rest[0], HEX) || InText(rest[0], SMALL_HEX))
               || !(InText(rest[1], HEX) || InText(rest[1], SMALL_HEX))
    ensures DecodeOnce([c] + rest) == [if c == '+' as int then ' ' as int else c] + DecodeOnce(rest)
  {
    hide HexVal, InText;
    var s := [c] + rest;
    assert s[1..] == rest;
    if |rest| >= 2 {
      HexDigitIs(rest[0]);
      HexDigitIs(rest[1]);
    }
  }

  lemma {:induction false} HarmlessIsStable(s: Text)
    requires Harmless(s)
    ensures Stable(s)
  {
    hide Escaped, InText;
    if s != [] {
      UnreservedIs(s[0]);
      HarmlessIsStable(s[1..]);
      assert s == [s[0]] + s[1..];
      ByteIsRead(s[0], s[1..]) by { assert Unreserved(s[0]); }
    }
  }

  // ----- whole query strings -----

  /** Parameters as they stand in a URL: key=value, with ampersands between them. */
  function Joined(ps: seq<Param>): Text {
    if ps == [] then []
    else ps[0].key + ['=' as int] + ps[0].value + (if |ps| == 1 then [] else ['&' as int] + Joined(ps[1..]))
  }

  ghost predicate HarmlessParams(ps: seq<Param>) {
    forall p | p in ps :: Harmless(p.key) && Harmless(p.value)
  }

  /** Harmless parameters are written as they are. */
  lemma {:induction false} ListIsWritten(ps: seq<Param>)
    requires HarmlessParams(ps)
    ensures Serialize(ps) == Joined(ps)
  {
    hide Harmless, Encode;
    if ps != [] {
      HarmlessIsWritten(ps[0].key);
      HarmlessIsWritten(ps[0].value);
      ListIsWritten(ps[1..]);
      var k, v := ps[0].key, ps[0].value;
      assert k + ['=' as int] + v + [] == k + ['=' as int] + v;
      assert k + ['=' as int] + v + (['&' as int] + Joined(ps[1..])) == k + ['=' as int] + v + ['&' as int] + Joined(ps[1..]);
    }
  }

  /** Harmless parameters in the order of their keys are read as they are. */
  lemma ListIsRead(ps: seq<Param>)
    requires Sorted(ps) && HarmlessParams(ps)
    ensures ParseQuery(Joined(ps)) == ps
  {
    hide Harmless, Stable, ParseQuery, Joined, Serialize, Sorted, DecodedValues;
    forall p | p in ps ensures Stable(p.key) && Stable(p.value) {
      HarmlessIsStable(p.key);
      HarmlessIsStable(p.value);
    }
    ListIsWritten(ps);
    WrittenThenRead(ps);
    RereadStable([], ps);
    DecodedStable(ps);
    assert [] + DecodedValues(ps) == ps;
  }

  lemma UrlParts(base: Text, rest: Text)
    requires '?' as int !in base
    ensures Find(base, QUESTION) == |base|
    ensures var url := base + ['?' as int] + rest;
            Find(url, QUESTION) == |base| && QueryOf(url) == rest && url[..|base|] == base
  {
    var url := base + ['?' as int] + rest;
    assert url[..|base|] == base && url[|base|] == '?' as int && url[|base| + 1..] == rest;
    assert base[..|base|] == base;
    FindIs(base, QUESTION, |base|);
    FindIs(url, QUESTION, |base|);
  }

  /** A harmless parameter set in a URL without a query: ?key=value is appended. */
  lemma SetInBareUrl(url: Text, key: Text, value: Text)
    requires '?' as int !in url && Harmless(key) && Harmless(value)
    ensures SetParam(url, key, value) == url + ['?' as int] + key + ['=' as int] + value
  {
    hide Encode, Harmless, Find;
    UrlParts(url, []);
    assert url[..|url|] == url;
    assert Parts([]) == [] && ParseQuery([]) == [];
    HarmlessIsWritten(key);
    HarmlessIsWritten(value);
    assert url + ['?' as int] + (key + ['=' as int] + value) == url + ['?' as int] + key + ['=' as int] + value;
  }

  /** In a URL with a query, the parameter takes its place in the order of the keys, or that of its old value. */
  lemma SetInQuery(base: Text, ps: seq<Param>, key: Text, value: Text)
    requires '?' as int !in base && Sorted(ps) && HarmlessParams(ps) && Harmless(key) && Harmless(value)
    ensures SetParam(base + ['?' as int] + Joined(ps), key, value) == base + ['?' as int] + Joined(Put(ps, key, value))
  {
    hide ParseQuery, Put, Serialize, Joined, Harmless, Find, Sorted;
    UrlParts(base, Joined(ps));
    ListIsRead(ps);
    forall p | p in Put(ps, key, value) ensures Harmless(p.key) && Harmless(p.value) {
      PutKeys(ps, key, value, p);
    }
    ListIsWritten(Put(ps, key, value));
  }

  /** Getting a parameter of such a URL. */
  lemma GetInQuery(base: Text, ps: seq<Param>, key: Text)
    requires '?' as int !in base && Sorted(ps) && HarmlessParams(ps)
    ensures QueryParam(base + ['?' as int] + Joined(ps), key) == Get(ps, key)
    ensures QueryParam(base, key) == None
  {
    hide ParseQuery, Get, Joined, Find, Sorted, HarmlessParams;
    UrlParts(base, Joined(ps));
    ListIsRead(ps);
  }

  /** Both begin alike, and then a ends, or has the smaller byte. */
  predicate ComesFirst(a: Text, b: Text, k: nat) {
    k <= |a| && k < |b| && a[..k] == b[..k] && (k == |a| || a[k] < b[k])
  }

  lemma {:induction false} LessAt(a: Text, b: Text, k: nat)
    requires ComesFirst(a, b, k)
    ensures Less(a, b)
    decreases k
  {
    if k > 0 {
      assert a[..k][0] == a[0] && b[..k][0] == b[0];
      assert a[1..][..k - 1] == a[..k][1..] && b[1..][..k - 1] == b[..k][1..];
      LessAt(a[1..], b[1..], k - 1);
    }
  }

  lemma {:induction false} LessFrom(a: Text, b: Text) returns (k: nat)
    requires Less(a, b)
    ensures ComesFirst(a, b, k)
    decreases |a|
  {
    k := 0;
    if a != [] && a[0] == b[0] {
      var j := LessFrom(a[1..], b[1..]);
      k := j + 1;
      assert a[..k] == [a[0]] + a[1..][..j] && b[..k] == [b[0]] + b[1..][..j];
    }
  }

  /** The order of the keys: at the first difference, the smaller byte or the end comes first. */
  lemma OrderOfKeys(a: Text, b: Text)
    ensures Less(a, b) <==> exists k: nat :: ComesFirst(a, b, k)
  {
    hide ComesFirst, Less;
    forall k: nat | ComesFirst(a, b, k) ensures Less(a, b) {
      LessAt(a, b, k);
    }
    if Less(a, b) {
      var k := LessFrom(a, b);
    }
  }

  // ----- any query string -----

  /** The parameter in a part of a query string: the key is before the first equals sign, or it is all of the part. */
  ghost predicate IsPart(part: Text, key: Text, value: Text) {
    '&' as int !in part && '=' as int !in key && (part == key + ['=' as int] + value || (part == key && value == []))
  }

  lemma PartIsRead(part: Text, key: Text, value: Text)
    requires IsPart(part, key, value)
    ensures ParsePart(part) == Param(DoubleDecode(key), DoubleDecode(value))
  {
    hide DecodeOnce;
    NothingDecoded();
    var i := |key|;
    assert part[..i] == key;
    if part != key {
      assert part[i + 1..] == value && part[i] == '=' as int;
    }
    FindIs(part, EQUALS, i);
  }

  lemma NothingDecoded()
    ensures DoubleDecode([]) == []
  {
  }

  /** A query string in which an empty part follows if there is another ampersand. */
  predicate EndsOpen(qs: Text) {
    qs == [] || qs[|qs| - 1] == '&' as int
  }

  lemma {:induction false} PartsAppended(qs: Text, part: Text)
    requires '&' as int !in part
    ensures Parts(qs + ['&' as int] + part) == Parts(qs) + (if EndsOpen(qs) then [[]] else []) + (if part == [] then [] else [part])
    decreases |qs|
  {
    hide Parts, Find, EndsOpen;
    var all, i := qs + ['&' as int] + part, Find(qs, AMPERSAND);
    assert all[..i] == qs[..i] && all[i] == AMPERSAND;
    FirstPart(all, i);
    if i == |qs| {
      assert qs[..i] == qs;
      LastIsNot(qs);
      assert all[i + 1..] == part;
      LonePart(part);
      LonePart(qs);
    } else {
      var rest := qs[i + 1..];
      assert all[i + 1..] == rest + ['&' as int] + part;
      PartsAppended(rest, part);
      FirstPart(qs, i);
      SameEnd(qs, i);
      Prepended(qs[..i], Parts(rest), if EndsOpen(qs) then [[]] else [], if part == [] then [] else [part]);
    }
  }

  lemma Prepended(x: Text, a: seq<Text>, b: seq<Text>, c: seq<Text>)
    ensures [x] + (a + b + c) == [x] + a + b + c
  {
  }

  lemma FirstPart(s: Text, i: nat)
    requires i < |s| && s[i] == AMPERSAND && AMPERSAND !in s[..i]
    ensures Parts(s) == [s[..i]] + Parts(s[i + 1..])
  {
    FindIs(s, AMPERSAND, i);
  }

  lemma SameEnd(qs: Text, i: nat)
    requires i < |qs| && qs[i] == AMPERSAND
    ensures EndsOpen(qs[i + 1..]) <==> EndsOpen(qs)
  {
    var rest := qs[i + 1..];
    assert rest != [] ==> rest[|rest| - 1] == qs[|qs| - 1];
  }

  lemma LastIsNot(qs: Text)
    requires '&' as int !in qs
    ensures EndsOpen(qs) <==> qs == []
  {
  }

  lemma LonePart(part: Text)
    requires '&' as int !in part
    ensures Parts(part) == if part == [] then [] else [part]
  {
    assert part[..|part|] == part;
    FindIs(part, AMPERSAND, |part|);
  }

  lemma {:induction false} PutOneByOne(ps: seq<Param>, xs: seq<Text>, ys: seq<Text>)
    ensures ParseParts(ps, xs + ys) == ParseParts(ParseParts(ps, xs), ys)
    decreases |xs|
  {
    hide ParsePart, Put;
    if xs == [] {
      assert xs + ys == ys;
    } else {
      assert (xs + ys)[0] == xs[0] && (xs + ys)[1..] == xs[1..] + ys;
      var p := ParsePart(xs[0]);
      PutOneByOne(Put(ps, p.key, p.value), xs[1..], ys);
    }
  }

  /** A query string without an ampersand is one parameter, or none. */
  lemma OnePartIsRead(part: Text, key: Text, value: Text)
    requires IsPart(part, key, value)
    ensures ParseQuery(part) == if part == [] then [] else [Param(DoubleDecode(key), DoubleDecode(value))]
  {
    hide DecodeOnce, Parts, ParsePart;
    LonePart(part);
    PartIsRead(part, key, value);
    var p := Param(DoubleDecode(key), DoubleDecode(value));
    assert [part][1..] == [];
    assert ParseParts([], [part]) == ParseParts(Put([], p.key, p.value), []);
  }

  /** One more part puts one more parameter, which replaces an earlier one; an empty part before it puts an empty one. */
  lemma NextPartIsRead(qs: Text, part: Text, key: Text, value: Text)
    requires IsPart(part, key, value)
    ensures var before := if EndsOpen(qs) then Put(ParseQuery(qs), [], []) else ParseQuery(qs);
            ParseQuery(qs + ['&' as int] + part) ==
            if part == [] then before else Put(before, DoubleDecode(key), DoubleDecode(value))
  {
    hide DecodeOnce, Parts, ParsePart, Put, Find, EndsOpen;
    PartsAppended(qs, part);
    PartIsRead(part, key, value);
    PartIsRead([], [], []);
    NothingDecoded();
    var empty: seq<Text>, last := if EndsOpen(qs) then [[]] else [], if part == [] then [] else [part];
    PutOneByOne([], Parts(qs) + empty, last);
    PutOneByOne([], Parts(qs), empty);
    var none: Text := [];
    assert [none][1..] == [] && [part][1..] == [];
  }

  /** The query string is what is behind the first question mark, and all of it. */
  lemma QueryIsRead(base: Text, qs: Text, key: Text)
    requires '?' as int !in base
    ensures QueryParam(base + ['?' as int] + qs, key) == Get(ParseQuery(qs), key) && QueryParam(base, key) == None
  {
    hide ParseQuery, Get, Find;
    UrlParts(base, qs);
  }
}
