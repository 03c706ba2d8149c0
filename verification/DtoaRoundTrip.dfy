/**
 Reading back what was printed: every number comes back with the same bits.
 */
module NumberRoundTrip {
  import opened Wrappers
  import opened Powers
  import opened Limbs
  import opened RadixTables
  import opened Scaling
  import opened Binary64
  import opened DigitSearch
  import opened DoubleBits
  import opened NumberParsing
  import opened NumberScanning
  import opened NumberPrinting

  // ----- reading digits -----

  predicate AllDigits(s: string) {
    forall i | 0 <= i < |s| :: '0' <= s[i] <= '9'
  }

  /** The values of the digits of a text. */
  function Values(s: string): (ds: seq<nat>)
    requires AllDigits(s)
    ensures |ds| == |s| && forall i | 0 <= i < |s| :: ds[i] == ToDigit(s[i]) < 10
  {
    seq(|s|, i requires 0 <= i < |s| => s[i] as int - '0' as int)
  }

  lemma ValuesFirst(s: string)
    requires AllDigits(s) && s != ""
    ensures AllDigits(s[1..]) && Values(s) == [ToDigit(s[0])] + Values(s[1..])
    ensures Values(s)[1..] == Values(s[1..]) && (Values(s)[0] == 0 <==> s[0] == '0')
  {
  }

  lemma EmptyValues()
    ensures Values("") == []
  {
  }

  /** A fraction with its dot; nothing for no digits. */
  function Fraction(F: string): string {
    if F == "" then "" else "." + F
  }

  // ----- reading the exponent -----

  /** The exponent part that is printed for x. */
  function ExponentPart(x: int): string {
    "e" + (if x < 0 then "-" else "+") + DecimalText(if x < 0 then -x else x)
  }

  lemma TextOfNumber(a: nat)
    ensures var X := DecimalText(a); AllDigits(X) && X != "" && DigitsVal(Values(X), 10) == a
  {
    hide Values, Decimal, Pow, DigitsVal;
    DigitCountBounds(a);
    DecimalValue(a, DigitCount(a));
  }

  /** The digits of a number, read back, give the number. */
  lemma {:induction false} DecimalValue(v: nat, n: nat)
    requires v < Pow(10, n)
    ensures AllDigits(Decimal(v, n)) && DigitsVal(Values(Decimal(v, n)), 10) == v
  {
    if n > 0 {
      var w := v / 10;
      assert Pow(10, n) == 10 * Pow(10, n - 1);
      DecimalValue(w, n - 1);
      var s, t := Decimal(v, n), Decimal(w, n - 1);
      assert s == t + [DigitChar(v % 10)];
      assert Values(s)[..n - 1] == Values(t);
    } else {
      EmptyValues();
    }
  }

  // ----- reading a numeral -----

  /** A sign, digits with perhaps a dot, and what follows. */
  function NumberText(negative: bool, I: string, F: string, tail: string): string {
    (if negative then "-" else "") + (I + Fraction(F) + tail)
  }

  /** The exponent that the tail stands for. */
  predicate TailMeans(tail: string, x: int) {
    (tail == "" && x == 0) || (tail == ExponentPart(x) && -10 * (EXPONENT_LIMIT + 1) < x < 10 * (EXPONENT_LIMIT + 1))
  }

  /** An exponent of the radix that is read as it is written. */
  predicate PlainExponent(e: Exponent, x: int) {
    ExponentValue(e) == x && (e.Exponent? ==> !e.tooLarge && !e.binary && e.full == x)
  }

  lemma ReadText(negative: bool, I: string, F: string, tail: string, x: int, flags: Flags)
    requires AllDigits(I) && I != "" && AllDigits(F) && TailMeans(tail, x) && !flags.intOnly
    ensures var r := Parse(NumberText(negative, I, F, tail), 10, flags);
            && r.Numeral? && r.negative == negative && r.radix == 10 && r.digits == Strip(Values(I + F))
            && r.fraction == |F| && PlainExponent(r.exponent, x)
    ensures AtodEnd(NumberText(negative, I, F, tail), 10, flags) == |NumberText(negative, I, F, tail)|
  {
    hide Values, Spells, PowerOk, TailMeans, AllDigits, Parse, AtodEnd, ExponentIs, Strip, ScanPrefix, Body;
    DigitFirst(I);
    var w := PowerOfTail(tail, x, flags.acceptUnderscores);
    DecimalSpells(I, flags.acceptUnderscores);
    DecimalSpells(F, flags.acceptUnderscores);
    ValuesConcat(I, F);
    var sign := if negative then "-" else "";
    PrintedParts(negative, I, F, tail);
    TextIsParsed(sign, "", 10, 10, I, Values(I), F != "", F, Values(F), w, "", flags);
    ExponentIsPlain(Parse(NumberText(negative, I, F, tail), 10, flags).exponent, w, x);
  }

  lemma PrintedParts(negative: bool, I: string, F: string, tail: string)
    requires I != "" && I[0] != 'I'
    ensures var rest := Body(I, F != "", F) + (tail + "");
            && NumberText(negative, I, F, tail) == (if negative then "-" else "") + ("" + rest)
            && forall flags :: NoPrefix(rest, 10, flags)
  {
    var rest := Body(I, F != "", F) + (tail + "");
    assert rest[0] == I[0] && "Infinity"[0] == 'I';
    assert rest == I + Fraction(F) + tail && "" + rest == rest;
  }

  lemma DigitFirst(I: string)
    requires AllDigits(I) && I != ""
    ensures I[0] != '+' && I[0] != '-' && I[0] != '_' && I[0] != 'I'
  {
  }

  lemma {:induction false} DecimalSpells(s: string, underscores: bool)
    requires AllDigits(s)
    ensures Spells(s, Values(s), 10, underscores) && (s != "" ==> s[0] != '_')
    decreases |s|
  {
    hide Values, CAPITALS, SMALL;
    if s == "" {
      EmptyValues();
    } else {
      ValuesFirst(s);
      DigitIs(s[0], ToDigit(s[0]));
      DecimalSpells(s[1..], underscores);
    }
  }

  lemma ValuesConcat(s: string, t: string)
    requires AllDigits(s) && AllDigits(t)
    ensures AllDigits(s + t) && Values(s + t) == Values(s) + Values(t)
  {
  }

  /** The exponent of a printed text. */
  lemma PowerOfTail(tail: string, x: int, underscores: bool) returns (w: Power)
    requires TailMeans(tail, x)
    ensures PowerText(w) == tail && PowerOk(w, 10, underscores) && PowerValue(w) == x && !IsBinaryPower(w)
    ensures -10 * (EXPONENT_LIMIT + 1) < x < 10 * (EXPONENT_LIMIT + 1)
  {
    hide Spells, Values, DecimalText, DigitsVal, AllDigits;
    if tail == "" {
      w := NoPower;
    } else {
      var a: nat := if x < 0 then -x else x;
      var X := DecimalText(a);
      TextOfNumber(a);
      DecimalSpells(X, underscores);
      w := Power('e', if x < 0 then "-" else "+", X, Values(X));
    }
  }

  lemma ExponentIsPlain(e: Exponent, w: Power, x: int)
    requires ExponentIs(e, w) && PowerValue(w) == x && !IsBinaryPower(w) && -10 * (EXPONENT_LIMIT + 1) < x < 10 * (EXPONENT_LIMIT + 1)
    ensures PlainExponent(e, x)
  {
  }

  // ----- what a numeral is worth -----

  lemma {:induction false} StripFacts(ds: seq<nat>) returns (k: nat)
    ensures k <= |ds| && Strip(ds) == ds[k..] && (Strip(ds) == [] || Strip(ds)[0] > 0)
    ensures forall i | 0 <= i < k :: ds[i] == 0
    ensures forall radix :: DigitsVal(Strip(ds), radix) == DigitsVal(ds, radix)
  {
    if ds != [] && ds[0] == 0 {
      var j := StripFacts(ds[1..]);
      k := j + 1;
      assert ds[1..][j..] == ds[k..];
      forall radix ensures DigitsVal(ds[1..], radix) == DigitsVal(ds, radix) {
        assert ds == [0] + ds[1..];
        DigitsFirst(0, ds[1..], radix);
      }
      assert forall i | 0 < i < k :: ds[i] == ds[1..][i - 1];
    } else {
      k := 0;
    }
  }

  /** value is v followed by j digits of 0. */
  predicate IsScaled(value: nat, v: nat, radix: nat, j: nat) {
    value == v * Pow(radix, j)
  }

  /** Further digits of 0 move into the exponent. */
  lemma ScaledNearest(value: nat, v: nat, radix: nat, f: int, j: nat)
    requires radix >= 1 && IsScaled(value, v, radix, j)
    ensures NearestUnits(value, radix, f) == NearestUnits(v, radix, f + j)
  {
    hide NearestUnits, Pow;
    ScaleDigits(v, radix, f, j);
  }

  lemma ScaleDigits(v: nat, radix: nat, f: int, j: nat)
    requires radix >= 1
    ensures NearestUnits(v * Pow(radix, j), radix, f) == NearestUnits(v, radix, f + j)
  {
    hide RoundDouble, SameRatio, Pow, Numerator, Denominator, Plus;
    var r := Pow(radix, j);
    ProductForm(v * r, radix, f);
    ProductForm(v, radix, f + j);
    ScaleExponents(radix, f, j);
    var n, d := Numerator(v * r, 1074, radix, f), Denominator(1074, radix, f);
    var n', d' := Numerator(v, 1074, radix, f + j), Denominator(1074, radix, f + j);
    ScaleProducts(v, Pow(2, 1074), r, Pow(radix, Plus(f)), d, Pow(radix, Plus(f + j)), d');
    MakeSameRatio(n, d, n', d');
    SameDouble(n, d, n', d');
  }

  lemma ScaleExponents(radix: nat, f: int, j: nat)
    ensures (Pow(radix, j) * Pow(radix, Plus(f))) * Pow(radix, Plus(-(f + j)))
         == Pow(radix, Plus(f + j)) * Pow(radix, Plus(-f))
  {
    hide Pow;
    PowAdd(radix, j, Plus(f));
    PowAdd(radix, j + Plus(f), Plus(-(f + j)));
    PowAdd(radix, Plus(f + j), Plus(-f));
    assert j + Plus(f) + Plus(-(f + j)) == Plus(f + j) + Plus(-f);
  }

  lemma ScaleProducts(v: nat, a: nat, r: nat, x: nat, d: nat, x': nat, d': nat)
    requires (r * x) * d' == x' * d
    ensures ((v * r) * (a * x)) * d' == (v * (a * x')) * d
  {
    assert (v * r) * (a * x) == (v * a) * (r * x) by { MulSwap(v, r, a, x); }
    assert v * (a * x') == (v * a) * x' by { MulAssoc(v, a, x'); }
    MulAssoc(v * a, r * x, d');
    MulAssoc(v * a, x', d);
  }

  lemma MakeSameRatio(n: nat, d: nat, n': nat, d': nat)
    requires d > 0 && d' > 0 && n * d' == n' * d
    ensures SameRatio(n, d, n', d')
  {
  }

  predicate ZerosFrom(ds: seq<nat>, k: nat) {
    forall i | k <= i < |ds| :: ds[i] == 0
  }

  /** In a radix that is no power of two, when the digits that are cut are zeros, reading rounds the numeral itself. */
  lemma NothingLost(radix: nat, ds: seq<nat>, f: int)
    requires 2 <= radix <= 36 && RadixBits(radix) == 0 && ZerosFrom(ds, Kept(|ds|, radix))
    ensures NumeralUnits(radix, ds, f) == NearestUnits(DigitsVal(ds, radix), radix, f)
  {
    hide NearestUnits, DigitsVal, Kept, ZerosFrom, MAX_DIGITS, RadixBits, NumeralUnits;
    OtherNumeral(radix, ds, Kept(|ds|, radix), f);
    ZerosCut(radix, ds, Kept(|ds|, radix), f);
  }

  lemma ZerosCut(radix: nat, ds: seq<nat>, k: nat, f: int)
    requires radix >= 2 && k <= |ds| && ZerosFrom(ds, k)
    ensures NearestUnits(DigitsVal(ds, radix), radix, f) == NearestUnits(DigitsVal(ds[..k], radix), radix, f + (|ds| - k))
  {
    hide NearestUnits, DigitsVal, ZerosFrom, IsScaled;
    ZeroTail(radix, ds, k);
    ScaledNearest(DigitsVal(ds, radix), DigitsVal(ds[..k], radix), radix, f, |ds| - k);
  }

  /** In a radix that is a power of two, reading rounds the numeral itself, however many digits it has. */
  lemma NothingLostBinary(radix: nat, ds: seq<nat>, fraction: int, x: int)
    requires 2 <= radix <= 36 && RadixBits(radix) != 0
    ensures NumeralUnits(radix, ds, Scale(radix, fraction, false, x)) == NearestUnits(DigitsVal(ds, radix), radix, x - fraction)
  {
    hide NearestUnits, DigitsVal, NumeralUnits;
    var b := RadixBits(radix);
    MulSub(b, x, fraction);
    BinaryNumeral(radix, ds, (x - fraction) * b);
    BinaryScale(DigitsVal(ds, radix), radix, b, x - fraction);
  }

  /** A power of 2^b is a power of 2. */
  lemma BinaryScale(v: nat, radix: nat, b: nat, f: int)
    requires b == RadixBits(radix) > 0
    ensures NearestUnits(v, 2, f * b) == NearestUnits(v, radix, f)
  {
    hide Pow, RoundDouble, Numerator, Denominator;
    Pow2Table(b);
    PowMul(2, b, Plus(f));
    PowMul(2, b, Plus(-f));
    ProductForm(v, radix, f);
    ProductForm(v, 2, f * b);
    assert Plus(f * b) == b * Plus(f) && Plus(-(f * b)) == b * Plus(-f);
  }

  lemma ZeroTail(radix: nat, ds: seq<nat>, k: nat)
    requires radix >= 2 && k <= |ds| && ZerosFrom(ds, k)
    ensures IsScaled(DigitsVal(ds, radix), DigitsVal(ds[..k], radix), radix, |ds| - k)
  {
    hide DigitsVal, Pow;
    DigitsSplit(ds, k, radix);
    var t := ds[k..];
    assert forall i | 0 <= i < |t| :: t[i] == 0;
    DigitsBound(t, radix);
  }

  /** No digit that counts is beyond the 38 that are read. */
  ghost predicate FewDigits(s: string)
    requires AllDigits(s)
  {
    ZerosFrom(Strip(Values(s)), 38)
  }

  /** A text of at most 1000 digits, with an exponent of at most 1000. */
  predicate ShortNumeral(I: string, F: string, x: int) {
    |I| + |F| <= 1000 && -1000 <= x <= 1000
  }

  lemma ReadsAs(negative: bool, I: string, F: string, tail: string, x: int, flags: Flags)
    requires AllDigits(I) && I != "" && AllDigits(F) && TailMeans(tail, x) && !flags.intOnly && FewDigits(I + F)
    requires ShortNumeral(I, F, x)
    ensures IsReadAs(NumberText(negative, I, F, tail),
                     UnitsBits(NearestUnits(DigitsVal(Values(I + F), 10), 10, x - |F|)) + SignBit(negative), flags)
  {
    hide Values, Strip, Parse, NumberText, TailMeans, DigitsVal, NearestUnits, UnitsBits, Worth, ZerosFrom, AtodEnd;
    ReadText(negative, I, F, tail, x, flags);
    WorthOf(Parse(NumberText(negative, I, F, tail), 10, flags), Values(I + F), |F|, x);
  }

  /** The whole text is read, as these bits. */
  predicate IsReadAs(t: string, bits: nat, flags: Flags) {
    Atod(t, 10, flags) == Some(bits) && AtodEnd(t, 10, flags) == |t|
  }

  /** A numeral without a huge exponent, and with no digits lost. */
  lemma WorthOf(r: Parsed, ds: seq<nat>, fraction: int, x: int)
    requires r.Numeral? && r.radix == 10 && r.digits == Strip(ds) && r.fraction == fraction && PlainExponent(r.exponent, x)
    requires ZerosFrom(Strip(ds), 38) && |ds| <= 1000 && 0 <= fraction <= 1000 && -1000 <= x <= 1000
    ensures Worth(r) == Some(UnitsBits(NearestUnits(DigitsVal(ds, 10), 10, x - fraction)) + SignBit(r.negative))
  {
    hide Strip, NearestUnits, NumeralUnits, UnitsBits, DigitsVal, Kept, Wrap32;
    var k := StripFacts(ds);
    KeptTen(|Strip(ds)|);
    NothingLost(10, Strip(ds), x - fraction);
    WrapSame(x - fraction + |Strip(ds)|);
    ZeroNearest(10, x - fraction);
    NoValue();
  }

  lemma KeptTen(n: nat)
    ensures Kept(n, 10) == if n <= 38 then n else 38
  {
  }

  lemma NoValue()
    ensures DigitsVal([], 10) == 0
  {
  }

  lemma ZeroNearest(radix: nat, f: int)
    requires radix >= 1
    ensures NearestUnits(0, radix, f) == 0 && UnitsBits(0) == 0
  {
    hide Denominator, Numerator;
    ProductForm(0, radix, f);
    var d := Denominator(1074, radix, f);
    var a := Pow(2, 1074) * Pow(radix, Plus(f));
    assert 0 * a == 0;
    RoundsToZero(0, d);
  }

  // ----- reading what was printed -----

  lemma DigitTexts(mant: nat, p: nat)
    requires p >= 1 && mant < Pow(10, p)
    ensures var ds := Decimal(mant, p); AllDigits(ds) && |ds| == p && DigitsVal(Values(ds), 10) == mant
  {
    DecimalValue(mant, p);
  }

  /** A text of at most 38 digits has few digits. */
  lemma ShortText(s: string)
    requires AllDigits(s) && |s| <= 38
    ensures FewDigits(s)
  {
    var k := StripFacts(Values(s));
  }

  /** Appended zeros count as an exponent. */
  lemma TrailingZeros(ds: string, n: nat)
    requires AllDigits(ds) && |ds| <= 38
    ensures AllDigits(ds + Zeros(n)) && FewDigits(ds + Zeros(n))
    ensures DigitsVal(Values(ds + Zeros(n)), 10) == DigitsVal(Values(ds), 10) * Pow(10, n)
  {
    hide Strip, DigitsVal;
    var t := ds + Zeros(n);
    var vs := Values(t);
    assert vs[..|ds|] == Values(ds);
    assert ZerosFrom(vs, |ds|);
    ZeroTail(10, vs, |ds|);
    var k := StripFacts(vs);
    assert forall i | 38 <= i < |Strip(vs)| :: Strip(vs)[i] == vs[k + i];
  }

  /** Leading zeros count for nothing. */
  lemma {:induction false} LeadingZeroText(n: nat, ds: string)
    requires AllDigits(ds) && |ds| <= 38
    ensures var t := Zeros(n) + ds; AllDigits(t) && FewDigits(t) && DigitsVal(Values(t), 10) == DigitsVal(Values(ds), 10)
  {
    var t := Zeros(n) + ds;
    assert AllDigits(t);
    if n == 0 {
      assert t == ds;
      ShortText(ds);
    } else {
      LeadingZeroText(n - 1, ds);
      assert t[1..] == Zeros(n - 1) + ds && t[0] == '0';
      hide DigitsVal, Zeros, Pow;
      ValuesFirst(t);
      assert Strip(Values(t)) == Strip(Values(t[1..]));
      hide Strip, Values;
      DigitsFirst(0, Values(t[1..]), 10);
    }
  }

  function SignText(negative: bool): string {
    if negative then "-" else ""
  }

  /** What a text in radix 10 is worth that stands for v * 10^f. */
  ghost predicate Reads(t: string, v: nat, f: int, flags: Flags) {
    forall negative: bool :: IsReadAs(SignText(negative) + t, UnitsBits(NearestUnits(v, 10, f)) + SignBit(negative), flags)
  }

  lemma ReadsBody(I: string, F: string, tail: string, x: int, t: string, flags: Flags)
    requires AllDigits(I) && I != "" && AllDigits(F) && TailMeans(tail, x) && !flags.intOnly && FewDigits(I + F)
    requires t == I + Fraction(F) + tail && ShortNumeral(I, F, x)
    ensures Reads(t, DigitsVal(Values(I + F), 10), x - |F|, flags)
  {
    hide IsReadAs, UnitsBits, NearestUnits, Values, FewDigits, TailMeans, Fraction, DigitsVal;
    forall negative: bool
      ensures IsReadAs(SignText(negative) + t,
                       UnitsBits(NearestUnits(DigitsVal(Values(I + F), 10), 10, x - |F|)) + SignBit(negative), flags)
    {
      ReadsAs(negative, I, F, tail, x, flags);
      assert NumberText(negative, I, F, tail) == SignText(negative) + t;
    }
  }

  /** Digits cut in two by a dot. */
  lemma CutDigits(ds: string, k: nat)
    requires AllDigits(ds) && 1 <= k <= |ds| <= 38
    ensures AllDigits(ds[..k]) && AllDigits(ds[k..]) && ds[..k] + ds[k..] == ds && ds[..k] != ""
    ensures Dotted(ds, k) == ds[..k] + Fraction(ds[k..]) && FewDigits(ds)
  {
    ShortText(ds);
  }

  lemma ReadExponentForm(ds: string, E: int, flags: Flags)
    requires AllDigits(ds) && 1 <= |ds| <= 17 && -400 < E < 400 && !flags.intOnly
    ensures Reads(Dotted(ds, 1) + ExponentPart(E - 1), DigitsVal(Values(ds), 10), E - |ds|, flags)
  {
    hide Reads, Values, DigitsVal, FewDigits, ExponentPart, Fraction, Dotted, AllDigits;
    CutDigits(ds, 1);
    ReadsBody(ds[..1], ds[1..], ExponentPart(E - 1), E - 1, Dotted(ds, 1) + ExponentPart(E - 1), flags);
  }

  /** Below 1: zeros after the dot. */
  lemma ReadSmall(ds: string, n: nat, flags: Flags)
    requires AllDigits(ds) && 1 <= |ds| <= 17 && n <= 400 && !flags.intOnly
    ensures Reads("0." + Zeros(n) + ds, DigitsVal(Values(ds), 10), -(n as int) - |ds|, flags)
  {
    hide Reads, Values, DigitsVal, FewDigits, Fraction, Zeros;
    var F := Zeros(n) + ds;
    LeadingZeroText(n + 1, ds);
    SmallForms(n, ds);
    ReadsBody("0", F, "", 0, "0." + Zeros(n) + ds, flags);
  }

  lemma SmallForms(n: nat, ds: string)
    requires AllDigits(ds) && ds != ""
    ensures var F := Zeros(n) + ds;
            AllDigits(F) && Zeros(n + 1) + ds == "0" + F && "0" + Fraction(F) + "" == "0." + Zeros(n) + ds
  {
    assert Zeros(n + 1) == "0" + Zeros(n);
    var F := Zeros(n) + ds;
    NothingAfter("0" + Fraction(F));
    assert "0" + ("." + F) == "0." + Zeros(n) + ds;
  }

  /** A dot among the digits. */
  lemma ReadMiddle(ds: string, E: nat, flags: Flags)
    requires AllDigits(ds) && 1 <= E <= |ds| <= 17 && !flags.intOnly
    ensures Reads(Dotted(ds, E), DigitsVal(Values(ds), 10), E - |ds|, flags)
  {
    hide Reads, Values, DigitsVal, FewDigits, Fraction, Dotted, AllDigits;
    CutDigits(ds, E);
    NothingAfter(ds[..E] + Fraction(ds[E..]));
    ReadsBody(ds[..E], ds[E..], "", 0, Dotted(ds, E), flags);
  }

  lemma NothingAfter(t: string)
    ensures t + "" == t
  {
  }

  /** An integer, with zeros appended. */
  lemma ReadLarge(ds: string, n: nat, flags: Flags)
    requires AllDigits(ds) && 1 <= |ds| <= 17 && n <= 400 && !flags.intOnly
    ensures Reads(ds + Zeros(n), DigitsVal(Values(ds), 10), n, flags)
  {
    hide Reads, NearestUnits, Values, DigitsVal, FewDigits, Zeros, Pow, AllDigits;
    var I := ds + Zeros(n);
    assert I != "";
    TrailingZeros(ds, n);
    ReadWhole(I, flags);
    var v := DigitsVal(Values(ds), 10);
    ScaleDigits(v, 10, 0, n);
    ReadsSame(I, DigitsVal(Values(I), 10), 0, v, n, flags);
  }

  lemma ReadsSame(t: string, v: nat, f: int, v': nat, f': int, flags: Flags)
    requires Reads(t, v, f, flags) && NearestUnits(v, 10, f) == NearestUnits(v', 10, f')
    ensures Reads(t, v', f', flags)
  {
    hide IsReadAs, UnitsBits, NearestUnits;
  }

  /** Nothing but digits. */
  lemma ReadWhole(I: string, flags: Flags)
    requires AllDigits(I) && I != "" && FewDigits(I) && |I| <= 1000 && !flags.intOnly
    ensures Reads(I, DigitsVal(Values(I), 10), 0, flags)
  {
    hide Reads, Values, DigitsVal, FewDigits, AllDigits;
    NothingAfter(I);
    NoDigitsAtAll();
    ReadsBody(I, "", "", 0, I, flags);
  }

  lemma NoDigitsAtAll()
    ensures AllDigits("")
  {
  }

  /** The number mant * 10^(E - p), printed in any of the forms, reads as that number. */
  lemma ReadFree(mant: nat, p: nat, E: int, mode: ExpMode, flags: Flags)
    requires 1 <= p <= 17 && mant < Pow(10, p) && -400 < E < 400 && !flags.intOnly
    ensures Reads(FreeText(mant, p, E, mode), mant, E - p, flags)
  {
    hide Reads, Values, DigitsVal, Decimal, Pow, Dotted, Zeros, FreeText, AllDigits, WithExponent;
    DigitTexts(mant, p);
    FreeForms(mant, p, E, mode);
    ReadForms(Decimal(mant, p), FreeText(mant, p, E, mode), E, mode, flags);
  }

  ghost predicate HasForm(ds: string, t: string, E: int, mode: ExpMode)
    requires ds != ""
  {
    if WithExponent(mode, E) then t == Dotted(ds, 1) + ExponentPart(E - 1)
    else if E <= 0 then t == "0." + Zeros(-E) + ds
    else if E < |ds| then t == Dotted(ds, E)
    else t == ds + Zeros(E - |ds|)
  }

  lemma ReadForms(ds: string, t: string, E: int, mode: ExpMode, flags: Flags)
    requires AllDigits(ds) && 1 <= |ds| <= 17 && -400 < E < 400 && !flags.intOnly && HasForm(ds, t, E, mode)
    ensures Reads(t, DigitsVal(Values(ds), 10), E - |ds|, flags)
  {
    hide Reads, Values, DigitsVal, Dotted, Zeros, ExponentPart, AllDigits;
    if WithExponent(mode, E) {
      ReadExponentForm(ds, E, flags);
    } else if E <= 0 {
      ReadSmall(ds, -E, flags);
    } else if E < |ds| {
      ReadMiddle(ds, E, flags);
    } else {
      ReadLarge(ds, E - |ds|, flags);
    }
  }

  /** The four forms of the output. */
  lemma FreeForms(mant: nat, p: nat, E: int, mode: ExpMode)
    requires p >= 1
    ensures HasForm(Decimal(mant, p), FreeText(mant, p, E, mode), E, mode)
  {
    hide DecimalText, Decimal;
    var ds := Decimal(mant, p);
    if WithExponent(mode, E) {
      var sign := if E - 1 < 0 then "-" else "+";
      var x := DecimalText(if E - 1 < 0 then 1 - E else E - 1);
      assert Dotted(ds, 1) + "e" + sign + x == Dotted(ds, 1) + ("e" + sign + x);
    } else if 0 < E < p {
      assert Dotted(ds, E) + Zeros(0) == Dotted(ds, E);
    }
  }

  // ----- the round trip -----

  /** A double is its own rounding. */
  lemma DoubleRounds(b: nat)
    requires 0 < b < INFINITY
    ensures RoundDouble(BitsUnits(b), 1) == BitsUnits(b)
  {
    var e, f := b / TWO52, b % TWO52;
    PowZero();
    if e == 0 {
      assert f * 1 == f;
      CloseRounds(f, 1, f, f, 0);
    } else {
      var r := (TWO52 + f) * Pow(2, e - 1);
      PowerPositive(e - 1);
      MulLe(1, TWO52 + f, 1, Pow(2, e - 1));
      CloseRounds(r, 1, r, TWO52 + f, e - 1);
    }
  }

  lemma ReadInteger(negative: bool, b: nat, m: nat, q: string, flags: Flags)
    requires 0 < b < INFINITY && IntegerText(b, m, q) && !flags.intOnly
    ensures IsReadAs(SignText(negative) + q, b + SignBit(negative), flags)
  {
    hide UnitsBits, BitsUnits, IsReadAs, Values, DigitsVal, FewDigits, Decimal, Pow, NearestUnits;
    DigitCountBounds(m);
    ShortInteger(m);
    DigitTexts(m, DigitCount(m));
    DoubleRounds(b);
    BitsRoundTrip(b);
    IntegerNearest(b, m);
    ShortText(q);
    ReadWhole(q, flags);
  }

  lemma IntegerNearest(b: nat, m: nat)
    requires BitsUnits(b) == m * Pow(2, 1074) && RoundDouble(BitsUnits(b), 1) == BitsUnits(b)
    ensures NearestUnits(m, 10, 0) == BitsUnits(b)
  {
    ProductForm(m, 10, 0);
    assert Pow(10, 0) == 1;
    hide Pow, BitsUnits, RoundDouble, Numerator, Denominator;
    assert Pow(2, 1074) * 1 == Pow(2, 1074);
  }

  lemma ShortInteger(m: nat)
    requires m < 2 * TWO52
    ensures DigitCount(m) <= 16
  {
    DigitCountBounds(m);
    PowAdd(10, 8, 8);
    assert Pow(10, 8) == 100000000;
    var c := DigitCount(m);
    PowMonotone(10, 16, if c > 16 then c - 1 else 16);
  }

  lemma BitsApart(a: nat)
    requires a < 2 * SIGN
    ensures a == a % SIGN + SignBit(a >= SIGN) && (a % SIGN == 0 ==> a == 0 || a == SIGN)
  {
  }

  lemma PrintedMeans(a: nat, mode: ExpMode, minusZero: bool, q: string)
    requires Printed(a, mode, minusZero, q)
    ensures a % SIGN > INFINITY ==> q == "NaN"
    ensures a % SIGN == INFINITY ==> q == SignText(a >= SIGN) + "Infinity"
    ensures a % SIGN == 0 ==> q == (if minusZero then SignText(a >= SIGN) else "") + FreeText(0, 1, 1, mode)
  {
    hide FreeText, BodyText;
  }

  /** Every text that is printed for a number is read to its end as the same 64 bits, but -0 may lose its sign. */
  lemma ReadPrinted(a: nat, mode: ExpMode, minusZero: bool, q: string, flags: Flags)
    requires a < 2 * SIGN && Printed(a, mode, minusZero, q) && !flags.intOnly
    ensures Atod(q, 10, flags) ==
              if a % SIGN > INFINITY then None
              else if a == SIGN && !minusZero then Some(0)
              else Some(a)
    ensures a % SIGN <= INFINITY ==> AtodEnd(q, 10, flags) == |q|
  {
    hide Atod, AtodEnd, BodyText, FreeText, SignBit, SignText, Printed;
    var negative, b := a >= SIGN, a % SIGN;
    BitsApart(a);
    PrintedMeans(a, mode, minusZero, q);
    if b > INFINITY {
      ReadNaN(flags);
    } else if b == INFINITY {
      ReadInfinity(negative, flags);
    } else if b == 0 {
      ReadZero(a, mode, minusZero, flags);
    } else {
      ReadMagnitude(a, mode, minusZero, q, flags);
    }
  }

  lemma ReadZero(a: nat, mode: ExpMode, minusZero: bool, flags: Flags)
    requires (a == 0 || a == SIGN) && !flags.intOnly
    ensures IsReadAs((if minusZero then SignText(a >= SIGN) else "") + FreeText(0, 1, 1, mode), if minusZero then a else 0, flags)
  {
    hide IsReadAs, FreeText, NearestUnits, UnitsBits, Pow;
    ZeroNearest(10, 0);
    TenToOne();
    ReadFree(0, 1, 1, mode, flags);
    var negative := minusZero && a >= SIGN;
    assert IsReadAs(SignText(negative) + FreeText(0, 1, 1, mode), SignBit(negative), flags);
  }

  lemma TenToOne()
    ensures Pow(10, 1) == 10
  {
  }

  lemma ReadMagnitude(a: nat, mode: ExpMode, minusZero: bool, q: string, flags: Flags)
    requires a < 2 * SIGN && 0 < a % SIGN < INFINITY && Printed(a, mode, minusZero, q) && !flags.intOnly
    ensures IsReadAs(q, a, flags)
  {
    hide IsReadAs, BodyText;
    var negative, b := a >= SIGN, a % SIGN;
    var body := q[|SignText(negative)|..];
    assert q == SignText(negative) + body && BodyText(b, mode, body);
    ReadBodyText(negative, b, mode, body, flags);
  }

  lemma ReadBodyText(negative: bool, b: nat, mode: ExpMode, q: string, flags: Flags)
    requires 0 < b < INFINITY && BodyText(b, mode, q) && !flags.intOnly
    ensures IsReadAs(SignText(negative) + q, b + SignBit(negative), flags)
  {
    hide IsReadAs, IntegerText, DigitsText;
    if m: nat :| !mode.Enabled? && IntegerText(b, m, q) {
      ReadInteger(negative, b, m, q, flags);
    } else {
      var mant: nat, p: nat, E: int :| DigitsText(b, mant, p, E, mode, q);
      ReadDigitsText(negative, b, mant, p, E, mode, q, flags);
    }
  }

  lemma ReadDigitsText(negative: bool, b: nat, mant: nat, p: nat, E: int, mode: ExpMode, q: string, flags: Flags)
    requires 0 < b < INFINITY && DigitsText(b, mant, p, E, mode, q) && !flags.intOnly
    ensures IsReadAs(SignText(negative) + q, b + SignBit(negative), flags)
  {
    hide IsReadAs, FreeText, NearestUnits, BitsUnits, UnitsBits, Pow;
    BitsRoundTrip(b);
    ReadFree(mant, p, E, mode, flags);
  }

  lemma ReadNaN(flags: Flags)
    ensures Atod("NaN", 10, flags) == None
  {
    var c := Context("NaN", 0, 10, flags.intOnly, flags.acceptUnderscores);
    var s := "NaN";
    assert s[0..] == s;
    var k := Cursor(0, 0, None);
    assert At(s, 0) == 'N';
    assert PassDot(c, k) == Some(k) && SkipZeros(c, k) == k && ScanDigits(c, k) == (k, []);
  }

  lemma ReadInfinity(negative: bool, flags: Flags)
    requires !flags.intOnly
    ensures IsReadAs(SignText(negative) + "Infinity", INFINITY + SignBit(negative), flags)
  {
    var s := SignText(negative) + "Infinity";
    var start := if negative then 1 else 0;
    assert s[start..] == "Infinity" && At(s, start) == 'I';
    assert negative ==> At(s, 0) == '-';
    assert !negative ==> At(s, 0) == 'I';
  }
}
