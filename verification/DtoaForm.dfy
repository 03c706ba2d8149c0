/**
 Which form js_dtoa prints a number in, and what the text looks like: with an exponent below about 10^-6 and from 10^21 on, else
 plain; without needless zeros.
 */
module NumberForms {
  import opened Powers
  import opened Rounding
  import opened Scaling
  import opened Binary64
  import opened DigitSearch
  import opened DoubleBits
  import opened NumberParsing
  import opened NumberPrinting
  import opened NumberScanning
  import opened NumberRoundTrip
  import opened ShortestDigits

  // ----- larger numbers round to larger numbers -----

  lemma NearestMonotone(n: nat, n': nat, d: nat)
    requires d > 0 && n <= n'
    ensures RoundDouble(n, d) <= RoundDouble(n', d)
  {
    hide RoundDouble, IsDouble;
    var y, y' := RoundDouble(n, d), RoundDouble(n', d);
    NearestDouble(n', d, 0) by { ZeroIsDouble(); }
    NearestDouble(n, d, y');
    NearestDouble(n', d, y);
    MulCompare(d, y, y');
    assert y * d == d * y && y' * d == d * y';
  }

  lemma ZeroIsDouble()
    ensures IsDouble(0)
  {
    PowZero();
    PowerPositive(53);
    assert Significant(0, 0, 0);
  }

  lemma DecimalMonotone(k: nat, k': nat, f: int)
    requires k <= k'
    ensures NearestUnits(k, 10, f) <= NearestUnits(k', 10, f)
  {
    hide RoundDouble, NearestUnits, TenUp, TenDown;
    DecimalRatio(k, f);
    DecimalRatio(k', f);
    MulLe(k, k', TenUp(f), TenUp(f));
    NearestMonotone(k * TenUp(f), k' * TenUp(f), TenDown(f));
  }

  /** 10^i as a binary64 number, in units. */
  function TenUnits(i: int): nat {
    NearestUnits(1, 10, i)
  }

  lemma TensAre(i: int, j: nat)
    ensures NearestUnits(Pow(10, j), 10, i) == TenUnits(i + j)
  {
    hide NearestUnits, Pow;
    ScaleDigits(1, 10, i, j);
    assert 1 * Pow(10, j) == Pow(10, j);
  }

  lemma TensMonotone(i: int, j: int)
    requires i <= j
    ensures TenUnits(i) <= TenUnits(j)
  {
    hide NearestUnits, Pow;
    TensAre(i, j - i);
    assert Pow(10, j - i) >= 1;
    DecimalMonotone(1, Pow(10, j - i), i);
  }

  /** The digits of 0.ddd * 10^E, which is not below 10^(E - 1). */
  lemma BetweenTens(mant: nat, p: nat, E: int)
    requires p >= 1 && Pow(10, p - 1) <= mant < Pow(10, p)
    ensures TenUnits(E - 1) <= NearestUnits(mant, 10, E - p) <= TenUnits(E)
  {
    hide NearestUnits, Pow;
    TensAre(E - p, p - 1);
    TensAre(E - p, p);
    DecimalMonotone(Pow(10, p - 1), mant, E - p);
    DecimalMonotone(mant, Pow(10, p), E - p);
  }

  lemma BitsMonotone(b: nat, b': nat)
    requires b < b'
    ensures BitsUnits(b) < BitsUnits(b')
  {
    var e, f := Divided(b, TWO52);
    var e', f' := Divided(b', TWO52);
    if e == e' {
      if e > 0 {
        MulStrict(Pow(2, e - 1), TWO52 + f, TWO52 + f');
      }
    } else {
      MulLe(TWO52, TWO52 + f', Pow(2, e' - 1), Pow(2, e' - 1));
      BelowNextBinade(e, f, e');
    }
  }

  lemma BelowNextBinade(e: nat, f: nat, e': nat)
    requires f < TWO52 && e < e'
    ensures (if e == 0 then f else (TWO52 + f) * Pow(2, e - 1)) < TWO52 * Pow(2, e' - 1)
  {
    hide Pow;
    PowMonotone(2, e, e' - 1);
    MulLe(TWO52, TWO52, Pow(2, e), Pow(2, e' - 1));
    if e == 0 {
      PowZero();
    } else {
      TwicePower(e - 1);
      var p := Pow(2, e - 1);
      PowerPositive(e - 1);
      MulStrict(p, TWO52 + f, 2 * TWO52);
      assert (2 * TWO52) * p == TWO52 * (2 * p);
    }
  }

  // ----- 10^-6 and 10^21 -----

  /** The bits of the number nearest to 10^-6, which is just below it, and of 10^21. */
  const MILLIONTH: nat := 0x3EB0_C6F7_A0B5_ED8D
  const SEXTILLION: nat := 0x444B_1AE4_D6E2_EF50

  /** Their mantissas of 53 bits. */
  const MILLIONTH_MANTISSA: nat := 0x10_C6F7_A0B5_ED8D
  const SEXTILLION_MANTISSA: nat := 0x1B_1AE4_D6E2_EF50

  const MILLION: nat := 1000000
  const TEN21: nat := 1000000000000000000000
  const TWO72: nat := 0x100_0000_0000_0000_0000

  /** The number is below 10^-6. */
  ghost predicate BelowMillionth(b: nat) {
    BitsUnits(b) * MILLION < Pow(2, 1074)
  }

  /** The number is at least 10^21. */
  ghost predicate AtLeastSextillion(b: nat) {
    BitsUnits(b) >= TEN21 * Pow(2, 1074)
  }

  lemma TheirUnits()
    ensures BitsUnits(MILLIONTH) == MILLIONTH_MANTISSA * Pow(2, 1002) && BitsUnits(MILLIONTH + 1) == (MILLIONTH_MANTISSA + 1) * Pow(2, 1002)
    ensures BitsUnits(SEXTILLION) == SEXTILLION_MANTISSA * Pow(2, 1091) == TEN21 * Pow(2, 1074)
    ensures Pow(2, 1074) == TWO72 * Pow(2, 1002)
  {
    hide Pow;
    PowAdd(2, 17, 1074);
    PowAdd(2, 72, 1002);
    PowersHere();
  }

  lemma PowersHere()
    ensures Pow(2, 17) == 0x2_0000 && Pow(2, 72) == TWO72 && Pow(10, 6) == MILLION && Pow(10, 21) == TEN21
  {
    assert Pow(2, 9) == 0x200 && Pow(2, 8) == 0x100;
    PowAdd(2, 9, 8);
    PowAdd(2, 9, 9);
    PowAdd(2, 18, 18);
    PowAdd(2, 36, 36);
    assert Pow(10, 6) == MILLION && Pow(10, 7) == 10 * MILLION;
    PowAdd(10, 7, 7);
    PowAdd(10, 14, 7);
  }

  /** Where the numbers below 10^-6 end, and those from 10^21 on begin. */
  lemma Thresholds(b: nat)
    ensures BelowMillionth(b) <==> b <= MILLIONTH
    ensures AtLeastSextillion(b) <==> b >= SEXTILLION
  {
    hide BitsUnits, Pow;
    TheirUnits();
    var p := Pow(2, 1002);
    PowerPositive(1002);
    AroundMillionth(p);
    if b < MILLIONTH {
      BitsMonotone(b, MILLIONTH);
    } else if b > MILLIONTH + 1 {
      BitsMonotone(MILLIONTH + 1, b);
    }
    if b < SEXTILLION {
      BitsMonotone(b, SEXTILLION);
    } else if b > SEXTILLION {
      BitsMonotone(SEXTILLION, b);
    }
  }

  lemma AroundMillionth(p: nat)
    requires p > 0
    ensures (MILLIONTH_MANTISSA * p) * MILLION < TWO72 * p <= ((MILLIONTH_MANTISSA + 1) * p) * MILLION
  {
  }

  /** 10^-6 rounds to the number just below it, and 10^21 is a binary64 number. */
  lemma TensThere()
    ensures TenUnits(-6) == BitsUnits(MILLIONTH) && TenUnits(21) == BitsUnits(SEXTILLION)
  {
    hide BitsUnits, RoundDouble, Pow, NearestUnits, ReadsAbove;
    TheirUnits();
    PowersHere();
    PowNone(10);
    DecimalRatio(1, 21);
    DecimalRatio(1, -6);
    DoubleRounds(SEXTILLION);
    var p := Pow(2, 1002);
    PowerPositive(1002);
    MillionthAbove(p);
    RoundsAbove(TWO72 * p, MILLION, MILLIONTH_MANTISSA, 1002);
    assert Pow(2, 1074) * 1 == Pow(2, 1074) && Pow(2, 1074) * TEN21 == TEN21 * Pow(2, 1074);
  }

  lemma MillionthAbove(p: nat)
    requires p > 0
    ensures var n, g := TWO72 * p, MILLION * p; n >= MILLIONTH_MANTISSA * g && ReadsAbove(MILLIONTH_MANTISSA, g, n)
  {
  }

  // ----- the exponent of the digits -----

  lemma RoundsUpTo(n: nat, d: nat, t: nat)
    requires d > 0 && 2 * (t * d - n) < d
    ensures RoundDiv(n, d, NearestEven) >= t
  {
    hide RoundDiv;
    RoundDivNear(n, d, NearestEven);
    var k := RoundDiv(n, d, NearestEven);
    if k < t {
      MulLe(k + 1, t, d, d);
      MulAdd(d, k, 1);
    }
  }

  /** 10^21 has 22 digits before the dot. */
  lemma SextillionDigits(p: nat, E: int, k: nat)
    requires RoundedTo(SEXTILLION_MANTISSA, 70, p, E, k) && p <= 17
    ensures E > 21
  {
    hide RoundDiv, Numerator, Denominator, Pow;
    if E <= 21 {
      FinerRounds(SEXTILLION_MANTISSA, 17, p - 21, 21 - E);
      RatioForm(SEXTILLION_MANTISSA, 17, p - 21);
      PowersHere();
      PowNone(2);
      PowNone(10);
      PowAdd(10, 21 - p, p);
      RoundAtLeast(Numerator(SEXTILLION_MANTISSA, 17, 10, p - 21), Denominator(17, 10, p - 21), Pow(10, p));
    }
  }

  /** To at most 16 digits, the number below 10^-6 is rounded up. */
  lemma MillionthRounds(p: nat)
    requires p <= 16
    ensures RoundDiv(Numerator(MILLIONTH_MANTISSA, -72, 10, p + 6), Denominator(-72, 10, p + 6), NearestEven) >= Pow(10, p)
  {
    hide RoundDiv, Numerator, Denominator, Pow;
    MillionthRatio(p + 6);
    PowersHere();
    PowAdd(10, 6, p);
    PowMonotone(10, p, 16);
    SixteenTens();
    var t := Pow(10, p);
    assert MILLIONTH_MANTISSA * (MILLION * t) == (TWO72 - 213696) * t;
    RoundsUpTo((TWO72 - 213696) * t, TWO72, t);
  }

  lemma SixteenTens()
    ensures Pow(10, 15) == 1000000000000000 && Pow(10, 16) == 10000000000000000
  {
    PowAdd(10, 8, 7);
    PowAdd(10, 8, 8);
    assert Pow(10, 8) == 100000000 && Pow(10, 7) == 10000000;
  }

  lemma MillionthRatio(f: nat)
    ensures Numerator(MILLIONTH_MANTISSA, -72, 10, f) == MILLIONTH_MANTISSA * Pow(10, f) && Denominator(-72, 10, f) == TWO72
  {
    hide Pow, Numerator, Denominator;
    RatioForm(MILLIONTH_MANTISSA, -72, f);
    PowersHere();
    PowNone(2);
    PowNone(10);
  }

  /** To 16 digits it is 10^-6. */
  lemma MillionthTo16()
    ensures RoundedTo(MILLIONTH_MANTISSA, -19, 16, -5, 1000000000000000)
  {
    hide RoundDiv, Numerator, Denominator, Pow;
    MillionthRounds(15);
    MillionthRounds(16);
    MillionthRatio(21);
    PowersHere();
    SixteenTens();
    RoundAtMost(MILLIONTH_MANTISSA * TEN21, TWO72, 1000000000000000);
  }

  lemma SearchedUnits(r: nat, mant: nat, p: nat, E: int, m: nat, e: int)
    requires Searched(r, mant, p, E) && Mantissa(m, e) && IsUnits(m, e, r)
    ensures RoundedTo(m, e, p, E, mant) && (p > 1 ==> TooShort(m, e, r, p - 1))
  {
    hide Mantissa, IsUnits, RoundedTo, TooShort;
    var m', e' := SearchedAt(r, mant, p, E);
    SameMantissa(m, e, m', e', r);
  }

  lemma SextillionExponent(mant: nat, p: nat, E: int)
    requires Represents(BitsUnits(SEXTILLION), mant, p, E) && Searched(BitsUnits(SEXTILLION), mant, p, E)
    ensures E > 21
  {
    hide RoundedTo, TooShort, BitsUnits, Pow, NearestUnits;
    TheirUnits();
    SearchedUnits(BitsUnits(SEXTILLION), mant, p, E, SEXTILLION_MANTISSA, 70);
    SextillionDigits(p, E, mant);
  }

  /** The number just below 10^-6 is printed as 10^-6. */
  lemma MillionthExponent(mant: nat, p: nat, E: int)
    requires Represents(BitsUnits(MILLIONTH), mant, p, E) && Searched(BitsUnits(MILLIONTH), mant, p, E)
    ensures E > -6
  {
    hide RoundedTo, TooShort, BitsUnits, Pow, NearestUnits;
    TheirUnits();
    SearchedUnits(BitsUnits(MILLIONTH), mant, p, E, MILLIONTH_MANTISSA, -19);
    if p == 17 {
      LongEnoughAt16();
      NotBoth(MILLIONTH_MANTISSA, -19, BitsUnits(MILLIONTH), 16);
    } else {
      MillionthDigits(p, E, mant);
    }
  }

  lemma LongEnoughAt16()
    ensures LongEnough(MILLIONTH_MANTISSA, -19, BitsUnits(MILLIONTH), 16)
  {
    hide RoundedTo, BitsUnits, Pow, NearestUnits;
    MillionthTo16();
    TensThere();
    TensAre(-21, 15);
    SixteenTens();
  }

  lemma MillionthDigits(p: nat, E: int, k: nat)
    requires RoundedTo(MILLIONTH_MANTISSA, -19, p, E, k) && p <= 16
    ensures E > -6
  {
    hide RoundDiv, Numerator, Denominator, Pow;
    if E <= -6 {
      FinerRounds(MILLIONTH_MANTISSA, -72, p + 6, -6 - E);
      MillionthRounds(p);
    }
  }

  /** The exponent of the digits that are found, from the number. */
  lemma ExponentFound(b: nat, mant: nat, p: nat, E: int)
    requires Represents(BitsUnits(b), mant, p, E) && Searched(BitsUnits(b), mant, p, E)
    ensures E <= -6 <==> BelowMillionth(b) && b != MILLIONTH
    ensures E > 21 <==> AtLeastSextillion(b)
  {
    hide Searched, BitsUnits, Pow, NearestUnits, BelowMillionth, AtLeastSextillion;
    Thresholds(b);
    TensThere();
    BetweenTens(mant, p, E);
    if E <= 21 {
      TensMonotone(E, 21);
      if b == SEXTILLION {
        SextillionExponent(mant, p, E);
      } else if b > SEXTILLION {
        BitsMonotone(SEXTILLION, b);
      }
    } else {
      TensMonotone(21, E - 1);
      if b < SEXTILLION {
        BitsMonotone(b, SEXTILLION);
      }
    }
    if E <= -6 {
      TensMonotone(E, -6);
      if b == MILLIONTH {
        MillionthExponent(mant, p, E);
      } else if b > MILLIONTH {
        BitsMonotone(MILLIONTH, b);
      }
    } else {
      TensMonotone(-6, E - 1);
      if b < MILLIONTH {
        BitsMonotone(b, MILLIONTH);
      }
    }
  }

  // ----- the two forms -----

  function Point(F: string): string {
    if F == "" then "" else "." + F
  }

  /** Digits, and if there are any behind it a dot; no needless zero at the start or behind the dot. */
  predicate IsPlain(q: string, I: string, xs: seq<nat>, F: string, ys: seq<nat>) {
    && q == I + Point(F) && Spells(I, xs, 10, false) && Spells(F, ys, 10, false)
    && xs != [] && (|xs| > 1 ==> xs[0] != 0) && (ys != [] ==> ys[|ys| - 1] != 0)
  }

  /** The text is plain, and what it stands for rounds to r. */
  ghost predicate PlainNumber(q: string, r: nat) {
    exists I: string, xs: seq<nat>, F: string, ys: seq<nat> ::
      IsPlain(q, I, xs, F, ys) && NearestUnits(DigitsVal(xs + ys, 10), 10, -|ys|) == r
  }

  /** One digit before the dot, which is not 0, and an exponent with its sign; no needless zeros. */
  predicate IsScientific(q: string, I: string, x: nat, F: string, ys: seq<nat>, sign: string, X: string, zs: seq<nat>) {
    && q == I + Point(F) + "e" + sign + X && (sign == "-" || sign == "+")
    && Spells(I, [x], 10, false) && Spells(F, ys, 10, false) && Spells(X, zs, 10, false)
    && x != 0 && (ys != [] ==> ys[|ys| - 1] != 0) && zs != [] && (|zs| > 1 ==> zs[0] != 0)
  }

  ghost predicate ScientificNumber(q: string, r: nat) {
    exists I: string, x: nat, F: string, ys: seq<nat>, sign: string, X: string, zs: seq<nat> ::
      && IsScientific(q, I, x, F, ys, sign, X, zs)
      && NearestUnits(DigitsVal([x] + ys, 10), 10, (if sign == "-" then -(DigitsVal(zs, 10) as int) else DigitsVal(zs, 10)) - |ys|) == r
  }

  lemma {:induction false} SpelledInDigits(g: string, ds: seq<nat>)
    requires Spells(g, ds, 10, false)
    ensures AllDigits(g)
    decreases |ds|
  {
    hide CAPITALS, SMALL, ToDigit;
    if ds != [] {
      FirstIsDecimal(g, ds);
      SpelledInDigits(g[1..], ds[1..]);
      assert forall i | 1 <= i < |g| :: g[i] == g[1..][i - 1];
    }
  }

  lemma PlainHasNoE(q: string, r: nat)
    requires PlainNumber(q, r)
    ensures 'e' !in q
  {
    hide Spells, NearestUnits, DigitsVal;
    var I: string, xs: seq<nat>, F: string, ys: seq<nat> :|
      IsPlain(q, I, xs, F, ys) && NearestUnits(DigitsVal(xs + ys, 10), 10, -|ys|) == r;
    SpelledInDigits(I, xs);
    SpelledInDigits(F, ys);
  }

  lemma ScientificHasE(q: string, r: nat)
    requires ScientificNumber(q, r)
    ensures 'e' in q
  {
    hide Spells, NearestUnits, DigitsVal;
  }

  // ----- the digits -----

  /** The first digit counts the highest power, and the last one the ones. */
  lemma EndDigits(mant: nat, p: nat)
    requires p >= 1 && mant < Pow(10, p)
    ensures var vs := Values(Decimal(mant, p));
            |vs| == p && vs[p - 1] == mant % 10 && (vs[0] != 0 <==> mant >= Pow(10, p - 1))
  {
    var w := Cut(mant, p - 1);
    DecimalSplit(mant, p, p - 1);
    TenTimes(p);
    var t := Pow(10, p - 1);
    var q, s := Divided(mant, t);
    assert w == q;
    MulCompare(t, q, 10);
    MulCompare(t, q, 1);
    hide Pow, Cut;
    assert Decimal(w, 1) == Decimal(w / 10, 0) + [DigitChar(w % 10)];
    assert Decimal(mant, p)[0] == DigitChar(w);
  }

  /** The text of an integer. */
  lemma TextSpells(a: nat)
    ensures var X, zs := DecimalText(a), Values(DecimalText(a));
            Spells(X, zs, 10, false) && zs != [] && (|zs| > 1 ==> zs[0] != 0) && DigitsVal(zs, 10) == a
  {
    hide Spells, Values, DigitsVal, Decimal;
    TextOfNumber(a);
    DecimalSpells(DecimalText(a), false);
    DigitCountBounds(a);
    EndDigits(a, DigitCount(a));
    if a == 0 {
      assert DigitCount(a) == 1;
    }
  }

  lemma IntegerIsPlain(b: nat, m: nat, q: string)
    requires 0 < b < INFINITY && IntegerText(b, m, q)
    ensures PlainNumber(q, BitsUnits(b))
  {
    hide Spells, Values, DigitsVal, Decimal, NearestUnits, BitsUnits, Pow;
    TextSpells(m);
    DoubleRounds(b);
    IntegerNearest(b, m);
    var zs := Values(q);
    NothingIsSpelled();
    assert q + Point("") == q && zs + [] == zs;
    assert IsPlain(q, q, zs, "", []);
  }

  lemma NothingIsSpelled()
    ensures Spells("", [], 10, false)
  {
  }

  /** The texts of digits without a zero at the start or at the end. */
  ghost predicate Wanted(ds: string, mant: nat) {
    && AllDigits(ds) && ds != "" && DigitsVal(Values(ds), 10) == mant
    && Values(ds)[0] != 0 && Values(ds)[|ds| - 1] != 0
  }

  lemma DigitsWanted(mant: nat, p: nat)
    requires p >= 1 && Pow(10, p - 1) <= mant < Pow(10, p) && mant % 10 != 0
    ensures Wanted(Decimal(mant, p), mant)
  {
    hide Values, DigitsVal, Decimal, Pow;
    EndDigits(mant, p);
    DigitTexts(mant, p);
  }

  /** The digits before and behind a place. */
  lemma DigitsApart(ds: string, k: nat)
    requires AllDigits(ds) && k <= |ds|
    ensures AllDigits(ds[..k]) && AllDigits(ds[k..]) && ds[..k] + ds[k..] == ds
    ensures Values(ds[..k]) + Values(ds[k..]) == Values(ds)
    ensures Spells(ds[..k], Values(ds)[..k], 10, false) && Spells(ds[k..], Values(ds)[k..], 10, false)
  {
    hide Spells;
    assert ds[..k] + ds[k..] == ds;
    assert Values(ds[..k]) == Values(ds)[..k] && Values(ds[k..]) == Values(ds)[k..];
    DecimalSpells(ds[..k], false);
    DecimalSpells(ds[k..], false);
  }

  lemma DottedIs(ds: string, k: nat)
    requires k <= |ds|
    ensures Dotted(ds, k) == ds[..k] + Point(ds[k..])
  {
  }

  lemma PlainParts(q: string, I: string, xs: seq<nat>, F: string, ys: seq<nat>)
    requires q == I + Point(F) && Spells(I, xs, 10, false) && Spells(F, ys, 10, false)
    requires xs != [] && xs[0] != 0 && (ys != [] ==> ys[|ys| - 1] != 0)
    ensures IsPlain(q, I, xs, F, ys)
  {
  }

  lemma MiddleIsPlain(ds: string, mant: nat, E: nat)
    requires Wanted(ds, mant) && 1 <= E < |ds|
    ensures PlainNumber(Dotted(ds, E), NearestUnits(mant, 10, E - |ds|))
  {
    hide Spells, Values, DigitsVal, NearestUnits, AllDigits, Dotted, Point, IsPlain;
    DigitsApart(ds, E);
    DottedIs(ds, E);
    var vs := Values(ds);
    assert vs[..E] + vs[E..] == vs;
    PlainParts(Dotted(ds, E), ds[..E], vs[..E], ds[E..], vs[E..]);
  }

  lemma LargeIsPlain(ds: string, mant: nat, n: nat)
    requires Wanted(ds, mant) && |ds| <= 17
    ensures PlainNumber(ds + Zeros(n), NearestUnits(mant, 10, n))
  {
    hide Spells, DigitsVal, NearestUnits, Pow;
    var I := ds + Zeros(n);
    TrailingZeros(ds, n);
    DecimalSpells(I, false);
    ScaleDigits(mant, 10, 0, n);
    NothingIsSpelled();
    var xs := Values(I);
    assert xs[0] == Values(ds)[0];
    assert I + Point("") == I && xs + [] == xs;
    assert IsPlain(I, I, xs, "", []);
  }

  lemma SmallIsPlain(ds: string, mant: nat, n: nat)
    requires Wanted(ds, mant) && |ds| <= 17
    ensures PlainNumber("0." + Zeros(n) + ds, NearestUnits(mant, 10, -(n as int) - |ds|))
  {
    hide Spells, DigitsVal, NearestUnits, Strip;
    var F := Zeros(n) + ds;
    LeadingZeroText(n + 1, ds);
    SmallForms(n, ds);
    DecimalSpells("0", false);
    DecimalSpells(F, false);
    ValuesConcat("0", F);
    var xs, ys := Values("0"), Values(F);
    assert ys[|ys| - 1] == Values(ds)[|ds| - 1];
    var q := "0." + Zeros(n) + ds;
    assert q == "0" + Point(F);
    assert IsPlain(q, "0", xs, F, ys);
  }

  lemma ExponentIsScientific(ds: string, mant: nat, x: int)
    requires Wanted(ds, mant)
    ensures ScientificNumber(Dotted(ds, 1) + ExponentPart(x), NearestUnits(mant, 10, x + 1 - |ds|))
  {
    hide Spells, Values, DigitsVal, NearestUnits, DecimalText, AllDigits;
    DigitsApart(ds, 1);
    DottedIs(ds, 1);
    var vs, a, sign := Values(ds), if x < 0 then -x else x, if x < 0 then "-" else "+";
    var X := DecimalText(a);
    TextSpells(a);
    TextOfNumber(a);
    var zs := Values(X);
    assert vs[..1] == [vs[0]] && [vs[0]] + vs[1..] == vs;
    var q := Dotted(ds, 1) + ExponentPart(x);
    assert q == ds[..1] + Point(ds[1..]) + "e" + sign + X;
    assert IsScientific(q, ds[..1], vs[0], ds[1..], vs[1..], sign, X, zs);
  }

  /** The digits that are found are printed in one of the two forms. */
  lemma DigitsHaveForm(b: nat, mant: nat, p: nat, E: int, mode: ExpMode, q: string)
    requires DigitsText(b, mant, p, E, mode, q)
    ensures if WithExponent(mode, E) then ScientificNumber(q, BitsUnits(b)) else PlainNumber(q, BitsUnits(b))
  {
    hide FreeText, NearestUnits, BitsUnits, Pow, Searched, Wanted, Decimal, ScientificNumber, PlainNumber, Dotted, Zeros, ExponentPart,
         WithExponent;
    DigitsWanted(mant, p);
    FreeForms(mant, p, E, mode);
    var ds := Decimal(mant, p);
    if WithExponent(mode, E) {
      ExponentIsScientific(ds, mant, E - 1);
    } else if E <= 0 {
      SmallIsPlain(ds, mant, -E);
    } else if E < p {
      MiddleIsPlain(ds, mant, E);
    } else {
      LargeIsPlain(ds, mant, E - p);
    }
  }

  // ----- what is printed -----

  /** When a finite number other than 0 is printed with an exponent. */
  ghost predicate HasExponent(b: nat, mode: ExpMode) {
    match mode
    case Enabled => true
    case Disabled => false
    case Auto => (BelowMillionth(b) && b != MILLIONTH) || AtLeastSextillion(b)
  }

  /**
   With the exponent enabled every number is printed in scientific form and with it disabled every number is printed plain;
   else the numbers below 10^-6, without the one nearest to 10^-6, and those from 10^21 on are printed in scientific form.
   There is an e in the text exactly in these cases, there are no needless zeros, and the digits with the dot and the
   exponent stand for a decimal that rounds to the number.
   */
  lemma PrintedForm(b: nat, mode: ExpMode, q: string)
    requires 0 < b < INFINITY && BodyText(b, mode, q)
    ensures 'e' in q <==> HasExponent(b, mode)
    ensures if HasExponent(b, mode) then ScientificNumber(q, BitsUnits(b)) else PlainNumber(q, BitsUnits(b))
  {
    hide IntegerText, DigitsText, ScientificNumber, PlainNumber, BitsUnits, BelowMillionth, AtLeastSextillion;
    if m: nat :| !mode.Enabled? && IntegerText(b, m, q) {
      IntegerIsPlain(b, m, q);
      IntegerBetween(b, m, q);
    } else {
      var mant: nat, p: nat, E: int :| DigitsText(b, mant, p, E, mode, q);
      DigitsHaveForm(b, mant, p, E, mode, q);
      FoundExponent(b, mant, p, E, mode, q);
    }
    if HasExponent(b, mode) {
      ScientificHasE(q, BitsUnits(b));
    } else {
      PlainHasNoE(q, BitsUnits(b));
    }
  }

  lemma FoundExponent(b: nat, mant: nat, p: nat, E: int, mode: ExpMode, q: string)
    requires DigitsText(b, mant, p, E, mode, q)
    ensures WithExponent(mode, E) <==> HasExponent(b, mode)
  {
    hide FreeText, Represents, Searched, BitsUnits, BelowMillionth, AtLeastSextillion;
    ExponentFound(b, mant, p, E);
  }

  /** Integers below 2^53 are between 10^-6 and 10^21. */
  lemma IntegerBetween(b: nat, m: nat, q: string)
    requires IntegerText(b, m, q)
    ensures !BelowMillionth(b) && !AtLeastSextillion(b)
  {
    hide Pow, BitsUnits;
    PowerPositive(1074);
    var p := Pow(2, 1074);
    MulLe(1, m, p, p);
    MulStrict(p, m, TEN21);
    assert m * p == p * m && TEN21 * p == p * TEN21;
  }

  /** The number nearest to 10^-6 is below it, and is printed plain all the same. */
  lemma MillionthIsPlain(q: string)
    requires BodyText(MILLIONTH, Auto, q)
    ensures BelowMillionth(MILLIONTH) && 'e' !in q
  {
    hide BodyText, BelowMillionth, AtLeastSextillion;
    Thresholds(MILLIONTH);
    PrintedForm(MILLIONTH, Auto, q);
  }

  /** The text for all 64 bits: NaN, Infinity and 0 by name, with a minus sign where there is one. */
  lemma PrintedText(a: nat, mode: ExpMode, minusZero: bool, q: string)
    requires a < 0x1_0000_0000_0000_0000 && Printed(a, mode, minusZero, q)
    ensures var sign, b := if a >= 0x8000_0000_0000_0000 then "-" else "", a % 0x8000_0000_0000_0000;
            if b > 0x7FF0_0000_0000_0000 then q == "NaN"
            else if b == 0x7FF0_0000_0000_0000 then q == sign + "Infinity"
            else if b == 0 then q == (if minusZero then sign else "") + if mode.Enabled? then "0e+0" else "0"
            else
              && |q| >= |sign| && q[..|sign|] == sign
              && ('e' in q[|sign|..] <==> HasExponent(b, mode))
              && if HasExponent(b, mode) then ScientificNumber(q[|sign|..], BitsUnits(b)) else PlainNumber(q[|sign|..], BitsUnits(b))
  {
    hide BodyText, FreeText, HasExponent, ScientificNumber, PlainNumber, BitsUnits;
    var sign, b := if a >= SIGN then "-" else "", a % SIGN;
    ZeroText(mode);
    if 0 < b < INFINITY {
      PrintedForm(b, mode, q[|sign|..]);
    }
  }

  lemma ZeroText(mode: ExpMode)
    ensures FreeText(0, 1, 1, mode) == if mode.Enabled? then "0e+0" else "0"
  {
    assert Decimal(0, 1) == Decimal(0, 0) + [DigitChar(0)] == "0";
    assert DigitCount(0) == 1;
    assert Zeros(0) == "";
  }
}
