/**
 Exactly when js_atod gives the nearest number. Its exponents are 32-bit ints that wrap around, and an exponent of too
 many digits counts as infinite: the result is right if and only if the exponent fits in an int together with the
 digits, or if what was made of it is beyond the largest number, or below the smallest, on the same side.
 */
module NumberExactness {
  import opened Wrappers
  import opened Powers
  import opened Rounding
  import opened Scaling
  import opened Binary64
  import opened DigitSearch
  import opened DoubleBits
  import opened RadixLimits
  import opened NumberParsing
  import opened NumberRoundTrip
  import opened NumberScanning

  // ----- the largest and the smallest number -----

  /** v * base^f is at least 2^1024 - 2^970, half way between the largest number and 2^1024. */
  predicate TooLarge(v: nat, base: nat, f: int) {
    v * Pow(base, Plus(f)) >= Pow(base, Plus(-f)) * ((Pow(2, 54) - 1) * Pow(2, 970))
  }

  /** v * base^f is at most 2^-1075, half of the smallest number. */
  predicate TooSmall(v: nat, base: nat, f: int) {
    (v * Pow(base, Plus(f))) * Pow(2, 1075) <= Pow(base, Plus(-f))
  }

  /** Rounding reaches an even number from half below it on. */
  lemma RoundReaches(n: nat, d: nat, h: nat)
    requires d > 0 && h > 0 && h % 2 == 0
    ensures RoundDiv(n, d, NearestEven) >= h <==> 2 * n >= d * (2 * h - 1)
  {
    hide RoundDiv;
    var q, r := Divided(n, d);
    RoundDivIs(n, d, q, r, NearestEven);
    MulAdd(d, 2 * h, -1);
    MulAssoc(2, d, q);
    MulAssoc(d, 2, q);
    if q >= h {
      MulLe(d, d, 2 * h, 2 * q);
    } else if q + 2 <= h {
      MulLe(d, d, 2 * q + 4, 2 * h);
      MulAdd(d, 2 * q, 4);
    } else {
      MulAdd(d, 2 * q, 2);
    }
  }

  /** n / d, in units, rounds to 2^1024 or more exactly from half way below on. */
  lemma RoundsToLarge(n: nat, d: nat)
    requires d > 0
    ensures RoundDouble(n, d) >= Pow(2, 2098) <==> n >= d * ((Pow(2, 54) - 1) * Pow(2, 2044))
  {
    hide Pow, RoundDiv, Spare;
    var w := Spare(n, d);
    var k := RoundDiv(n, d * Pow(2, w), NearestEven);
    KeptBits(n, d);
    LargePowers();
    if w > 2045 {
      FarAbove(n, d, w, k);
    } else if w < 2045 {
      FarBelow(n, d, w, k);
    } else {
      AtTheTop(n, d, k);
    }
  }

  lemma LargePowers()
    ensures Pow(2, 2098) == Pow(2, 53) * Pow(2, 2045) && Pow(2, 2045) == 2 * Pow(2, 2044)
    ensures Pow(2, 54) == 2 * Pow(2, 53) && Pow(2, 53) == 2 * Pow(2, 52) && Pow(2, 52) > 1
    ensures (Pow(2, 54) - 1) * Pow(2, 2044) <= Pow(2, 2098) && Pow(2, 53) * Pow(2, 2044) <= (Pow(2, 54) - 1) * Pow(2, 2044)
  {
    hide Pow;
    TwoTo53();
    Doubled(52);
    Doubled(53);
    Doubled(2044);
    PowAdd(2, 53, 2045);
    var a, p := Pow(2, 53), Pow(2, 2044);
    MulAssoc(a, 2, p);
    MulLe(2 * a - 1, 2 * a, p, p);
    MulLe(a, 2 * a - 1, p, p);
  }

  lemma Doubled(n: nat)
    ensures Pow(2, n + 1) == 2 * Pow(2, n)
  {
  }

  lemma FarAbove(n: nat, d: nat, w: nat, k: nat)
    requires d > 0 && w > 2045 && k >= Pow(2, 52) && n >= d * Pow(2, w) * Pow(2, 52)
    requires (Pow(2, 54) - 1) * Pow(2, 2044) <= Pow(2, 2098)
    ensures k * Pow(2, w) >= Pow(2, 2098) && n >= d * ((Pow(2, 54) - 1) * Pow(2, 2044))
  {
    hide Pow;
    PowMonotone(2, 2046, w);
    PowAdd(2, 52, 2046);
    MulLe(Pow(2, 52), k, Pow(2, 2046), Pow(2, w));
    MulLe(Pow(2, 52), Pow(2, 52), Pow(2, 2046), Pow(2, w));
    MulAssoc(d, Pow(2, w), Pow(2, 52));
    assert Pow(2, w) * Pow(2, 52) == Pow(2, 52) * Pow(2, w);
    MulLe(d, d, (Pow(2, 54) - 1) * Pow(2, 2044), Pow(2, w) * Pow(2, 52));
  }

  lemma FarBelow(n: nat, d: nat, w: nat, k: nat)
    requires d > 0 && w < 2045 && k <= Pow(2, 53) && n < d * Pow(2, w) * Pow(2, 53)
    requires Pow(2, 53) * Pow(2, 2044) <= (Pow(2, 54) - 1) * Pow(2, 2044)
    ensures k * Pow(2, w) < Pow(2, 2098) && n < d * ((Pow(2, 54) - 1) * Pow(2, 2044))
  {
    hide Pow;
    PowMonotone(2, w, 2044);
    PowAdd(2, 53, 2044);
    PowerBelowNext(2097);
    MulLe(k, Pow(2, 53), Pow(2, w), Pow(2, 2044));
    MulLe(Pow(2, w), Pow(2, 2044), Pow(2, 53), Pow(2, 53));
    assert Pow(2, 2044) * Pow(2, 53) == Pow(2, 53) * Pow(2, 2044);
    MulAssoc(d, Pow(2, w), Pow(2, 53));
    MulLe(d, d, Pow(2, w) * Pow(2, 53), (Pow(2, 54) - 1) * Pow(2, 2044));
  }

  lemma PowerBelowNext(n: nat)
    ensures Pow(2, n) < Pow(2, n + 1)
  {
  }

  lemma AtTheTop(n: nat, d: nat, k: nat)
    requires d > 0 && d * Pow(2, 2045) > 0 && k == RoundDiv(n, d * Pow(2, 2045), NearestEven)
    requires Pow(2, 2098) == Pow(2, 53) * Pow(2, 2045) && Pow(2, 2045) == 2 * Pow(2, 2044)
    requires Pow(2, 54) == 2 * Pow(2, 53) && Pow(2, 53) == 2 * Pow(2, 52) && Pow(2, 52) > 1
    ensures k * Pow(2, 2045) >= Pow(2, 2098) <==> n >= d * ((Pow(2, 54) - 1) * Pow(2, 2044))
  {
    hide Pow, RoundDiv;
    var a, p, q := Pow(2, 53), Pow(2, 2044), Pow(2, 2045);
    RoundReaches(n, d * q, a);
    MulCompare(q, k, a);
    assert k * q == q * k && a * q == q * a;
    Halve(n, d, p, 2 * a - 1);
  }

  lemma Halve(n: nat, d: nat, p: nat, t: nat)
    ensures 2 * n >= (d * (2 * p)) * t <==> n >= d * (t * p)
  {
    MulAssoc(d, 2 * p, t);
    MulAssoc(2, p, t);
    assert p * t == t * p;
    MulAssoc(d, 2, t * p);
    MulAssoc(2, d, t * p);
    assert d * 2 == 2 * d;
  }

  /** n / d, in units, rounds to 0 exactly up to half a unit. */
  lemma RoundsToNothing(n: nat, d: nat)
    requires d > 0
    ensures RoundDouble(n, d) == 0 <==> 2 * n <= d
  {
    hide Pow;
    PowZero();
    var w := Spare(n, d);
    KeptBits(n, d);
    var k := RoundDiv(n, d * Pow(2, w), NearestEven);
    assert d * 1 == d;
    if 2 * n <= d {
      NoQuotient(n, d);
      assert 0 * Pow(2, 0) == 0;
    } else if w == 0 {
      SomeQuotient(n, d);
      assert k * 1 == k;
    } else {
      TwoTo53();
      MulLe(1, k, 1, Pow(2, w));
    }
  }

  lemma NoQuotient(n: nat, d: nat)
    requires d > 0 && 2 * n <= d
    ensures Spare(n, d) == 0 && RoundDiv(n, d, NearestEven) == 0
  {
    QuotientIs(n, d, 0, n);
  }

  lemma SomeQuotient(n: nat, d: nat)
    requires d > 0 && 2 * n > d
    ensures RoundDiv(n, d, NearestEven) > 0
  {
    var q, r := Divided(n, d);
    if q == 0 {
      assert d * q == 0;
    }
  }

  lemma BitsOfLarge(r: nat)
    ensures UnitsBits(r) == INFINITY <==> r >= Pow(2, 2098)
    ensures UnitsBits(r) == 0 <==> r == 0
  {
    hide Pow;
    PowerPositive(2098);
    if r >= Pow(2, 2098) {
      LongNumber(r);
    } else if r > 0 {
      BitLengthBounds(r);
      PowMonotone(2, 2098, if BitLength(r) > 2098 then BitLength(r) - 1 else 2098);
      BitsBelowInfinity(r);
    }
  }

  lemma BitsBelowInfinity(r: nat)
    requires 0 < r && BitLength(r) <= 2098
    ensures 0 < UnitsBits(r) < INFINITY
  {
    hide Pow;
    BitLengthBounds(r);
    TwoTo53();
    if BitLength(r) <= 52 {
      PowMonotone(2, BitLength(r), 52);
    }
  }

  /** A number is read as infinity exactly if it is too large, and as 0 exactly if it is too small. */
  lemma NearestAtTheEnds(v: nat, base: nat, f: int)
    requires base >= 1
    ensures UnitsBits(NearestUnits(v, base, f)) == INFINITY <==> TooLarge(v, base, f)
    ensures UnitsBits(NearestUnits(v, base, f)) == 0 <==> TooSmall(v, base, f)
  {
    hide RoundDouble, UnitsBits, Numerator, Denominator, Plus, Pow;
    ProductForm(v, base, f);
    var a, x, y := Pow(2, 1074), Pow(base, Plus(f)), Pow(base, Plus(-f));
    var n := v * (a * x);
    RoundsToLarge(n, y);
    RoundsToNothing(n, y);
    BitsOfLarge(RoundDouble(n, y));
    PowAdd(2, 970, 1074);
    Doubled(1074);
    PowerPositive(1074);
    UnitsCancel(v, a, x, y, Pow(2, 54) - 1, Pow(2, 970), Pow(2, 2044));
    HalfUnits(v, a, x, y, Pow(2, 1075));
  }

  lemma UnitsCancel(v: nat, a: nat, x: nat, y: nat, t: nat, p: nat, q: nat)
    requires a > 0 && q == p * a
    ensures v * (a * x) >= y * (t * q) <==> v * x >= y * (t * p)
  {
    assert v * (a * x) == a * (v * x) by { MulAssoc(v, a, x); MulAssoc(a, v, x); assert v * a == a * v; }
    assert y * (t * q) == a * (y * (t * p)) by {
      MulAssoc(t, p, a);
      MulAssoc(y, t * p, a);
      assert (y * (t * p)) * a == a * (y * (t * p));
    }
    MulCompare(a, v * x, y * (t * p));
  }

  lemma HalfUnits(v: nat, a: nat, x: nat, y: nat, b: nat)
    requires b == 2 * a
    ensures 2 * (v * (a * x)) <= y <==> (v * x) * b <= y
  {
    assert v * (a * x) == a * (v * x) by { MulAssoc(v, a, x); MulAssoc(a, v, x); assert v * a == a * v; }
    MulAssoc(2, a, v * x);
    assert (v * x) * b == b * (v * x);
  }

  // ----- the numeral -----

  /** The digits of a numeral that are read, as a number, its base, and its exponent. */
  function ReadValue(radix: nat, ds: seq<nat>): nat
    requires 2 <= radix <= 36
  {
    if RadixBits(radix) != 0 then DigitsVal(ds, radix) else DigitsVal(ds[..Kept(|ds|, radix)], radix)
  }

  function ReadBase(radix: nat): nat {
    if RadixBits(radix) != 0 then 2 else radix
  }

  function ReadExp(radix: nat, n: nat, f: int): int
    requires 2 <= radix <= 36
  {
    if RadixBits(radix) != 0 then f else f + n - Kept(n, radix)
  }

  predicate NumeralTooLarge(radix: nat, ds: seq<nat>, f: int)
    requires 2 <= radix <= 36
  {
    TooLarge(ReadValue(radix, ds), ReadBase(radix), ReadExp(radix, |ds|, f))
  }

  predicate NumeralTooSmall(radix: nat, ds: seq<nat>, f: int)
    requires 2 <= radix <= 36
  {
    TooSmall(ReadValue(radix, ds), ReadBase(radix), ReadExp(radix, |ds|, f))
  }

  /** The exponent that was written, however many digits it has. */
  function FullValue(e: Exponent): int {
    if e.Exponent? then e.full else 0
  }

  /** The bits of the number that a numeral stands for, correctly rounded; without the digits that are cut. */
  function TrueBits(radix: nat, ds: seq<nat>, fraction: int, e: Exponent): nat
    requires 2 <= radix <= 36
  {
    if ds == [] then 0 else UnitsBits(NumeralUnits(radix, ds, Scale(radix, fraction, IsBinary(e), FullValue(e))))
  }

  /**
   The condition for a numeral: the exponent, with all digits behind the dot, is a 32-bit int; or it is not, and what
   wrapping around makes of it is beyond the largest number, or below the smallest, on the same side.
   */
  predicate ExponentFits(radix: nat, ds: seq<nat>, fraction: int, e: Exponent)
    requires 2 <= radix <= 36
  {
    var f := Scale(radix, fraction, IsBinary(e), FullValue(e));
    var top := Top(radix, |ds|, f);
    || ds == []
    || if e.Exponent? && e.tooLarge then
         if e.negative then NumeralTooSmall(radix, ds, f) else NumeralTooLarge(radix, ds, f)
       else
         || -0x8000_0000 <= top < 0x8000_0000
         || (top >= 0x8000_0000 && NumeralTooLarge(radix, ds, ReadScale(radix, |ds|, f)))
         || (top < -0x8000_0000 && NumeralTooSmall(radix, ds, ReadScale(radix, |ds|, f)))
  }

  lemma NumeralForm(radix: nat, ds: seq<nat>, f: int)
    requires 2 <= radix <= 36
    ensures NumeralUnits(radix, ds, f) == NearestUnits(ReadValue(radix, ds), ReadBase(radix), ReadExp(radix, |ds|, f))
  {
    hide NearestUnits, DigitsVal, Kept;
  }

  lemma NumeralAtTheEnds(radix: nat, ds: seq<nat>, f: int)
    requires 2 <= radix <= 36
    ensures UnitsBits(NumeralUnits(radix, ds, f)) == INFINITY <==> NumeralTooLarge(radix, ds, f)
    ensures UnitsBits(NumeralUnits(radix, ds, f)) == 0 <==> NumeralTooSmall(radix, ds, f)
  {
    hide NearestUnits, NumeralUnits, ReadValue, ReadExp, TooLarge, TooSmall, UnitsBits;
    NumeralForm(radix, ds, f);
    NearestAtTheEnds(ReadValue(radix, ds), ReadBase(radix), ReadExp(radix, |ds|, f));
  }

  /** Digits as they are scanned: below the radix, without leading zeros. */
  ghost predicate ScannedDigits(radix: nat, ds: seq<nat>) {
    (ds != [] ==> ds[0] > 0) && forall i | 0 <= i < |ds| :: ds[i] < radix
  }

  /** With an exponent beyond 2000 in size every numeral is too large, or too small. */
  lemma FarExponents(radix: nat, ds: seq<nat>, f: int)
    requires 2 <= radix <= 36 && ds != [] && ScannedDigits(radix, ds)
    ensures Top(radix, |ds|, f) >= 2000 ==> UnitsBits(NumeralUnits(radix, ds, f)) == INFINITY
    ensures Top(radix, |ds|, f) <= -2000 ==> UnitsBits(NumeralUnits(radix, ds, f)) == 0
  {
    hide NearestUnits, NumeralUnits, DigitsVal, UnitsBits, Pow, Kept, MAX_DIGITS, MAX_EXPONENT, MIN_EXPONENT, LimitsFit;
    ZeroBits();
    if RadixBits(radix) != 0 {
      FarBinary(radix, ds, f);
    } else {
      FarOther(radix, ds, f);
    }
  }

  lemma FarBinary(radix: nat, ds: seq<nat>, f: int)
    requires 2 <= radix <= 36 && ds != [] && ScannedDigits(radix, ds) && RadixBits(radix) != 0
    ensures Top(radix, |ds|, f) >= 2000 ==> UnitsBits(NumeralUnits(radix, ds, f)) == INFINITY
    ensures Top(radix, |ds|, f) <= -2000 ==> NumeralUnits(radix, ds, f) == 0
  {
    hide NearestUnits, NumeralUnits, DigitsVal, UnitsBits, Pow, Kept, MAX_DIGITS;
    var b, n := RadixBits(radix), DigitsVal(ds, radix);
    BinaryNumeral(radix, ds, f);
    BinarySizes(ds, radix, b, Kept(|ds|, radix));
    Trivial();
    assert b <= 5;
    if Top(radix, |ds|, f) >= 2000 {
      OverflowByExponent(n, 2, |ds| * b - b + 1, f, 1024);
    }
    if Top(radix, |ds|, f) <= -2000 {
      VanishByExponent(n, 2, |ds| * b, f, 1075);
    }
  }

  lemma FarOther(radix: nat, ds: seq<nat>, f: int)
    requires 2 <= radix <= 36 && ds != [] && ScannedDigits(radix, ds) && RadixBits(radix) == 0
    ensures Top(radix, |ds|, f) >= 2000 ==> UnitsBits(NumeralUnits(radix, ds, f)) == INFINITY
    ensures Top(radix, |ds|, f) <= -2000 ==> NumeralUnits(radix, ds, f) == 0
  {
    hide NearestUnits, NumeralUnits, DigitsVal, UnitsBits, Pow, Kept, MAX_DIGITS, MAX_EXPONENT, MIN_EXPONENT, LimitsFit;
    LimitsSmall(radix);
    LimitsTable(radix);
    LimitsMeaning(radix);
    var k := Kept(|ds|, radix);
    var v, g := DigitsVal(ds[..k], radix), f + |ds| - k;
    OtherNumeral(radix, ds, k, f);
    KeptSizes(ds, radix, k);
    if Top(radix, |ds|, f) >= 2000 {
      OverflowByExponent(v, radix, k, g, MAX_EXPONENT[radix - 2]);
    }
    if Top(radix, |ds|, f) <= -2000 {
      VanishByExponent(v, radix, k, g, -MIN_EXPONENT[radix - 2]);
    }
  }

  /** Wrapping around leaves a 32-bit int alone, and moves any other number by 2^32 at least. */
  lemma WrapMoves(x: int)
    ensures -0x8000_0000 <= x < 0x8000_0000 <==> Wrap32(x) == x
  {
    if -0x8000_0000 <= x < 0x8000_0000 {
      WrapSame(x);
    }
  }

  /** For every numeral that can be scanned, what is read is the number it stands for if and only if the exponent fits. */
  lemma NumeralExactly(radix: nat, ds: seq<nat>, fraction: int, e: Exponent)
    requires 2 <= radix <= 36 && ScannedDigits(radix, ds) && Scanned(e)
    ensures NumeralBits(radix, ds, fraction, e) == TrueBits(radix, ds, fraction, e) <==> ExponentFits(radix, ds, fraction, e)
  {
    hide NumeralUnits, UnitsBits, NumeralTooLarge, NumeralTooSmall, Wrap32, Scale, Width, ScannedDigits;
    if ds != [] {
      var f := Scale(radix, fraction, IsBinary(e), FullValue(e));
      FarExponents(radix, ds, f);
      NumeralAtTheEnds(radix, ds, f);
      NumeralAtTheEnds(radix, ds, ReadScale(radix, |ds|, f));
      WrapMoves(Top(radix, |ds|, f));
    }
  }

  // ----- the text -----

  lemma ParsedIsScanned(s: string, radix: nat, flags: Flags)
    requires radix == 0 || 2 <= radix <= 36
    ensures var r := Parse(s, radix, flags); r.Numeral? ==> ScannedDigits(r.radix, r.digits) && Scanned(r.exponent)
  {
    hide ScanDigits, SkipZeros, ScanExponent, ScanPrefix, Scanned;
    var start := if At(s, 0) == '+' || At(s, 0) == '-' then 1 else 0;
    match ScanPrefix(s, start, radix, flags)
    case BadPrefix =>
    case InfinityHere =>
    case Prefix(p, r, underscores) =>
      var c := Context(s, start, r, flags.intOnly, underscores);
      FirstDigitCounts(c, Cursor(p, 0, None));
      DigitsBelowRadix(c, SkipZeros(c, Cursor(p, 0, None)));
      ScanIsScanned(c, ScanDigits(c, SkipZeros(c, Cursor(p, 0, None))).0.p);
  }

  /** The digits that are cut are zeros, or the radix is a power of two. */
  ghost predicate NoneCut(radix: nat, ds: seq<nat>)
    requires 2 <= radix <= 36
  {
    RadixBits(radix) != 0 || ZerosFrom(ds, Kept(|ds|, radix))
  }

  /** The numeral without an exponent of 2: the nearest number to its digits times a power of the radix. */
  lemma TrueBitsMeaning(radix: nat, ds: seq<nat>, fraction: int, e: Exponent)
    requires 2 <= radix <= 36 && NoneCut(radix, ds) && !IsBinary(e)
    ensures TrueBits(radix, ds, fraction, e) == UnitsBits(NearestUnits(DigitsVal(ds, radix), radix, FullValue(e) - fraction))
  {
    hide NearestUnits, NumeralUnits, DigitsVal, UnitsBits, Kept, ZerosFrom;
    if ds == [] {
      NoDigitsVal(radix);
      ZeroNearest(radix, FullValue(e) - fraction);
    } else if RadixBits(radix) != 0 {
      NothingLostBinary(radix, ds, fraction, FullValue(e));
    } else {
      NothingLost(radix, ds, FullValue(e) - fraction);
    }
  }

  lemma NoDigitsVal(radix: nat)
    ensures DigitsVal([], radix) == 0
  {
  }

  /**
   For every text, every radix and all flags: a numeral without an exponent of 2, of which no digit other than zeros is
   cut, is read as the nearest binary64 number, ties to even, subnormals and overflow included, if and only if its
   exponent fits.
   */
  lemma AtodIsNearestExactly(s: string, radix: nat, flags: Flags)
    requires radix == 0 || 2 <= radix <= 36
    ensures match Parse(s, radix, flags)
            case Numeral(negative, r, ds, fraction, e) =>
              NoneCut(r, ds) && !IsBinary(e) ==>
                (Atod(s, radix, flags) ==
                   Some(UnitsBits(NearestUnits(DigitsVal(ds, r), r, FullValue(e) - fraction)) + SignBit(negative))
                 <==> ExponentFits(r, ds, fraction, e))
            case _ => true
  {
    hide Parse, NearestUnits, UnitsBits, DigitsVal, NumeralBits, TrueBits, ExponentFits, NoneCut, ScannedDigits, Scanned;
    ParsedIsScanned(s, radix, flags);
    match Parse(s, radix, flags)
    case Numeral(negative, r, ds, fraction, e) =>
      NumeralExactly(r, ds, fraction, e);
      if NoneCut(r, ds) && !IsBinary(e) {
        TrueBitsMeaning(r, ds, fraction, e);
      }
    case _ =>
  }

  // ----- numerals that are read wrong -----

  /** What wrapping around makes of an exponent in radix 10. */
  lemma WrappedNumeral(ds: seq<nat>, fraction: int, e: Exponent)
    requires ScannedDigits(10, ds) && ds != [] && e.Exponent? && !e.tooLarge && !e.binary
    ensures var top := Wrap32(e.value - fraction + |ds|);
            && (top <= -2000 ==> NumeralBits(10, ds, fraction, e) == 0)
            && (top >= 2000 ==> NumeralBits(10, ds, fraction, e) == INFINITY)
  {
    hide NumeralUnits, UnitsBits, Wrap32, ScannedDigits;
    FarExponents(10, ds, ReadScale(10, |ds|, e.value - fraction));
  }

  lemma TrueNumeral(ds: seq<nat>, f: int)
    requires ScannedDigits(10, ds) && 0 < |ds| <= 38
    ensures f + |ds| >= 2000 ==> UnitsBits(NearestUnits(DigitsVal(ds, 10), 10, f)) == INFINITY
    ensures f + |ds| <= -2000 ==> UnitsBits(NearestUnits(DigitsVal(ds, 10), 10, f)) == 0
  {
    hide NumeralUnits, NearestUnits, UnitsBits, DigitsVal, ScannedDigits, Kept;
    FarExponents(10, ds, f);
    KeptTen(|ds|);
    NothingLost(10, ds, f);
  }

  /** The text "100000000e+2147483639" is read as 0, though its number is far above the largest one. */
  lemma LargeReadAsZero(flags: Flags)
    requires !flags.intOnly
    ensures Atod("100000000" + ExponentPart(2147483639), 10, flags) == Some(0)
    ensures UnitsBits(NearestUnits(100000000, 10, 2147483639)) == INFINITY
  {
    hide Parse, NearestUnits, UnitsBits, DigitsVal, Values, NumeralBits, Strip, ExponentPart, Pow, Fraction, AllDigits, AtodEnd;
    var I, x := "100000000", 2147483639;
    HundredMillion();
    ReadText(false, I, "", ExponentPart(x), x, flags);
    WholeText(I, ExponentPart(x));
    var r := Parse(I + ExponentPart(x), 10, flags);
    WrappedNumeral(r.digits, 0, r.exponent);
    TrueNumeral(r.digits, x);
  }

  lemma WholeText(I: string, tail: string)
    ensures NumberText(false, I, "", tail) == I + tail && I + "" == I && Fraction("") == ""
  {
    assert I + "" == I;
  }

  lemma HundredMillion()
    ensures var I := "100000000";
            && AllDigits(I) && AllDigits("") && Values(I) == [1] + Zero(8) && Strip(Values(I)) == Values(I)
            && DigitsVal(Values(I), 10) == 100000000 && ScannedDigits(10, Values(I))
  {
    var I := "100000000";
    assert AllDigits(I);
    assert Values(I) == [1] + Zero(8);
    assert Pow(10, 8) == 100000000;
    DigitsFirst(1, Zero(8), 10);
    DigitsBound(Zero(8), 10);
  }

  function Zero(n: nat): (ds: seq<nat>)
    ensures |ds| == n && forall i | 0 <= i < n :: ds[i] == 0
  {
    seq(n, _ => 0)
  }

  /** The text "0.0000000000001e-2147483639" is read as infinity, though its number is far below the smallest one. */
  lemma SmallReadAsInfinity(flags: Flags)
    requires !flags.intOnly
    ensures Atod("0." + "0000000000001" + ExponentPart(-2147483639), 10, flags) == Some(INFINITY)
    ensures UnitsBits(NearestUnits(1, 10, -2147483639 - 13)) == 0
  {
    hide Parse, NearestUnits, UnitsBits, DigitsVal, Values, NumeralBits, Strip, ExponentPart, Pow, AllDigits, AtodEnd, NumberText;
    var F, x := "0000000000001", -2147483639;
    OneAfterZeros();
    ReadText(false, "0", F, ExponentPart(x), x, flags);
    var s := "0." + F + ExponentPart(x);
    DottedText(F, ExponentPart(x));
    var r := Parse(s, 10, flags);
    WrappedNumeral(r.digits, 13, r.exponent);
    TrueNumeral([1], x - 13);
  }

  lemma DottedText(F: string, tail: string)
    requires F != ""
    ensures NumberText(false, "0", F, tail) == "0." + F + tail
  {
  }

  lemma OneAfterZeros()
    ensures var F := "0000000000001";
            AllDigits("0") && AllDigits(F) && AllDigits("0" + F) && Strip(Values("0" + F)) == [1] && |F| == 13
    ensures DigitsVal([1], 10) == 1 && ScannedDigits(10, [1])
  {
    var F := "0000000000001";
    var ds := Values("0" + F);
    assert ds == Zero(13) + [1];
    var k := StripFacts(ds);
    assert ds[13] == 1;
    assert ds[k..][0] == ds[k];
    assert ds[13..] == [1];
    DigitsFirst(1, [], 10);
    assert [1] + [] == [1];
    NoDigitsVal(10);
  }

  /** In radix 8 an exponent of nine digits is enough: 1 * 8^999999999 is read as 0. */
  lemma OctalReadAsZero()
    ensures var e := Exponent(999999999, false, false, false, 11, 999999999);
            && NumeralBits(8, [1], 0, e) == 0 && TrueBits(8, [1], 0, e) == INFINITY
            && !ExponentFits(8, [1], 0, e)
  {
    hide NumeralUnits, UnitsBits, NumeralTooLarge, NumeralTooSmall;
    var e := Exponent(999999999, false, false, false, 11, 999999999);
    FarExponents(8, [1], 2999999997);
    FarExponents(8, [1], ReadScale(8, 1, 2999999997));
    NumeralExactly(8, [1], 0, e);
  }
}
