/**
 What js_atod reads, on texts whose digits are written out: numerals in every radix with prefixes, underscores, dots and
 exponents are read to their end as the nearest number, and integers below 2^53 as themselves.
 */
module NumberTexts {
  import opened Wrappers
  import opened Powers
  import opened RadixTables
  import opened Scaling
  import opened Binary64
  import opened DoubleBits
  import opened NumberParsing
  import opened NumberScanning
  import opened NumberRoundTrip
  import opened NumberExactness

  // ----- any numeral -----

  /** Exponents and texts that are not too long for 32-bit exponents, in any radix. */
  predicate Moderate(xs: seq<nat>, ys: seq<nat>, w: Power) {
    |xs| + |ys| <= 10000000 && -300000000 <= PowerValue(w) <= 300000000
  }

  // ----- how many digits count -----

  const TWO128 := 0x1_0000_0000_0000_0000_0000_0000_0000_0000

  /** A power, given the power x of as many digits as fit into a limb: of two limbs or of four, and of up to four digits more. */
  function OfLimbs(radix: nat, x: nat, four: bool, j: nat): nat {
    (if four then x * x * (x * x) else x * x) *
    (if j == 0 then 1 else if j == 1 then radix else if j == 2 then radix * radix
     else if j == 3 then radix * radix * radix else radix * radix * (radix * radix))
  }

  lemma PowerOfLimbs(radix: nat, d: nat, x: nat, four: bool, j: nat)
    requires Pow(radix, d) == x && j <= 4
    ensures Pow(radix, (if four then 4 * d else 2 * d) + j) == OfLimbs(radix, x, four, j)
  {
    FirstPowers(radix, j);
    hide Pow;
    PowAdd(radix, d, d);
    PowAdd(radix, 2 * d, 2 * d);
    PowAdd(radix, if four then 4 * d else 2 * d, j);
  }

  lemma FirstPowers(radix: nat, j: nat)
    requires j <= 4
    ensures Pow(radix, j) == OfLimbs(radix, 1, false, j)
  {
    assert Pow(radix, 1) == radix * Pow(radix, 0) == radix;
    if j >= 2 {
      assert Pow(radix, 2) == radix * Pow(radix, 1) == radix * radix;
    }
    if j >= 3 {
      assert Pow(radix, 3) == radix * Pow(radix, 2) == radix * (radix * radix);
    }
    if j == 4 {
      PowAdd(radix, 2, 2);
    }
  }

  predicate IsBinaryRadix(radix: nat) {
    radix in {2, 4, 8, 16, 32}
  }

  /** What the digits that are read fit into. */
  function Most(radix: nat): nat {
    if IsBinaryRadix(radix) then 0x1_0000_0000_0000_0000 else TWO128
  }

  /** The power of as many digits as fit into a limb. */
  function FullLimb(radix: nat): nat {
    match radix
    case 2 => 4294967296
    case 3 => 3486784401
    case 4 => 4294967296
    case 5 => 1220703125
    case 6 => 2176782336
    case 7 => 1977326743
    case 8 => 1073741824
    case 9 => 3486784401
    case 10 => 1000000000
    case 11 => 2357947691
    case 12 => 429981696
    case 13 => 815730721
    case 14 => 1475789056
    case 15 => 2562890625
    case 16 => 4294967296
    case 17 => 410338673
    case 18 => 612220032
    case 19 => 893871739
    case 20 => 1280000000
    case 21 => 1801088541
    case 22 => 2494357888
    case 23 => 3404825447
    case 24 => 191102976
    case 25 => 244140625
    case 26 => 308915776
    case 27 => 387420489
    case 28 => 481890304
    case 29 => 594823321
    case 30 => 729000000
    case 31 => 887503681
    case 32 => 1073741824
    case 33 => 1291467969
    case 34 => 1544804416
    case 35 => 1838265625
    case _ => 2176782336
  }

  /** How many digits more than two full limbs are read in a radix that is a power of two, and more than four in another. */
  function MoreDigits(radix: nat): nat {
    if radix in {6, 7, 8, 11, 14, 20, 21, 31, 33, 34} then 1
    else if radix in {10, 13, 18, 19, 27, 28, 29, 30} then 2
    else if radix in {5, 12, 17, 24, 25, 26} then 3
    else 0
  }

  lemma FullLimbs(radix: nat)
    requires 2 <= radix <= 36
    ensures RadixBase(radix) == FullLimb(radix)
  {
  }

  lemma MoreThanLimbs(radix: nat)
    requires 2 <= radix <= 36
    ensures var d := DIGITS_PER_LIMB[radix - 2];
            MAX_DIGITS[radix - 2] == (if IsBinaryRadix(radix) then 2 * d else 4 * d) + MoreDigits(radix)
    ensures MoreDigits(radix) <= 3
  {
  }

  lemma Between(radix: nat)
    requires 2 <= radix <= 36
    ensures var x, four, j := FullLimb(radix), !IsBinaryRadix(radix), MoreDigits(radix);
            OfLimbs(radix, x, four, j) <= Most(radix) < OfLimbs(radix, x, four, j + 1)
  {
  }

  /** As many digits are read as fit into 128 bits, and into 64 bits if the radix is a power of two. */
  lemma MostDigits(radix: nat)
    requires 2 <= radix <= 36
    ensures Pow(radix, MAX_DIGITS[radix - 2]) <= Most(radix) < Pow(radix, MAX_DIGITS[radix - 2] + 1)
  {
    hide Pow, OfLimbs, IsBinaryRadix, Most, RadixBase, FullLimb;
    RadixBaseTable(radix);
    FullLimbs(radix);
    MoreThanLimbs(radix);
    Between(radix);
    var d, x, j := DIGITS_PER_LIMB[radix - 2], RadixBase(radix), MoreDigits(radix);
    PowerOfLimbs(radix, d, x, !IsBinaryRadix(radix), j);
    PowerOfLimbs(radix, d, x, !IsBinaryRadix(radix), j + 1);
  }

  /** Numerals with not too many digits, so that none is cut. */
  ghost predicate AllCount(radix: nat, ds: seq<nat>) {
    IsBinaryRadix(radix) || Pow(radix, |ds|) <= TWO128
  }

  lemma CountsAll(radix: nat, ds: seq<nat>)
    requires 2 <= radix <= 36 && AllCount(radix, ds)
    ensures NoneCut(radix, Strip(ds))
  {
    MostDigits(radix);
    hide Strip, Pow;
    var k := StripFacts(ds);
    if !IsBinaryRadix(radix) {
      var n := MAX_DIGITS[radix - 2];
      if |ds| > n {
        PowMonotone(radix, n + 1, |ds|);
      }
    }
  }

  lemma ModerateFits(radix: nat, ds: seq<nat>, fraction: nat, e: Exponent, w: Power)
    requires 2 <= radix <= 36 && |ds| <= 10000000 && fraction <= 10000000 && ExponentIs(e, w) && -300000000 <= PowerValue(w) <= 300000000
    ensures ExponentFits(radix, ds, fraction, e)
  {
    hide PowerValue, Strip;
    var b, x := RadixBits(radix), FullValue(e);
    TopBounds(b, x, fraction, |ds|);
  }

  /** In a radix of 2^b, or of another number for b = 0. */
  lemma TopBounds(b: nat, x: int, fraction: nat, n: nat)
    requires b <= 5 && -300000000 <= x <= 300000000 && fraction <= 10000000 && n <= 10000000
    ensures -0x8000_0000 <= x * b - fraction * b + n * b < 0x8000_0000
  {
    if b == 0 {
    } else if b == 1 {
    } else if b == 2 {
    } else if b == 3 {
    } else if b == 4 {
    }
  }

  /**
   Every numeral: a sign, a prefix, digits in the radix, in capital or small letters, with underscores between them and a dot
   among them, and an exponent of the radix. It is read to its end, as the nearest binary64 number, ties to even.
   */
  lemma TextIsNearest(sign: string, pre: string, radix0: nat, radix: nat, I: string, xs: seq<nat>, dot: bool, F: string, ys: seq<nat>,
                      w: Power, t: string, flags: Flags)
    requires IsSign(sign) && (radix0 == 0 || 2 <= radix0 <= 36) && 2 <= radix <= 36 && BodyOk(I, dot, F)
    requires StartsWith(pre, Body(I, dot, F) + (PowerText(w) + t), radix0, radix, I, flags)
    requires Spells(I, xs, radix, flags.acceptUnderscores) && Spells(F, ys, radix, flags.acceptUnderscores)
    requires PowerOk(w, radix, flags.acceptUnderscores) && (dot || w.Power? ==> !flags.intOnly)
    requires Ends(t, radix, dot, w, flags.intOnly, flags.acceptUnderscores)
    requires !IsBinaryPower(w) && Moderate(xs, ys, w) && AllCount(radix, xs + ys)
    ensures var s := sign + (pre + (Body(I, dot, F) + (PowerText(w) + t)));
            && Atod(s, radix0, flags) ==
               Some(UnitsBits(NearestUnits(DigitsVal(xs + ys, radix), radix, PowerValue(w) - |ys|)) + SignBit(sign == "-"))
            && AtodEnd(s, radix0, flags) == |s| - |t|
  {
    hide Spells, Ends, PowerOk, Parse, AtodEnd, Atod, StartsWith, ParsedAs, NearestUnits, UnitsBits, DigitsVal, Body, PowerText, AllCount;
    TextIsParsed(sign, pre, radix0, radix, I, xs, dot, F, ys, w, t, flags);
    ParsedIsNearest(sign + (pre + (Body(I, dot, F) + (PowerText(w) + t))), radix0, flags, sign == "-", radix, xs, ys, w);
  }

  lemma ParsedIsNearest(s: string, radix0: nat, flags: Flags, negative: bool, radix: nat, xs: seq<nat>, ys: seq<nat>, w: Power)
    requires (radix0 == 0 || 2 <= radix0 <= 36) && 2 <= radix <= 36
    requires ParsedAs(Parse(s, radix0, flags), negative, radix, Strip(xs + ys), |ys|, w)
    requires !IsBinaryPower(w) && Moderate(xs, ys, w) && AllCount(radix, xs + ys)
    ensures Atod(s, radix0, flags) ==
            Some(UnitsBits(NearestUnits(DigitsVal(xs + ys, radix), radix, PowerValue(w) - |ys|)) + SignBit(negative))
  {
    hide Parse, Atod, Strip, ExponentFits, NoneCut, NearestUnits, UnitsBits, DigitsVal, AllCount;
    AtodIsNearestExactly(s, radix0, flags);
    var e, ds := Parse(s, radix0, flags).exponent, Strip(xs + ys);
    var k := StripFacts(xs + ys);
    CountsAll(radix, xs + ys);
    ModerateFits(radix, ds, |ys|, e, w);
    FullIs(e, w);
  }

  /**
   Where octal numerals are accepted, a 0 before further decimal digits makes the numeral octal, unless there is an 8 or a 9 in
   it before the dot; it is decimal then. It has no underscores.
   */
  lemma LegacyIsNearest(sign: string, I: string, xs: seq<nat>, dot: bool, F: string, ys: seq<nat>, w: Power, t: string, flags: Flags)
    requires IsSign(sign) && BodyOk(I, dot, F) && I != "" && flags.acceptLegacyOctal
    requires Spells(I, xs, 10, false) && Spells(F, ys, LegacyRadix(xs), false) && PowerOk(w, LegacyRadix(xs), false)
    requires Ends(t, LegacyRadix(xs), dot, w, flags.intOnly, false) && (dot || w.Power? ==> !flags.intOnly)
    requires dot || w.Power? || NotDecimal(t)
    requires !IsBinaryPower(w) && Moderate(xs, ys, w) && AllCount(LegacyRadix(xs), xs + ys)
    ensures var s := sign + ("0" + (Body(I, dot, F) + (PowerText(w) + t)));
            var radix := if exists i | 0 <= i < |xs| :: xs[i] >= 8 then 10 else 8;
            && Atod(s, 0, flags) ==
               Some(UnitsBits(NearestUnits(DigitsVal(xs + ys, radix), radix, PowerValue(w) - |ys|)) + SignBit(sign == "-"))
            && AtodEnd(s, 0, flags) == |s| - |t|
  {
    hide Spells, Ends, PowerOk, Parse, AtodEnd, Atod, ParsedAs, NearestUnits, UnitsBits, DigitsVal, Body, PowerText, AllCount,
         AllOctal, LegacyRadix, BodyOk, PowerValue, Moderate, IsBinaryPower;
    LegacyRadixIs(xs);
    LegacyIsParsed(sign, I, xs, dot, F, ys, w, t, flags);
    ParsedIsNearest(sign + ("0" + (Body(I, dot, F) + (PowerText(w) + t))), 0, flags, sign == "-", LegacyRadix(xs), xs, ys, w);
  }

  lemma LegacyRadixIs(xs: seq<nat>)
    ensures LegacyRadix(xs) == if exists i | 0 <= i < |xs| :: xs[i] >= 8 then 10 else 8
  {
  }

  /** Infinity is a number unless only integers are read; what follows it does not matter. */
  lemma InfinityIsRead(sign: string, t: string, radix0: nat, flags: Flags)
    requires IsSign(sign) && (radix0 == 0 || 2 <= radix0 <= 36) && !flags.intOnly
    ensures var s := sign + ("Infinity" + t);
            && Atod(s, radix0, flags) == Some(0x7FF0_0000_0000_0000 + if sign == "-" then 0x8000_0000_0000_0000 else 0)
            && AtodEnd(s, radix0, flags) == |s| - |t|
  {
    hide ParseNumeral, NumeralEnd;
    var name := "Infinity";
    var rest := name + t;
    var s := sign + rest;
    assert rest[0] == name[0] == 'I';
    SignIsRead(s, sign, rest);
    assert name <= s[|sign|..];
    assert At(s, |sign|) == s[|sign|..][0];
  }

  lemma FullIs(e: Exponent, w: Power)
    requires ExponentIs(e, w)
    ensures FullValue(e) == PowerValue(w) && IsBinary(e) == IsBinaryPower(w)
  {
  }

  /** The same with an exponent of 2, behind the letter p: each digit counts RadixBits(radix) in it. */
  lemma BinaryTextIsNearest(sign: string, pre: string, radix0: nat, radix: nat, I: string, xs: seq<nat>, dot: bool, F: string, ys: seq<nat>,
                            w: Power, t: string, flags: Flags)
    requires IsSign(sign) && (radix0 == 0 || 2 <= radix0 <= 36) && BodyOk(I, dot, F)
    requires (radix == 2 || radix == 4 || radix == 8 || radix == 16) && IsBinaryPower(w) && Moderate(xs, ys, w)
    requires StartsWith(pre, Body(I, dot, F) + (PowerText(w) + t), radix0, radix, I, flags)
    requires Spells(I, xs, radix, flags.acceptUnderscores) && Spells(F, ys, radix, flags.acceptUnderscores)
    requires PowerOk(w, radix, flags.acceptUnderscores) && Ends(t, radix, dot, w, flags.intOnly, flags.acceptUnderscores) && !flags.intOnly
    ensures var s := sign + (pre + (Body(I, dot, F) + (PowerText(w) + t)));
            var bits := if radix == 2 then 1 else if radix == 4 then 2 else if radix == 8 then 3 else 4;
            && Atod(s, radix0, flags) ==
               Some(UnitsBits(NearestUnits(DigitsVal(xs + ys, radix), 2, PowerValue(w) - |ys| * bits)) + SignBit(sign == "-"))
            && AtodEnd(s, radix0, flags) == |s| - |t|
  {
    hide Spells, Ends, PowerOk, Parse, AtodEnd, Strip, StartsWith, NearestUnits, UnitsBits, DigitsVal, Body, PowerText, PowerValue;
    var s := sign + (pre + (Body(I, dot, F) + (PowerText(w) + t)));
    TextIsParsed(sign, pre, radix0, radix, I, xs, dot, F, ys, w, t, flags);
    var e, ds := Parse(s, radix0, flags).exponent, Strip(xs + ys);
    var k := StripFacts(xs + ys);
    BinaryWorth(radix, ds, |ys|, e, w);
  }

  lemma BinaryWorth(radix: nat, ds: seq<nat>, fraction: nat, e: Exponent, w: Power)
    requires (radix == 2 || radix == 4 || radix == 8 || radix == 16) && IsBinaryPower(w) && ExponentIs(e, w)
    requires |ds| <= 10000000 && fraction <= 10000000 && -300000000 <= PowerValue(w) <= 300000000
    ensures NumeralBits(radix, ds, fraction, e) == UnitsBits(NearestUnits(DigitsVal(ds, radix), 2, PowerValue(w) - fraction * RadixBits(radix)))
  {
    hide NearestUnits, UnitsBits, DigitsVal, NumeralUnits;
    var b := RadixBits(radix);
    var f := PowerValue(w) - fraction * b;
    MulLe(|ds|, 10000000, b, 5);
    MulLe(fraction, 10000000, b, 5);
    WrapSame(f + |ds| * b);
    BinaryNumeral(radix, ds, f);
    if ds == [] {
      NoValue();
      NoDigitsVal(radix);
      ZeroNearest(2, f);
    }
  }

  // ----- what is no number -----

  /** Without a digit, or a dot and a digit, behind the sign nothing is read. */
  lemma NothingIsRead(sign: string, t: string, radix0: nat, flags: Flags)
    requires IsSign(sign) && (radix0 == 0 || 2 <= radix0 <= 36) && NoPrefix(t, radix0, flags)
    requires NoDigitFirst(t, if radix0 == 0 then 10 else radix0, flags.intOnly) && (sign == "" && t != "" ==> t[0] != '+' && t[0] != '-')
    ensures Atod(sign + t, radix0, flags) == None && AtodEnd(sign + t, radix0, flags) == |sign|
  {
    hide Parse, AtodEnd, NoPrefix, NoDigitFirst;
    NothingIsParsed(sign, t, radix0, flags);
  }

  /** A prefix alone is not read as 0. */
  lemma PrefixIsNotRead(sign: string, x: string, t: string, radix0: nat, radix: nat, flags: Flags)
    requires IsSign(sign) && (radix0 == 0 || 2 <= radix0 <= 36) && IsPrefix(x, radix0, radix, flags) && (t == "" || ToDigit(t[0]) >= radix)
    ensures var s := sign + (x + t); Atod(s, radix0, flags) == None && AtodEnd(s, radix0, flags) == |s| - |t|
  {
    hide Parse, AtodEnd, IsPrefix;
    PrefixIsBad(sign, x, t, radix0, radix, flags);
  }

  /** With an exponent that has no digits, the digits before it are not read either. */
  lemma BadExponentIsNotRead(sign: string, pre: string, radix0: nat, radix: nat, I: string, xs: seq<nat>, dot: bool, F: string, ys: seq<nat>,
                             mark: char, expSign: string, t: string, flags: Flags)
    requires IsSign(sign) && (radix0 == 0 || 2 <= radix0 <= 36) && 2 <= radix <= 36 && BodyOk(I, dot, F) && !flags.intOnly
    requires StartsWith(pre, Body(I, dot, F) + ([mark] + expSign + t), radix0, radix, I, flags)
    requires Spells(I, xs, radix, flags.acceptUnderscores) && Spells(F, ys, radix, flags.acceptUnderscores)
    requires IsMark(mark, radix) && IsSign(expSign) && (t == "" || (ToDigit(t[0]) >= 10 && (expSign == "" ==> t[0] != '+' && t[0] != '-')))
    ensures var s := sign + (pre + (Body(I, dot, F) + ([mark] + expSign + t)));
            Atod(s, radix0, flags) == None && AtodEnd(s, radix0, flags) == |s| - |t|
  {
    hide Parse, AtodEnd, Spells, StartsWith, Body, IsMark;
    BadExponentIsParsed(sign, pre, radix0, radix, I, xs, dot, F, ys, mark, expSign, t, flags);
  }

  // ----- integers -----

  lemma DivideSmaller(v: nat, radix: nat)
    requires 2 <= radix <= v
    ensures 0 < v / radix < v && v == v / radix * radix + v % radix
  {
    var q, r := Divided(v, radix);
    MulLe(q, q, 2, radix);
    assert radix * q == q * radix;
    if q == 0 {
      assert 0 * radix == 0;
    }
  }

  /** v in a radix, with the digits of an alphabet. */
  function InRadix(v: nat, radix: nat, alphabet: string): string
    requires 2 <= radix <= |alphabet|
  {
    if v < radix then [alphabet[v]] else DivideSmaller(v, radix); InRadix(v / radix, radix, alphabet) + [alphabet[v % radix]]
  }

  function DigitsOf(v: nat, radix: nat): (ds: seq<nat>)
    requires radix >= 2
    ensures |ds| > 0 && (v > 0 ==> ds[0] > 0) && (v == 0 ==> ds == [0])
  {
    if v < radix then [v] else DivideSmaller(v, radix); DigitsOf(v / radix, radix) + [v % radix]
  }

  lemma {:induction false} SpellsPush(g: string, ds: seq<nat>, radix: nat, underscores: bool, x: char, d: nat)
    requires Spells(g, ds, radix, underscores) && IsDigit(x, d) && d < radix && x != '_'
    ensures Spells(g + [x], ds + [d], radix, underscores)
    decreases |ds|
  {
    hide CAPITALS, SMALL;
    if ds == [] {
      assert g + [x] == [x] && ds + [d] == [d] && [x][1..] == "" && [d][1..] == [];
    } else {
      var n := FirstLength(g);
      SpellsPush(g[n..], ds[1..], radix, underscores, x, d);
      assert (g + [x])[n..] == g[n..] + [x] && (ds + [d])[1..] == ds[1..] + [d];
    }
  }

  lemma {:induction false} IntegerSpells(v: nat, radix: nat, alphabet: string, underscores: bool)
    requires 2 <= radix <= 36 && (alphabet == CAPITALS || alphabet == SMALL)
    ensures var g := InRadix(v, radix, alphabet);
            Spells(g, DigitsOf(v, radix), radix, underscores) && g != "" && g[0] != '_' && IsDigit(g[0], DigitsOf(v, radix)[0])
    ensures DigitsVal(DigitsOf(v, radix), radix) == v
    decreases v
  {
    var d := v % radix;
    NoUnderscore(alphabet, d);
    if v < radix {
      NoUnderscore(alphabet, v);
      hide CAPITALS, SMALL;
      assert Spells([alphabet[v]], [v], radix, underscores) by { assert [alphabet[v]][1..] == "" && [v][1..] == []; }
      assert [v][..0] == [] && DigitsVal([v], radix) == 0 * radix + v;
    } else {
      hide CAPITALS, SMALL;
      DivideSmaller(v, radix);
      IntegerSpells(v / radix, radix, alphabet, underscores);
      var g, ds := InRadix(v / radix, radix, alphabet), DigitsOf(v / radix, radix);
      SpellsPush(g, ds, radix, underscores, alphabet[d], d);
      assert (ds + [d])[..|ds|] == ds && (g + [alphabet[d]])[0] == g[0];
    }
  }

  lemma AlphabetLength(alphabet: string)
    requires alphabet == CAPITALS || alphabet == SMALL
    ensures |alphabet| == 36
  {
  }

  lemma NoUnderscore(alphabet: string, d: nat)
    requires (alphabet == CAPITALS || alphabet == SMALL) && d < 36
    ensures IsDigit(alphabet[d], d) && alphabet[d] != '_'
  {
    CapitalAt(d);
    SmallAt(d);
    hide CAPITALS, SMALL;
  }

  /** The text is read as the integer v, with a sign bit if it is negative. */
  ghost predicate IsInteger(r: Option<nat>, negative: bool, v: nat) {
    exists b: nat ::
      && r == Some(b + if negative then 0x8000_0000_0000_0000 else 0) && b < 0x7FF0_0000_0000_0000
      && BitsUnits(b) == v * Pow(2, 1074)
  }

  /** An integer below 2^53 is a binary64 number. */
  lemma IntegerBits(v: nat) returns (b: nat)
    requires v < 2 * TWO52
    ensures b < INFINITY && BitsUnits(b) == v * Pow(2, 1074)
  {
    if v == 0 {
      b := 0;
      assert 0 * Pow(2, 1074) == 0;
    } else {
      var l := LengthOfInteger(v);
      var p := Pow(2, 53 - l);
      var m := v * p;
      NormalMantissa(v, l);
      b := (l + 1022) * TWO52 + (m - TWO52);
      QuotientIs(b, TWO52, l + 1022, m - TWO52);
      PowAdd(2, 53 - l, l + 1021);
      hide Pow;
      MulAssoc(v, p, Pow(2, l + 1021));
    }
  }

  lemma LengthOfInteger(v: nat) returns (l: nat)
    requires 0 < v < 2 * TWO52
    ensures 1 <= l <= 53 && Pow(2, l - 1) <= v < Pow(2, l)
  {
    hide Pow, BitLength;
    l := BitLength(v);
    BitLengthBounds(v);
    TwoTo53();
    if l > 53 {
      PowMonotone(2, 53, l - 1);
    }
  }

  lemma NormalMantissa(v: nat, l: nat)
    requires 1 <= l <= 53 && Pow(2, l - 1) <= v < Pow(2, l)
    ensures TWO52 <= v * Pow(2, 53 - l) < 2 * TWO52
  {
    hide Pow;
    TwoTo53();
    PowAdd(2, l - 1, 53 - l);
    PowAdd(2, l, 53 - l);
    PowerPositive(53 - l);
    var p := Pow(2, 53 - l);
    MulLe(Pow(2, l - 1), v, p, p);
    MulLe(v + 1, Pow(2, l), p, p);
    MulAdd(p, v, 1);
  }

  lemma IntegerIsExact(v: nat, radix: nat, negative: bool)
    requires v < 2 * TWO52 && radix >= 2
    ensures IsInteger(Some(UnitsBits(NearestUnits(v, radix, 0)) + SignBit(negative)), negative, v)
  {
    var b := IntegerBits(v);
    if b == 0 {
      ZeroUnits(v);
      ZeroNearest(radix, 0);
    } else {
      DoubleRounds(b);
      BitsRoundTrip(b);
      AnyRadix(v, radix);
      hide UnitsBits, BitsUnits, NearestUnits, Pow;
      IntegerNearest(b, v);
    }
  }

  lemma ZeroUnits(v: nat)
    requires BitsUnits(0) == v * Pow(2, 1074)
    ensures v == 0
  {
    PowerPositive(1074);
    hide Pow;
    if v > 0 {
      MulLe(1, v, 1, Pow(2, 1074));
    }
  }

  lemma AnyRadix(v: nat, radix: nat)
    requires radix >= 2
    ensures NearestUnits(v, radix, 0) == NearestUnits(v, 10, 0)
  {
    ProductForm(v, radix, 0);
    ProductForm(v, 10, 0);
    PowNone(radix);
    PowNone(10);
    hide Pow, RoundDouble, Numerator, Denominator;
  }

  /** A number below 2^53 has few digits. */
  lemma FewOfRadix(v: nat, radix: nat)
    requires v < 2 * TWO52 && 2 <= radix <= 36
    ensures |DigitsOf(v, radix)| <= 53 && AllCount(radix, DigitsOf(v, radix))
  {
    hide Pow, DigitsOf;
    var n := |DigitsOf(v, radix)|;
    DigitsNeeded(v, radix);
    TwoTo53();
    PowOfLarger(2, radix, n - 1);
    if n > 53 {
      PowMonotone(2, 53, n - 1);
    }
    PowStep(radix, n);
    MulLe(radix, 36, Pow(radix, n - 1), 2 * TWO52);
  }

  lemma PowStep(b: nat, n: nat)
    requires n > 0
    ensures Pow(b, n) == b * Pow(b, n - 1)
  {
  }

  lemma {:induction false} PowOfLarger(r: nat, radix: nat, n: nat)
    requires r <= radix
    ensures Pow(r, n) <= Pow(radix, n)
  {
    if n > 0 {
      PowOfLarger(r, radix, n - 1);
      MulLe(r, radix, Pow(r, n - 1), Pow(radix, n - 1));
    }
  }

  lemma {:induction false} DigitsNeeded(v: nat, radix: nat)
    requires radix >= 2
    ensures Pow(radix, |DigitsOf(v, radix)| - 1) <= if v == 0 then 1 else v
    decreases v
  {
    if v < radix {
      PowNone(radix);
    } else {
      var q, r := Divided(v, radix);
      DivideSmaller(v, radix);
      DigitsNeeded(q, radix);
      var n := |DigitsOf(q, radix)|;
      PowStep(radix, n);
      MulLe(radix, radix, Pow(radix, n - 1), q);
    }
  }

  /**
   For every radix and every integer below 2^53: its text in that radix, in capital or small letters, behind a sign and the
   prefix of the radix or none, is read to its end as the integer, whatever the flags are.
   */
  lemma IntegerIsRead(v: nat, alphabet: string, sign: string, pre: string, radix0: nat, radix: nat, t: string, flags: Flags)
    requires v < 0x20_0000_0000_0000 && (alphabet == CAPITALS || alphabet == SMALL) && IsSign(sign) && (t != "" ==> t[0] != 'n')
    requires Ends(t, radix, false, NoPower, flags.intOnly, flags.acceptUnderscores)
    requires 2 <= radix <= 36 && (radix0 == 0 || 2 <= radix0 <= 36)
    requires (pre == "" && (v > 0 || NoPrefixLetter(t)) && radix == if radix0 == 0 then 10 else radix0) || IsPrefix(pre, radix0, radix, flags)
    ensures var s := sign + (pre + (InRadix(v, radix, alphabet) + t));
            IsInteger(Atod(s, radix0, flags), sign == "-", v) && AtodEnd(s, radix0, flags) == |s| - |t|
  {
    hide Spells, Ends, StartsWith, Atod, AtodEnd, InRadix, NearestUnits, UnitsBits, DigitsVal, CAPITALS, SMALL, IsInteger, AllCount;
    AlphabetLength(alphabet);
    var g, ds := InRadix(v, radix, alphabet), DigitsOf(v, radix);
    IntegerSpells(v, radix, alphabet, flags.acceptUnderscores);
    IntegerStarts(v, alphabet, pre, radix0, radix, t, flags);
    assert Body(g, false, "") + (PowerText(NoPower) + t) == g + t;
    NothingSpells(radix, flags.acceptUnderscores);
    assert ds + [] == ds;
    FewOfRadix(v, radix);
    TextIsNearest(sign, pre, radix0, radix, g, ds, false, "", [], NoPower, t, flags);
    IntegerIsExact(v, radix, sign == "-");
  }

  lemma NothingSpells(radix: nat, underscores: bool)
    ensures Spells("", [], radix, underscores) && PowerOk(NoPower, radix, underscores)
  {
  }

  lemma {:induction false} InAlphabet(v: nat, radix: nat, alphabet: string, i: nat)
    requires 2 <= radix <= |alphabet| && i < |InRadix(v, radix, alphabet)|
    ensures exists d | 0 <= d < radix :: InRadix(v, radix, alphabet)[i] == alphabet[d]
    decreases v
  {
    if v >= radix {
      DivideSmaller(v, radix);
      if i < |InRadix(v / radix, radix, alphabet)| {
        InAlphabet(v / radix, radix, alphabet, i);
      }
    }
  }

  lemma FirstOfInteger(v: nat, radix: nat, alphabet: string)
    requires 2 <= radix <= 36 && (alphabet == CAPITALS || alphabet == SMALL)
    ensures var g := InRadix(v, radix, alphabet);
            if v == 0 then g == "0" else g != "" && g[0] != '0'
  {
    IntegerSpells(v, radix, alphabet, false);
    CapitalAt(0);
    SmallAt(0);
    hide CAPITALS, SMALL, ToDigit;
    var g := InRadix(v, radix, alphabet);
    if v > 0 {
      DigitIs(g[0], DigitsOf(v, radix)[0]);
      ZeroIs(g[0]);
    }
  }

  lemma NoLetter(alphabet: string, d: nat)
    requires (alphabet == CAPITALS || alphabet == SMALL) && d < 36
    ensures if alphabet == CAPITALS then alphabet[d] != 'n' else alphabet[d] != 'I'
  {
    CapitalAt(d);
    SmallAt(d);
    hide CAPITALS, SMALL;
  }

  lemma NotInfinity(v: nat, radix: nat, alphabet: string, t: string)
    requires 2 <= radix <= 36 && (alphabet == CAPITALS || alphabet == SMALL) && (t != "" ==> t[0] != 'n')
    ensures !("Infinity" <= InRadix(v, radix, alphabet) + t)
  {
    hide CAPITALS, SMALL, InRadix;
    AlphabetLength(alphabet);
    IntegerSpells(v, radix, alphabet, false);
    var g := InRadix(v, radix, alphabet);
    InAlphabet(v, radix, alphabet, 0);
    var d :| 0 <= d < radix && g[0] == alphabet[d];
    NoLetter(alphabet, d);
    if |g| > 1 {
      InAlphabet(v, radix, alphabet, 1);
      var d' :| 0 <= d' < radix && g[1] == alphabet[d'];
      NoLetter(alphabet, d');
    }
    var name := "Infinity";
    assert name[0] == 'I' && name[1] == 'n';
    assert (g + t)[0] == g[0] && (|g| == 1 && t != "" ==> (g + t)[1] == t[0]) && (|g| > 1 ==> (g + t)[1] == g[1]);
  }

  /** What follows a 0 does not make it a prefix. */
  predicate NoPrefixLetter(t: string) {
    t == "" || t[0] !in "xXoObB"
  }

  lemma EndsNoDigit(t: string, intOnly: bool, underscores: bool)
    requires Ends(t, 10, false, NoPower, intOnly, underscores)
    ensures t != "" ==> !('0' <= t[0] <= '9')
  {
  }

  /** No integer looks like a prefix, or like Infinity. */
  lemma IntegerStarts(v: nat, alphabet: string, pre: string, radix0: nat, radix: nat, t: string, flags: Flags)
    requires 2 <= radix <= 36 && (alphabet == CAPITALS || alphabet == SMALL) && (t != "" ==> t[0] != 'n')
    requires Ends(t, radix, false, NoPower, flags.intOnly, flags.acceptUnderscores)
    requires (pre == "" && (v > 0 || NoPrefixLetter(t)) && radix == if radix0 == 0 then 10 else radix0) || IsPrefix(pre, radix0, radix, flags)
    ensures var g := InRadix(v, radix, alphabet);
            StartsWith(pre, g + t, radix0, radix, g, flags)
  {
    hide CAPITALS, SMALL, InRadix, Ends;
    AlphabetLength(alphabet);
    var g := InRadix(v, radix, alphabet);
    IntegerSpells(v, radix, alphabet, false);
    if pre == "" {
      FirstOfInteger(v, radix, alphabet);
      NotInfinity(v, radix, alphabet, t);
      if v == 0 {
        assert t != "" ==> (g + t)[1] == t[0];
        if radix0 == 0 {
          EndsNoDigit(t, flags.intOnly, flags.acceptUnderscores);
        }
      } else {
        assert (g + t)[0] == g[0];
      }
    }
  }
}
