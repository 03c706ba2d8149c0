/**
 js_atod: reading a numeral in any radix. The text is described by functions that scan it; the method walks over it once
 and accumulates limbs.
 */
module NumberParsing {
  import opened Wrappers
  import opened Powers
  import opened Rounding
  import opened Limbs
  import opened BigNumbers
  import opened RadixTables
  import opened Scaling
  import opened Binary64
  import opened DigitSearch
  import opened DoubleBits
  import opened RadixLimits

  // ----- the text -----

  datatype Flags = Flags(intOnly: bool, acceptBinOct: bool, acceptLegacyOctal: bool, acceptUnderscores: bool)

  /** The character at p; the text ends with a zero character. */
  function At(s: string, p: nat): char {
    if p < |s| then s[p] else 0 as char
  }

  /** to_digit: the value of a digit in the largest radix, or 36. */
  function ToDigit(c: char): (d: nat)
    ensures d <= 36
  {
    if '0' <= c <= '9' then c as int - '0' as int
    else if 'A' <= c <= 'Z' then c as int - 'A' as int + 10
    else if 'a' <= c <= 'z' then c as int - 'a' as int + 10
    else 36
  }

  /** What the scanning loops keep in mind: the text, where it starts after the sign, and how to read it. */
  datatype Context = Context(s: string, start: nat, radix: nat, intOnly: bool, underscores: bool)

  /** Where they are: the character, the number of digits before it, and the position of the dot. */
  datatype Cursor = Cursor(p: nat, pos: nat, dot: Option<nat>)

  /** Pass over a dot; nothing when it is the second one. */
  function PassDot(c: Context, k: Cursor): Option<Cursor> {
    if At(c.s, k.p) == '.' && (k.p > c.start || ToDigit(At(c.s, k.p + 1)) < c.radix) && !c.intOnly then
      if k.dot.Some? then None else Some(Cursor(k.p + 1, k.pos, Some(k.pos)))
    else Some(k)
  }

  /** Pass over a separator that stands between digits below `limit`. */
  function PassSeparator(c: Context, p: nat, limit: nat): (q: nat)
    ensures p <= q
  {
    if c.underscores && At(c.s, p) == '_' && p > c.start && ToDigit(At(c.s, p + 1)) < limit then p + 1 else p
  }

  function SkipZeros(c: Context, k: Cursor): Cursor
    decreases |c.s| - k.p
  {
    match PassDot(c, k)
    case None => k
    case Some(a) =>
      var q := PassSeparator(c, a.p, 1);
      if At(c.s, q) != '0' then Cursor(q, a.pos, a.dot) else SkipZeros(c, Cursor(q + 1, a.pos + 1, a.dot))
  }

  /** The digits from k on, and where they end. */
  function ScanDigits(c: Context, k: Cursor): (Cursor, seq<nat>)
    requires c.radix <= 36
    decreases |c.s| - k.p
  {
    match PassDot(c, k)
    case None => (k, [])
    case Some(a) =>
      var q := PassSeparator(c, a.p, c.radix);
      var d := ToDigit(At(c.s, q));
      if d >= c.radix then (Cursor(q, a.pos, a.dot), [])
      else
        var rest := ScanDigits(c, Cursor(q + 1, a.pos + 1, a.dot));
        (rest.0, [d] + rest.1)
  }

  lemma {:induction false} DigitsBelowRadix(c: Context, k: Cursor)
    requires c.radix <= 36
    ensures forall i | 0 <= i < |ScanDigits(c, k).1| :: ScanDigits(c, k).1[i] < c.radix
    decreases |c.s| - k.p
  {
    match PassDot(c, k)
    case None =>
    case Some(a) =>
      var q := PassSeparator(c, a.p, c.radix);
      if ToDigit(At(c.s, q)) < c.radix {
        DigitsBelowRadix(c, Cursor(q + 1, a.pos + 1, a.dot));
      }
  }

  /** After the leading zeros, the first digit is not zero. */
  lemma {:induction false} FirstDigitCounts(c: Context, k: Cursor)
    requires 2 <= c.radix <= 36
    ensures var ds := ScanDigits(c, SkipZeros(c, k)).1; ds != [] ==> ds[0] > 0
    decreases |c.s| - k.p
  {
    match PassDot(c, k)
    case None =>
    case Some(a) =>
      var q := PassSeparator(c, a.p, 1);
      if At(c.s, q) == '0' {
        FirstDigitCounts(c, Cursor(q + 1, a.pos + 1, a.dot));
      } else {
        assert q == a.p;
        var z := Cursor(q, a.pos, a.dot);
        assert PassDot(c, z) == None || PassDot(c, z) == Some(z);
      }
  }

  // ----- the exponent -----

  const EXPONENT_LIMIT := 214748363

  /** value: what the loop over the digits is left with; full: what all the digits stand for. */
  datatype Exponent =
    | NoExponent
    | BadExponent
    | Exponent(value: int, tooLarge: bool, negative: bool, binary: bool, p: nat, full: int)

  /** The bits of a digit in a radix that is a power of two, and 0 else. */
  function RadixBits(radix: nat): nat {
    if radix == 2 then 1 else if radix == 4 then 2 else if radix == 8 then 3 else if radix == 16 then 4
    else if radix == 32 then 5 else 0
  }

  /** Where the next digit of the exponent may be: past a separator. */
  function ExponentPos(c: Context, p: nat): (q: nat)
    ensures p <= q && (ToDigit(At(c.s, q)) < 10 ==> q < |c.s|)
  {
    if c.underscores && At(c.s, p) == '_' && ToDigit(At(c.s, p + 1)) < 10 then p + 1 else p
  }

  /** The further digits of the exponent. */
  function ExponentDigits(c: Context, p: nat, value: nat, tooLarge: bool): (nat, bool, nat)
    decreases |c.s| - p
  {
    var q := ExponentPos(c, p);
    var d := ToDigit(At(c.s, q));
    if d >= 10 then (value, tooLarge, q)
    else if tooLarge || value > EXPONENT_LIMIT then ExponentDigits(c, q + 1, value, true)
    else ExponentDigits(c, q + 1, value * 10 + d, false)
  }

  /** The number that the further digits of the exponent stand for, after `value`. */
  function FullExponent(c: Context, p: nat, value: nat): nat
    decreases |c.s| - p
  {
    var q := ExponentPos(c, p);
    var d := ToDigit(At(c.s, q));
    if d >= 10 then value else FullExponent(c, q + 1, value * 10 + d)
  }

  lemma {:induction false} FullAtLeast(c: Context, p: nat, value: nat)
    ensures FullExponent(c, p, value) >= value
    decreases |c.s| - p
  {
    var q := ExponentPos(c, p);
    var d := ToDigit(At(c.s, q));
    if d < 10 {
      FullAtLeast(c, q + 1, value * 10 + d);
    }
  }

  /** Unless there are too many digits, the loop gets their number; and then it is beyond what the loop can hold. */
  lemma {:induction false} FullIsValue(c: Context, p: nat, value: nat, tooLarge: bool)
    ensures var r := ExponentDigits(c, p, value, tooLarge);
            && (!r.1 ==> !tooLarge && r.0 == FullExponent(c, p, value))
            && (r.1 && !tooLarge ==> FullExponent(c, p, value) >= 10 * (EXPONENT_LIMIT + 1))
    decreases |c.s| - p
  {
    hide ToDigit, ExponentPos;
    var q := ExponentPos(c, p);
    var d := ToDigit(At(c.s, q));
    if d < 10 {
      if tooLarge || value > EXPONENT_LIMIT {
        FullIsValue(c, q + 1, value, true);
        FullAtLeast(c, q + 1, value * 10 + d);
      } else {
        FullIsValue(c, q + 1, value * 10 + d, false);
      }
    }
  }

  /** Whether an exponent starts at p. */
  predicate ExponentHere(c: Context, p: nat) {
    var x := At(c.s, p);
    && !c.intOnly && p > c.start
    && (if c.radix == 10 then x == 'e' || x == 'E'
        else x == '@' || (1 <= RadixBits(c.radix) <= 4 && (x == 'p' || x == 'P')))
  }

  function ScanExponent(c: Context, p: nat): Exponent {
    if !ExponentHere(c, p) then NoExponent
    else
      var binary := At(c.s, p) == 'p' || At(c.s, p) == 'P';
      var sign, q := At(c.s, p + 1), ExponentFirst(c, p);
      var d := ToDigit(At(c.s, q));
      if d >= 10 then BadExponent
      else
        var r, full := ExponentDigits(c, q + 1, d, false), FullExponent(c, q + 1, d);
        var negative := sign == '-';
        Exponent(if negative then -(r.0 as int) else r.0, r.1, negative, binary, r.2, if negative then -(full as int) else full)
  }

  /** What the scan says of an exponent. */
  ghost predicate Scanned(e: Exponent) {
    e.Exponent? ==>
      && (!e.tooLarge ==> e.value == e.full && -10 * (EXPONENT_LIMIT + 1) < e.value < 10 * (EXPONENT_LIMIT + 1))
      && (e.tooLarge ==> if e.negative then e.full <= -10 * (EXPONENT_LIMIT + 1) else e.full >= 10 * (EXPONENT_LIMIT + 1))
  }

  lemma {:induction false} ValueBelow(c: Context, p: nat, value: nat, tooLarge: bool)
    requires value < 10 * (EXPONENT_LIMIT + 1)
    ensures ExponentDigits(c, p, value, tooLarge).0 < 10 * (EXPONENT_LIMIT + 1)
    decreases |c.s| - p
  {
    hide ToDigit, ExponentPos;
    var q := ExponentPos(c, p);
    var d := ToDigit(At(c.s, q));
    if d < 10 {
      if tooLarge || value > EXPONENT_LIMIT {
        ValueBelow(c, q + 1, value, true);
      } else {
        ValueBelow(c, q + 1, value * 10 + d, false);
      }
    }
  }

  lemma ScanIsScanned(c: Context, p: nat)
    ensures Scanned(ScanExponent(c, p))
  {
    hide ExponentDigits, FullExponent;
    if ExponentHere(c, p) {
      var q := ExponentFirst(c, p);
      var d := ToDigit(At(c.s, q));
      if d < 10 {
        FullIsValue(c, q + 1, d, false);
        ValueBelow(c, q + 1, d, false);
      }
    }
  }

  /** Where the exponent at p has its first digit: past its sign. */
  function ExponentFirst(c: Context, p: nat): nat {
    var sign := At(c.s, p + 1);
    if sign == '+' || sign == '-' then p + 2 else p + 1
  }

  /** Where an exponent ends, or where its first digit is missing. */
  function ExponentEnd(c: Context, p: nat): nat {
    match ScanExponent(c, p)
    case NoExponent => p
    case BadExponent => ExponentFirst(c, p)
    case Exponent(_, _, _, _, end, _) => end
  }

  // ----- the prefix -----

  /** Where the digits start, in which radix, and whether separators are allowed among them. */
  datatype Prefix = BadPrefix | InfinityHere | Prefix(p: nat, radix: nat, underscores: bool)

  function OctalEnd(s: string, p: nat): nat
    decreases |s| - p
  {
    if '0' <= At(s, p) <= '7' then OctalEnd(s, p + 1) else p
  }

  function ScanPrefix(s: string, p: nat, radix: nat, flags: Flags): (r: Prefix)
    requires radix == 0 || 2 <= radix <= 36
    ensures r.Prefix? ==> 2 <= r.radix <= 36
  {
    var plain := Prefix(p, if radix == 0 then 10 else radix, flags.acceptUnderscores);
    var x := At(s, p + 1);
    if At(s, p) != '0' then
      if !flags.intOnly && p <= |s| && "Infinity" <= s[p..] then InfinityHere else plain
    else if (x == 'x' || x == 'X') && (radix == 0 || radix == 16) then
      if ToDigit(At(s, p + 2)) >= 16 then BadPrefix else Prefix(p + 2, 16, flags.acceptUnderscores)
    else if (x == 'o' || x == 'O') && radix == 0 && flags.acceptBinOct then
      if ToDigit(At(s, p + 2)) >= 8 then BadPrefix else Prefix(p + 2, 8, flags.acceptUnderscores)
    else if (x == 'b' || x == 'B') && radix == 0 && flags.acceptBinOct then
      if ToDigit(At(s, p + 2)) >= 2 then BadPrefix else Prefix(p + 2, 2, flags.acceptUnderscores)
    else if '0' <= x <= '9' && radix == 0 && flags.acceptLegacyOctal then
      var e := At(s, OctalEnd(s, p + 1));
      if e == '8' || e == '9' then Prefix(p, 10, false) else Prefix(p + 1, 8, false)
    else plain
  }

  // ----- the numeral -----

  datatype Parsed =
    | NotNumber
    | Infinite(negative: bool)
    | Numeral(negative: bool, radix: nat, digits: seq<nat>, fraction: int, exponent: Exponent)

  function Parse(s: string, radix: nat, flags: Flags): (r: Parsed)
    requires radix == 0 || 2 <= radix <= 36
    ensures r.Numeral? ==> 2 <= r.radix <= 36
  {
    var start := if At(s, 0) == '+' || At(s, 0) == '-' then 1 else 0;
    var negative := At(s, 0) == '-';
    match ScanPrefix(s, start, radix, flags)
    case BadPrefix => NotNumber
    case InfinityHere => Infinite(negative)
    case Prefix(p, r, underscores) => ParseNumeral(Context(s, start, r, flags.intOnly, underscores), p, negative)
  }

  /** The digits and the exponent from p on. */
  function ParseNumeral(c: Context, p: nat, negative: bool): (r: Parsed)
    requires 2 <= c.radix <= 36
    ensures r.Numeral? ==> r.radix == c.radix && !r.exponent.BadExponent?
  {
    var d := ScanDigits(c, SkipZeros(c, Cursor(p, 0, None)));
    var e := ScanExponent(c, d.0.p);
    if e.BadExponent? || (e.NoExponent? && d.0.p == c.start) then NotNumber
    else Numeral(negative, c.radix, d.1, d.0.pos - (if d.0.dot.Some? then d.0.dot.value else d.0.pos), e)
  }

  /** Where the numeral from p on ends. */
  function NumeralEnd(c: Context, p: nat): nat
    requires 2 <= c.radix <= 36
  {
    ExponentEnd(c, ScanDigits(c, SkipZeros(c, Cursor(p, 0, None))).0.p)
  }

  /** Where the text that was read ends, or what it needs is missing. */
  function AtodEnd(s: string, radix: nat, flags: Flags): nat
    requires radix == 0 || 2 <= radix <= 36
  {
    var start := if At(s, 0) == '+' || At(s, 0) == '-' then 1 else 0;
    match ScanPrefix(s, start, radix, flags)
    case BadPrefix => start + 2
    case InfinityHere => start + |"Infinity"|
    case Prefix(p, r, underscores) => NumeralEnd(Context(s, start, r, flags.intOnly, underscores), p)
  }

  /** The number that digits stand for. */
  function DigitsVal(ds: seq<nat>, radix: nat): nat {
    if ds == [] then 0 else DigitsVal(ds[..|ds| - 1], radix) * radix + ds[|ds| - 1]
  }

  /** How many digits are read in each radix; the others are cut, or kept as a sticky bit for powers of two. */
  const MAX_DIGITS: seq<nat> :=
    [64, 80, 32, 55, 49, 45, 21, 40, 38, 37, 35, 34, 33, 32, 16, 31, 30, 30, 29, 29, 28, 28, 27, 27, 27, 26, 26, 26, 26, 25,
     12, 25, 25, 24, 24]

  function Kept(n: nat, radix: nat): (k: nat)
    requires 2 <= radix <= 36
    ensures k <= n
  {
    if n <= MAX_DIGITS[radix - 2] then n else MAX_DIGITS[radix - 2]
  }

  function ExponentValue(e: Exponent): int {
    if e.Exponent? then e.value else 0
  }

  /** An exponent of 2, and not of the radix. */
  predicate IsBinary(e: Exponent) {
    e.Exponent? && e.binary
  }

  /** The exponent of the digits as an integer, of 2 if the radix is a power of two: x is the exponent that was written. */
  function Scale(radix: nat, fraction: int, binary: bool, x: int): int {
    var b := RadixBits(radix);
    if b == 0 then x - fraction else (if binary then x else x * b) - fraction * b
  }

  /** What one digit counts in that exponent. */
  function Width(radix: nat): nat {
    if RadixBits(radix) == 0 then 1 else RadixBits(radix)
  }

  /** The exponent of the whole numeral, as if all of its n digits were behind the dot. */
  function Top(radix: nat, n: nat, f: int): int {
    f + n * Width(radix)
  }

  /** A 32-bit int, wrapping around. */
  function Wrap32(x: int): (r: int)
    ensures -0x8000_0000 <= r < 0x8000_0000
  {
    (x + 0x8000_0000) % 0x1_0000_0000 - 0x8000_0000
  }

  /** The exponent that 32-bit arithmetic makes of f. */
  function ReadScale(radix: nat, n: nat, f: int): int {
    Wrap32(Top(radix, n, f)) - n * Width(radix)
  }

  lemma WrapSame(x: int)
    requires -0x8000_0000 <= x < 0x8000_0000
    ensures Wrap32(x) == x
  {
  }

  /** Wrapping around takes away a multiple of 2^32. */
  lemma WrapMultiple(x: int) returns (m: int)
    ensures Wrap32(x) == x - m * 0x1_0000_0000
  {
    m := (x + 0x8000_0000) / 0x1_0000_0000;
  }

  lemma WrapShift(x: int, y: int, m: int)
    requires y == x - m * 0x1_0000_0000
    ensures Wrap32(y) == Wrap32(x)
  {
  }

  lemma WrapAdd(x: int, k: int)
    ensures Wrap32(Wrap32(x) + k) == Wrap32(x + k)
  {
    hide Wrap32;
    var m := WrapMultiple(x);
    WrapShift(x + k, Wrap32(x) + k, m);
  }

  lemma WrapSub(x: int, y: int)
    ensures Wrap32(x - Wrap32(y)) == Wrap32(x - y)
  {
    hide Wrap32;
    var m := WrapMultiple(y);
    WrapShift(x - y, x - Wrap32(y), -m);
  }

  /** The magnitude of a numeral with digits and an exponent f, correctly rounded, in units. */
  function NumeralUnits(radix: nat, ds: seq<nat>, f: int): nat
    requires 2 <= radix <= 36
  {
    if RadixBits(radix) != 0 then NearestUnits(DigitsVal(ds, radix), 2, f)
    else
      var k := Kept(|ds|, radix);
      NearestUnits(DigitsVal(ds[..k], radix), radix, f + |ds| - k)
  }

  /** The bits that reading gives, without the sign. */
  function NumeralBits(radix: nat, ds: seq<nat>, fraction: int, e: Exponent): nat
    requires 2 <= radix <= 36
  {
    if ds == [] then 0
    else if e.Exponent? && e.tooLarge then if e.negative then 0 else INFINITY
    else UnitsBits(NumeralUnits(radix, ds, ReadScale(radix, |ds|, Scale(radix, fraction, IsBinary(e), ExponentValue(e)))))
  }

  function SignBit(negative: bool): nat {
    if negative then SIGN else 0
  }

  /** The 64 bits of what was read; nothing for a NaN. */
  function Worth(r: Parsed): Option<nat>
    requires r.Numeral? ==> 2 <= r.radix <= 36
  {
    match r
    case NotNumber => None
    case Infinite(negative) => Some(INFINITY + SignBit(negative))
    case Numeral(negative, radix, ds, fraction, e) => Some(NumeralBits(radix, ds, fraction, e) + SignBit(negative))
  }

  /** All of js_atod. */
  function Atod(s: string, radix: nat, flags: Flags): Option<nat>
    requires radix == 0 || 2 <= radix <= 36
  {
    Worth(Parse(s, radix, flags))
  }

  // ----- accumulating digits -----

  /** mpb_mul1_base: r * base + a, where a base of 0 stands for 2^32. */
  method Mul1Base(r: Mpb, base: Limb, a: Limb)
    requires r.Normal()
    modifies r
    ensures r.Normal() && Val(r.tab) == Val(old(r.tab)) * (if base == 0 then B else base) + a
  {
    if r.tab[0] == 0 && |r.tab| == 1 {
      assert r.tab == [0];
      JoinOne(0, 0);
      JoinOne(a, 0);
      assert 0 * (if base == 0 then B else base) == 0;
      r.tab := [a];
    } else {
      ghost var s := r.tab;
      if base == 0 {
        assert ([a] + s)[1..] == s;
        r.tab := [a] + r.tab;
      } else {
        var h := r.Mul1(base, a);
        ZeroOnTop(r.tab, h);
        r.tab := r.tab + [h];
      }
      hide Join;
      r.Renorm();
    }
  }

  /** How many of the digits are kept, and whether one that is cut is not zero. */
  ghost predicate Counted(radix: nat, kept: nat, extra: bool, ds: seq<nat>)
    requires 2 <= radix <= 36
  {
    && kept == Kept(|ds|, radix) && (forall i | 0 <= i < |ds| :: ds[i] < radix)
    && (extra <==> exists i | kept <= i < |ds| :: ds[i] != 0)
  }

  /** The digits so far, spread over the big number, the current limb, and the count of cut digits that are not zero. */
  ghost predicate Accumulated(radix: nat, tab: seq<Limb>, cur: nat, limbDigits: nat, kept: nat, extra: bool, ds: seq<nat>)
    requires 2 <= radix <= 36
  {
    && NormalLimbs(tab) && limbDigits < DIGITS_PER_LIMB[radix - 2] && cur < Pow(radix, limbDigits)
    && Counted(radix, kept, extra, ds) && Val(tab) * Pow(radix, limbDigits) + cur == DigitsVal(ds[..kept], radix)
  }

  lemma Assemble(radix: nat, tab: seq<Limb>, cur: nat, limbDigits: nat, kept: nat, extra: bool, ds: seq<nat>)
    requires 2 <= radix <= 36 && NormalLimbs(tab) && limbDigits < DIGITS_PER_LIMB[radix - 2] && cur < Pow(radix, limbDigits)
    requires Counted(radix, kept, extra, ds) && kept <= |ds|
    requires Val(tab) * Pow(radix, limbDigits) + cur == DigitsVal(ds[..kept], radix)
    ensures Accumulated(radix, tab, cur, limbDigits, kept, extra, ds)
  {
  }

  lemma Disassemble(radix: nat, tab: seq<Limb>, cur: nat, limbDigits: nat, kept: nat, extra: bool, ds: seq<nat>)
    requires 2 <= radix <= 36 && Accumulated(radix, tab, cur, limbDigits, kept, extra, ds)
    ensures NormalLimbs(tab) && limbDigits < DIGITS_PER_LIMB[radix - 2] && cur < Pow(radix, limbDigits)
    ensures Counted(radix, kept, extra, ds) && kept <= |ds|
    ensures Val(tab) * Pow(radix, limbDigits) + cur == DigitsVal(ds[..kept], radix)
  {
  }

  /** One more digit in the current limb. */
  lemma DigitFits(radix: nat, cur: nat, limbDigits: nat, d: nat)
    requires 2 <= radix <= 36 && limbDigits < DIGITS_PER_LIMB[radix - 2] && cur < Pow(radix, limbDigits) && d < radix
    ensures Pow(radix, limbDigits + 1) <= B && cur * radix + d < Pow(radix, limbDigits + 1)
  {
    RadixBaseTable(radix);
    PowMonotone(radix, limbDigits + 1, DIGITS_PER_LIMB[radix - 2]);
    var p := Pow(radix, limbDigits);
    assert Pow(radix, limbDigits + 1) == radix * p;
    hide Pow;
    MulLe(cur + 1, p, radix, radix);
    MulSub(radix, cur + 1, 1);
    assert radix * p == p * radix;
  }

  lemma DigitsPush(ds: seq<nat>, k: nat, radix: nat, d: nat)
    requires k == |ds|
    ensures DigitsVal((ds + [d])[..k + 1], radix) == DigitsVal(ds[..k], radix) * radix + d
  {
    assert (ds + [d])[..k + 1] == ds + [d] && ds[..k] == ds && (ds + [d])[..|ds|] == ds;
  }

  /** cur_limb and the big number, with one more digit. */
  lemma PushValue(v: nat, p: nat, cur: nat, radix: nat, d: nat)
    ensures (v * p + cur) * radix + d == v * (p * radix) + (cur * radix + d)
  {
    MulSub(radix, v * p + cur, cur);
    MulAssoc(v, p, radix);
    assert (v * p + cur) * radix == (v * p) * radix + cur * radix;
  }

  /** The body of the digit loop. */
  method PushDigit(tmp0: Mpb, radix: nat, cur0: Limb, limbDigits0: nat, kept0: nat, extra0: bool, d: nat,
                   ghost ds: seq<nat>)
      returns (cur: Limb, limbDigits: nat, kept: nat, extra: bool)
    requires 2 <= radix <= 36 && d < radix
    requires Accumulated(radix, tmp0.tab, cur0, limbDigits0, kept0, extra0, ds)
    modifies tmp0
    ensures Accumulated(radix, tmp0.tab, cur, limbDigits, kept, extra, ds + [d])
  {
    cur, limbDigits, kept, extra := cur0, limbDigits0, kept0, extra0;
    hide Pow, DigitsVal, Counted, Join, Accumulated;
    Disassemble(radix, tmp0.tab, cur, limbDigits, kept, extra, ds);
    CountDigit(radix, kept, extra, ds, d);
    if kept < MAX_DIGITS[radix - 2] {
      KeepDigit(radix, tmp0.tab, cur, limbDigits, kept, extra, ds, d);
      cur := cur * radix + d;
      limbDigits := limbDigits + 1;
      if limbDigits == DIGITS_PER_LIMB[radix - 2] {
        RadixBaseTable(radix);
        Mul1Base(tmp0, RADIX_BASE[radix - 2], cur);
        PowAny(radix);
        cur := 0;
        limbDigits := 0;
      }
      kept := kept + 1;
    } else {
      assert (ds + [d])[..kept] == ds[..kept];
      extra := extra || d != 0;
    }
    Assemble(radix, tmp0.tab, cur, limbDigits, kept, extra, ds + [d]);
  }

  lemma CountDigit(radix: nat, kept: nat, extra: bool, ds: seq<nat>, d: nat)
    requires 2 <= radix <= 36 && d < radix && Counted(radix, kept, extra, ds)
    ensures kept < MAX_DIGITS[radix - 2] ==> kept == |ds| && Counted(radix, kept + 1, extra, ds + [d])
    ensures kept >= MAX_DIGITS[radix - 2] ==> Counted(radix, kept, extra || d != 0, ds + [d])
    ensures kept <= |ds|
  {
    var t := ds + [d];
    assert t[|ds|] == d && forall i | 0 <= i < |ds| :: t[i] == ds[i];
  }

  lemma KeepDigit(radix: nat, tab: seq<Limb>, cur: nat, limbDigits: nat, kept: nat, extra: bool, ds: seq<nat>, d: nat)
    requires 2 <= radix <= 36 && d < radix && Accumulated(radix, tab, cur, limbDigits, kept, extra, ds)
    requires kept < MAX_DIGITS[radix - 2]
    ensures cur * radix + d < Pow(radix, limbDigits + 1) <= B
    ensures kept == |ds|
    ensures Val(tab) * Pow(radix, limbDigits + 1) + (cur * radix + d) == DigitsVal((ds + [d])[..kept + 1], radix)
  {
    DigitFits(radix, cur, limbDigits, d);
    DigitsPush(ds, kept, radix, d);
    var p := Pow(radix, limbDigits);
    assert Pow(radix, limbDigits + 1) == radix * p;
    hide Pow, DigitsVal, Join;
    PushValue(Val(tab), p, cur, radix, d);
    assert radix * p == p * radix;
  }

  lemma PowAny(radix: nat)
    requires radix >= 2
    ensures Pow(radix, 0) == 1
  {
  }

  /** After the last digit, what is left in the current limb. */
  method FlushLimb(tmp0: Mpb, radix: nat, cur: Limb, limbDigits: nat, ghost kept: nat, ghost extra: bool, ghost ds: seq<nat>)
    requires 2 <= radix <= 36 && Accumulated(radix, tmp0.tab, cur, limbDigits, kept, extra, ds)
    modifies tmp0
    ensures tmp0.Normal() && Val(tmp0.tab) == DigitsVal(ds[..kept], radix)
  {
    if limbDigits != 0 {
      ChunkBelow(radix, limbDigits);
      hide Pow;
      var p := PowUi(radix, limbDigits);
      Mul1Base(tmp0, p, cur);
    }
  }

  lemma ChunkBelow(radix: nat, n: nat)
    requires 2 <= radix <= 36 && n < DIGITS_PER_LIMB[radix - 2]
    ensures 0 < Pow(radix, n) < B
  {
    DigitFits(radix, 0, n, 0);
    assert Pow(radix, n + 1) == radix * Pow(radix, n);
    MulLe(2, radix, Pow(radix, n), Pow(radix, n));
  }

  // ----- what the digits are worth -----

  lemma {:induction false} DigitsBound(ds: seq<nat>, radix: nat)
    requires radix >= 2 && forall i | 0 <= i < |ds| :: ds[i] < radix
    ensures DigitsVal(ds, radix) < Pow(radix, |ds|)
    ensures DigitsVal(ds, radix) == 0 <==> forall i | 0 <= i < |ds| :: ds[i] == 0
  {
    if ds != [] {
      var t, d := ds[..|ds| - 1], ds[|ds| - 1];
      DigitsBound(t, radix);
      var v, p := DigitsVal(t, radix), Pow(radix, |t|);
      MulLe(v + 1, p, radix, radix);
      MulSub(radix, v + 1, 1);
      assert p * radix == radix * p;
      if v > 0 {
        MulLe(1, v, 1, radix);
        var i :| 0 <= i < |t| && t[i] != 0;
        assert ds[i] != 0;
      } else {
        assert 0 * radix == 0;
        assert forall i | 0 <= i < |t| :: ds[i] == t[i];
      }
    }
  }

  lemma {:induction false} DigitsSplit(ds: seq<nat>, k: nat, radix: nat)
    requires k <= |ds|
    ensures DigitsVal(ds, radix) == DigitsVal(ds[..k], radix) * Pow(radix, |ds| - k) + DigitsVal(ds[k..], radix)
  {
    if k == |ds| {
      assert ds[..k] == ds;
      assert DigitsVal(ds, radix) * 1 == DigitsVal(ds, radix);
    } else {
      var t, d, n := ds[..|ds| - 1], ds[|ds| - 1], |ds| - k;
      DigitsSplit(t, k, radix);
      assert t[..k] == ds[..k] && t[k..] == ds[k..][..n - 1] && ds[k..][n - 1] == d;
      var v, w, p := DigitsVal(ds[..k], radix), DigitsVal(t[k..], radix), Pow(radix, n - 1);
      assert (v * p + w) * radix == v * (p * radix) + w * radix by { PushValue(v, p, w, radix, 0); }
      assert p * radix == radix * p;
    }
  }

  lemma DigitsAtLeast(ds: seq<nat>, radix: nat)
    requires radix >= 2 && ds != [] && ds[0] > 0
    ensures DigitsVal(ds, radix) >= Pow(radix, |ds| - 1)
  {
    DigitsSplit(ds, 1, radix);
    assert ds[..1][..0] == [];
    assert DigitsVal(ds[..1], radix) == 0 * radix + ds[0];
    MulLe(1, ds[0], Pow(radix, |ds| - 1), Pow(radix, |ds| - 1));
  }

  // ----- too large and too small -----

  /** From 2^1024 on, rounding gives infinity. */
  lemma RoundsToInfinity(n: nat, d: nat)
    requires d > 0 && n >= d * Pow(2, 2098)
    ensures UnitsBits(RoundDouble(n, d)) == INFINITY
  {
    hide Pow, RoundDiv;
    var h := Pow(2, 2098);
    QuotientAtLeast(n, d, h);
    var q, r := Divided(n, d);
    LongNumber(q);
    KeptBits(n, d);
    var w := Spare(n, d);
    PowAdd(2, 52, w);
    var k := RoundDiv(n, d * Pow(2, w), NearestEven);
    MulLe(Pow(2, 52), k, Pow(2, w), Pow(2, w));
    PowMonotone(2, 2098, 52 + w);
    LongNumber(RoundDouble(n, d));
  }

  lemma LongNumber(q: nat)
    requires q >= Pow(2, 2098)
    ensures BitLength(q) >= 2099
  {
    hide Pow, BitLength;
    PowerPositive(2098);
    BitLengthBounds(q);
    PowerBelow(2098, BitLength(q));
  }

  lemma PowerPositive(n: nat)
    ensures Pow(2, n) > 0
  {
  }

  /** Below half a unit, rounding gives 0. */
  lemma RoundsToZero(n: nat, d: nat)
    requires 2 * n < d
    ensures RoundDouble(n, d) == 0
  {
    QuotientIs(n, d, 0, n);
    BelowHalf(n, d);
    assert d * Pow(2, 0) == d;
  }

  lemma OverflowUnits(v: nat, radix: nat, f: int)
    requires radix >= 1
    requires v * Pow(radix, Plus(f)) >= Pow(radix, Plus(-f)) * Pow(2, 1024)
    ensures UnitsBits(NearestUnits(v, radix, f)) == INFINITY
  {
    hide RoundDouble, UnitsBits, Pow, Numerator, Denominator, Plus;
    PowAdd(2, 1074, 1024);
    PowZero();
    ProductForm(v, radix, f);
    var a, b, c := Pow(2, 1074), Pow(radix, Plus(f)), Pow(radix, Plus(-f));
    MulLe(c * Pow(2, 1024), v * b, a, a);
    assert (v * b) * a == v * (a * b) by { MulAssoc(v, b, a); assert a * b == b * a; }
    assert (c * Pow(2, 1024)) * a == c * (a * Pow(2, 1024)) by { MulAssoc(c, Pow(2, 1024), a); assert a * Pow(2, 1024) == Pow(2, 1024) * a; }
    RoundsToInfinity(Numerator(v, 1074, radix, f), Denominator(1074, radix, f));
  }

  lemma ProductForm(v: nat, radix: nat, f: int)
    requires radix >= 1
    ensures Numerator(v, 1074, radix, f) == v * (Pow(2, 1074) * Pow(radix, Plus(f)))
    ensures Denominator(1074, radix, f) == Pow(radix, Plus(-f))
  {
    assert Pow(radix, 0) == 1;
    MulAssoc(v, Pow(2, 1074), Pow(radix, Plus(f)));
  }

  /** A number of k digits with an exponent so large that it reaches radix^t, at least 2^1024. */
  lemma OverflowByExponent(v: nat, radix: nat, k: nat, f: int, t: nat)
    requires radix >= 2 && k >= 1 && v >= Pow(radix, k - 1) && f + k - 1 >= t && NotAbove(2, 1024, radix, t)
    ensures UnitsBits(NearestUnits(v, radix, f)) == INFINITY
  {
    hide NearestUnits, UnitsBits;
    var g, h := Plus(f), Plus(-f);
    PowAdd(radix, k - 1, g);
    PowAdd(radix, h, t);
    PowMonotone(radix, h + t, k - 1 + g);
    MulLe(Pow(radix, k - 1), v, Pow(radix, g), Pow(radix, g));
    MulLe(Pow(radix, h), Pow(radix, h), Pow(2, 1024), Pow(radix, t));
    OverflowUnits(v, radix, f);
  }

  /** A number of k digits with an exponent so small that it is below radix^-t, at most 2^-1075. */
  lemma VanishByExponent(v: nat, radix: nat, k: nat, f: int, t: nat)
    requires radix >= 2 && v < Pow(radix, k) && f + k + t <= 0 && NotAbove(2, 1075, radix, t)
    ensures NearestUnits(v, radix, f) == 0
  {
    hide RoundDouble, Pow;
    ProductForm(v, radix, f);
    PowAdd(radix, k, t);
    PowMonotone(radix, k + t, -f);
    PowersOfTwo(1074);
    PowNone(radix);
    var a, p := Pow(2, 1074), Pow(radix, k);
    assert Plus(f) == 0 && 2 * a <= Pow(radix, t);
    MulLe(v + 1, p, 2 * a, 2 * a);
    MulSub(2 * a, v + 1, 1);
    MulLe(p, p, 2 * a, Pow(radix, t));
    PowerPositiveProduct(a, p, v);
    assert a * 1 == a;
    assert v * (2 * a) == 2 * (v * a) by { MulAssoc(v, 2, a); MulAssoc(2, v, a); assert v * 2 == 2 * v; }
    RoundsToZero(Numerator(v, 1074, radix, f), Denominator(1074, radix, f));
  }

  lemma PowerPositiveProduct(a: nat, p: nat, v: nat)
    requires v < p
    ensures (v + 1) * (2 * a) <= p * (2 * a)
  {
    MulLe(v + 1, p, 2 * a, 2 * a);
  }

  // ----- from digits to bits -----

  /** The odd part and the power of two of a radix: ctz32 and a shift. */
  function RadixShift(radix: nat): nat {
    if radix == 32 then 5 else if radix % 16 == 0 then 4 else if radix % 8 == 0 then 3 else if radix % 4 == 0 then 2
    else if radix % 2 == 0 then 1 else 0
  }

  lemma RadixSplits(radix: nat)
    requires 2 <= radix <= 36
    ensures var s := RadixShift(radix);
            1 <= radix / Pow(2, s) <= 35 && RadixParts(radix, radix / Pow(2, s), s)
            && (RadixBits(radix) != 0 <==> radix / Pow(2, s) == 1) && (RadixBits(radix) != 0 ==> RadixBits(radix) == s)
  {
    Pow2Table(RadixShift(radix));
    hide Pow;
  }

  /** When digits are cut, enough of them are left for the sticky bit to be harmless. */
  lemma CutDigitsAreMany(ds: seq<nat>, radix: nat, kept: nat)
    requires 2 <= radix <= 36 && RadixBits(radix) != 0 && ds != [] && ds[0] > 0 && kept == Kept(|ds|, radix) < |ds|
    ensures DigitsVal(ds[..kept], radix) >= Pow(2, 55)
  {
    hide Pow, DigitsVal, RadixBits;
    var b := RadixBits(radix);
    KeptDigitsAreMany(radix);
    DigitsAtLeast(ds[..kept], radix);
    PowMul(2, b, kept - 1);
    PowMonotone(2, 55, b * (kept - 1));
  }

  lemma KeptDigitsAreMany(radix: nat)
    requires 2 <= radix <= 36 && RadixBits(radix) != 0
    ensures var b, n := RadixBits(radix), MAX_DIGITS[radix - 2]; n > 1 && b * (n - 1) >= 55 && Pow(2, b) == radix
  {
    Pow2Table(RadixBits(radix));
  }

  /** The cut digits as a sticky bit. */
  lemma CutDigitsStick(ds: seq<nat>, radix: nat, kept: nat, extra: bool)
    requires 2 <= radix <= 36 && Counted(radix, kept, extra, ds) && kept <= |ds|
    ensures var v, p := DigitsVal(ds[..kept], radix), Pow(radix, |ds| - kept);
            Sticky(DigitsVal(ds, radix), p) == if extra && v % 2 == 0 then v + 1 else v
  {
    hide DigitsVal, Pow, Sticky;
    DigitsSplit(ds, kept, radix);
    DigitsBound(ds[kept..], radix);
    var v, w := DigitsVal(ds[..kept], radix), DigitsVal(ds[kept..], radix);
    if extra {
      var i :| kept <= i < |ds| && ds[i] != 0;
      assert ds[kept..][i - kept] != 0;
    } else {
      assert forall i | 0 <= i < |ds| - kept :: ds[kept..][i] == ds[kept + i];
    }
    StickyFromParts(DigitsVal(ds, radix), Pow(radix, |ds| - kept), v, w);
  }

  lemma StickyFromParts(n: nat, p: nat, v: nat, w: nat)
    requires n == v * p + w && w < p
    ensures Sticky(n, p) == if w != 0 && v % 2 == 0 then v + 1 else v
  {
    assert v * p == p * v;
    QuotientIs(n, p, v, w);
  }

  /** A ratio with a power of two below, in units. */
  lemma BinaryUnits(n: nat, c: nat, x: int)
    ensures UnitsDown(Pow(2, c), x) > 0
    ensures RoundDouble(UnitsUp(n, x), UnitsDown(Pow(2, c), x)) == NearestUnits(n, 2, x - c)
  {
    hide RoundDouble, SameRatio, Pow, Numerator, Denominator;
    var s, y := x + 1074, x - c;
    var i, j := Plus(s), Plus(-s);
    UpDown(n, Pow(2, c), s, i, j);
    ProductForm(n, 2, y);
    PowAdd(2, c, j);
    PowAdd(2, i, Plus(-y));
    PowAdd(2, 1074, Plus(y));
    PowAdd(2, 1074 + Plus(y), c + j);
    var nu, du := n * Pow(2, i), Pow(2, c) * Pow(2, j);
    assert i + Plus(-y) == 1074 + Plus(y) + (c + j);
    CrossRatio(n, Pow(2, i), Pow(2, Plus(-y)), Pow(2, 1074) * Pow(2, Plus(y)), du);
    SameRatioChain(UnitsUp(n, x), UnitsDown(Pow(2, c), x), nu, du, Numerator(n, 1074, 2, y), Denominator(1074, 2, y));
    SameDouble(UnitsUp(n, x), UnitsDown(Pow(2, c), x), Numerator(n, 1074, 2, y), Denominator(1074, 2, y));
  }

  lemma CrossRatio(n: nat, a: nat, b: nat, p: nat, d: nat)
    requires a * b == p * d && b > 0 && d > 0
    ensures SameRatio(n * a, d, n * p, b)
  {
    MulAssoc(n, a, b);
    MulAssoc(n, p, d);
  }

  /** The end of js_atod for a radix that is a power of two: every digit counts. */
  method ConcludeBinary(tmp0: Mpb, radix: nat, offset: int, kept: nat, extra: bool, e: Exponent, ghost ds: seq<nat>,
                        ghost fraction: int)
      returns (a: nat)
    requires 2 <= radix <= 36 && RadixBits(radix) != 0 && tmp0.Normal() && ds != [] && ds[0] > 0
    requires Counted(radix, kept, extra, ds) && Val(tmp0.tab) == DigitsVal(ds[..kept], radix)
    requires offset == fraction - (|ds| - kept) && !e.BadExponent?
    modifies tmp0
    ensures a == UnitsBits(NumeralUnits(radix, ds, ReadScale(radix, |ds|, Scale(radix, fraction, IsBinary(e), ExponentValue(e)))))
  {
    hide Pow, Join, DigitsVal, NearestUnits, UnitsBits, RoundDouble, Sticky, UnitsUp, UnitsDown, IsUnits, FullMantissa, Wrap32,
         Kept, MAX_DIGITS, ReadScale, Scale, NumeralUnits;
    var b := RadixBits(radix);
    CutDigitsStick(ds, radix, kept, extra);
    ghost var n, c := DigitsVal(ds, radix), |ds| - kept;
    if extra {
      var x: Limb := if tmp0.tab[0] % 2 == 0 then tmp0.tab[0] as int + 1 else tmp0.tab[0];
      LowBitSet(tmp0.tab, x);
      tmp0.tab := tmp0.tab[0 := x];
    }
    var expn := ExponentValue(e);
    if !IsBinary(e) {
      expn := Wrap32(expn * b);
    }
    expn := Wrap32(expn - Wrap32(offset * b));
    var expn1 := Wrap32(expn + kept * b);
    BinarySizes(ds, radix, b, kept);
    ghost var f := Scale(radix, fraction, IsBinary(e), ExponentValue(e));
    ghost var t := ReadScale(radix, |ds|, f);
    BinaryExponents(radix, b, fraction, |ds|, kept, IsBinary(e), ExponentValue(e));
    BinaryNumeral(radix, ds, t);
    Trivial();
    if expn1 >= 1024 + b {
      OverflowByExponent(n, 2, |ds| * b - b + 1, t, 1024);
      a := INFINITY;
    } else if expn1 <= -1075 {
      VanishByExponent(n, 2, |ds| * b, t, 1075);
      ZeroBits();
      a := 0;
    } else {
      KeptBelow(radix, |ds|, kept, b);
      NoWrapBetween(expn, kept * b, expn1);
      var m, e1 := RoundToD(tmp0, -expn, n, Pow(radix, c));
      BinaryUnits(n, c * b, expn);
      FullMantissaIs(m);
      a := Encode(m, e1, NearestUnits(n, 2, t));
    }
  }

  lemma BinaryNumeral(radix: nat, ds: seq<nat>, f: int)
    requires 2 <= radix <= 36 && RadixBits(radix) != 0
    ensures NumeralUnits(radix, ds, f) == NearestUnits(DigitsVal(ds, radix), 2, f)
  {
    hide NearestUnits, DigitsVal;
  }

  lemma OtherNumeral(radix: nat, ds: seq<nat>, k: nat, f: int)
    requires 2 <= radix <= 36 && RadixBits(radix) == 0 && k == Kept(|ds|, radix)
    ensures NumeralUnits(radix, ds, f) == NearestUnits(DigitsVal(ds[..k], radix), radix, f + |ds| - k)
  {
    hide NearestUnits, DigitsVal, Kept;
  }

  /** The wrapped exponents against the exact ones. */
  lemma BinaryExponents(radix: nat, b: nat, fraction: int, n: nat, kept: nat, binary: bool, x: int)
    requires b == RadixBits(radix) != 0 && kept <= n
    ensures var expn := Wrap32((if binary then x else Wrap32(x * b)) - Wrap32((fraction - (n - kept)) * b));
            var t := ReadScale(radix, n, Scale(radix, fraction, binary, x));
            Wrap32(expn + kept * b) == t + n * b == t + (n - kept) * b + kept * b
  {
    hide Wrap32;
    var c, y, z := n - kept, if binary then x else x * b, (fraction - (n - kept)) * b;
    WrapAdd(x * b, -Wrap32(z));
    WrapSub(y, z);
    WrapAdd(y - z, kept * b);
    MulSub(b, fraction, c);
    MulSub(b, n, c);
  }

  lemma KeptBelow(radix: nat, n: nat, kept: nat, b: nat)
    requires 2 <= radix <= 36 && kept == Kept(n, radix) && b <= 5
    ensures 0 <= kept * b <= 400
  {
    MulLe(kept, 80, b, 5);
  }

  /** When the wrapped sum is small, nothing was wrapped in it. */
  lemma NoWrapBetween(expn: int, k: nat, expn1: int)
    requires -0x8000_0000 <= expn < 0x8000_0000 && k <= 400 && expn1 == Wrap32(expn + k) && -2000 < expn1 < 2000
    ensures expn == expn1 - k
  {
  }

  lemma ZeroBits()
    ensures UnitsBits(0) == 0
  {
  }

  lemma Trivial()
    ensures NotAbove(2, 1024, 2, 1024) && NotAbove(2, 1075, 2, 1075)
  {
  }

  /** The digits of a radix 2^b in powers of two. */
  lemma BinarySizes(ds: seq<nat>, radix: nat, b: nat, kept: nat)
    requires 2 <= radix <= 36 && b == RadixBits(radix) != 0 && ds != [] && ds[0] > 0 && kept == Kept(|ds|, radix)
    requires forall i | 0 <= i < |ds| :: ds[i] < radix
    ensures Pow(2, |ds| * b - b) <= DigitsVal(ds, radix) < Pow(2, |ds| * b)
    ensures Pow(radix, |ds| - kept) == Pow(2, (|ds| - kept) * b) > 0
    ensures kept < |ds| ==> DigitsVal(ds[..kept], radix) >= Pow(2, 55)
    ensures kept == |ds| ==> Pow(radix, |ds| - kept) == 1
    ensures DigitsVal(ds[..kept], radix) > 0
  {
    hide Pow, DigitsVal, Kept, MAX_DIGITS;
    DigitsAtLeast(ds, radix);
    DigitsBound(ds, radix);
    Pow2Table(b);
    PowNone(radix);
    PowMul(2, b, |ds|);
    PowMul(2, b, |ds| - 1);
    PowMul(2, b, |ds| - kept);
    assert b * (|ds| - 1) == |ds| * b - b by { MulAdd(b, |ds|, -1); }
    assert b * |ds| == |ds| * b && b * (|ds| - kept) == (|ds| - kept) * b;
    if kept < |ds| {
      CutDigitsAreMany(ds, radix, kept);
      PowerPositive(55);
    } else {
      assert ds[..kept] == ds;
    }
  }

  /** The end of js_atod for the other radices. */
  method ConcludeOther(tmp0: Mpb, radix: nat, offset: int, kept: nat, e: Exponent, ghost ds: seq<nat>,
                       ghost fraction: int)
      returns (a: nat)
    requires 2 <= radix <= 36 && RadixBits(radix) == 0 && tmp0.Normal() && ds != [] && ds[0] > 0
    requires kept == Kept(|ds|, radix) && Val(tmp0.tab) == DigitsVal(ds[..kept], radix)
    requires forall i | 0 <= i < |ds| :: ds[i] < radix
    requires offset == fraction - (|ds| - kept) && !e.BadExponent?
    modifies tmp0
    ensures a == UnitsBits(NumeralUnits(radix, ds, ReadScale(radix, |ds|, Scale(radix, fraction, IsBinary(e), ExponentValue(e)))))
  {
    hide Pow, Join, DigitsVal, NearestUnits, UnitsBits, IsUnits, LimitsFit, FullMantissa, Wrap32, Kept, MAX_DIGITS,
         MAX_EXPONENT, MIN_EXPONENT, ReadScale, Scale, NumeralUnits;
    var expn := Wrap32(ExponentValue(e) - offset);
    var expn1 := Wrap32(expn + kept);
    LimitsSmall(radix);
    KeptSizes(ds, radix, kept);
    ghost var v := DigitsVal(ds[..kept], radix);
    ghost var f := Scale(radix, fraction, IsBinary(e), ExponentValue(e));
    ghost var t := ReadScale(radix, |ds|, f) + |ds| - kept;
    OtherExponents(radix, fraction, |ds|, kept, IsBinary(e), ExponentValue(e));
    OtherNumeral(radix, ds, kept, ReadScale(radix, |ds|, f));
    LimitsTable(radix);
    LimitsMeaning(radix);
    if expn1 >= MAX_EXPONENT[radix - 2] + 1 {
      OverflowByExponent(v, radix, kept, t, MAX_EXPONENT[radix - 2]);
      a := INFINITY;
    } else if expn1 <= MIN_EXPONENT[radix - 2] {
      VanishByExponent(v, radix, kept, t, -MIN_EXPONENT[radix - 2]);
      ZeroBits();
      a := 0;
    } else {
      KeptBelow(radix, |ds|, kept, 1);
      NoWrapBetween(expn, kept, expn1);
      RadixSplits(radix);
      var radixShift := RadixShift(radix);
      var radix1 := radix / Pow(2, radixShift);
      var m, e1 := MulPowRoundToD(tmp0, radix, radix1, radixShift, expn);
      FullMantissaIs(m);
      a := Encode(m, e1, NearestUnits(v, radix, expn));
    }
  }

  lemma OtherExponents(radix: nat, fraction: int, n: nat, kept: nat, binary: bool, x: int)
    requires RadixBits(radix) == 0 && kept <= n
    ensures var expn := Wrap32(x - (fraction - (n - kept)));
            Wrap32(expn + kept) == ReadScale(radix, n, Scale(radix, fraction, binary, x)) + n
  {
    hide Wrap32;
    WrapAdd(x - (fraction - (n - kept)), kept);
  }

  lemma LimitsSmall(radix: nat)
    requires 2 <= radix <= 36
    ensures |MIN_EXPONENT| == |MAX_EXPONENT| == 35
    ensures -2000 < MIN_EXPONENT[radix - 2] && MAX_EXPONENT[radix - 2] < 2000 - 1
  {
  }

  lemma FullMantissaIs(m: nat)
    requires FullMantissa(m)
    ensures m == 0 || TWO52 <= m < 2 * TWO52
  {
    TwoTo53();
  }

  lemma LimitsMeaning(radix: nat)
    requires 2 <= radix <= 36 && LimitsFit(radix)
    ensures MIN_EXPONENT[radix - 2] < 0 < MAX_EXPONENT[radix - 2]
    ensures NotAbove(2, 1024, radix, MAX_EXPONENT[radix - 2]) && NotAbove(2, 1075, radix, -MIN_EXPONENT[radix - 2])
  {
    hide NotAbove;
  }

  lemma KeptSizes(ds: seq<nat>, radix: nat, kept: nat)
    requires 2 <= radix <= 36 && ds != [] && ds[0] > 0 && kept == Kept(|ds|, radix)
    requires forall i | 0 <= i < |ds| :: ds[i] < radix
    ensures 1 <= kept && 0 < Pow(radix, kept - 1) <= DigitsVal(ds[..kept], radix) < Pow(radix, kept)
  {
    DigitsAtLeast(ds[..kept], radix);
    DigitsBound(ds[..kept], radix);
  }

  // ----- the end of the text -----

  lemma {:induction false} ZerosInside(c: Context, k: Cursor)
    requires k.p <= |c.s|
    ensures SkipZeros(c, k).p <= |c.s|
    decreases |c.s| - k.p
  {
    match PassDot(c, k)
    case None =>
    case Some(a) =>
      var q := PassSeparator(c, a.p, 1);
      if At(c.s, q) == '0' {
        ZerosInside(c, Cursor(q + 1, a.pos + 1, a.dot));
      }
  }

  lemma {:induction false} DigitsInside(c: Context, k: Cursor)
    requires k.p <= |c.s| && c.radix <= 36
    ensures ScanDigits(c, k).0.p <= |c.s|
    decreases |c.s| - k.p
  {
    match PassDot(c, k)
    case None =>
    case Some(a) =>
      var q := PassSeparator(c, a.p, c.radix);
      if ToDigit(At(c.s, q)) < c.radix {
        DigitsInside(c, Cursor(q + 1, a.pos + 1, a.dot));
      }
  }

  lemma {:induction false} ExponentDigitsInside(c: Context, p: nat, value: nat, tooLarge: bool)
    requires p <= |c.s|
    ensures ExponentDigits(c, p, value, tooLarge).2 <= |c.s|
    decreases |c.s| - p
  {
    var q := ExponentPos(c, p);
    var d := ToDigit(At(c.s, q));
    if d < 10 {
      if tooLarge || value > EXPONENT_LIMIT {
        ExponentDigitsInside(c, q + 1, value, true);
      } else {
        ExponentDigitsInside(c, q + 1, value * 10 + d, false);
      }
    }
  }

  lemma ExponentInside(c: Context, p: nat)
    requires p <= |c.s|
    ensures ExponentEnd(c, p) <= |c.s|
  {
    hide ExponentDigits, FullExponent;
    if ExponentHere(c, p) {
      var q := ExponentFirst(c, p);
      var d := ToDigit(At(c.s, q));
      if d < 10 {
        ExponentDigitsInside(c, q + 1, d, false);
      }
    }
  }

  /** js_atod never reads behind the end of the text. */
  lemma EndInside(s: string, radix: nat, flags: Flags)
    requires radix == 0 || 2 <= radix <= 36
    ensures AtodEnd(s, radix, flags) <= |s|
  {
    hide SkipZeros, ScanDigits, ExponentEnd;
    var start := if At(s, 0) == '+' || At(s, 0) == '-' then 1 else 0;
    match ScanPrefix(s, start, radix, flags)
    case BadPrefix =>
    case InfinityHere =>
    case Prefix(p, r, underscores) =>
      var c := Context(s, start, r, flags.intOnly, underscores);
      ZerosInside(c, Cursor(p, 0, None));
      var z := SkipZeros(c, Cursor(p, 0, None));
      DigitsInside(c, z);
      ExponentInside(c, ScanDigits(c, z).0.p);
  }

  // ----- js_atod -----

  /** The loop over the leading zeros. */
  method LeadingZeros(c: Context, k0: Cursor) returns (k: Cursor)
    ensures k == SkipZeros(c, k0)
  {
    k := k0;
    while true
      invariant SkipZeros(c, k) == SkipZeros(c, k0)
      decreases |c.s| - k.p
    {
      var a := PassDot(c, k);
      if a.None? {
        return;
      }
      var q := PassSeparator(c, a.value.p, 1);
      if At(c.s, q) != '0' {
        return Cursor(q, a.value.pos, a.value.dot);
      }
      k := Cursor(q + 1, a.value.pos + 1, a.value.dot);
    }
  }

  /** The loop over the digits, with the limbs that they make. */
  method ReadDigits(c: Context, k0: Cursor, tmp0: Mpb)
      returns (k: Cursor, kept: nat, extra: bool, ghost ds: seq<nat>)
    requires 2 <= c.radix <= 36 && tmp0.tab == [0]
    modifies tmp0
    ensures ScanDigits(c, k0) == (k, ds) && Counted(c.radix, kept, extra, ds) && kept <= |ds|
    ensures tmp0.Normal() && Val(tmp0.tab) == DigitsVal(ds[..kept], c.radix)
  {
    k, kept, extra, ds := k0, 0, false, [];
    var cur: Limb, limbDigits: nat := 0, 0;
    NoDigits(c.radix);
    assert [] + ScanDigits(c, k).1 == ScanDigits(c, k).1;
    hide Accumulated, DigitsVal, Counted;
    while true
      invariant Accumulated(c.radix, tmp0.tab, cur, limbDigits, kept, extra, ds)
      invariant ScanDigits(c, k0) == (ScanDigits(c, k).0, ds + ScanDigits(c, k).1)
      decreases |c.s| - k.p
    {
      var a := PassDot(c, k);
      if a.None? {
        assert ds + [] == ds;
        break;
      }
      var q := PassSeparator(c, a.value.p, c.radix);
      var d := ToDigit(At(c.s, q));
      if d >= c.radix {
        assert ds + [] == ds;
        k := Cursor(q, a.value.pos, a.value.dot);
        break;
      }
      ghost var next := Cursor(q + 1, a.value.pos + 1, a.value.dot);
      assert ds + ScanDigits(c, k).1 == (ds + [d]) + ScanDigits(c, next).1;
      cur, limbDigits, kept, extra := PushDigit(tmp0, c.radix, cur, limbDigits, kept, extra, d, ds);
      ds := ds + [d];
      k := Cursor(q + 1, a.value.pos + 1, a.value.dot);
    }
    Disassemble(c.radix, tmp0.tab, cur, limbDigits, kept, extra, ds);
    FlushLimb(tmp0, c.radix, cur, limbDigits, kept, extra, ds);
  }

  lemma NoDigits(radix: nat)
    requires 2 <= radix <= 36
    ensures Accumulated(radix, [0], 0, 0, 0, false, [])
  {
    JoinOne(0, 0);
  }

  /** js_atod. */
  method JsAtod(s: string, radix0: nat, flags: Flags) returns (r: Option<nat>, end: nat)
    requires radix0 == 0 || 2 <= radix0 <= 36
    ensures r == Atod(s, radix0, flags) && end == AtodEnd(s, radix0, flags)
  {
    hide ParseNumeral, ScanPrefix, NumeralBits, NumeralEnd;
    var start := if At(s, 0) == '+' || At(s, 0) == '-' then 1 else 0;
    var negative := At(s, 0) == '-';
    var prefix := ScanPrefix(s, start, radix0, flags);
    match prefix
    case BadPrefix => r, end := None, start + 2;
    case InfinityHere => r, end := Some(INFINITY + SignBit(negative)), start + |"Infinity"|;
    case Prefix(p, radix, underscores) =>
      r, end := ReadNumeral(Context(s, start, radix, flags.intOnly, underscores), p, negative);
  }

  /** js_atod after the prefix. */
  method ReadNumeral(c: Context, p: nat, negative: bool) returns (r: Option<nat>, end: nat)
    requires 2 <= c.radix <= 36
    ensures r == Worth(ParseNumeral(c, p, negative)) && end == NumeralEnd(c, p)
  {
    hide SkipZeros, ScanDigits, DigitsVal, NumeralBits, ScanExponent, Counted, Join, NormalLimbs, ParseNumeral, Worth;
    FirstDigitCounts(c, Cursor(p, 0, None));
    var z := LeadingZeros(c, Cursor(p, 0, None));
    var tmp0 := new Mpb();
    var k, kept, extra, ds := ReadDigits(c, z, tmp0);
    PositionCounts(c, z);
    var e := ScanExponent(c, k.p);
    NumeralWorth(c, p, negative, z, k, ds, e);
    end := if e.NoExponent? then k.p else if e.BadExponent? then ExponentFirst(c, k.p) else e.p;
    if e.BadExponent? || (e.NoExponent? && k.p == c.start) {
      return None, end;
    }
    var dotPos := if k.dot.Some? then k.dot.value else k.pos;
    var a := Conclude(tmp0, c.radix, z.pos + kept - dotPos, kept, extra, e, ds, k.pos - dotPos);
    r := Some(a + SignBit(negative));
  }

  lemma NumeralWorth(c: Context, p: nat, negative: bool, z: Cursor, k: Cursor, ds: seq<nat>, e: Exponent)
    requires 2 <= c.radix <= 36 && z == SkipZeros(c, Cursor(p, 0, None)) && ScanDigits(c, z) == (k, ds)
    requires e == ScanExponent(c, k.p)
    ensures Worth(ParseNumeral(c, p, negative)) ==
              if e.BadExponent? || (e.NoExponent? && k.p == c.start) then None
              else Some(NumeralBits(c.radix, ds, k.pos - (if k.dot.Some? then k.dot.value else k.pos), e) + SignBit(negative))
  {
    hide SkipZeros, ScanDigits, NumeralBits, ScanExponent;
  }

  /** The end of js_atod, once the text is read. */
  method Conclude(tmp0: Mpb, radix: nat, expnOffset: int, kept: nat, extra: bool, e: Exponent, ghost ds: seq<nat>,
                  ghost fraction: int)
      returns (a: nat)
    requires 2 <= radix <= 36 && tmp0.Normal() && (ds != [] ==> ds[0] > 0) && !e.BadExponent? && kept <= |ds|
    requires Counted(radix, kept, extra, ds) && Val(tmp0.tab) == DigitsVal(ds[..kept], radix)
    requires expnOffset == fraction - (|ds| - kept)
    modifies tmp0
    ensures a == NumeralBits(radix, ds, fraction, e)
  {
    hide DigitsVal, NumeralUnits, Counted, Join, UnitsBits;
    NoneKept(radix, kept, extra, ds);
    if kept == 0 {
      a := 0;
    } else if e.Exponent? && e.tooLarge {
      a := if e.negative then 0 else INFINITY;
    } else if RadixBits(radix) != 0 {
      a := ConcludeBinary(tmp0, radix, expnOffset, kept, extra, e, ds, fraction);
    } else {
      a := ConcludeOther(tmp0, radix, expnOffset, kept, e, ds, fraction);
    }
  }

  lemma NoneKept(radix: nat, kept: nat, extra: bool, ds: seq<nat>)
    requires 2 <= radix <= 36 && Counted(radix, kept, extra, ds)
    ensures kept == 0 <==> ds == []
    ensures kept == Kept(|ds|, radix) && forall i | 0 <= i < |ds| :: ds[i] < radix
  {
  }

  /** The position counts the digits. */
  lemma {:induction false} PositionCounts(c: Context, k: Cursor)
    requires c.radix <= 36
    ensures ScanDigits(c, k).0.pos == k.pos + |ScanDigits(c, k).1|
    decreases |c.s| - k.p
  {
    match PassDot(c, k)
    case None =>
    case Some(a) =>
      var q := PassSeparator(c, a.p, c.radix);
      if ToDigit(At(c.s, q)) < c.radix {
        PositionCounts(c, Cursor(q + 1, a.pos + 1, a.dot));
      }
  }
}
