/**
 Numerals as texts, with the digits written out, and how js_atod scans them: a sign, a prefix, digits with underscores and
 a dot among them, and an exponent.
 */
module NumberScanning {
  import opened Wrappers
  import opened Powers
  import opened NumberParsing

  // ----- digits -----

  const CAPITALS := "0123456789ABCDEFGHIJKLMNOPQRSTUVWXYZ"
  const SMALL := "0123456789abcdefghijklmnopqrstuvwxyz"

  /** x is the digit d, as a capital or as a small letter from 10 on. */
  predicate IsDigit(x: char, d: nat) {
    d < 36 && (x == CAPITALS[d] || x == SMALL[d])
  }

  lemma CapitalAt(d: nat)
    requires d < 36
    ensures CAPITALS[d] == if d < 10 then '0' + d as char else 'A' + (d - 10) as char
  {
  }

  lemma SmallAt(d: nat)
    requires d < 36
    ensures SMALL[d] == if d < 10 then '0' + d as char else 'a' + (d - 10) as char
  {
  }

  /** to_digit gives each digit its value, and 36 to all other characters. */
  lemma DigitIs(x: char, d: nat)
    requires d < 36
    ensures IsDigit(x, d) <==> ToDigit(x) == d
  {
    CapitalAt(d);
    SmallAt(d);
    hide CAPITALS, SMALL;
  }

  /** The digits ds in a radix, with single underscores before them if these are allowed. */
  predicate Spells(g: string, ds: seq<nat>, radix: nat, underscores: bool)
    decreases |ds|
  {
    if ds == [] then g == ""
    else
      && ds[0] < radix && g != ""
      && if g[0] == '_' then underscores && |g| > 1 && IsDigit(g[1], ds[0]) && Spells(g[2..], ds[1..], radix, underscores)
         else IsDigit(g[0], ds[0]) && Spells(g[1..], ds[1..], radix, underscores)
  }

  /** Digits without the leading zeros. */
  function Strip(ds: seq<nat>): seq<nat> {
    if ds != [] && ds[0] == 0 then Strip(ds[1..]) else ds
  }

  predicate AllZero(ds: seq<nat>) {
    forall i | 0 <= i < |ds| :: ds[i] == 0
  }

  lemma {:induction false} StripConcat(xs: seq<nat>, ys: seq<nat>)
    ensures Strip(xs + ys) == if AllZero(xs) then Strip(ys) else Strip(xs) + ys
    ensures AllZero(ys) ==> Strip(ys) == []
    decreases |xs| + |ys|
  {
    if xs == [] {
      assert xs + ys == ys;
      if ys != [] {
        StripConcat([], ys[1..]);
        assert [] + ys[1..] == ys[1..];
      }
    } else {
      StripConcat(xs[1..], ys);
      assert (xs + ys)[1..] == xs[1..] + ys;
      assert AllZero(xs) <==> xs[0] == 0 && AllZero(xs[1..]);
    }
  }

  // ----- scanning digits -----

  /** The text from position p on. */
  ghost predicate Rest(c: Context, p: nat, t: string) {
    p <= |c.s| && c.s[p..] == t && 2 <= c.radix <= 36
  }

  lemma RestAt(c: Context, p: nat, t: string)
    requires Rest(c, p, t)
    ensures At(c.s, p) == At(t, 0) && At(c.s, p + 1) == At(t, 1) && |c.s| == p + |t|
  {
    assert t != "" ==> c.s[p] == c.s[p..][0];
    assert |t| > 1 ==> c.s[p + 1] == c.s[p..][1];
  }

  lemma RestFrom(c: Context, p: nat, g: string, t: string)
    requires Rest(c, p, g + t)
    ensures Rest(c, p + |g|, t)
  {
    assert c.s[p + |g|..] == c.s[p..][|g|..];
    assert (g + t)[|g|..] == t;
  }

  /** Where the digits begin that spell ds: a separator is passed only behind the start. */
  ghost predicate RunHere(c: Context, k: Cursor, g: string, ds: seq<nat>, t: string) {
    Rest(c, k.p, g + t) && Spells(g, ds, c.radix, c.underscores) && k.p >= c.start && (g != "" && g[0] == '_' ==> k.p > c.start)
  }

  function Behind(k: Cursor, g: string, ds: seq<nat>): Cursor {
    Cursor(k.p + |g|, k.pos + |ds|, k.dot)
  }

  /** The characters of the first digit. */
  function FirstLength(g: string): (n: nat)
    requires g != ""
    ensures n == 1 || n == 2
  {
    if g[0] == '_' then 2 else 1
  }

  lemma SpellsFirst(g: string, ds: seq<nat>, radix: nat, underscores: bool)
    requires Spells(g, ds, radix, underscores) && ds != [] && radix <= 36
    ensures g != "" && FirstLength(g) <= |g|
    ensures var n := FirstLength(g);
            && ToDigit(g[n - 1]) == ds[0] < radix && (g[0] == '_' ==> underscores) && Spells(g[n..], ds[1..], radix, underscores)
  {
    hide CAPITALS, SMALL, ToDigit;
    DigitIs(g[FirstLength(g) - 1], ds[0]);
  }

  lemma ZeroIs(x: char)
    ensures ToDigit(x) == 0 <==> x == '0'
    ensures ToDigit('.') == 36 && ToDigit('_') == 36 && ToDigit(0 as char) == 36
  {
  }

  /** What the scanning loops pass before the first digit. */
  lemma FirstPassed(c: Context, k: Cursor, g: string, ds: seq<nat>, t: string)
    requires RunHere(c, k, g, ds, t) && ds != []
    ensures g != "" && FirstLength(g) <= |g|
    ensures var p := k.p + FirstLength(g) - 1;
            && PassDot(c, k) == Some(k) && PassSeparator(c, k.p, c.radix) == p && ToDigit(At(c.s, p)) == ds[0] < c.radix
            && PassSeparator(c, k.p, 1) == if ds[0] == 0 then p else k.p
  {
    hide Spells, ToDigit;
    SpellsFirst(g, ds, c.radix, c.underscores);
    RestAt(c, k.p, g + t);
    ZeroIs('0');
    assert At(c.s, k.p) == g[0];
    assert g[0] == '_' ==> At(c.s, k.p + 1) == g[1];
  }

  lemma RunNext(c: Context, k: Cursor, g: string, ds: seq<nat>, t: string)
    requires RunHere(c, k, g, ds, t) && ds != []
    ensures g != "" && FirstLength(g) <= |g|
    ensures RunHere(c, Cursor(k.p + FirstLength(g), k.pos + 1, k.dot), g[FirstLength(g)..], ds[1..], t)
  {
    hide Spells, ToDigit;
    SpellsFirst(g, ds, c.radix, c.underscores);
    var n := FirstLength(g);
    RestFrom(c, k.p, g[..n], g[n..] + t) by { assert g[..n] + (g[n..] + t) == g + t; }
  }

  lemma FirstDigit(c: Context, k: Cursor, g: string, ds: seq<nat>, t: string)
    requires RunHere(c, k, g, ds, t) && ds != []
    ensures g != "" && FirstLength(g) <= |g|
    ensures var n := FirstLength(g);
            var next := Cursor(k.p + n, k.pos + 1, k.dot);
            && ScanDigits(c, k) == (ScanDigits(c, next).0, [ds[0]] + ScanDigits(c, next).1)
            && SkipZeros(c, k) == (if ds[0] == 0 then SkipZeros(c, next) else k)
            && RunHere(c, next, g[n..], ds[1..], t)
  {
    hide Spells, ToDigit, PassDot, PassSeparator, At;
    FirstPassed(c, k, g, ds, t);
    RunNext(c, k, g, ds, t);
    var p := k.p + FirstLength(g) - 1;
    ZeroIs(At(c.s, p));
    ZeroIs(At(c.s, k.p));
    RadixHere(c, k, g, ds, t);
    if ds[0] != 0 {
      assert At(c.s, k.p) != '0' by { FirstNotZero(c, k, g, ds, t); }
    }
  }

  lemma RadixHere(c: Context, k: Cursor, g: string, ds: seq<nat>, t: string)
    requires RunHere(c, k, g, ds, t)
    ensures 2 <= c.radix <= 36
  {
  }

  lemma FirstNotZero(c: Context, k: Cursor, g: string, ds: seq<nat>, t: string)
    requires RunHere(c, k, g, ds, t) && ds != [] && ds[0] != 0
    ensures At(c.s, k.p) != '0'
  {
    hide Spells, ToDigit;
    SpellsFirst(g, ds, c.radix, c.underscores);
    RestAt(c, k.p, g + t);
    ZeroIs(g[0]);
  }

  lemma {:induction false} ScanRun(c: Context, k: Cursor, g: string, ds: seq<nat>, t: string)
    requires RunHere(c, k, g, ds, t)
    ensures var e := Behind(k, g, ds);
            Rest(c, e.p, t) && ScanDigits(c, k) == (ScanDigits(c, e).0, ds + ScanDigits(c, e).1)
    decreases |ds|
  {
    hide ScanDigits, RunHere;
    if ds == [] {
      NothingSpelled(c, k, g, t);
      assert [] + ScanDigits(c, k).1 == ScanDigits(c, k).1;
    } else {
      FirstDigit(c, k, g, ds, t);
      var n := FirstLength(g);
      ScanRun(c, Cursor(k.p + n, k.pos + 1, k.dot), g[n..], ds[1..], t);
      var r := ScanDigits(c, Behind(k, g, ds)).1;
      assert [ds[0]] + (ds[1..] + r) == ds + r;
    }
  }

  lemma NothingSpelled(c: Context, k: Cursor, g: string, t: string)
    requires RunHere(c, k, g, [], t)
    ensures g == "" && Rest(c, k.p, t)
  {
    assert g + t == t;
  }

  /** The leading zeros of a run are passed over; they may be all of it. */
  lemma {:induction false} SkipRun(c: Context, k: Cursor, g: string, ds: seq<nat>, t: string)
    requires RunHere(c, k, g, ds, t)
    ensures var e := Behind(k, g, ds);
            && Rest(c, e.p, t)
            && ScanDigits(c, SkipZeros(c, k)) ==
               if AllZero(ds) then ScanDigits(c, SkipZeros(c, e)) else (ScanDigits(c, e).0, Strip(ds) + ScanDigits(c, e).1)
    decreases |ds|
  {
    hide ScanDigits, SkipZeros, RunHere;
    if ds == [] {
      NothingSpelled(c, k, g, t);
    } else {
      FirstDigit(c, k, g, ds, t);
      var n := FirstLength(g);
      if ds[0] == 0 {
        SkipRun(c, Cursor(k.p + n, k.pos + 1, k.dot), g[n..], ds[1..], t);
        assert AllZero(ds) <==> AllZero(ds[1..]);
      } else {
        ScanRun(c, k, g, ds, t);
      }
    }
  }

  /** A dot before t, when none came before: a digit must stand on one side of it. */
  lemma PassDotHere(c: Context, k: Cursor, t: string)
    requires Rest(c, k.p, "." + t) && !c.intOnly && k.dot.None? && (k.p > c.start || ToDigit(At(t, 0)) < c.radix)
    ensures var a := Cursor(k.p + 1, k.pos, Some(k.pos));
            Rest(c, a.p, t) && ScanDigits(c, k) == ScanDigits(c, a) && SkipZeros(c, k) == SkipZeros(c, a)
  {
    hide ToDigit, PassDot, PassSeparator;
    RestAt(c, k.p, "." + t);
    RestFrom(c, k.p, ".", t);
    ZeroIs('0');
    DotPassed(c, k, t);
  }

  lemma DotPassed(c: Context, k: Cursor, t: string)
    requires Rest(c, k.p, "." + t) && !c.intOnly && k.dot.None? && (k.p > c.start || ToDigit(At(t, 0)) < c.radix)
    ensures var a := Cursor(k.p + 1, k.pos, Some(k.pos));
            && PassDot(c, k) == Some(a)
            && PassDot(c, a) == (if At(t, 0) == '.' && (a.p > c.start || ToDigit(At(t, 1)) < c.radix) then None else Some(a))
            && (At(t, 0) == '.' ==> PassSeparator(c, a.p, c.radix) == PassSeparator(c, a.p, 1) == a.p)
            && At(c.s, a.p) == At(t, 0) && k.p < |c.s|
  {
    hide ToDigit;
    RestAt(c, k.p, "." + t);
    RestFrom(c, k.p, ".", t);
    RestAt(c, k.p + 1, t);
  }

  /** What ends the digits: the end of the text, or no digit, no dot that is read, and no separator before a digit. */
  predicate Stops(t: string, radix: nat, dotted: bool, underscores: bool) {
    t == "" ||
    (ToDigit(t[0]) >= radix && (t[0] == '.' ==> dotted) && (t[0] == '_' && underscores ==> |t| == 1 || ToDigit(t[1]) >= radix))
  }

  lemma ScanStops(c: Context, k: Cursor, t: string)
    requires Rest(c, k.p, t) && Stops(t, c.radix, k.dot.Some? || c.intOnly, c.underscores)
    ensures ScanDigits(c, k) == (k, []) && SkipZeros(c, k) == k
  {
    RestAt(c, k.p, t);
  }

  /** Digits with a dot among them. */
  function Body(I: string, dot: bool, F: string): string {
    I + (if dot then "." else "") + F
  }

  /** There is a digit, and it comes first, but for a dot; there are digits behind the dot only if there is a dot. */
  predicate BodyOk(I: string, dot: bool, F: string) {
    && (I != "" || F != "") && (F != "" ==> dot) && (I != "" ==> I[0] != '_') && (I == "" ==> F[0] != '_')
  }

  function BehindBody(k: Cursor, I: string, xs: seq<nat>, dot: bool, F: string, ys: seq<nat>): Cursor {
    Cursor(k.p + |Body(I, dot, F)|, k.pos + |xs| + |ys|, if dot then Some(k.pos + |xs|) else k.dot)
  }

  /** Digits, a dot and more digits are scanned as the digits without leading zeros. */
  lemma BodyIsScanned(c: Context, k: Cursor, I: string, xs: seq<nat>, dot: bool, F: string, ys: seq<nat>, t: string)
    requires Rest(c, k.p, Body(I, dot, F) + t) && BodyOk(I, dot, F) && Stops(t, c.radix, dot || c.intOnly, c.underscores)
    requires k.dot.None? && (dot ==> !c.intOnly)
    requires Spells(I, xs, c.radix, c.underscores) && Spells(F, ys, c.radix, c.underscores) && k.p >= c.start
    ensures Rest(c, BehindBody(k, I, xs, dot, F, ys).p, t)
    ensures ScanDigits(c, SkipZeros(c, k)) == (BehindBody(k, I, xs, dot, F, ys), Strip(xs + ys))
  {
    hide ScanDigits, SkipZeros, Rest, Spells, Strip, Stops, AllZero;
    var rest := (if dot then "." else "") + F + t;
    assert Body(I, dot, F) + t == I + rest;
    SkipRun(c, k, I, xs, rest) by { assert RunHere(c, k, I, xs, rest); }
    ScanRun(c, k, I, xs, rest) by { assert RunHere(c, k, I, xs, rest); }
    StripConcat(xs, ys);
    StripConcat([], xs);
    var m := Behind(k, I, xs);
    if dot {
      FractionIsScanned(c, m, F, ys, t) by { assert rest == "." + (F + t); LeadingDigit(I, F, ys, c.radix, c.underscores); }
    } else {
      assert rest == t;
      SpellsNothing(F, ys, c.radix, c.underscores);
      ScanStops(c, m, t);
      assert ys == [] && xs + ys == xs && Strip(xs) + [] == Strip(xs);
    }
  }

  lemma SpellsNothing(F: string, ys: seq<nat>, radix: nat, underscores: bool)
    requires Spells(F, ys, radix, underscores)
    ensures F == "" <==> ys == []
  {
  }

  lemma LeadingDigit(I: string, F: string, ys: seq<nat>, radix: nat, underscores: bool)
    requires Spells(F, ys, radix, underscores)
    ensures F != "" && F[0] != '_' ==> ToDigit(F[0]) < radix
  {
    hide CAPITALS, SMALL, ToDigit;
    if F != "" && F[0] != '_' {
      DigitIs(F[0], ys[0]);
    }
  }

  /** Behind the digits before the dot. */
  lemma FractionIsScanned(c: Context, m: Cursor, F: string, ys: seq<nat>, t: string)
    requires Rest(c, m.p, "." + (F + t)) && Stops(t, c.radix, true, c.underscores) && m.dot.None? && !c.intOnly && m.p >= c.start
    requires Spells(F, ys, c.radix, c.underscores) && (m.p > c.start || (F != "" && ToDigit(F[0]) < c.radix))
    ensures var e := Cursor(m.p + 1 + |F|, m.pos + |ys|, Some(m.pos));
            && Rest(c, e.p, t) && ScanDigits(c, m) == (e, ys)
            && ScanDigits(c, SkipZeros(c, m)) == if AllZero(ys) then (e, []) else (e, Strip(ys))
  {
    hide ScanDigits, SkipZeros, Spells, Strip, AllZero, ToDigit;
    assert At(F + t, 0) == if F != "" then F[0] else At(t, 0);
    PassDotHere(c, m, F + t);
    var a := Cursor(m.p + 1, m.pos, Some(m.pos));
    var e := Behind(a, F, ys);
    ScanRun(c, a, F, ys, t) by { assert RunHere(c, a, F, ys, t); }
    SkipRun(c, a, F, ys, t) by { assert RunHere(c, a, F, ys, t); }
    ScanStops(c, e, t);
    assert ys + [] == ys && Strip(ys) + [] == Strip(ys);
  }

  // ----- scanning an exponent -----

  /** What follows a numeral: nothing, or the letter, the sign and the decimal digits of an exponent. */
  datatype Power = NoPower | Power(mark: char, sign: string, X: string, zs: seq<nat>)

  /** e for decimal numerals and @ for the others; p, for an exponent of 2, where the radix is 2, 4, 8 or 16. */
  predicate IsMark(x: char, radix: nat) {
    if radix == 10 then x == 'e' || x == 'E'
    else x == '@' || (radix in {2, 4, 8, 16} && (x == 'p' || x == 'P'))
  }

  function PowerText(w: Power): string {
    match w
    case NoPower => ""
    case Power(mark, sign, X, _) => [mark] + sign + X
  }

  predicate PowerOk(w: Power, radix: nat, underscores: bool) {
    match w
    case NoPower => true
    case Power(mark, sign, X, zs) =>
      IsMark(mark, radix) && sign in {"", "+", "-"} && X != "" && X[0] != '_' && Spells(X, zs, 10, underscores)
  }

  function PowerValue(w: Power): int {
    match w
    case NoPower => 0
    case Power(_, sign, _, zs) => if sign == "-" then -(DigitsVal(zs, 10) as int) else DigitsVal(zs, 10)
  }

  predicate IsBinaryPower(w: Power) {
    w.Power? && (w.mark == 'p' || w.mark == 'P')
  }

  /** The exponent that is read is the one that is written, as far as 32-bit integers hold it. */
  ghost predicate ExponentIs(e: Exponent, w: Power) {
    match w
    case NoPower => e.NoExponent?
    case Power(_, sign, _, _) =>
      e.Exponent? && e.full == PowerValue(w) && e.negative == (sign == "-") && e.binary == IsBinaryPower(w) && Scanned(e)
  }

  /** What may follow the numeral: nothing, or what could not be part of it. */
  predicate Ends(t: string, radix: nat, dot: bool, w: Power, intOnly: bool, underscores: bool) {
    if w.Power? then Stops(t, 10, true, underscores)
    else Stops(t, radix, dot || intOnly, underscores) && (t != "" && !intOnly ==> !IsMark(t[0], radix))
  }

  /** The digits of value followed by ds. */
  function Followed(value: nat, ds: seq<nat>): nat {
    value * Pow(10, |ds|) + DigitsVal(ds, 10)
  }

  /** Another digit; the whole is at least ten times what comes before it. */
  lemma FollowedStep(value: nat, d: nat, ds: seq<nat>)
    requires d < 10
    ensures var v := value * 10 + d;
            Followed(value, [d] + ds) == Followed(v, ds) >= v
  {
    var w := Pow(10, |ds|);
    assert Pow(10, |ds| + 1) == 10 * w;
    hide Pow, DigitsVal;
    RoomForDigit(value, d, w);
    DigitsFirst(d, ds, 10);
  }

  lemma RoomForDigit(value: nat, d: nat, w: nat)
    requires w > 0
    ensures var v := value * 10 + d; v * w == value * (10 * w) + d * w && v * w >= v
  {
    var v := value * 10 + d;
    assert value * (10 * w) == (value * 10) * w by { MulAssoc(value, 10, w); }
    MulLe(v, v, 1, w);
    MulAdd(w, value * 10, d);
  }

  /** The first digit counts most. */
  lemma DigitsFirst(d: nat, ds: seq<nat>, radix: nat)
    ensures DigitsVal([d] + ds, radix) == d * Pow(radix, |ds|) + DigitsVal(ds, radix)
  {
    DigitsSplit([d] + ds, 1, radix);
    var one := ([d] + ds)[..1];
    assert one == [d] && ([d] + ds)[1..] == ds && one[..0] == [];
    assert DigitsVal(one, radix) == 0 * radix + d;
  }

  /** A position in the exponent, where digits of radix 10 follow. */
  ghost predicate PowerHere(c: Context, p: nat, X: string, zs: seq<nat>, t: string) {
    Rest(c, p, X + t) && Spells(X, zs, 10, c.underscores) && Stops(t, 10, true, c.underscores)
  }

  lemma PowerFirst(c: Context, p: nat, X: string, zs: seq<nat>, t: string)
    requires PowerHere(c, p, X, zs, t) && zs != []
    ensures X != "" && FirstLength(X) <= |X|
    ensures var q := p + FirstLength(X) - 1;
            ExponentPos(c, p) == q && ToDigit(At(c.s, q)) == zs[0] < 10 && PowerHere(c, q + 1, X[FirstLength(X)..], zs[1..], t)
  {
    hide Spells, ToDigit, Stops;
    SpellsFirst(X, zs, 10, c.underscores);
    var n := FirstLength(X);
    RestAt(c, p, X + t);
    RestFrom(c, p, X[..n], X[n..] + t) by { assert X[..n] + (X[n..] + t) == X + t; }
    ZeroIs('0');
    assert At(c.s, p) == X[0];
    assert X[0] == '_' ==> At(c.s, p + 1) == X[1];
  }

  lemma PowerEnds(c: Context, p: nat, X: string, t: string)
    requires PowerHere(c, p, X, [], t)
    ensures X == "" && ExponentPos(c, p) == p && ToDigit(At(c.s, p)) >= 10
  {
    assert X + t == t;
    RestAt(c, p, t);
  }

  /** Further digits of the exponent. */
  lemma {:induction false} PowerIsScanned(c: Context, p: nat, X: string, zs: seq<nat>, t: string, value: nat, tooLarge: bool)
    requires PowerHere(c, p, X, zs, t)
    ensures FullExponent(c, p, value) == Followed(value, zs) && ExponentDigits(c, p, value, tooLarge).2 == p + |X|
    decreases |zs|
  {
    hide PowerHere, ToDigit, At, ExponentPos, Followed;
    if zs == [] {
      PowerEnds(c, p, X, t);
      NothingFollows(value);
    } else {
      PowerFirst(c, p, X, zs, t);
      var n, d := FirstLength(X), zs[0];
      assert zs == [d] + zs[1..];
      FollowedStep(value, d, zs[1..]);
      PowerIsScanned(c, p + n, X[n..], zs[1..], t, value * 10 + d, false);
      PowerIsScanned(c, p + n, X[n..], zs[1..], t, value, true);
    }
  }

  lemma NothingFollows(value: nat)
    ensures Followed(value, []) == value
  {
    assert Pow(10, 0) == 1;
  }

  /** A whole exponent. */
  lemma ExponentIsScanned(c: Context, p: nat, w: Power, t: string)
    requires w.Power? && PowerOk(w, c.radix, c.underscores) && Rest(c, p, PowerText(w) + t) && Stops(t, 10, true, c.underscores)
    requires p > c.start && !c.intOnly
    ensures ExponentIs(ScanExponent(c, p), w) && ExponentEnd(c, p) == p + |PowerText(w)|
  {
    hide Spells, ToDigit, Stops, FullExponent, ExponentDigits, Scanned, DigitsVal, Followed;
    var X, zs, q := w.X, w.zs, p + 1 + |w.sign|;
    ExponentFirstAt(c, p, w, t);
    SpellsSome(X, zs, c.underscores);
    PowerFirst(c, q, X, zs, t);
    PowerIsScanned(c, q + 1, X[1..], zs[1..], t, zs[0], false);
    assert zs == [zs[0]] + zs[1..];
    FollowedFirst(zs);
    ScanIsScanned(c, p);
  }

  lemma SpellsSome(X: string, zs: seq<nat>, underscores: bool)
    requires X != "" && Spells(X, zs, 10, underscores)
    ensures zs != []
  {
  }

  lemma FollowedFirst(zs: seq<nat>)
    requires zs != []
    ensures Followed(zs[0], zs[1..]) == DigitsVal(zs, 10)
  {
    DigitsFirst(zs[0], zs[1..], 10);
    assert zs == [zs[0]] + zs[1..];
  }

  lemma ExponentFirstAt(c: Context, p: nat, w: Power, t: string)
    requires w.Power? && PowerOk(w, c.radix, c.underscores) && Rest(c, p, PowerText(w) + t) && Stops(t, 10, true, c.underscores)
    requires p > c.start && !c.intOnly
    ensures ExponentHere(c, p) && ExponentFirst(c, p) == p + 1 + |w.sign| && (At(c.s, p + 1) == '-' <==> w.sign == "-")
    ensures At(c.s, p) == w.mark && PowerHere(c, p + 1 + |w.sign|, w.X, w.zs, t)
  {
    hide Spells, Stops;
    var head := [w.mark] + w.sign;
    assert PowerText(w) + t == head + (w.X + t);
    RestFrom(c, p, head, w.X + t);
    RestAt(c, p, PowerText(w) + t);
    NoSign(w.X, w.zs, c.underscores);
    assert At(c.s, p + 1) == if w.sign == "" then w.X[0] else w.sign[0];
  }

  lemma NoSign(X: string, zs: seq<nat>, underscores: bool)
    requires X != "" && X[0] != '_' && Spells(X, zs, 10, underscores)
    ensures X[0] != '+' && X[0] != '-'
  {
    DigitIs(X[0], zs[0]);
    hide CAPITALS, SMALL;
  }

  lemma NoExponentScanned(c: Context, p: nat, t: string)
    requires Rest(c, p, t) && (t != "" && !c.intOnly ==> !IsMark(t[0], c.radix))
    ensures ScanExponent(c, p) == NoExponent && ExponentEnd(c, p) == p
  {
    hide ToDigit;
    RestAt(c, p, t);
  }

  // ----- whole numerals -----

  /** The numeral that the parts of a text stand for. */
  ghost predicate ParsedAs(r: Parsed, negative: bool, radix: nat, ds: seq<nat>, fraction: nat, w: Power) {
    r.Numeral? && r.negative == negative && r.radix == radix && r.digits == ds && r.fraction == fraction && ExponentIs(r.exponent, w)
  }

  lemma NumeralIsParsed(c: Context, p: nat, negative: bool, I: string, xs: seq<nat>, dot: bool, F: string, ys: seq<nat>, w: Power, t: string)
    requires Rest(c, p, Body(I, dot, F) + (PowerText(w) + t)) && BodyOk(I, dot, F) && p >= c.start
    requires Spells(I, xs, c.radix, c.underscores) && Spells(F, ys, c.radix, c.underscores) && PowerOk(w, c.radix, c.underscores)
    requires Ends(t, c.radix, dot, w, c.intOnly, c.underscores) && (dot || w.Power? ==> !c.intOnly)
    ensures ParsedAs(ParseNumeral(c, p, negative), negative, c.radix, Strip(xs + ys), |ys|, w)
    ensures NumeralEnd(c, p) == p + |Body(I, dot, F)| + |PowerText(w)|
  {
    hide SkipZeros, ScanDigits, Spells, Stops, ScanExponent, ExponentIs, PowerOk, Strip, ExponentEnd;
    MarkStops(w, c.radix, dot, c.intOnly, c.underscores, t);
    BodyIsScanned(c, Cursor(p, 0, None), I, xs, dot, F, ys, PowerText(w) + t);
    var e := BehindBody(Cursor(p, 0, None), I, xs, dot, F, ys);
    if w.Power? {
      ExponentIsScanned(c, e.p, w, t);
      HasExponent(ScanExponent(c, e.p), w);
    } else {
      assert PowerText(w) + t == t;
      NoExponentScanned(c, e.p, t);
      assert ExponentIs(NoExponent, NoPower) by { JustNoExponent(); }
    }
    if !dot {
      SpellsNothing(F, ys, c.radix, c.underscores);
    }
  }

  lemma JustNoExponent()
    ensures ExponentIs(NoExponent, NoPower)
  {
  }

  lemma HasExponent(e: Exponent, w: Power)
    requires ExponentIs(e, w) && w.Power?
    ensures e.Exponent?
  {
  }

  /** The letter of an exponent is no digit. */
  lemma MarkStops(w: Power, radix: nat, dot: bool, intOnly: bool, underscores: bool, t: string)
    requires PowerOk(w, radix, underscores) && Ends(t, radix, dot, w, intOnly, underscores) && radix <= 36
    ensures Stops(PowerText(w) + t, radix, dot || intOnly, underscores)
  {
    if w.NoPower? {
      assert PowerText(w) + t == t;
    } else {
      assert (PowerText(w) + t)[0] == w.mark;
      MarkIsNoDigit(w.mark, radix);
      hide Spells, ToDigit;
    }
  }

  lemma MarkIsNoDigit(x: char, radix: nat)
    requires IsMark(x, radix)
    ensures ToDigit(x) >= radix || radix > 36
    ensures x != '_' && x != '.'
  {
  }

  // ----- prefixes -----

  /** The text at p has no prefix, and is not Infinity. */
  predicate NoPrefix(t: string, radix: nat, flags: Flags) {
    && (flags.intOnly || !("Infinity" <= t))
    && (|t| > 1 && t[0] == '0' ==>
          && !((t[1] == 'x' || t[1] == 'X') && (radix == 0 || radix == 16))
          && !((t[1] == 'o' || t[1] == 'O' || t[1] == 'b' || t[1] == 'B') && radix == 0 && flags.acceptBinOct)
          && !('0' <= t[1] <= '9' && radix == 0 && flags.acceptLegacyOctal))
  }

  lemma PrefixIsScanned(s: string, p: nat, t: string, radix: nat, flags: Flags)
    requires p <= |s| && s[p..] == t && NoPrefix(t, radix, flags) && (radix == 0 || 2 <= radix <= 36)
    ensures ScanPrefix(s, p, radix, flags) == Prefix(p, if radix == 0 then 10 else radix, flags.acceptUnderscores)
  {
    assert t != "" ==> At(s, p) == t[0];
    assert |t| > 1 ==> At(s, p + 1) == t[1];
  }

  /** The prefixes 0x, 0o and 0b, in small or capital letters, and their radices. */
  predicate IsPrefix(x: string, radix0: nat, radix: nat, flags: Flags) {
    || ((x == "0x" || x == "0X") && radix == 16 && (radix0 == 0 || radix0 == 16))
    || ((x == "0o" || x == "0O") && radix == 8 && radix0 == 0 && flags.acceptBinOct)
    || ((x == "0b" || x == "0B") && radix == 2 && radix0 == 0 && flags.acceptBinOct)
  }

  lemma PrefixIsPassed(s: string, p: nat, x: string, t: string, radix0: nat, radix: nat, flags: Flags)
    requires p <= |s| && s[p..] == x + t && IsPrefix(x, radix0, radix, flags) && t != "" && ToDigit(t[0]) < radix
    ensures ScanPrefix(s, p, radix0, flags) == Prefix(p + 2, radix, flags.acceptUnderscores)
  {
    hide ToDigit;
    assert (x + t)[0] == x[0] && (x + t)[1] == x[1] && (x + t)[2] == t[0];
    assert At(s, p) == x[0] && At(s, p + 1) == x[1] && At(s, p + 2) == t[0];
  }

  /** Without a digit behind it, a prefix makes the text no number. */
  lemma PrefixAlone(s: string, p: nat, x: string, t: string, radix0: nat, radix: nat, flags: Flags)
    requires p <= |s| && s[p..] == x + t && IsPrefix(x, radix0, radix, flags) && (t == "" || ToDigit(t[0]) >= radix)
    ensures ScanPrefix(s, p, radix0, flags) == BadPrefix
  {
    ZeroIs('0');
    hide ToDigit;
    assert (x + t)[0] == x[0] && (x + t)[1] == x[1] && (t != "" ==> (x + t)[2] == t[0]);
    assert At(s, p) == x[0] && At(s, p + 1) == x[1] && At(s, p + 2) == if t == "" then 0 as char else t[0];
  }

  // ----- whole texts -----

  predicate IsSign(x: string) { x in {"", "+", "-"} }

  /** The sign and the start of the rest. */
  lemma SignIsRead(s: string, sign: string, rest: string)
    requires IsSign(sign) && s == sign + rest && rest != "" && rest[0] != '+' && rest[0] != '-'
    ensures s[|sign|..] == rest && (if At(s, 0) == '+' || At(s, 0) == '-' then 1 else 0) == |sign| && (At(s, 0) == '-' <==> sign == "-")
  {
    assert At(s, 0) == if sign == "" then rest[0] else sign[0];
  }

  lemma ParseStarts(s: string, sign: string, p: nat, radix0: nat, radix: nat, underscores: bool, flags: Flags)
    requires (if At(s, 0) == '+' || At(s, 0) == '-' then 1 else 0) == |sign| && (At(s, 0) == '-' <==> sign == "-")
    requires (radix0 == 0 || 2 <= radix0 <= 36) && ScanPrefix(s, |sign|, radix0, flags) == Prefix(p, radix, underscores)
    ensures 2 <= radix <= 36
    ensures var c := Context(s, |sign|, radix, flags.intOnly, underscores);
            Parse(s, radix0, flags) == ParseNumeral(c, p, sign == "-") && AtodEnd(s, radix0, flags) == NumeralEnd(c, p)
  {
    hide ScanPrefix, ParseNumeral, NumeralEnd;
  }

  /** The first character of the digits. */
  lemma BodyStarts(I: string, xs: seq<nat>, dot: bool, F: string, ys: seq<nat>, radix: nat, underscores: bool)
    requires BodyOk(I, dot, F) && Spells(I, xs, radix, underscores) && Spells(F, ys, radix, underscores) && radix <= 36
    ensures var b := Body(I, dot, F); b != "" && b[0] != '+' && b[0] != '-' && (I != "" ==> b[0] == I[0] && ToDigit(b[0]) < radix)
  {
    hide CAPITALS, SMALL, ToDigit;
    if I != "" {
      DigitIs(I[0], xs[0]);
      SignsAreNoDigits();
      assert Body(I, dot, F)[0] == I[0];
    } else {
      assert Body(I, dot, F)[0] == '.';
    }
  }

  lemma SignsAreNoDigits()
    ensures ToDigit('+') == 36 && ToDigit('-') == 36
  {
  }

  /** Where a numeral starts: without a prefix, or behind one. */
  ghost predicate StartsWith(pre: string, rest: string, radix0: nat, radix: nat, I: string, flags: Flags) {
    || (pre == "" && NoPrefix(rest, radix0, flags) && radix == (if radix0 == 0 then 10 else radix0))
    || (IsPrefix(pre, radix0, radix, flags) && I != "")
  }

  /** A sign and a prefix: from where, and how, the digits are read. */
  lemma TextStarts(sign: string, pre: string, radix0: nat, radix: nat, I: string, xs: seq<nat>, dot: bool, F: string, ys: seq<nat>,
                   tail: string, flags: Flags)
    requires IsSign(sign) && (radix0 == 0 || 2 <= radix0 <= 36) && 2 <= radix <= 36 && BodyOk(I, dot, F)
    requires StartsWith(pre, Body(I, dot, F) + tail, radix0, radix, I, flags)
    requires Spells(I, xs, radix, flags.acceptUnderscores) && Spells(F, ys, radix, flags.acceptUnderscores)
    ensures var s, p := sign + (pre + (Body(I, dot, F) + tail)), |sign| + |pre|;
            var c := Context(s, |sign|, radix, flags.intOnly, flags.acceptUnderscores);
            && Rest(c, p, Body(I, dot, F) + tail)
            && Parse(s, radix0, flags) == ParseNumeral(c, p, sign == "-") && AtodEnd(s, radix0, flags) == NumeralEnd(c, p)
  {
    hide Spells, ScanPrefix, Parse, AtodEnd, ParseNumeral, NumeralEnd, ToDigit, NoPrefix, IsPrefix, Body, StartsWith, BodyOk;
    var body := Body(I, dot, F) + tail;
    var rest := pre + body;
    var s, p := sign + rest, |sign| + |pre|;
    BodyStarts(I, xs, dot, F, ys, radix, flags.acceptUnderscores);
    assert body[0] == Body(I, dot, F)[0];
    PrefixStarts(pre, body, radix0, radix, flags, I);
    SignIsRead(s, sign, rest);
    if pre == "" {
      assert rest == body;
      PrefixIsScanned(s, |sign|, body, radix0, flags);
    } else {
      PrefixIsPassed(s, |sign|, pre, body, radix0, radix, flags);
    }
    ParseStarts(s, sign, p, radix0, radix, flags.acceptUnderscores, flags);
    assert s[p..] == body by { assert s[p..] == rest[|pre|..]; }
  }

  /** A sign, a prefix, digits with a dot, and an exponent: the numeral that is read, and where its text ends. */
  lemma TextIsParsed(sign: string, pre: string, radix0: nat, radix: nat, I: string, xs: seq<nat>, dot: bool, F: string, ys: seq<nat>,
                     w: Power, t: string, flags: Flags)
    requires IsSign(sign) && (radix0 == 0 || 2 <= radix0 <= 36) && 2 <= radix <= 36 && BodyOk(I, dot, F)
    requires StartsWith(pre, Body(I, dot, F) + (PowerText(w) + t), radix0, radix, I, flags)
    requires Spells(I, xs, radix, flags.acceptUnderscores) && Spells(F, ys, radix, flags.acceptUnderscores)
    requires PowerOk(w, radix, flags.acceptUnderscores) && (dot || w.Power? ==> !flags.intOnly)
    requires Ends(t, radix, dot, w, flags.intOnly, flags.acceptUnderscores)
    ensures var s := sign + (pre + (Body(I, dot, F) + (PowerText(w) + t)));
            && ParsedAs(Parse(s, radix0, flags), sign == "-", radix, Strip(xs + ys), |ys|, w)
            && AtodEnd(s, radix0, flags) == |s| - |t|
  {
    hide Spells, Ends, PowerOk, PowerText, ParsedAs, Parse, AtodEnd, ParseNumeral, NumeralEnd, Strip, Rest, StartsWith, Body;
    TextStarts(sign, pre, radix0, radix, I, xs, dot, F, ys, PowerText(w) + t, flags);
    var s := sign + (pre + (Body(I, dot, F) + (PowerText(w) + t)));
    var c := Context(s, |sign|, radix, flags.intOnly, flags.acceptUnderscores);
    NumeralIsParsed(c, |sign| + |pre|, sign == "-", I, xs, dot, F, ys, w, t);
  }

  // ----- no numbers -----

  /** Behind the letter of an exponent and its sign, a digit is missing. */
  lemma BadExponentIsScanned(c: Context, p: nat, mark: char, expSign: string, t: string)
    requires Rest(c, p, [mark] + expSign + t) && IsMark(mark, c.radix) && p > c.start && !c.intOnly && IsSign(expSign)
    requires t == "" || (ToDigit(t[0]) >= 10 && (expSign == "" ==> t[0] != '+' && t[0] != '-'))
    ensures ScanExponent(c, p) == BadExponent && ExponentEnd(c, p) == p + 1 + |expSign|
  {
    hide ToDigit;
    ZeroIs('0');
    var head := [mark] + expSign;
    RestAt(c, p, head + t);
    RestFrom(c, p, head, t);
    RestAt(c, p + |head|, t);
    assert At(c.s, p + 1) == if expSign == "" then At(t, 0) else expSign[0];
    assert ExponentHere(c, p) && ExponentFirst(c, p) == p + |head|;
  }

  /** A numeral whose exponent has no digits is no number. */
  lemma BadExponentIsParsed(sign: string, pre: string, radix0: nat, radix: nat, I: string, xs: seq<nat>, dot: bool, F: string, ys: seq<nat>,
                            mark: char, expSign: string, t: string, flags: Flags)
    requires IsSign(sign) && (radix0 == 0 || 2 <= radix0 <= 36) && 2 <= radix <= 36 && BodyOk(I, dot, F) && !flags.intOnly
    requires StartsWith(pre, Body(I, dot, F) + ([mark] + expSign + t), radix0, radix, I, flags)
    requires Spells(I, xs, radix, flags.acceptUnderscores) && Spells(F, ys, radix, flags.acceptUnderscores)
    requires IsMark(mark, radix) && IsSign(expSign) && (t == "" || (ToDigit(t[0]) >= 10 && (expSign == "" ==> t[0] != '+' && t[0] != '-')))
    ensures var s := sign + (pre + (Body(I, dot, F) + ([mark] + expSign + t)));
            Parse(s, radix0, flags) == NotNumber && AtodEnd(s, radix0, flags) == |s| - |t|
  {
    hide Spells, Parse, AtodEnd, Rest, StartsWith, Body, ScanExponent, ExponentEnd, SkipZeros, ScanDigits, Stops, IsMark, ToDigit;
    var tail := [mark] + expSign + t;
    TextStarts(sign, pre, radix0, radix, I, xs, dot, F, ys, tail, flags);
    var s := sign + (pre + (Body(I, dot, F) + tail));
    var c := Context(s, |sign|, radix, flags.intOnly, flags.acceptUnderscores);
    var k := Cursor(|sign| + |pre|, 0, None);
    MarkEnds(mark, expSign + t, radix, dot, flags.acceptUnderscores);
    assert [mark] + (expSign + t) == tail;
    BodyIsScanned(c, k, I, xs, dot, F, ys, tail);
    BodyNotEmpty(I, dot, F);
    BadExponentIsScanned(c, BehindBody(k, I, xs, dot, F, ys).p, mark, expSign, t);
  }

  lemma BodyNotEmpty(I: string, dot: bool, F: string)
    requires BodyOk(I, dot, F)
    ensures |Body(I, dot, F)| > 0
  {
  }

  lemma MarkEnds(mark: char, t: string, radix: nat, dot: bool, underscores: bool)
    requires IsMark(mark, radix) && radix <= 36
    ensures Stops([mark] + t, radix, dot, underscores)
  {
    MarkIsNoDigit(mark, radix);
    hide ToDigit;
  }

  /** No digit at the start, not even behind a dot. */
  predicate NoDigitFirst(t: string, radix: nat, intOnly: bool) {
    t == "" || (ToDigit(t[0]) >= radix && (t[0] == '.' && !intOnly ==> |t| == 1 || ToDigit(t[1]) >= radix))
  }

  /** A sign and no digit behind it: no number. */
  lemma NothingIsParsed(sign: string, t: string, radix0: nat, flags: Flags)
    requires IsSign(sign) && (radix0 == 0 || 2 <= radix0 <= 36) && NoPrefix(t, radix0, flags)
    requires NoDigitFirst(t, if radix0 == 0 then 10 else radix0, flags.intOnly) && (sign == "" && t != "" ==> t[0] != '+' && t[0] != '-')
    ensures Parse(sign + t, radix0, flags) == NotNumber && AtodEnd(sign + t, radix0, flags) == |sign|
  {
    hide NoPrefix, ScanPrefix, ToDigit;
    ZeroIs('0');
    var s, p, radix := sign + t, |sign|, if radix0 == 0 then 10 else radix0;
    assert At(s, 0) == if sign == "" then At(t, 0) else sign[0];
    PrefixIsScanned(s, p, t, radix0, flags);
    ParseStarts(s, sign, p, radix0, radix, flags.acceptUnderscores, flags);
    var c := Context(s, p, radix, flags.intOnly, flags.acceptUnderscores);
    NothingIsScanned(c, t);
  }

  lemma NothingIsScanned(c: Context, t: string)
    requires Rest(c, c.start, t) && NoDigitFirst(t, c.radix, c.intOnly)
    ensures var k := Cursor(c.start, 0, None); SkipZeros(c, k) == k && ScanDigits(c, k) == (k, [])
    ensures ScanExponent(c, c.start) == NoExponent
  {
    ZeroIs('0');
    hide ToDigit;
    RestAt(c, c.start, t);
    var k := Cursor(c.start, 0, None);
    assert PassDot(c, k) == Some(k);
  }

  /** A prefix without a digit behind it: no number. */
  lemma PrefixIsBad(sign: string, x: string, t: string, radix0: nat, radix: nat, flags: Flags)
    requires IsSign(sign) && (radix0 == 0 || 2 <= radix0 <= 36) && IsPrefix(x, radix0, radix, flags) && (t == "" || ToDigit(t[0]) >= radix)
    ensures var s := sign + (x + t); Parse(s, radix0, flags) == NotNumber && AtodEnd(s, radix0, flags) == |s| - |t|
  {
    hide ScanPrefix, ToDigit;
    var s := sign + (x + t);
    assert (x + t)[0] == x[0] == '0';
    SignIsRead(s, sign, x + t);
    PrefixAlone(s, |sign|, x, t, radix0, radix, flags);
  }

  /** The digits of octal numerals. */
  predicate AllOctal(ds: seq<nat>) {
    forall i | 0 <= i < |ds| :: ds[i] < 8
  }

  predicate NotDecimal(t: string) {
    t == "" || !('0' <= t[0] <= '9')
  }

  /** Decimal digits without separators: the loop over octal digits passes them if they are octal, and else stops at an 8 or a 9. */
  lemma {:induction false} OctalEndIs(s: string, p: nat, g: string, ds: seq<nat>, t: string)
    requires p <= |s| && s[p..] == g + t && Spells(g, ds, 10, false) && NotDecimal(t)
    ensures var e := At(s, OctalEnd(s, p)); (e == '8' || e == '9') <==> !AllOctal(ds)
    decreases |ds|
  {
    hide CAPITALS, SMALL;
    if ds == [] {
      assert g + t == t;
      assert At(s, p) == At(t, 0);
    } else {
      DigitIs(g[0], ds[0]);
      assert At(s, p) == g[0] by { assert s[p..][0] == g[0]; }
      DecimalDigit(g[0]);
      if ds[0] < 8 {
        assert s[p + 1..] == g[1..] + t by { assert s[p + 1..] == s[p..][1..]; }
        OctalEndIs(s, p + 1, g[1..], ds[1..], t);
        assert AllOctal(ds) <==> AllOctal(ds[1..]);
      }
    }
  }

  lemma DecimalDigit(x: char)
    ensures ToDigit(x) < 10 <==> '0' <= x <= '9'
    ensures ToDigit(x) < 8 <==> '0' <= x <= '7'
    ensures ToDigit(x) == 8 <==> x == '8'
    ensures ToDigit(x) == 9 <==> x == '9'
  {
  }

  /** Digits below 8 spell the same in radix 8 and in radix 10. */
  lemma {:induction false} OctalSpells(g: string, ds: seq<nat>)
    requires Spells(g, ds, 10, false) && AllOctal(ds)
    ensures Spells(g, ds, 8, false)
    decreases |ds|
  {
    hide CAPITALS, SMALL;
    if ds != [] {
      OctalSpells(g[1..], ds[1..]);
    }
  }

  /** What a 0 before decimal digits does, where octal numerals are accepted: it makes them octal, unless there is an 8 or a 9. */
  lemma LegacyIsScanned(s: string, p: nat, g: string, ds: seq<nat>, t: string, flags: Flags)
    requires p <= |s| && s[p..] == "0" + (g + t) && Spells(g, ds, 10, false) && g != "" && NotDecimal(t) && flags.acceptLegacyOctal
    ensures ScanPrefix(s, p, 0, flags) == if AllOctal(ds) then Prefix(p + 1, 8, false) else Prefix(p, 10, false)
  {
    hide Spells, CAPITALS, SMALL, ToDigit;
    assert s[p + 1..] == g + t by { assert s[p + 1..] == s[p..][1..]; }
    OctalEndIs(s, p + 1, g, ds, t);
    assert At(s, p) == '0' by { assert s[p..][0] == '0'; }
    assert At(s, p + 1) == g[0] by { assert s[p + 1..][0] == g[0]; }
    FirstIsDecimal(g, ds);
  }

  lemma FirstIsDecimal(g: string, ds: seq<nat>)
    requires Spells(g, ds, 10, false) && g != ""
    ensures '0' <= g[0] <= '9'
  {
    hide CAPITALS, SMALL, ToDigit;
    DigitIs(g[0], ds[0]);
    DecimalDigit(g[0]);
  }

  /** The radix of a numeral with a leading 0, where octal numerals are accepted. */
  function LegacyRadix(ds: seq<nat>): (radix: nat)
    ensures radix == 8 || radix == 10
  {
    if AllOctal(ds) then 8 else 10
  }

  /** The text begins with a sign and a 0, and digits follow: where they are read, and in which radix. */
  lemma LegacyStarts(sign: string, I: string, xs: seq<nat>, behind: string, flags: Flags)
    requires IsSign(sign) && I != "" && Spells(I, xs, 10, false) && NotDecimal(behind) && flags.acceptLegacyOctal
    ensures var s, p := sign + ("0" + (I + behind)), |sign| + if AllOctal(xs) then 1 else 0;
            var c := Context(s, |sign|, LegacyRadix(xs), flags.intOnly, false);
            && Rest(c, p, if AllOctal(xs) then I + behind else "0" + (I + behind))
            && Parse(s, 0, flags) == ParseNumeral(c, p, sign == "-") && AtodEnd(s, 0, flags) == NumeralEnd(c, p)
  {
    hide Spells, NotDecimal, ScanPrefix, Parse, AtodEnd, ParseNumeral, NumeralEnd, ToDigit, AllOctal;
    var rest := "0" + (I + behind);
    var s, p := sign + rest, |sign|;
    SignIsRead(s, sign, rest);
    LegacyIsScanned(s, p, I, xs, behind, flags);
    assert s[p + 1..] == I + behind by { assert s[p + 1..] == rest[1..]; }
    ParseStarts(s, sign, if AllOctal(xs) then p + 1 else p, 0, LegacyRadix(xs), false, flags);
  }

  /** A sign, a 0 and more decimal digits. No separators are read, not even in a decimal numeral. */
  lemma LegacyIsParsed(sign: string, I: string, xs: seq<nat>, dot: bool, F: string, ys: seq<nat>, w: Power, t: string, flags: Flags)
    requires IsSign(sign) && BodyOk(I, dot, F) && I != "" && flags.acceptLegacyOctal
    requires Spells(I, xs, 10, false) && Spells(F, ys, LegacyRadix(xs), false) && PowerOk(w, LegacyRadix(xs), false)
    requires Ends(t, LegacyRadix(xs), dot, w, flags.intOnly, false) && (dot || w.Power? ==> !flags.intOnly)
    requires dot || w.Power? || NotDecimal(t)
    ensures var s := sign + ("0" + (Body(I, dot, F) + (PowerText(w) + t)));
            && ParsedAs(Parse(s, 0, flags), sign == "-", LegacyRadix(xs), Strip(xs + ys), |ys|, w)
            && AtodEnd(s, 0, flags) == |s| - |t|
  {
    hide Spells, Ends, PowerOk, PowerText, ParsedAs, Parse, AtodEnd, ParseNumeral, NumeralEnd, Strip, AllOctal, NotDecimal, Body, Rest, BehindDigits;
    var body, behind := Body(I, dot, F) + (PowerText(w) + t), BehindDigits(dot, F, w, t);
    BehindIs(I, dot, F, w, t);
    BehindStops(dot, F, w, LegacyRadix(xs), t);
    LegacyStarts(sign, I, xs, behind, flags);
    var c := Context(sign + ("0" + body), |sign|, LegacyRadix(xs), flags.intOnly, false);
    if AllOctal(xs) {
      OctalSpells(I, xs);
      NumeralIsParsed(c, |sign| + 1, sign == "-", I, xs, dot, F, ys, w, t);
    } else {
      DecimalIsParsed(c, |sign|, sign == "-", I, xs, dot, F, ys, w, t);
    }
  }

  /** A decimal numeral with another 0 before it. */
  lemma DecimalIsParsed(c: Context, p: nat, negative: bool, I: string, xs: seq<nat>, dot: bool, F: string, ys: seq<nat>, w: Power, t: string)
    requires Rest(c, p, "0" + (I + BehindDigits(dot, F, w, t))) && BodyOk(I, dot, F) && p >= c.start && c.radix == 10 && !c.underscores
    requires Spells(I, xs, 10, false) && Spells(F, ys, 10, false) && PowerOk(w, 10, false)
    requires Ends(t, 10, dot, w, c.intOnly, false) && (dot || w.Power? ==> !c.intOnly)
    ensures ParsedAs(ParseNumeral(c, p, negative), negative, 10, Strip(xs + ys), |ys|, w)
    ensures NumeralEnd(c, p) == p + 1 + |Body(I, dot, F)| + |PowerText(w)|
  {
    hide Spells, Ends, PowerOk, PowerText, ParsedAs, ParseNumeral, NumeralEnd, Strip, Body, Rest, BehindDigits;
    ZeroSpells(I, xs);
    BehindIs("0" + I, dot, F, w, t);
    BehindIs(I, dot, F, w, t);
    assert "0" + (I + BehindDigits(dot, F, w, t)) == "0" + I + BehindDigits(dot, F, w, t);
    NumeralIsParsed(c, p, negative, "0" + I, [0] + xs, dot, F, ys, w, t);
    StripZero(xs + ys);
    assert [0] + xs + ys == [0] + (xs + ys);
  }

  /** What follows the digits before the dot. */
  function BehindDigits(dot: bool, F: string, w: Power, t: string): string {
    (if dot then "." else "") + F + (PowerText(w) + t)
  }

  lemma BehindIs(I: string, dot: bool, F: string, w: Power, t: string)
    ensures Body(I, dot, F) + (PowerText(w) + t) == I + BehindDigits(dot, F, w, t)
    ensures |Body(I, dot, F)| == |I| + |F| + if dot then 1 else 0
  {
    hide PowerText;
  }

  lemma StripZero(ds: seq<nat>)
    ensures Strip([0] + ds) == Strip(ds)
  {
    assert ([0] + ds)[1..] == ds;
  }

  lemma ZeroSpells(g: string, ds: seq<nat>)
    requires Spells(g, ds, 10, false)
    ensures Spells("0" + g, [0] + ds, 10, false)
  {
    CapitalAt(0);
    assert ("0" + g)[1..] == g && ([0] + ds)[1..] == ds;
  }

  /** No digit stands behind the last digit. */
  lemma BehindStops(dot: bool, F: string, w: Power, radix: nat, t: string)
    requires (F != "" ==> dot) && (dot || w.Power? || NotDecimal(t)) && PowerOk(w, radix, false)
    ensures NotDecimal(BehindDigits(dot, F, w, t))
  {
  }

  lemma PrefixStarts(pre: string, body: string, radix0: nat, radix: nat, flags: Flags, I: string)
    requires StartsWith(pre, body, radix0, radix, I, flags) && body != "" && body[0] != '+' && body[0] != '-'
    ensures (pre + body)[0] != '+' && (pre + body)[0] != '-'
    ensures pre == "" ==> NoPrefix(body, radix0, flags) && radix == if radix0 == 0 then 10 else radix0
    ensures pre != "" ==> IsPrefix(pre, radix0, radix, flags) && I != "" && |pre| == 2
  {
    hide NoPrefix;
    assert pre == "" ==> pre + body == body;
  }
}
