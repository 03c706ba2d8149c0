/**
 Multiple-precision numbers: the loops over limbs, in place, each proved against the number that the limbs stand for.
 */
module BigNumbers {
  import opened Powers
  import opened Limbs
  import opened Rounding

  // ----- the number that limbs stand for -----

  /** The limbs of s, the lowest first, with t on top of them. */
  function Join(s: seq<Limb>, t: nat): nat {
    if s == [] then t else s[0] + B * Join(s[1..], t)
  }

  function Val(s: seq<Limb>): nat {
    Join(s, 0)
  }

  lemma JoinAt(s: seq<Limb>, i: nat, t: nat)
    requires i < |s|
    ensures Join(s[i..], t) == s[i] + B * Join(s[i + 1..], t)
  {
    assert s[i..][1..] == s[i + 1..];
  }

  lemma {:induction false} JoinConcat(s: seq<Limb>, u: seq<Limb>, t: nat)
    ensures Join(s + u, t) == Join(s, Join(u, t))
  {
    if s == [] {
      assert s + u == u;
    } else {
      assert (s + u)[1..] == s[1..] + u;
      JoinConcat(s[1..], u, t);
    }
  }

  lemma JoinTake(s: seq<Limb>, i: nat, t: nat)
    requires i < |s|
    ensures Join(s[..i + 1], t) == Join(s[..i], s[i] + B * t)
  {
    hide Join;
    assert s[..i + 1] == s[..i] + [s[i]];
    JoinConcat(s[..i], [s[i]], t);
    JoinOne(s[i], t);
  }

  lemma JoinOne(x: Limb, t: nat)
    ensures Join([x], t) == x + B * t
  {
    var s := [x];
    assert s[1..] == [];
  }

  lemma JoinSplit(s: seq<Limb>, i: nat, t: nat)
    requires i <= |s|
    ensures Join(s, t) == Join(s[..i], Join(s[i..], t))
  {
    assert s == s[..i] + s[i..];
    JoinConcat(s[..i], s[i..], t);
  }

  lemma {:induction false} JoinIs(s: seq<Limb>, t: nat)
    ensures Join(s, t) == Val(s) + Pow(B, |s|) * t && Val(s) < Pow(B, |s|)
  {
    if s != [] {
      JoinIs(s[1..], t);
      JoinIs(s[1..], 0);
      MulAssoc(B, Pow(B, |s| - 1), t);
    }
  }

  lemma MulStrictly(p: nat, t: nat, u: nat)
    requires p > 0 && t < u
    ensures p * t < p * u
  {
    MulLe(p, p, t + 1, u);
    MulAdd(p, t, 1);
  }

  // ----- steps of the loops -----

  /** One step of a multiplication: a limb x times b and the carry l give the limb y and the carry l'. */
  lemma MulStep(x: Limb, b: nat, l: nat, rest: nat, y: Limb, l': nat)
    requires x * b + l == y + B * l'
    ensures (x + B * rest) * b + l == y + B * (rest * b + l')
  {
    MulSub(b, x + B * rest, B * rest);
    MulAssoc(B, rest, b);
    assert (x + B * rest) * b == x * b + B * (rest * b);
  }

  lemma CarryBound(x: Limb, b: Limb, l: Limb)
    ensures 0 <= x * b + l < B * B && (x * b + l) / B < B
  {
    SmallProduct(x, b);
  }

  /** One step of a division: the remainder r above the limb x. */
  lemma DivStep(x: Limb, b: nat, r: nat, q: nat, r': nat, high: nat, v: nat)
    requires v == high * b + r && r * B + x == q * b + r'
    ensures x + B * v == (q + B * high) * b + r'
  {
    MulAdd(B, high * b, r);
    MulAssoc(B, high, b);
    MulSub(b, q + B * high, B * high);
    assert (q + B * high) * b == q * b + B * (high * b);
  }

  /** Writing limb i on the way up. */
  lemma WriteUp(s: seq<Limb>, i: nat, x: Limb, t: nat)
    requires i < |s|
    ensures Join(s[i := x][..i + 1], t) == Join(s[..i], x + B * t)
  {
    assert s[i := x][..i] == s[..i];
    JoinTake(s[i := x], i, t);
  }

  /** Writing limb i on the way down. */
  lemma WriteDown(s: seq<Limb>, i: nat, x: Limb, t: nat)
    requires i < |s|
    ensures Join(s[i := x][i..], t) == x + B * Join(s[i + 1..], t)
  {
    assert s[i := x][i + 1..] == s[i + 1..];
    JoinAt(s[i := x], i, t);
  }

  /** A multiplication on its way up: limb i of s, and the carry l, become the limb y and the carry l'. */
  lemma MulUp(s: seq<Limb>, t: seq<Limb>, i: nat, b: nat, l: nat, y: Limb, l': nat, total: nat)
    requires i < |s| == |t| && Join(t[..i], Val(s[i..]) * b + l) == total && s[i] * b + l == y + B * l'
    ensures Join(t[i := y][..i + 1], Val(s[i + 1..]) * b + l') == total
  {
    JoinAt(s, i, 0);
    MulStep(s[i], b, l, Val(s[i + 1..]), y, l');
    WriteUp(t, i, y, Val(s[i + 1..]) * b + l');
  }

  /** A division on its way down: the remainder r above limb i of s becomes the limb q and the remainder r'. */
  lemma DivDown(s: seq<Limb>, t: seq<Limb>, i: nat, top: nat, b: nat, r: nat, q: Limb, r': nat)
    requires i < |s| == |t| && Join(s[i + 1..], top) == Val(t[i + 1..]) * b + r && r * B + s[i] == q * b + r'
    ensures Join(s[i..], top) == Val(t[i := q][i..]) * b + r'
  {
    JoinAt(s, i, top);
    DivStep(s[i], b, r, q, r', Val(t[i + 1..]), Join(s[i + 1..], top));
    WriteDown(t, i, q, 0);
  }

  /** A left shift of a limb by s bits, with the bits l that come in below. */
  lemma ShiftLeftStep(a: Limb, s: nat, l: nat)
    requires 1 <= s < 32 && l < Pow(2, s)
    ensures a / Pow(2, 32 - s) < Pow(2, s) && Low(a * Pow(2, s)) + l < B
    ensures a * Pow(2, s) + l == Low(a * Pow(2, s)) + l + B * (a / Pow(2, 32 - s))
  {
    hide Pow;
    var p, g := Pow(2, s), Pow(2, 32 - s);
    Pow32();
    PowAdd(2, s, 32 - s);
    var q, r := Divided(a, g);
    ShiftLeftParts(a, p, g, q, r, l);
  }

  lemma ShiftLeftParts(a: Limb, p: nat, g: nat, q: nat, r: nat, l: nat)
    requires p * g == B && a == g * q + r && r < g && l < p
    ensures q < p && Low(a * p) + l < B && a * p + l == Low(a * p) + l + B * q
  {
    ShiftSplit(a, p, g, q, r, l);
    MulCompare(g, q, p);
    LowOf(a * p, q, r * p, l);
  }

  lemma LowOf(x: nat, q: nat, y: nat, l: nat)
    requires x == B * q + y && y + l < B
    ensures Low(x) + l < B && x + l == Low(x) + l + B * q
  {
  }

  lemma ShiftSplit(a: nat, p: nat, g: nat, q: nat, r: nat, l: nat)
    requires p * g == B && a == g * q + r && r < g && l < p
    ensures a * p == B * q + r * p && r * p + l < B
  {
    MulAssoc(p, g, q);
    MulAdd(p, g * q, r);
    MulLe(p, p, r + 1, g);
    MulAdd(p, r, 1);
    assert a * p == p * a && r * p == p * r;
  }

  /** A right shift by s bits of a limb a below the bits l of the limb above. */
  lemma ShiftRightStep(a: Limb, s: nat, l: Limb)
    requires 1 <= s < 32
    ensures LowBits(l, Pow(2, s)) * B + a == ShiftedIn(a, l, s) * Pow(2, s) + LowBits(a, Pow(2, s))
  {
    ShiftRightAll(a, s, l);
  }

  /** (a >> s) | (l << (32 - s)). */
  function ShiftedIn(a: Limb, l: Limb, s: nat): Limb
    requires 1 <= s < 32
  {
    ShiftRightAll(a, s, l);
    a as int / Pow(2, s) + Low(l as int * Pow(2, 32 - s)) as int
  }

  /** a & (p - 1), for a power of two p. */
  function LowBits(a: Limb, p: nat): (r: Limb)
    requires p > 0
    ensures r < p
  {
    a as int % p
  }

  /** a >> s, for p = 2^s. */
  function HighBits(a: Limb, p: nat): (r: Limb)
    requires p > 0
  {
    DivBound(a, p);
    a as int / p
  }

  lemma DivBound(a: nat, p: nat)
    requires p > 0
    ensures 0 <= a / p <= a
  {
    var q, r := Divided(a, p);
    MulLe(1, p, q, q);
  }

  lemma LowBitsIs(a: Limb, p: nat)
    requires a < p
    ensures LowBits(a, p) == a
  {
    QuotientIs(a, p, 0, a);
  }

  lemma ShiftRightAll(a: Limb, s: nat, l: Limb)
    requires 1 <= s < 32
    ensures a / Pow(2, s) + Low(l * Pow(2, 32 - s)) < B
    ensures (l % Pow(2, s)) * B + a == (a / Pow(2, s) + Low(l * Pow(2, 32 - s))) * Pow(2, s) + a % Pow(2, s)
  {
    hide Pow;
    var p, g := Pow(2, s), Pow(2, 32 - s);
    Pow32();
    PowAdd(2, s, 32 - s);
    var q, r := Divided(l, p);
    var q', r' := Divided(a, p);
    assert g * p == p * g;
    ShiftRightParts(l, p, g, q, r);
    ShiftRightBound(a, p, g, q', r', r);
    ShiftRightValue(a, p, g, q', r', r);
  }

  lemma ShiftRightParts(l: Limb, p: nat, g: nat, q: nat, r: nat)
    requires g * p == B && l == p * q + r && r < p && g > 0
    ensures Low(l * g) == r * g
  {
    ShiftSplit(l, g, p, q, r, 0);
    var x, y := l * g, r * g;
    assert x == B * q + y && y < B;
  }

  lemma ShiftRightBound(a: Limb, p: nat, g: nat, q: nat, r: nat, h: nat)
    requires p * g == B && a == p * q + r && r < p && h < p
    ensures q + h * g < B
  {
    if q >= g {
      MulLe(p, p, g, q);
    }
    MulLe(h + 1, p, g, g);
    MulSub(g, h + 1, 1);
  }

  lemma ShiftRightValue(a: nat, p: nat, g: nat, q: nat, r: nat, h: nat)
    requires p * g == B && a == p * q + r
    ensures h * B + a == (q + h * g) * p + r
  {
    MulAssoc(h, g, p);
    assert g * p == B;
    MulAdd(p, q, h * g);
    assert p * (h * g) == (h * g) * p && (q + h * g) * p == p * (q + h * g);
  }

  lemma AddUp(s: seq<Limb>, t: seq<Limb>, i: nat, k: Limb, a: Limb, total: nat)
    requires i < |s| == |t| && Join(t[..i], Val(s[i..]) + k) == total && a == Low(s[i] as int + k as int)
    ensures Join(t[i := a][..i + 1], Val(s[i + 1..]) + if a < k then 1 else 0) == total
  {
    JoinAt(s, i, 0);
    CarryStep(s[i], k, Val(s[i + 1..]));
    WriteUp(t, i, a, Val(s[i + 1..]) + if a < k then 1 else 0);
  }

  /** One limb of a carry. */
  lemma CarryStep(x: Limb, k: Limb, t: nat)
    ensures x + B * t + k == Low(x as int + k as int) + B * (t + (x + k) / B)
    ensures (x + k) / B == if Low(x as int + k as int) < k then 1 else 0
  {
  }

  // ----- limbs and bits -----

  lemma LimbPower(l: nat)
    ensures Pow(B, l) == Pow(2, 32 * l)
  {
    Pow32();
    PowMul(2, 32, l);
  }

  /** Whole limbs below and from position l on. */
  lemma LimbSplit(s: seq<Limb>, l: nat)
    requires l <= |s|
    ensures Val(s) / Pow(2, 32 * l) == Val(s[l..]) && Val(s) % Pow(2, 32 * l) == Val(s[..l])
  {
    JoinSplit(s, l, 0);
    JoinIs(s[..l], Val(s[l..]));
    LimbPower(l);
    QuotientIs(Val(s), Pow(2, 32 * l), Val(s[l..]), Val(s[..l]));
  }

  /** The bits of s from bit 32 l + k on, and below it. */
  lemma BitSplit(s: seq<Limb>, l: nat, k: nat)
    requires l < |s| && k < 32
    ensures Val(s) / Pow(2, 32 * l + k) == s[l] / Pow(2, k) + Pow(2, 32 - k) * Val(s[l + 1..])
    ensures Val(s) % Pow(2, 32 * l + k) == Pow(2, 32 * l) * (s[l] % Pow(2, k)) + Val(s[..l])
  {
    hide Pow, Join;
    var p, g, v := Pow(2, k), Pow(2, 32 - k), Val(s[l + 1..]);
    LimbSplit(s, l);
    JoinAt(s, l, 0);
    PowAdd(2, 32 * l, k);
    PowAdd(2, k, 32 - k);
    Pow32();
    DivDiv(Val(s), Pow(2, 32 * l), p);
    var q, r := Divided(s[l], p);
    LimbAbove(s[l], p, g, v, q, r);
  }

  /** The quotient by p of a limb with v limbs above it. */
  lemma LimbAbove(x: Limb, p: nat, g: nat, v: nat, q: nat, r: nat)
    requires p * g == B && x == p * q + r && r < p
    ensures (x + B * v) / p == q + g * v && (x + B * v) % p == r
  {
    MulAssoc(p, g, v);
    MulAdd(p, q, g * v);
    QuotientIs(x + B * v, p, q + g * v, r);
  }

  lemma EvenMultiple(g: nat, v: nat, h: nat)
    requires g == 2 * h
    ensures (g * v) % 2 == 0
  {
    MulAssoc(2, h, v);
  }

  lemma BitOf(s: seq<Limb>, l: nat, k: nat)
    requires l < |s| && k < 32
    ensures Val(s) / Pow(2, 32 * l + k) % 2 == HighBits(s[l], Pow(2, k)) % 2
  {
    hide Join, Pow;
    BitSplit(s, l, k);
    TwiceThePower(31 - k);
    ParityWithMultiple(HighBits(s[l], Pow(2, k)), Pow(2, 32 - k), Val(s[l + 1..]), Pow(2, 31 - k));
  }

  lemma ParityWithMultiple(y: nat, g: nat, v: nat, h: nat)
    requires g == 2 * h
    ensures (y + g * v) % 2 == y % 2
  {
    EvenMultiple(g, v, h);
  }

  lemma TwiceThePower(n: nat)
    ensures Pow(2, n + 1) == 2 * Pow(2, n)
  {
  }

  lemma SmallVal(s: seq<Limb>, k: nat)
    requires 32 * |s| <= k
    ensures Val(s) < Pow(2, k)
  {
    JoinIs(s, 0);
    LimbPower(|s|);
    PowMonotone(2, 32 * |s|, k);
  }

  /** A zero limb on top adds nothing. */
  lemma ZeroOnTop(s: seq<Limb>, x: Limb)
    ensures Val(s + [x]) == Join(s, x)
  {
    hide Join;
    JoinConcat(s, [x], 0);
    JoinOne(x, 0);
  }

  /** Some limb of s is not zero exactly when s is not zero. */
  lemma {:induction false} ZeroLimbs(s: seq<Limb>)
    ensures Val(s) == 0 <==> forall i | 0 <= i < |s| :: s[i] == 0
  {
    if s != [] {
      ZeroLimbs(s[1..]);
      assert forall i | 0 < i < |s| :: s[i] == s[1..][i - 1];
    }
  }

  predicate NormalLimbs(s: seq<Limb>) {
    |s| > 0 && (|s| > 1 ==> s[|s| - 1] != 0)
  }

  lemma TopLimb(s: seq<Limb>)
    requires |s| > 0
    ensures s[|s| - 1] != 0 <==> Val(s) >= Pow(B, |s| - 1)
    ensures Val(s) == Val(s[..|s| - 1]) + Pow(B, |s| - 1) * s[|s| - 1]
  {
    var n := |s| - 1;
    JoinSplit(s, n, 0);
    JoinAt(s, n, 0);
    JoinIs(s[..n], s[n]);
    if s[n] != 0 {
      MulLe(Pow(B, n), Pow(B, n), 1, s[n]);
    }
  }

  class Mpb {
    var tab: seq<Limb>

    constructor ()
      ensures tab == [0]
    {
      tab := [0];
    }

    /** No zero limbs on top. */
    ghost predicate Normal()
      reads this
    {
      NormalLimbs(tab)
    }

    /** mp_mul1: tab * b + l, with the carry out of the top. */
    method Mul1(b: Limb, l0: Limb) returns (l: Limb)
      modifies this
      ensures |tab| == |old(tab)| && Join(tab, l) == Val(old(tab)) * b + l0
    {
      l := l0;
      ghost var s := tab;
      assert tab[..0] == [] && s[0..] == s;
      hide Low, Join;
      for i := 0 to |tab|
        invariant |tab| == |s| && forall k | i <= k < |s| :: tab[k] == s[k]
        invariant Join(tab[..i], Val(s[i..]) * b + l) == Val(s) * b + l0
      {
        var t := tab[i] as int * b as int + l as int;
        CarryBound(tab[i], b, l);
        MulUp(s, tab, i, b, l, t % B, t / B, Val(s) * b + l0);
        tab := tab[i := t % B];
        l := t / B;
      }
      JoinEnd(s, 0);
      assert tab[..|tab|] == tab;
    }

    /** mp_add_ui: tab + b, with the carry out of the top. */
    method AddUi(b: Limb) returns (k: Limb)
      modifies this
      ensures |tab| == |old(tab)| && Join(tab, k) == Val(old(tab)) + b
    {
      k := b;
      ghost var s := tab;
      assert tab[..0] == [] && s[0..] == s;
      hide Low, Join;
      for i := 0 to |tab|
        invariant |tab| == |s| && forall j | i <= j < |s| :: tab[j] == s[j]
        invariant Join(tab[..i], Val(s[i..]) + k) == Val(s) + b
      {
        if k == 0 {
          assert tab[i..] == s[i..];
          JoinSplit(tab, i, 0);
          return;
        }
        var a := Low(tab[i] as int + k as int);
        AddUp(s, tab, i, k, a, Val(s) + b);
        k := if a < k then 1 else 0;
        tab := tab[i := a];
      }
      JoinEnd(s, 0);
      assert tab[..|tab|] == tab;
    }

    /** mp_shl: a << shift with `low` shifted in, and the bits shifted out of the top; a may be this array. */
    method Shl(a: Mpb, shift: nat, low: Limb) returns (l: Limb)
      requires 1 <= shift < 32 && low < Pow(2, shift) && |a.tab| == |tab|
      modifies this
      ensures |tab| == |old(tab)| && l < Pow(2, shift) && Join(tab, l) == Val(old(a.tab)) * Pow(2, shift) + low
    {
      l := low;
      ghost var s, p := a.tab, Pow(2, shift);
      ghost var total := Val(s) * p + low;
      assert tab[..0] == [] && s[0..] == s;
      hide Low, Join, Pow;
      for i := 0 to |tab|
        invariant |tab| == |a.tab| == |s| && l < Pow(2, shift) && forall k | i <= k < |s| :: a.tab[k] == s[k]
        invariant Join(tab[..i], Val(s[i..]) * p + l) == total
      {
        var y := a.tab[i];
        ShiftLeftStep(y, shift, l);
        var x: Limb := Low(y as int * Pow(2, shift)) as int + l as int;
        MulUp(s, tab, i, p, l, x, y / Pow(2, 32 - shift), total);
        l := y / Pow(2, 32 - shift);
        tab := tab[i := x];
      }
      JoinEnd(s, 0);
      assert tab[..|tab|] == tab;
    }

    /** mp_shr: tab >> shift with `high` on top, and the bits shifted out below. */
    method Shr(shift: nat, high: Limb) returns (r: Limb)
      requires 1 <= shift < 32 && high < Pow(2, shift)
      modifies this
      ensures |tab| == |old(tab)| && r < Pow(2, shift) && Join(old(tab), high) == Val(tab) * Pow(2, shift) + r
    {
      hide Low, Join, Pow, LowBits, ShiftedIn;
      var l: Limb := high;
      ghost var s, p := tab, Pow(2, shift);
      LowBitsIs(high, p);
      JoinEnd(s, high);
      JoinEnd(tab, 0);
      var i := |tab|;
      while i > 0
        invariant 0 <= i <= |tab| == |s| && forall k | 0 <= k < i :: tab[k] == s[k]
        invariant Join(s[i..], high) == Val(tab[i..]) * p + LowBits(l, p)
      {
        i := i - 1;
        var a := tab[i];
        ShiftRightStep(a, shift, l);
        var x := ShiftedIn(a, l, shift);
        DivDown(s, tab, i, high, p, LowBits(l, p), x, LowBits(a, p));
        tab := tab[i := x];
        l := a;
      }
      assert s[0..] == s && tab[0..] == tab;
      r := LowBits(l, Pow(2, shift));
    }

    /** mp_div1: the quotient of r, tab by b, and the remainder. */
    method Div1(b: Limb, r0: Limb) returns (r: Limb)
      requires r0 < b
      modifies this
      ensures |tab| == |old(tab)| && r < b && Join(old(tab), r0) == Val(tab) * b + r
    {
      hide Low, Join;
      r := r0;
      ghost var s := tab;
      JoinEnd(s, r0);
      JoinEnd(tab, 0);
      var i := |tab|;
      while i > 0
        invariant 0 <= i <= |tab| == |s| && r < b && forall k | 0 <= k < i :: tab[k] == s[k]
        invariant Join(s[i..], r0) == Val(tab[i..]) * b + r
      {
        i := i - 1;
        var a1 := r as int * B + tab[i] as int;
        var q, r' := a1 / b as int, a1 % b as int;
        LimbQuotient(r, tab[i], b);
        DivDown(s, tab, i, r0, b, r, q, r');
        tab := tab[i := q];
        r := r';
      }
      assert s[0..] == s && tab[0..] == tab;
    }

    /** The loop of mp_div1norm, for a divisor with its high bit set; a may be this array. */
    method DivNorm(a: Mpb, b: Limb, r0: Limb, bInv: Limb) returns (r: Limb)
      requires b >= 0x8000_0000 && bInv == Udiv1NormInit(b) && r0 < b && |a.tab| == |tab|
      modifies this
      ensures |tab| == |old(tab)| && r < b && Join(old(a.tab), r0) == Val(tab) * b + r
    {
      hide Low, Join, Udiv1NormInit;
      r := r0;
      ghost var s := a.tab;
      JoinEnd(s, r0);
      JoinEnd(tab, 0);
      var i := |tab|;
      while i > 0
        invariant 0 <= i <= |tab| == |a.tab| == |s| && r < b && forall k | 0 <= k < i :: a.tab[k] == s[k]
        invariant Join(s[i..], r0) == Val(tab[i..]) * b + r
      {
        i := i - 1;
        var q, r' := Udiv1Norm(r, a.tab[i], b, bInv);
        DivDown(s, tab, i, r0, b, r, q, r');
        tab := tab[i := q];
        r := r';
      }
      assert s[0..] == s && tab[0..] == tab;
    }

    /**
     mp_div1norm: the quotient of r, a by d = b >> shift, and the remainder. When a is another array, what is divided
     after the shift is still the array that was not shifted.
     */
    method Div1Norm(a: Mpb, b: Limb, r0: Limb, bInv: Limb, shift: nat, ghost d: nat) returns (r: Limb)
      requires b >= 0x8000_0000 && bInv == Udiv1NormInit(b) && shift < 32 && b == d * Pow(2, shift) && r0 < d
      requires |a.tab| == |tab|
      modifies this
      ensures |tab| == |old(tab)| && r < d
      ensures Divides(Dividend(old(a.tab), a == this, r0, Pow(2, shift)), b, Pow(2, shift), Val(tab), r)
      ensures a == this || shift == 0 ==> Join(old(a.tab), r0) == Val(tab) * d + r
    {
      ghost var s := a.tab;
      r := r0;
      ghost var p := Pow(2, shift);
      ghost var total := Dividend(s, a == this, r0, p);
      PowerAtLeast(shift);
      hide Join, Pow, Udiv1NormInit, HighBits, Dividend, Divides;
      if shift != 0 {
        var l := Shl(a, shift, 0);
        ShiftedRemainder(d, p, b, r, l);
        r := r as int * Pow(2, shift) + l as int;
        DividendShifted(s, tab, a == this, r0, p, l);
      } else {
        DividendUnshifted(s, a == this, r0);
        assert d * 1 == d;
      }
      assert Join(a.tab, r) == total;
      r := DivNorm(a, b, r, bInv);
      DividesBy(total, b, d, p, Val(tab), r);
      if a == this || shift == 0 {
        DividendInPlace(s, a == this, r0, p);
        ShiftedQuotient(Join(s, r0), Val(tab), d, p, b, r);
      }
      r := HighBits(r, Pow(2, shift));
    }

    /** mpb_renorm: drop zero limbs from the top. */
    method Renorm()
      requires |tab| > 0
      modifies this
      ensures Normal() && Val(tab) == Val(old(tab)) && |tab| <= |old(tab)|
    {
      while |tab| > 1 && tab[|tab| - 1] == 0
        invariant 0 < |tab| <= |old(tab)| && Val(tab) == Val(old(tab))
      {
        ghost var s := tab;
        tab := tab[..|tab| - 1];
        assert s == tab + [0];
        ZeroOnTop(tab, 0);
      }
    }

    /** mpb_get_bit. */
    method GetBit(k: nat) returns (bit: Limb)
      ensures bit == Val(tab) / Pow(2, k) % 2
    {
      var l, k' := k / 32, k % 32;
      if l >= |tab| {
        SmallVal(tab, k);
        QuotientIs(Val(tab), Pow(2, k), 0, Val(tab));
        return 0;
      }
      BitOf(tab, l, k');
      bit := HighBits(tab[l], Pow(2, k')) % 2;
    }

    /** Whether a bit below bit k is set: the limbs below are or-ed together. */
    method AnyBelow(k: nat) returns (some: bool)
      ensures some <==> Val(tab) % Pow(2, k) != 0
    {
      hide Join, Pow;
      var l, k' := k / 32, k % 32;
      some := false;
      var i := 0;
      while i < l && i < |tab|
        invariant 0 <= i <= l && i <= |tab|
        invariant some <==> exists j :: 0 <= j < i && tab[j] != 0
      {
        some := some || tab[i] != 0;
        i := i + 1;
      }
      ZeroLimbs(tab[..i]);
      assert forall j | 0 <= j < i :: tab[..i][j] == tab[j];
      if l < |tab| {
        BitSplit(tab, l, k');
        var low := tab[l] as int % Pow(2, k');
        if low != 0 {
          MulLe(Pow(2, 32 * l), Pow(2, 32 * l), 1, low);
        }
        some := some || low != 0;
      } else {
        SmallVal(tab, k);
        assert tab[..i] == tab;
        QuotientIs(Val(tab), Pow(2, k), 0, Val(tab));
      }
    }
  
    /** The rounding decision of mpb_shr_round: whether the cut quotient is to be increased. */
    method RoundBit(shift: nat, mode: Mode) returns (addOne: Limb)
      requires shift > 0
      ensures RoundDiv(Val(tab), Pow(2, shift), mode) == Val(tab) / Pow(2, shift) + addOne
    {
      hide Join, Pow, RoundDiv;
      if mode.TowardZero? {
        RoundingBits(Val(tab), shift, mode, 0, false, 0);
        return 0;
      }
      var bit1 := GetBit(shift - 1);
      var bit0 := GetBit(shift);
      var bit2 := mode.NearestAway?;
      var some := AnyBelow(shift - 1);
      bit2 := bit2 || some;
      RoundingBits(Val(tab), shift, mode, bit1, some, bit0);
      if bit1 == 0 {
        addOne := 0;
      } else if bit2 {
        addOne := 1;
      } else {
        addOne := bit0;
      }
    }

    /** The left shift of mpb_shr_round. */
    method ShiftUp(shift: nat)
      requires Normal()
      modifies this
      ensures Val(tab) == Val(old(tab)) * Pow(2, shift)
      ensures Val(old(tab)) > 0 ==> Normal()
    {
      hide Join;
      ghost var s := tab;
      var l, k := shift / 32, shift % 32;
      if k != 0 {
        var h := Shl(this, k, 0);
        ZeroOnTop(tab, h);
        tab := tab + [h];
        Renorm();
      } else {
        assert Val(s) * 1 == Val(s);
      }
      assert Val(tab) == Val(s) * Pow(2, k);
      // whole limbs
      ZerosBelow(l, tab);
      ghost var t := tab;
      tab := seq(l, _ => 0) + tab;
      PowAdd(2, k, 32 * l);
      MulAssoc(Val(s), Pow(2, k), Pow(2, 32 * l));
    }

    /** mpb_shr_round: tab / 2^shift rounded to an integer; a negative shift goes up. */
    method ShrRound(shift: int, mode: Mode)
      requires Normal()
      modifies this
      ensures shift >= 0 ==> Val(tab) == RoundDiv(Val(old(tab)), Pow(2, shift), mode)
      ensures shift < 0 ==> Val(tab) == Val(old(tab)) * Pow(2, -shift)
      ensures shift >= 0 || Val(old(tab)) > 0 ==> Normal()
    {
      if shift == 0 {
        RoundDivByOne(Val(tab), mode);
      } else if shift < 0 {
        ShiftUp(-shift);
      } else {
        var addOne := RoundBit(shift, mode);
        ShiftDown(shift);
        AddOne(addOne);
      }
    }

    /** The right shift of mpb_shr_round, before the rounding. */
    method ShiftDown(shift: nat)
      requires Normal()
      modifies this
      ensures Normal() && Val(tab) == Val(old(tab)) / Pow(2, shift)
    {
      ghost var s := tab;
      var l, k := shift / 32, shift % 32;
      if l >= |tab| {
        SmallVal(tab, shift);
        QuotientIs(Val(tab), Pow(2, shift), 0, Val(tab));
        tab := [0];
      } else {
        ShiftByParts(tab, l, k);
        tab := tab[l..];
        hide Join, Pow;
        if k != 0 {
          var r := Shr(k, 0);
          ShiftedDown(Val(s[l..]), Pow(2, k), Val(tab), r);
          Renorm();
        }
      }
    }

    method AddOne(addOne: Limb)
      requires Normal() && addOne <= 1
      modifies this
      ensures Normal() && Val(tab) == Val(old(tab)) + addOne
    {
      if addOne != 0 {
        ghost var s := tab;
        hide Join;
        var a := AddUi(1);
        ZeroOnTop(tab, a);
        if a != 0 {
          tab := tab + [a];
        } else {
          TopLimb(s);
          TopLimb(tab);
        }
      }
    }

    /** mpb_set_u64. */
    method SetU64(m: DLimb)
      modifies this
      ensures Normal() && Val(tab) == m
    {
      hide Join;
      tab := [Low(m)];
      JoinOne(Low(m), 0);
      JoinOne(Low(m), m / B);
      if m / B != 0 {
        tab := tab + [m / B];
        ZeroOnTop([Low(m)], m / B);
      }
    }

    /** mpb_get_u64: the low 64 bits. */
    method GetU64() returns (m: DLimb)
      requires |tab| > 0
      ensures m == Wide(Val(tab))
      ensures Val(tab) < B * B ==> m == Val(tab)
    {
      assert Val(tab) == tab[0] + B * Val(tab[1..]);
      if |tab| == 1 {
        m := tab[0];
      } else {
        assert tab[1..][1..] == tab[2..];
        assert Val(tab[1..]) == tab[1] + B * Val(tab[2..]);
        m := tab[0] as int + tab[1] as int * B;
        WideOf(m, Val(tab[2..]));
      }
    }

    /** mpb_floor_log2: the position of the highest bit, or -1. */
    method FloorLog2() returns (k: int)
      requires Normal()
      ensures k == BitLength(Val(tab)) - 1
    {
      var v := tab[|tab| - 1];
      if v == 0 {
        assert tab == [0];
        JoinOne(0, 0);
        return -1;
      }
      HighestBit(tab);
      k := |tab| * 32 - 1 - Clz32(v);
    }

    /** mpb_cmp. */
    method Cmp(b: Mpb) returns (c: int)
      requires Normal() && b.Normal()
      ensures c == if Val(tab) < Val(b.tab) then -1 else if Val(tab) > Val(b.tab) then 1 else 0
    {
      if |tab| < |b.tab| {
        Longer(tab, b.tab);
        return -1;
      } else if |tab| > |b.tab| {
        Longer(b.tab, tab);
        return 1;
      }
      var i := |tab|;
      while i > 0
        invariant 0 <= i <= |tab| && tab[i..] == b.tab[i..]
      {
        i := i - 1;
        if tab[i] != b.tab[i] {
          if tab[i] < b.tab[i] {
            HigherLimb(tab, b.tab, i);
            return -1;
          } else {
            HigherLimb(b.tab, tab, i);
            return 1;
          }
        }
        assert tab[i..] == [tab[i]] + tab[i + 1..] && b.tab[i..] == [b.tab[i]] + b.tab[i + 1..];
      }
      assert tab == tab[0..] && b.tab == b.tab[0..];
      c := 0;
    }
  }

  /** A right shift by whole limbs and then by bits. */
  lemma ShiftByParts(s: seq<Limb>, l: nat, k: nat)
    requires l <= |s|
    ensures Val(s) / Pow(2, 32 * l + k) == Val(s[l..]) / Pow(2, k)
    ensures k == 0 ==> Val(s[l..]) / Pow(2, k) == Val(s[l..])
  {
    LimbSplit(s, l);
    PowDivides(2, 32 * l, k, Val(s));
  }

  lemma ShiftedDown(n: nat, p: nat, q: nat, r: nat)
    requires n == q * p + r && r < p
    ensures n / p == q
  {
    assert q * p == p * q;
    QuotientIs(n, p, q, r);
  }

  lemma WideOf(m: nat, high: nat)
    requires m < B * B
    ensures Wide(m + B * (B * high)) == m
    ensures m + B * (B * high) < B * B ==> high == 0
  {
  }

  lemma Longer(s: seq<Limb>, t: seq<Limb>)
    requires |s| < |t| && NormalLimbs(s) && NormalLimbs(t)
    ensures Val(s) < Val(t)
  {
    JoinIs(s, 0);
    TopLimb(t);
    PowMonotone(B, |s|, |t| - 1);
  }

  lemma HigherLimb(s: seq<Limb>, t: seq<Limb>, i: nat)
    requires i < |s| == |t| && s[i] < t[i] && s[i + 1..] == t[i + 1..]
    ensures Val(s) < Val(t)
  {
    JoinSplit(s, i, 0);
    JoinSplit(t, i, 0);
    JoinAt(s, i, 0);
    JoinAt(t, i, 0);
    var x, y := Val(s[i..]), Val(t[i..]);
    JoinIs(s[..i], x);
    JoinIs(t[..i], y);
    assert x + 1 <= y;
    MulLe(Pow(B, i), Pow(B, i), x + 1, y);
    MulAdd(Pow(B, i), x, 1);
  }

  function Clz32(v: Limb): (n: nat)
    requires v > 0
    ensures n == 32 - BitLength(v)
  {
    LimbBits(v);
    32 - BitLength(v)
  }

  lemma LimbBits(v: Limb)
    requires v > 0
    ensures 1 <= BitLength(v) <= 32
  {
    BitLengthBounds(v);
    Pow32();
    if BitLength(v) > 32 {
      PowMonotone(2, 32, BitLength(v) - 1);
    }
  }

  lemma HighestBit(s: seq<Limb>)
    requires |s| > 0 && s[|s| - 1] > 0
    ensures BitLength(Val(s)) == 32 * (|s| - 1) + BitLength(s[|s| - 1])
  {
    hide Pow, Join, BitLength;
    var n, v := |s| - 1, s[|s| - 1];
    var k, p, w := BitLength(v), Val(s[..n]), Pow(B, n);
    TopLimb(s);
    JoinIs(s[..n], 0);
    LimbPower(n);
    BitLengthBounds(v);
    PowAdd(2, 32 * n, k - 1);
    PowAdd(2, 32 * n, k);
    assert 32 * n + (k - 1) == 32 * n + k - 1;
    TopScaled(w, Pow(2, k - 1), v, Pow(2, k), p);
    BitLengthIs(Val(s), 32 * n + k - 1);
  }

  lemma TopScaled(w: nat, a: nat, v: nat, b: nat, p: nat)
    requires a <= v < b && p < w
    ensures w * a <= p + w * v < w * b
  {
    MulLe(w, w, a, v);
    MulLe(w, w, v + 1, b);
    MulAdd(w, v, 1);
  }

  /** The rounding of n / 2^s in terms of the bits at s and s - 1 and of those below. */
  lemma RoundingBits(n: nat, s: nat, mode: Mode, bit1: nat, some: bool, bit0: nat)
    requires s > 0
    requires !mode.TowardZero? ==>
      bit1 == n / Pow(2, s - 1) % 2 && (some <==> n % Pow(2, s - 1) != 0) && bit0 == n / Pow(2, s) % 2
    ensures RoundDiv(n, Pow(2, s), mode) == n / Pow(2, s) +
              if mode.TowardZero? || bit1 == 0 then 0 else if mode.NearestAway? || some then 1 else bit0
  {
    var h := Pow(2, s - 1);
    PowAdd(2, s - 1, 1);
    assert Pow(2, s) == h * 2;
    hide Pow, RoundDiv;
    DivDiv(n, h, 2);
    var q, r := Divided(n, h);
    HalfBits(n, h, q, r, mode);
  }

  lemma HalfBits(n: nat, h: nat, q: nat, r: nat, mode: Mode)
    requires h > 0 && n / h == q && n % h == r && r < h && n / (h * 2) == q / 2 && n % (h * 2) == h * (q % 2) + r
    ensures RoundDiv(n, h * 2, mode) == q / 2 +
              if mode.TowardZero? || q % 2 == 0 then 0 else if mode.NearestAway? || r != 0 then 1 else q / 2 % 2
  {
    hide RoundDiv;
    RoundDivIs(n, h * 2, q / 2, h * (q % 2) + r, mode);
    assert q % 2 == 0 || q % 2 == 1;
    assert h * 0 == 0 && h * 1 == h;
  }

  lemma RoundDivByOne(n: nat, mode: Mode)
    ensures RoundDiv(n, Pow(2, 0), mode) == n
  {
  }

  lemma {:induction false} ZerosBelow(l: nat, s: seq<Limb>)
    ensures Val(seq(l, _ => 0) + s) == Val(s) * Pow(2, 32 * l)
    ensures |s| > 0 && NormalLimbs(s) && Val(s) > 0 ==> NormalLimbs(seq(l, _ => 0) + s)
  {
    var t := seq(l, _ => 0) + s;
    LimbSplit(t, l);
    assert t[l..] == s && t[..l] == seq(l, _ => 0);
    ZeroLimbs(t[..l]);
    var w := Pow(2, 32 * l);
    var q, r := Divided(Val(t), w);
    assert w * q == q * w;
    if |s| == 1 {
      assert Val(s) == s[0] + B * Val(s[1..]);
    }
  }

  lemma JoinEnd(s: seq<Limb>, t: nat)
    ensures Join(s[|s|..], t) == t
  {
  }

  lemma LimbQuotient(r: Limb, x: Limb, b: Limb)
    requires r < b
    ensures 0 <= (r * B + x) / b < B && r * B + x == ((r * B + x) / b) * b + (r * B + x) % b
  {
    var q, r' := Divided(r * B + x, b);
    MulCompare(b, q, B);
    assert q * b == b * q;
  }

  lemma ShiftedRemainder(d: nat, p: nat, b: Limb, r: Limb, l: Limb)
    requires b == d * p && r < d && l < p
    ensures r * p + l < b
  {
    MulLe(r + 1, d, p, p);
    MulSub(p, r + 1, 1);
  }

  lemma ShiftedJoin(s: seq<Limb>, t: seq<Limb>, r: nat, l: nat, p: nat)
    requires |t| == |s| && Join(t, l) == Val(s) * p
    ensures Join(t, r * p + l) == Join(s, r) * p
  {
    var w := Pow(B, |s|);
    JoinIs(t, r * p + l);
    JoinIs(t, l);
    JoinIs(s, r);
    MulAdd(w, r * p, l);
    MulAssoc(w, r, p);
    MulSub(p, Val(s) + w * r, w * r);
    assert (Val(s) + w * r) * p == Val(s) * p + (w * r) * p;
  }

  lemma ProductSign(p: nat, k: int)
    requires p > 0 && p * k >= 0
    ensures k >= 0
  {
  }

  /** The bits that leave a number at the top when it is multiplied by a power of two p. */
  function TopBits(s: seq<Limb>, p: nat): nat {
    var w := Pow(B, |s|);
    JoinIs(s, 0);
    Val(s) * p / w
  }

  /** What mp_div1norm divides by d * p: the shifted number, or, from another array, the one that was not shifted. */
  function Dividend(s: seq<Limb>, same: bool, r0: nat, p: nat): nat {
    if same then Join(s, r0) * p else Join(s, r0 * p + TopBits(s, p))
  }

  lemma TopBitsAre(s: seq<Limb>, t: seq<Limb>, p: nat, l: nat)
    requires |t| == |s| && Join(t, l) == Val(s) * p
    ensures TopBits(s, p) == l
  {
    hide Join, Pow;
    JoinIs(t, l);
    QuotientIs(Val(s) * p, Pow(B, |s|), l, Val(t));
  }

  lemma NoTopBits(s: seq<Limb>)
    ensures TopBits(s, 1) == 0
  {
    hide Join, Pow;
    JoinIs(s, 0);
    QuotientIs(Val(s) * 1, Pow(B, |s|), 0, Val(s));
  }

  lemma DividendUnshifted(s: seq<Limb>, same: bool, r0: nat)
    ensures Dividend(s, same, r0, 1) == Join(s, r0)
  {
    hide Join, TopBits;
    NoTopBits(s);
  }

  lemma DividendInPlace(s: seq<Limb>, same: bool, r0: nat, p: nat)
    requires same || p == 1
    ensures Dividend(s, same, r0, p) == Join(s, r0) * p
  {
    hide Join, TopBits;
    NoTopBits(s);
  }

  lemma DividendShifted(s: seq<Limb>, t: seq<Limb>, same: bool, r0: nat, p: nat, l: nat)
    requires |t| == |s| && Join(t, l) == Val(s) * p
    ensures Dividend(s, same, r0, p) == Join(if same then t else s, r0 * p + l)
  {
    hide Join, TopBits;
    ShiftedJoin(s, t, r0, l, p);
    TopBitsAre(s, t, p, l);
  }

  lemma DividesBy(x: nat, b: nat, d: nat, p: nat, q: nat, r: Limb)
    requires p > 0 && b == d * p && x == q * b + r && r < b
    ensures Divides(x, b, p, q, HighBits(r, p)) && HighBits(r, p) < d
  {
    assert q * b == b * q;
    QuotientIs(x, b, q, r);
    var h, t := Divided(r, p);
    MulCompare(p, h, d);
    assert d * p == p * d;
  }

  /** The quotient q of x by b, and its remainder shifted back by p. */
  predicate Divides(x: nat, b: int, p: nat, q: nat, r: nat) {
    b > 0 && p > 0 && q == x / b && r == x % b / p
  }

  /** Whether the quotient and the remainder are those of s, with r0 on top, by d. */
  ghost predicate DividedRight(s: seq<Limb>, same: bool, r0: nat, d: nat, p: nat) {
    forall q: nat, r: nat | Divides(Dividend(s, same, r0, p), d * p, p, q, r) :: Join(s, r0) == q * d + r
  }

  /** mp_div1norm divides every number of n limbs rightly if and only if it works in place or need not shift. */
  lemma DividedRightExactly(n: nat, same: bool, d: nat, shift: nat)
    requires n > 0 && d > 0 && d * Pow(2, shift) < B
    ensures (forall s: seq<Limb>, r0: nat | |s| == n && r0 < d :: DividedRight(s, same, r0, d, Pow(2, shift))) <==> same || shift == 0
  {
    hide Join, TopBits, Dividend;
    var p := Pow(2, shift);
    PowerAtLeast(shift);
    hide Pow;
    MulLe(1, d, 1, p);
    forall s: seq<Limb>, r0: nat | |s| == n && r0 < d && (same || shift == 0) ensures DividedRight(s, same, r0, d, p) {
      DividendInPlace(s, same, r0, p);
      InPlaceIsRight(Join(s, r0), d, p);
    }
    if !same && shift > 0 {
      var s: seq<Limb> := [d] + seq(n - 1, _ => 0);
      DivisorItself(s, d, p);
      assert !DividedRight(s, same, 0, d, p);
    }
  }

  lemma PowerAtLeast(n: nat)
    ensures Pow(2, n) >= 1 && (n > 0 ==> Pow(2, n) >= 2)
  {
  }

  lemma InPlaceIsRight(j: nat, d: nat, p: nat)
    requires d > 0 && p > 0 && d * p > 0
    ensures j == j * p / (d * p) * d + j * p % (d * p) / p
  {
    var q, r := Divided(j, d);
    MulSub(p, d, r);
    MulLe(r + 1, d, p, p);
    MulAdd(p, r, 1);
    assert (d * q + r) * p == (d * p) * q + p * r by { MulAdd(p, d * q, r); MulAssoc(d, q, p); MulAssoc(d, p, q); }
    QuotientIs(j * p, d * p, q, p * r);
    QuotientIs(p * r, p, r, 0);
  }

  /** The divisor in another array, shifted or not: the quotient is 0. */
  lemma DivisorItself(s: seq<Limb>, d: nat, p: nat)
    requires 0 < d && p >= 2 && d < d * p < B && s != [] && s[0] == d && forall i | 0 < i < |s| :: s[i] == 0
    ensures !DividedRight(s, false, 0, d, p)
  {
    ZeroLimbs(s[1..]);
    assert Val(s) == d;
    var w := Pow(B, |s|);
    assert w >= B by { PowMonotone(B, 1, |s|); assert Pow(B, 1) == B; }
    QuotientIs(d * p, w, 0, d * p);
    hide Pow, Join;
    QuotientIs(d, d * p, 0, d);
    var q, r := Divided(d, p);
    MulLe(q, q, 2, p);
    assert p * q == q * p && 0 * p == 0 && 0 * d == 0;
    assert Divides(Dividend(s, false, 0, p), d * p, p, 0, q);
  }

  lemma ShiftedQuotient(x: nat, q: nat, d: nat, p: nat, b: nat, r: Limb)
    requires p > 0 && b == d * p && x * p == q * b + r && r < b
    ensures HighBits(r, p) < d && x == q * d + HighBits(r, p)
  {
    MulAssoc(q, d, p);
    MulSub(p, x, q * d);
    var k := x - q * d;
    assert r == p * k;
    ProductSign(p, k);
    QuotientIs(r, p, k, 0);
    MulCompare(p, k, d);
    assert p * d == d * p;
  }
}
