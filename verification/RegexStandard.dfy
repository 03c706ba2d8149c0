/**
 The matcher of section 22.2.2 of ECMA-262, with continuations as it is written there, and when the reference matcher
 agrees with it. Two things differ. The standard records a group when it ends, with both of its ends; here the first end
 is recorded on entry. And the standard resets the captures of a repeated atom before every iteration; here they are
 reset once, before a repetition that may be skipped.
 */
module RegexStandard {
  import opened Wrappers
  import opened RegexSyntax
  import opened RegexReference

  type Continuation = St -> Option<St>

  // ----- its characters -----

  const CAPITALS := "ABCDEFGHIJKLMNOPQRSTUVWXYZ"
  const SMALL := "abcdefghijklmnopqrstuvwxyz"
  const DIGITS := "0123456789_"

  /** The 63 word characters. */
  function WordCharacter(i: nat): int
    requires i < 63
  {
    if i < 26 then CAPITALS[i] as int else if i < 52 then SMALL[i - 26] as int else DIGITS[i - 52] as int
  }

  lemma WordCharacterIs(i: nat)
    requires i < 63
    ensures WordCharacter(i) == if i < 26 then 65 + i else if i < 52 then 97 + i - 26 else if i < 62 then 48 + i - 52 else 95
  {
  }

  /** WordCharacters (section 22.2.2.9.3) and LineTerminator (section 12.3): no others are word characters, or end a line. */
  lemma CharacterSets(c: int)
    ensures IsWordChar(c) <==> exists i: nat | i < 63 :: WordCharacter(i) == c
    ensures IsLineTerminator(c) <==> c in [0x000A, 0x000D, 0x2028, 0x2029]
  {
    hide WordCharacter;
    forall i: nat | i < 63 ensures WordCharacter(i) == c ==> IsWordChar(c) {
      WordCharacterIs(i);
    }
    if IsWordChar(c) {
      var i: nat := if c <= 57 then c - 48 + 52 else if c <= 90 then c - 65 else if c == 95 then 62 else c - 97 + 26;
      WordCharacterIs(i);
    }
  }

  // ----- the matcher of the standard -----

  /** The first state that the continuation accepts. */
  ghost function Pick(L: seq<St>, c: Continuation): Option<St> {
    if L == [] then None
    else
      var r := c(L[0]);
      if r.Some? then r else Pick(L[1..], c)
  }

  /** The end of a group that was entered at x: both ends are recorded. */
  ghost function Captured(y: St, from: nat, bw: bool, g: nat): St {
    if 2 * g + 1 >= |y.caps| then y
    else
      var (start, end) := if bw then (y.pos, from) else (from, y.pos);
      y.(caps := y.caps[2 * g := Some(start)][2 * g + 1 := Some(end)])
  }

  /** The continuation that ends the matching. */
  ghost function Success(): Continuation { y => Some(y) }

  ghost function Recording(from: nat, bw: bool, g: nat, c: Continuation): Continuation { y => c(Captured(y, from, bw, g)) }

  ghost function StdTerm(s: Subject, t: Term, bw: bool, cc: nat, x: St, c: Continuation): Option<St>
    decreases t, 0, 0, 0, 0
  {
    match t
    case Bol => if Holds(s, t, x.pos) then c(x) else None
    case Eol => if Holds(s, t, x.pos) then c(x) else None
    case Boundary(_) => if Holds(s, t, x.pos) then c(x) else None
    case Reference(n) => Pick(MReference(s, n, bw, x), c)
    case Plain(d) => StdDisjunction(s, d, bw, cc, x, c)
    case Group(d) => StdDisjunction(s, d, bw, cc + 1, x, Recording(x.pos, bw, cc, c))
    case Lookaround(d, behind, negated) =>
      var r := StdDisjunction(s, d, behind, cc, x, Success());
      if negated then (if r.Some? then None else c(x))
      else if r.None? then None else c(St(x.pos, r.value.caps))
    case Repeat(a, min, max, greedy) => StdRepeat(s, a, bw, cc, min, Bound(max), greedy, x, c)
    case _ => Pick(OneChar(s, t, bw, x), c)
  }

  /** RepeatMatcher (section 22.2.2.3.1). A matcher only moves on, so to be at another position is to have less left. */
  ghost function StdRepeat(s: Subject, a: Term, bw: bool, cc: nat, min: nat, max: Count, greedy: bool, x: St, c: Continuation): Option<St>
    decreases a, 1, min, Left(s, bw, x.pos), 1
  {
    if max == Finite(0) then c(x)
    else
      var d := Again(s, a, bw, cc, min, max, greedy, x, c);
      var xr := x.(caps := ResetCaps(x.caps, cc, TermGroups(a)));
      if min > 0 then StdTerm(s, a, bw, cc, xr, d)
      else if greedy then
        var z := StdTerm(s, a, bw, cc, xr, d);
        if z.Some? then z else c(x)
      else
        var z := c(x);
        if z.Some? then z else StdTerm(s, a, bw, cc, xr, d)
  }

  /** Behind an iteration that began at x: the others. */
  ghost function Again(s: Subject, a: Term, bw: bool, cc: nat, min: nat, max: Count, greedy: bool, x: St, c: Continuation): Continuation
    decreases a, 1, min, Left(s, bw, x.pos), 0
  {
    y =>
      if min > 0 then StdRepeat(s, a, bw, cc, min - 1, Dec(max), greedy, y, c)
      else if Left(s, bw, y.pos) >= Left(s, bw, x.pos) then None
      else StdRepeat(s, a, bw, cc, 0, Dec(max), greedy, y, c)
  }

  ghost function StdAlternative(s: Subject, a: Alternative, bw: bool, cc: nat, x: St, c: Continuation): Option<St>
    decreases a, 0, 0, 0, 0
  {
    match a
    case Empty => c(x)
    case Snoc(init, last) =>
      if bw then StdTerm(s, last, bw, cc + AltGroups(init), x, ThenAlternative(s, init, bw, cc, c))
      else StdAlternative(s, init, bw, cc, x, ThenTerm(s, last, bw, cc + AltGroups(init), c))
  }

  ghost function ThenTerm(s: Subject, t: Term, bw: bool, cc: nat, c: Continuation): Continuation
    decreases t, 1, 0, 0, 0
  {
    y => StdTerm(s, t, bw, cc, y, c)
  }

  ghost function ThenAlternative(s: Subject, a: Alternative, bw: bool, cc: nat, c: Continuation): Continuation
    decreases a, 1, 0, 0, 0
  {
    y => StdAlternative(s, a, bw, cc, y, c)
  }

  ghost function StdDisjunction(s: Subject, d: Disjunction, bw: bool, cc: nat, x: St, c: Continuation): Option<St>
    decreases d, 0, 0, 0, 0
  {
    match d
    case Single(a) => StdAlternative(s, a, bw, cc, x, c)
    case Or(init, a) =>
      var r := StdDisjunction(s, init, bw, cc, x, c);
      if r.Some? then r else StdAlternative(s, a, bw, cc + Groups(init), x, c)
  }

  /** The whole expression, as group 0. */
  ghost function StdWhole(s: Subject, d: Disjunction, x: St): Option<St> {
    StdTerm(s, Group(d), false, 0, x, Success())
  }

  /** The loop of RegExpBuiltinExec (section 22.2.7.2): unless sticky, later positions are tried in order. */
  ghost function StdSearch(s: Subject, d: Disjunction, sticky: bool, x: St): Option<St>
    decreases Left(s, false, x.pos)
  {
    var r := StdWhole(s, d, x);
    if sticky || x.pos >= |s.input| || r.Some? then r
    else StdSearch(s, d, sticky, x.(pos := x.pos + 1))
  }

  // ----- which expressions conform -----

  /** The numbers of n groups from cc on. */
  function Range(cc: nat, n: nat): (r: set<nat>)
    ensures forall k: nat :: k in r <==> cc <= k < cc + n
  {
    if n == 0 then {} else Range(cc, n - 1) + {cc + n - 1}
  }

  /** Every success of the term leaves all of its groups set or reset, whatever they were before. */
  predicate Settled(t: Term) {
    TermGroups(t) == 0 ||
    match t
    case Plain(d) => SettledDisjunction(d)
    case Group(d) => SettledDisjunction(d)
    case Lookaround(d, _, negated) => !negated && SettledDisjunction(d)
    case Repeat(a, min, _, _) => min == 0 || Settled(a)
    case _ => true
  }

  predicate SettledAlternative(a: Alternative) {
    match a
    case Empty => true
    case Snoc(init, last) => SettledAlternative(init) && Settled(last)
  }

  predicate SettledDisjunction(d: Disjunction) {
    match d
    case Single(a) => SettledAlternative(a)
    case Or(_, _) => Groups(d) == 0
  }

  /** The groups that may be stale behind a part with n groups from cc on. */
  function Out(settled: bool, cc: nat, n: nat, stale: set<nat>): set<nat> {
    if settled then stale - Range(cc, n) else stale
  }

  /** Whether the term can be run with stale captures in the groups of the set: no reference reads them, and an atom that
      is repeated, which finds its own captures of the iteration before, settles all of its groups. */
  predicate Conforms(t: Term, bw: bool, cc: nat, stale: set<nat>)
    decreases t
  {
    match t
    case Reference(n) => n !in stale
    case Plain(d) => DisjunctionConforms(d, bw, cc, stale)
    case Group(d) => DisjunctionConforms(d, bw, cc + 1, stale)
    case Lookaround(d, behind, _) => DisjunctionConforms(d, behind, cc, stale)
    case Repeat(a, min, max, _) =>
      var groups := Range(cc, TermGroups(a));
      || max == 0
      || (&& Conforms(a, bw, cc, if min == 0 then stale - groups else stale)
          && (max == 1 || TermGroups(a) == 0 || (Settled(a) && Conforms(a, bw, cc, stale + groups))))
    case _ => true
  }

  predicate AlternativeConforms(a: Alternative, bw: bool, cc: nat, stale: set<nat>)
    decreases a
  {
    match a
    case Empty => true
    case Snoc(init, last) =>
      var g := cc + AltGroups(init);
      if bw then
        && Conforms(last, bw, g, stale)
        && AlternativeConforms(init, bw, cc, Out(Settled(last), g, TermGroups(last), stale))
      else
        && AlternativeConforms(init, bw, cc, stale)
        && Conforms(last, bw, g, Out(SettledAlternative(init), cc, AltGroups(init), stale))
  }

  predicate DisjunctionConforms(d: Disjunction, bw: bool, cc: nat, stale: set<nat>)
    decreases d
  {
    match d
    case Single(a) => AlternativeConforms(a, bw, cc, stale)
    case Or(init, a) => DisjunctionConforms(init, bw, cc, stale) && AlternativeConforms(a, bw, cc + Groups(init), stale)
  }

  // ----- how the two states compare -----

  /** Group g is entered and not left: the standard has not recorded it, here one end is. */
  ghost predicate HalfOpen(m: St, e: St, g: nat)
    requires 2 * g + 1 < |m.caps| == |e.caps|
  {
    e.caps[2 * g] == e.caps[2 * g + 1] == None && (m.caps[2 * g] == None || m.caps[2 * g + 1] == None)
  }

  ghost predicate SameGroup(m: St, e: St, g: nat)
    requires 2 * g + 1 < |m.caps| == |e.caps|
  {
    m.caps[2 * g] == e.caps[2 * g] && m.caps[2 * g + 1] == e.caps[2 * g + 1]
  }

  /** m is the state here and e that of the standard; groups in `stale` may have any captures. */
  ghost predicate Alike(m: St, e: St, open: set<nat>, stale: set<nat>) {
    && m.pos == e.pos && |m.caps| == |e.caps|
    && forall g: nat | 2 * g + 1 < |m.caps| && g !in stale :: if g in open then HalfOpen(m, e, g) else SameGroup(m, e, g)
  }

  /** y is ahead of x, with the captures of x but for n groups from cc on. */
  ghost predicate Onward(s: Subject, bw: bool, x: St, y: St, cc: nat, n: nat) {
    && Ahead(s, bw, x, y)
    && forall i | 0 <= i < |x.caps| && !(2 * cc <= i < 2 * (cc + n)) :: y.caps[i] == x.caps[i]
  }

  ghost predicate Fresh(e: St, cc: nat, n: nat) {
    2 * (cc + n) <= |e.caps| && forall i | 2 * cc <= i < 2 * (cc + n) :: e.caps[i] == None
  }

  ghost predicate Below(open: set<nat>, cc: nat) { forall g | g in open :: g < cc }

  ghost predicate Related(R: (St, St) -> bool, a: Option<St>, b: Option<St>) {
    a.Some? == b.Some? && (a.Some? ==> R(a.value, b.value))
  }

  /** The continuations agree behind a part with n groups from cc on, started in m and in e. */
  ghost predicate Continue(s: Subject, bw: bool, cc: nat, n: nat, m: St, e: St, open: set<nat>, stale: set<nat>,
                           f: Continuation, c: Continuation, R: (St, St) -> bool)
  {
    forall rm: St, re: St | Onward(s, bw, m, rm, cc, n) && Onward(s, bw, e, re, cc, n) && Alike(rm, re, open, stale) ::
      Related(R, f(rm), c(re))
  }

  lemma AlikeMore(m: St, e: St, open: set<nat>, stale: set<nat>, more: set<nat>)
    requires Alike(m, e, open, stale) && stale <= more
    ensures Alike(m, e, open, more)
  {
  }

  lemma OnwardThen(s: Subject, bw: bool, x: St, y: St, z: St, cc: nat, n: nat, cc1: nat, n1: nat, cc2: nat, n2: nat)
    requires Onward(s, bw, x, y, cc1, n1) && Onward(s, bw, y, z, cc2, n2)
    requires cc <= cc1 && cc1 + n1 <= cc + n && cc <= cc2 && cc2 + n2 <= cc + n
    ensures Onward(s, bw, x, z, cc, n)
  {
  }

  lemma {:induction false} PickConcat(A: seq<St>, B: seq<St>, c: Continuation)
    ensures Pick(A + B, c) == if Pick(A, c).Some? then Pick(A, c) else Pick(B, c)
    decreases |A|
  {
    if A == [] {
      assert A + B == B;
    } else {
      assert (A + B)[1..] == A[1..] + B;
      PickConcat(A[1..], B, c);
    }
  }

  lemma PickOne(x: St, c: Continuation)
    ensures Pick([x], c) == c(x)
  {
    assert [x][1..] == [];
  }

  // ----- agreement, part by part -----

  /** A part with one result at most, which leaves the captures alone. */
  lemma LeafAgrees(s: Subject, bw: bool, cc: nat, n: nat, m: St, e: St, Lm: seq<St>, Le: seq<St>,
                   open: set<nat>, stale: set<nat>, f: Continuation, c: Continuation, R: (St, St) -> bool)
    requires Alike(m, e, open, stale) && AllAhead(s, bw, m, Lm) && AllAhead(s, bw, e, Le)
    requires |Lm| == |Le| <= 1
    requires |Lm| == 1 ==> Lm[0].pos == Le[0].pos && Lm[0].caps == m.caps && Le[0].caps == e.caps
    requires Continue(s, bw, cc, n, m, e, open, stale, f, c, R)
    ensures Related(R, Pick(Lm, f), Pick(Le, c))
  {
    if Lm != [] {
      assert Lm[1..] == [] && Le[1..] == [];
      assert Onward(s, bw, m, Lm[0], cc, n) && Onward(s, bw, e, Le[0], cc, n) && Alike(Lm[0], Le[0], open, stale);
    }
  }

  lemma CharAgrees(s: Subject, t: Term, bw: bool, cc: nat, n: nat, m: St, e: St, open: set<nat>, stale: set<nat>,
                   f: Continuation, c: Continuation, R: (St, St) -> bool)
    requires Alike(m, e, open, stale) && Continue(s, bw, cc, n, m, e, open, stale, f, c, R)
    ensures Related(R, Pick(OneChar(s, t, bw, m), f), Pick(OneChar(s, t, bw, e), c))
  {
    hide Alike, Continue, Pick, Accepts;
    assert m.pos == e.pos by { SamePos(m, e, open, stale); }
    LeafAgrees(s, bw, cc, n, m, e, OneChar(s, t, bw, m), OneChar(s, t, bw, e), open, stale, f, c, R);
  }

  lemma SamePos(m: St, e: St, open: set<nat>, stale: set<nat>)
    requires Alike(m, e, open, stale)
    ensures m.pos == e.pos && |m.caps| == |e.caps|
  {
  }

  lemma ReferenceAgrees(s: Subject, g: nat, bw: bool, cc: nat, n: nat, m: St, e: St, open: set<nat>, stale: set<nat>,
                        f: Continuation, c: Continuation, R: (St, St) -> bool)
    requires Alike(m, e, open, stale) && g !in stale && Continue(s, bw, cc, n, m, e, open, stale, f, c, R)
    ensures Related(R, Pick(MReference(s, g, bw, m), f), Pick(MReference(s, g, bw, e), c))
  {
    hide Continue, Pick, SameText;
    LeafAgrees(s, bw, cc, n, m, e, MReference(s, g, bw, m), MReference(s, g, bw, e), open, stale, f, c, R);
  }

  lemma HereAgrees(s: Subject, bw: bool, cc: nat, n: nat, m: St, e: St, open: set<nat>, stale: set<nat>,
                   f: Continuation, c: Continuation, R: (St, St) -> bool)
    requires Alike(m, e, open, stale) && Continue(s, bw, cc, n, m, e, open, stale, f, c, R)
    ensures Related(R, f(m), c(e))
  {
    assert Onward(s, bw, m, m, cc, n) && Onward(s, bw, e, e, cc, n);
  }

  lemma {:induction false} TermAgrees(s: Subject, t: Term, bw: bool, cc: nat, m: St, e: St, open: set<nat>, stale: set<nat>,
                                      f: Continuation, c: Continuation, R: (St, St) -> bool)
    requires TermWf(t) && Conforms(t, bw, cc, stale) && Alike(m, e, open, stale) && Below(open, cc) && Fresh(e, cc, TermGroups(t))
    requires Continue(s, bw, cc, TermGroups(t), m, e, open, Out(Settled(t), cc, TermGroups(t), stale), f, c, R)
    ensures Related(R, Pick(MTerm(s, t, bw, cc, m), f), StdTerm(s, t, bw, cc, e, c))
    decreases t, 1
  {
    hide Alike, Continue, Pick, Fresh, Below, Onward, Holds, MReference, OneChar, MDisj, MRepeat, StdDisjunction, StdRepeat;
    var n := TermGroups(t);
    NoneStale(cc, stale);
    SamePos(m, e, open, stale);
    match t {
      case Plain(d) => DisjunctionAgrees(s, d, bw, cc, m, e, open, stale, f, c, R);
      case Group(d) => GroupAgrees(s, d, bw, cc, m, e, open, stale, f, c, R);
      case Lookaround(d, behind, negated) => LookaroundAgrees(s, t, bw, cc, m, e, open, stale, f, c, R);
      case Repeat(a, min, max, greedy) => QuantifierAgrees(s, t, bw, cc, m, e, open, stale, f, c, R);
      case Reference(g) => ReferenceAgrees(s, g, bw, cc, n, m, e, open, stale, f, c, R);
      case Bol => AssertionAgrees(s, t, bw, cc, m, e, open, stale, f, c, R);
      case Eol => AssertionAgrees(s, t, bw, cc, m, e, open, stale, f, c, R);
      case Boundary(_) => AssertionAgrees(s, t, bw, cc, m, e, open, stale, f, c, R);
      case _ => CharAgrees(s, t, bw, cc, n, m, e, open, stale, f, c, R);
    }
  }

  lemma NoneStale(cc: nat, stale: set<nat>)
    ensures Out(true, cc, 0, stale) == stale
  {
    assert stale - Range(cc, 0) == stale;
  }

  lemma AssertionAgrees(s: Subject, t: Term, bw: bool, cc: nat, m: St, e: St, open: set<nat>, stale: set<nat>,
                        f: Continuation, c: Continuation, R: (St, St) -> bool)
    requires (t.Bol? || t.Eol? || t.Boundary?) && Alike(m, e, open, stale)
    requires Continue(s, bw, cc, 0, m, e, open, Out(true, cc, 0, stale), f, c, R)
    ensures Related(R, Pick(MTerm(s, t, bw, cc, m), f), StdTerm(s, t, bw, cc, e, c))
  {
    hide Alike, Continue, Holds;
    NoneStale(cc, stale);
    SamePos(m, e, open, stale);
    HereAgrees(s, bw, cc, 0, m, e, open, stale, f, c, R);
    PickOne(m, f);
  }

  lemma {:induction false} GroupAgrees(s: Subject, d: Disjunction, bw: bool, cc: nat, m: St, e: St, open: set<nat>, stale: set<nat>,
                                       f: Continuation, c: Continuation, R: (St, St) -> bool)
    requires Wf(d) && DisjunctionConforms(d, bw, cc + 1, stale) && Alike(m, e, open, stale) && Below(open, cc) && Fresh(e, cc, 1 + Groups(d))
    requires Continue(s, bw, cc, 1 + Groups(d), m, e, open, Out(SettledDisjunction(d), cc, 1 + Groups(d), stale), f, c, R)
    ensures Related(R, Pick(MTerm(s, Group(d), bw, cc, m), f), StdTerm(s, Group(d), bw, cc, e, c))
    decreases d, 2
  {
    hide Continue, Pick, MDisj, StdDisjunction, DisjunctionConforms, SettledDisjunction, Groups, Alike, Onward, Fresh, Below, Out, SetCap, Captured;
    var n := Groups(d);
    var entry, exit := 2 * cc + (if bw then 1 else 0), 2 * cc + (if bw then 0 else 1);
    var m1, open1 := SetCap(m, entry), open + {cc};
    var L := MDisj(s, d, bw, cc + 1, m1);
    var f1 := (r: St) => f(SetCap(r, exit));
    var c1 := Recording(e.pos, bw, cc, c);
    var settled := SettledDisjunction(d);
    var out1, out := Out(settled, cc + 1, n, stale), Out(settled, cc, 1 + n, stale);
    Entered(m, e, cc, n, bw, open, stale);
    forall rm: St, re: St | Onward(s, bw, m1, rm, cc + 1, n) && Onward(s, bw, e, re, cc + 1, n) && Alike(rm, re, open1, out1)
      ensures Related(R, f1(rm), c1(re))
    {
      Closed(s, bw, cc, n, m, e, rm, re, open, settled, stale);
      Instantiate(s, bw, cc, 1 + n, m, e, SetCap(rm, exit), Captured(re, e.pos, bw, cc), open, out, f, c, R);
    }
    AllContinue(s, bw, cc + 1, n, m1, e, open1, out1, f1, c1, R);
    DisjunctionAgrees(s, d, bw, cc + 1, m1, e, open1, stale, f1, c1, R);
    PickSetCap(L, exit, f, f1);
  }

  /** On entry to a group, it is half open. */
  lemma Entered(m: St, e: St, cc: nat, n: nat, bw: bool, open: set<nat>, stale: set<nat>)
    requires Alike(m, e, open, stale) && Below(open, cc) && Fresh(e, cc, 1 + n)
    ensures Alike(SetCap(m, 2 * cc + (if bw then 1 else 0)), e, open + {cc}, stale) && Below(open + {cc}, cc + 1) && Fresh(e, cc + 1, n)
    ensures m.pos == e.pos && |m.caps| == |e.caps|
  {
    var x := SetCap(m, 2 * cc + (if bw then 1 else 0));
    assert cc !in stale ==> SameGroup(m, e, cc);
    forall g: nat | 2 * g + 1 < |x.caps| && g !in stale ensures if g in open + {cc} then HalfOpen(x, e, g) else SameGroup(x, e, g) {
      assert if g in open then HalfOpen(m, e, g) else SameGroup(m, e, g);
    }
  }

  lemma Instantiate(s: Subject, bw: bool, cc: nat, n: nat, m: St, e: St, rm: St, re: St, open: set<nat>, stale: set<nat>,
                    f: Continuation, c: Continuation, R: (St, St) -> bool)
    requires Continue(s, bw, cc, n, m, e, open, stale, f, c, R)
    requires Onward(s, bw, m, rm, cc, n) && Onward(s, bw, e, re, cc, n) && Alike(rm, re, open, stale)
    ensures Related(R, f(rm), c(re))
  {
  }

  lemma AllContinue(s: Subject, bw: bool, cc: nat, n: nat, m: St, e: St, open: set<nat>, stale: set<nat>,
                    f: Continuation, c: Continuation, R: (St, St) -> bool)
    requires forall rm: St, re: St | Onward(s, bw, m, rm, cc, n) && Onward(s, bw, e, re, cc, n) && Alike(rm, re, open, stale) ::
               Related(R, f(rm), c(re))
    ensures Continue(s, bw, cc, n, m, e, open, stale, f, c, R)
  {
  }

  lemma {:induction false} PickSetCap(L: seq<St>, i: nat, f: Continuation, f1: Continuation)
    requires forall r :: f1(r) == f(SetCap(r, i))
    ensures Pick(SetCapAll(L, i), f) == Pick(L, f1)
    decreases |L|
  {
    if L != [] {
      PickSetCap(L[1..], i, f, f1);
      assert ([SetCap(L[0], i)] + SetCapAll(L[1..], i))[1..] == SetCapAll(L[1..], i);
    }
  }

  /** At the end of a group, both have recorded it alike. */
  lemma Closed(s: Subject, bw: bool, cc: nat, n: nat, m: St, e: St, rm: St, re: St, open: set<nat>, settled: bool, stale: set<nat>)
    requires m.pos == e.pos && |m.caps| == |e.caps| && Below(open, cc) && Fresh(e, cc, 1 + n)
    requires Onward(s, bw, SetCap(m, 2 * cc + (if bw then 1 else 0)), rm, cc + 1, n) && Onward(s, bw, e, re, cc + 1, n)
    requires Alike(rm, re, open + {cc}, Out(settled, cc + 1, n, stale))
    ensures var x, y := SetCap(rm, 2 * cc + (if bw then 0 else 1)), Captured(re, e.pos, bw, cc);
            && Onward(s, bw, m, x, cc, 1 + n) && Onward(s, bw, e, y, cc, 1 + n)
            && Alike(x, y, open, Out(settled, cc, 1 + n, stale))
  {
    var x, y := SetCap(rm, 2 * cc + (if bw then 0 else 1)), Captured(re, e.pos, bw, cc);
    assert SameGroup(x, y, cc);
    forall g: nat | 2 * g + 1 < |x.caps| && g !in Out(settled, cc, 1 + n, stale)
      ensures if g in open then HalfOpen(x, y, g) else SameGroup(x, y, g)
    {
      if g != cc {
        assert g !in Out(settled, cc + 1, n, stale);
      }
    }
  }

  lemma {:induction false} DisjunctionAgrees(s: Subject, d: Disjunction, bw: bool, cc: nat, m: St, e: St, open: set<nat>, stale: set<nat>,
                                             f: Continuation, c: Continuation, R: (St, St) -> bool)
    requires Wf(d) && DisjunctionConforms(d, bw, cc, stale) && Alike(m, e, open, stale) && Below(open, cc) && Fresh(e, cc, Groups(d))
    requires Continue(s, bw, cc, Groups(d), m, e, open, Out(SettledDisjunction(d), cc, Groups(d), stale), f, c, R)
    ensures Related(R, Pick(MDisj(s, d, bw, cc, m), f), StdDisjunction(s, d, bw, cc, e, c))
    decreases d, 1
  {
    hide Alike, Continue, Pick, Onward, MAlt, StdAlternative;
    match d {
      case Single(a) => AlternativeAgrees(s, a, bw, cc, m, e, open, stale, f, c, R);
      case Or(init, a) =>
        var n := Groups(d);
        var out := Out(SettledDisjunction(d), cc, n, stale);
        Narrow(s, bw, cc, n, cc, Groups(init), m, e, open, out, Out(SettledDisjunction(init), cc, Groups(init), stale), f, c, R);
        DisjunctionAgrees(s, init, bw, cc, m, e, open, stale, f, c, R);
        var cc1 := cc + Groups(init);
        Narrow(s, bw, cc, n, cc1, AltGroups(a), m, e, open, out, Out(SettledAlternative(a), cc1, AltGroups(a), stale), f, c, R);
        AlternativeAgrees(s, a, bw, cc1, m, e, open, stale, f, c, R);
        PickConcat(MDisj(s, init, bw, cc, m), MAlt(s, a, bw, cc1, m), f);
    }
  }

  /** Continuations that agree behind more agree behind less. */
  lemma Narrow(s: Subject, bw: bool, cc: nat, n: nat, cc1: nat, n1: nat, m: St, e: St, open: set<nat>, out: set<nat>, out1: set<nat>,
               f: Continuation, c: Continuation, R: (St, St) -> bool)
    requires Continue(s, bw, cc, n, m, e, open, out, f, c, R) && cc <= cc1 && cc1 + n1 <= cc + n && out1 <= out
    ensures Continue(s, bw, cc1, n1, m, e, open, out1, f, c, R)
  {
    forall rm: St, re: St | Onward(s, bw, m, rm, cc1, n1) && Onward(s, bw, e, re, cc1, n1) && Alike(rm, re, open, out1)
      ensures Related(R, f(rm), c(re))
    {
      assert Onward(s, bw, m, rm, cc, n) && Onward(s, bw, e, re, cc, n);
      AlikeMore(rm, re, open, out1, out);
    }
  }

  lemma {:induction false} LookaroundAgrees(s: Subject, t: Term, bw: bool, cc: nat, m: St, e: St, open: set<nat>, stale: set<nat>,
                                            f: Continuation, c: Continuation, R: (St, St) -> bool)
    requires t.Lookaround? && TermWf(t) && Conforms(t, bw, cc, stale)
    requires Alike(m, e, open, stale) && Below(open, cc) && Fresh(e, cc, TermGroups(t))
    requires Continue(s, bw, cc, TermGroups(t), m, e, open, Out(Settled(t), cc, TermGroups(t), stale), f, c, R)
    ensures Related(R, Pick(MTerm(s, t, bw, cc, m), f), StdTerm(s, t, bw, cc, e, c))
    decreases t, 0
  {
    hide Continue, Pick, Alike, Onward, Fresh, Below, MDisj, StdDisjunction, DisjunctionConforms, SettledDisjunction, Groups;
    var d, behind, n := t.body, t.behind, Groups(t.body);
    var out := Out(SettledDisjunction(d), cc, n, stale);
    NoneStale(cc, stale);
    SamePos(m, e, open, stale);
    var inner := (rm: St, re: St) => Onward(s, behind, m, rm, cc, n) && Onward(s, behind, e, re, cc, n) && Alike(rm, re, open, out);
    AllContinue(s, behind, cc, n, m, e, open, out, Success(), Success(), inner);
    DisjunctionAgrees(s, d, behind, cc, m, e, open, stale, Success(), Success(), inner);
    var L := MDisj(s, d, behind, cc, m);
    PickFirst(L);
    if t.negated {
      HereAgrees(s, bw, cc, n, m, e, open, stale, f, c, R);
      PickOne(m, f);
    } else if L != [] {
      var re := StdDisjunction(s, d, behind, cc, e, Success()).value;
      assert inner(L[0], re);
      var x, y := St(m.pos, L[0].caps), St(e.pos, re.caps);
      StayedBack(s, bw, behind, m, e, L[0], re, cc, n, open, out);
      Instantiate(s, bw, cc, n, m, e, x, y, open, out, f, c, R);
      PickOne(x, f);
    }
  }

  lemma PickFirst(L: seq<St>)
    ensures Pick(L, Success()) == if L == [] then None else Some(L[0])
    ensures forall f: Continuation :: Pick([], f) == None
  {
  }

  /** Behind a lookaround, the position is that before it. */
  lemma StayedBack(s: Subject, bw: bool, behind: bool, m: St, e: St, rm: St, re: St, cc: nat, n: nat, open: set<nat>, out: set<nat>)
    requires m.pos == e.pos && Onward(s, behind, m, rm, cc, n) && Onward(s, behind, e, re, cc, n) && Alike(rm, re, open, out)
    ensures Onward(s, bw, m, St(m.pos, rm.caps), cc, n) && Onward(s, bw, e, St(e.pos, re.caps), cc, n)
    ensures Alike(St(m.pos, rm.caps), St(e.pos, re.caps), open, out)
  {
    var x, y := St(m.pos, rm.caps), St(e.pos, re.caps);
    forall g: nat | 2 * g + 1 < |x.caps| && g !in out ensures if g in open then HalfOpen(x, y, g) else SameGroup(x, y, g) {
      assert if g in open then HalfOpen(rm, re, g) else SameGroup(rm, re, g);
    }
  }

  lemma {:induction false} AlternativeAgrees(s: Subject, a: Alternative, bw: bool, cc: nat, m: St, e: St, open: set<nat>, stale: set<nat>,
                                             f: Continuation, c: Continuation, R: (St, St) -> bool)
    requires AltWf(a) && AlternativeConforms(a, bw, cc, stale)
    requires Alike(m, e, open, stale) && Below(open, cc) && Fresh(e, cc, AltGroups(a))
    requires Continue(s, bw, cc, AltGroups(a), m, e, open, Out(SettledAlternative(a), cc, AltGroups(a), stale), f, c, R)
    ensures Related(R, Pick(MAlt(s, a, bw, cc, m), f), StdAlternative(s, a, bw, cc, e, c))
    decreases a, 1
  {
    hide Alike, Continue, Pick, Fresh, Below, StdTerm, MTermAll, MAltAll, MTerm;
    match a {
      case Empty =>
        NoneStale(cc, stale);
        HereAgrees(s, bw, cc, 0, m, e, open, stale, f, c, R);
        PickOne(m, f);
      case Snoc(init, last) =>
        if bw {
          BackwardAgrees(s, a, cc, m, e, open, stale, f, c, R);
        } else {
          ForwardAgrees(s, a, cc, m, e, open, stale, f, c, R);
        }
    }
  }

  lemma {:induction false} ForwardAgrees(s: Subject, a: Alternative, cc: nat, m: St, e: St, open: set<nat>, stale: set<nat>,
                                         f: Continuation, c: Continuation, R: (St, St) -> bool)
    requires a.Snoc? && AltWf(a) && AlternativeConforms(a, false, cc, stale)
    requires Alike(m, e, open, stale) && Below(open, cc) && Fresh(e, cc, AltGroups(a))
    requires Continue(s, false, cc, AltGroups(a), m, e, open, Out(SettledAlternative(a), cc, AltGroups(a), stale), f, c, R)
    ensures Related(R, Pick(MAlt(s, a, false, cc, m), f), StdAlternative(s, a, false, cc, e, c))
    decreases a, 0
  {
    hide Alike, Continue, Pick, Onward, Fresh, MTerm, MTermAll, StdTerm, Conforms, Settled, TermGroups, TermWf, Below,
         MAlt, StdAlternative, AltGroups, SettledAlternative, AlternativeConforms, AltWf, Out;
    var Snoc(init, last) := a;
    SnocParts(a, false, cc, stale);
    ForwardParts(s, a, cc, m, e, c);
    OutParts(SettledAlternative(init), Settled(last), cc, AltGroups(init), TermGroups(last), stale);
    var g, n1, n2 := cc + AltGroups(init), AltGroups(init), TermGroups(last);
    var out, out1 := Out(SettledAlternative(init) && Settled(last), cc, n1 + n2, stale), Out(SettledAlternative(init), cc, n1, stale);
    var f1 := BehindTerm(s, last, false, g, f);
    var c1 := ThenTerm(s, last, false, g, c);
    BelowMore(open, cc, g);
    forall rm: St, re: St | Onward(s, false, m, rm, cc, n1) && Onward(s, false, e, re, cc, n1) && Alike(rm, re, open, out1)
      ensures Related(R, f1(rm), c1(re))
    {
      StillFresh(s, false, e, re, g, n2, cc, n1, cc, n1 + n2);
      Proceed(s, false, cc, n1 + n2, cc, n1, g, n2, m, e, rm, re, open, out, Out(Settled(last), g, n2, out1), f, c, R);
      TermAgrees(s, last, false, g, rm, re, open, out1, f, c, R);
    }
    AllContinue(s, false, cc, n1, m, e, open, out1, f1, c1, R);
    StillFresh(s, false, e, e, cc, n1, cc, 0, cc, n1 + n2);
    AlternativeAgrees(s, init, false, cc, m, e, open, stale, f1, c1, R);
    PickTermAll(s, last, false, g, MAlt(s, init, false, cc, m), f);
  }

  lemma {:induction false} BackwardAgrees(s: Subject, a: Alternative, cc: nat, m: St, e: St, open: set<nat>, stale: set<nat>,
                                          f: Continuation, c: Continuation, R: (St, St) -> bool)
    requires a.Snoc? && AltWf(a) && AlternativeConforms(a, true, cc, stale)
    requires Alike(m, e, open, stale) && Below(open, cc) && Fresh(e, cc, AltGroups(a))
    requires Continue(s, true, cc, AltGroups(a), m, e, open, Out(SettledAlternative(a), cc, AltGroups(a), stale), f, c, R)
    ensures Related(R, Pick(MAlt(s, a, true, cc, m), f), StdAlternative(s, a, true, cc, e, c))
    decreases a, 0
  {
    hide Alike, Continue, Pick, Onward, Fresh, MTerm, MAltAll, StdTerm, Conforms, Settled, TermGroups, TermWf, Below,
         MAlt, StdAlternative, AltGroups, SettledAlternative, AlternativeConforms, AltWf, Out;
    var Snoc(init, last) := a;
    SnocParts(a, true, cc, stale);
    BackwardParts(s, a, cc, m, e, c);
    OutParts(SettledAlternative(init), Settled(last), cc, AltGroups(init), TermGroups(last), stale);
    var g, n1, n2 := cc + AltGroups(init), AltGroups(init), TermGroups(last);
    var out, out1 := Out(SettledAlternative(init) && Settled(last), cc, n1 + n2, stale), Out(Settled(last), g, n2, stale);
    var f1 := BehindAlternative(s, init, true, cc, f);
    var c1 := ThenAlternative(s, init, true, cc, c);
    BelowMore(open, cc, g);
    forall rm: St, re: St | Onward(s, true, m, rm, g, n2) && Onward(s, true, e, re, g, n2) && Alike(rm, re, open, out1)
      ensures Related(R, f1(rm), c1(re))
    {
      StillFresh(s, true, e, re, cc, n1, g, n2, cc, n1 + n2);
      Proceed(s, true, cc, n1 + n2, g, n2, cc, n1, m, e, rm, re, open, out, Out(SettledAlternative(init), cc, n1, out1), f, c, R);
      AlternativeAgrees(s, init, true, cc, rm, re, open, out1, f, c, R);
    }
    AllContinue(s, true, g, n2, m, e, open, out1, f1, c1, R);
    StillFresh(s, true, e, e, g, n2, cc, 0, cc, n1 + n2);
    TermAgrees(s, last, true, g, m, e, open, stale, f1, c1, R);
    PickAltAll(s, init, true, cc, MTerm(s, last, true, g, m), f);
  }

  lemma SnocParts(a: Alternative, bw: bool, cc: nat, stale: set<nat>)
    requires a.Snoc? && AltWf(a) && AlternativeConforms(a, bw, cc, stale)
    ensures AltGroups(a) == AltGroups(a.init) + TermGroups(a.last) && AltWf(a.init) && TermWf(a.last)
    ensures SettledAlternative(a) == (SettledAlternative(a.init) && Settled(a.last))
    ensures var g := cc + AltGroups(a.init);
            if bw then
              && Conforms(a.last, bw, g, stale)
              && AlternativeConforms(a.init, bw, cc, Out(Settled(a.last), g, TermGroups(a.last), stale))
            else
              && AlternativeConforms(a.init, bw, cc, stale)
              && Conforms(a.last, bw, g, Out(SettledAlternative(a.init), cc, AltGroups(a.init), stale))
  {
  }

  lemma ForwardParts(s: Subject, a: Alternative, cc: nat, m: St, e: St, c: Continuation)
    requires a.Snoc?
    ensures var g := cc + AltGroups(a.init);
            && MAlt(s, a, false, cc, m) == MTermAll(s, a.last, false, g, MAlt(s, a.init, false, cc, m))
            && StdAlternative(s, a, false, cc, e, c) == StdAlternative(s, a.init, false, cc, e, ThenTerm(s, a.last, false, g, c))
  {
  }

  lemma BackwardParts(s: Subject, a: Alternative, cc: nat, m: St, e: St, c: Continuation)
    requires a.Snoc?
    ensures var g := cc + AltGroups(a.init);
            && MAlt(s, a, true, cc, m) == MAltAll(s, a.init, true, cc, MTerm(s, a.last, true, g, m))
            && StdAlternative(s, a, true, cc, e, c) == StdTerm(s, a.last, true, g, e, ThenAlternative(s, a.init, true, cc, c))
  {
  }

  lemma OutParts(settled1: bool, settled2: bool, cc: nat, n1: nat, n2: nat, stale: set<nat>)
    ensures Out(settled2, cc + n1, n2, Out(settled1, cc, n1, stale)) <= Out(settled1 && settled2, cc, n1 + n2, stale)
    ensures Out(settled1, cc, n1, Out(settled2, cc + n1, n2, stale)) <= Out(settled1 && settled2, cc, n1 + n2, stale)
  {
  }

  lemma BelowMore(open: set<nat>, cc: nat, cc1: nat)
    requires Below(open, cc) && cc <= cc1
    ensures Below(open, cc1)
  {
  }

  /** Groups of one part are fresh behind another part. */
  lemma StillFresh(s: Subject, bw: bool, e: St, re: St, cc1: nat, n1: nat, cc2: nat, n2: nat, cc: nat, n: nat)
    requires Fresh(e, cc, n) && cc <= cc1 && cc1 + n1 <= cc + n && (cc1 + n1 <= cc2 || cc2 + n2 <= cc1 || n2 == 0)
    requires e == re || Onward(s, bw, e, re, cc2, n2)
    ensures Fresh(re, cc1, n1)
  {
  }

  /** Behind a first part, the continuations agree behind a second one. */
  lemma Proceed(s: Subject, bw: bool, cc: nat, n: nat, cc1: nat, n1: nat, cc2: nat, n2: nat, m: St, e: St, m1: St, e1: St,
                open: set<nat>, out: set<nat>, out2: set<nat>, f: Continuation, c: Continuation, R: (St, St) -> bool)
    requires Continue(s, bw, cc, n, m, e, open, out, f, c, R) && out2 <= out
    requires Onward(s, bw, m, m1, cc1, n1) && Onward(s, bw, e, e1, cc1, n1)
    requires cc <= cc1 && cc1 + n1 <= cc + n && cc <= cc2 && cc2 + n2 <= cc + n
    ensures Continue(s, bw, cc2, n2, m1, e1, open, out2, f, c, R)
  {
    hide Onward, Alike, Continue;
    forall rm: St, re: St | Onward(s, bw, m1, rm, cc2, n2) && Onward(s, bw, e1, re, cc2, n2) && Alike(rm, re, open, out2)
      ensures Related(R, f(rm), c(re))
    {
      OnwardThen(s, bw, m, m1, rm, cc, n, cc1, n1, cc2, n2);
      OnwardThen(s, bw, e, e1, re, cc, n, cc1, n1, cc2, n2);
      AlikeMore(rm, re, open, out2, out);
      Instantiate(s, bw, cc, n, m, e, rm, re, open, out, f, c, R);
    }
    AllContinue(s, bw, cc2, n2, m1, e1, open, out2, f, c, R);
  }

  /** The results of a term or of an alternative, behind another part. */
  ghost function BehindTerm(s: Subject, t: Term, bw: bool, cc: nat, f: Continuation): Continuation {
    r => Pick(MTerm(s, t, bw, cc, r), f)
  }

  ghost function BehindAlternative(s: Subject, a: Alternative, bw: bool, cc: nat, f: Continuation): Continuation {
    r => Pick(MAlt(s, a, bw, cc, r), f)
  }

  lemma {:induction false} PickTermAll(s: Subject, t: Term, bw: bool, cc: nat, L: seq<St>, f: Continuation)
    ensures Pick(MTermAll(s, t, bw, cc, L), f) == Pick(L, BehindTerm(s, t, bw, cc, f))
    decreases |L|
  {
    hide MTerm;
    if L != [] {
      PickTermAll(s, t, bw, cc, L[1..], f);
      PickConcat(MTerm(s, t, bw, cc, L[0]), MTermAll(s, t, bw, cc, L[1..]), f);
    }
  }

  lemma {:induction false} PickAltAll(s: Subject, a: Alternative, bw: bool, cc: nat, L: seq<St>, f: Continuation)
    ensures Pick(MAltAll(s, a, bw, cc, L), f) == Pick(L, BehindAlternative(s, a, bw, cc, f))
    decreases |L|
  {
    hide MAlt;
    if L != [] {
      PickAltAll(s, a, bw, cc, L[1..], f);
      PickConcat(MAlt(s, a, bw, cc, L[0]), MAltAll(s, a, bw, cc, L[1..]), f);
    }
  }

  lemma {:induction false} QuantifierAgrees(s: Subject, t: Term, bw: bool, cc: nat, m: St, e: St, open: set<nat>, stale: set<nat>,
                                            f: Continuation, c: Continuation, R: (St, St) -> bool)
    requires t.Repeat? && TermWf(t) && Conforms(t, bw, cc, stale)
    requires Alike(m, e, open, stale) && Below(open, cc) && Fresh(e, cc, TermGroups(t))
    requires Continue(s, bw, cc, TermGroups(t), m, e, open, Out(Settled(t), cc, TermGroups(t), stale), f, c, R)
    ensures Related(R, Pick(MTerm(s, t, bw, cc, m), f), StdTerm(s, t, bw, cc, e, c))
    decreases t, 0
  {
    hide Alike, Continue, Pick, Onward, Fresh, Below, MRepeat, StdRepeat, TermGroups;
    var Repeat(a, min, max, greedy) := t;
    var n, out := TermGroups(a), Out(Settled(t), cc, TermGroups(t), stale);
    assert TermGroups(t) == n by { RepeatGroups(t); }
    var reset := min == 0 && n > 0;
    var m0 := if reset then m.(caps := ResetCaps(m.caps, cc, n)) else m;
    var stale0 := if min == 0 then stale - Range(cc, n) else stale;
    NoneStale(cc, stale);
    Reset(s, bw, m, e, cc, n, open, stale);
    Proceed(s, bw, cc, n, cc, n, cc, n, m, e, m0, e, open, out, out, f, c, R);
    if max > 0 {
      IterationsConform(t, bw, cc, stale);
    }
    RepeatAgrees(s, a, bw, cc, min, Bound(max), greedy, m0, e, open, stale0, true, out, f, c, R);
  }

  lemma RepeatGroups(t: Term)
    requires t.Repeat?
    ensures TermGroups(t) == TermGroups(t.atom)
  {
  }

  /** Resetting what is fresh in the standard leaves nothing stale. */
  lemma Reset(s: Subject, bw: bool, m: St, e: St, cc: nat, n: nat, open: set<nat>, stale: set<nat>)
    requires Alike(m, e, open, stale) && Below(open, cc) && Fresh(e, cc, n)
    ensures var m0 := m.(caps := ResetCaps(m.caps, cc, n));
            Alike(m0, e, open, stale - Range(cc, n)) && Onward(s, bw, m, m0, cc, n)
    ensures Onward(s, bw, m, m, cc, n) && Onward(s, bw, e, e, cc, n) && 2 * (cc + n) <= |e.caps|
  {
    var m0 := m.(caps := ResetCaps(m.caps, cc, n));
    forall g: nat | 2 * g + 1 < |m0.caps| && g !in stale - Range(cc, n) ensures if g in open then HalfOpen(m0, e, g) else SameGroup(m0, e, g) {
      assert g !in stale ==> if g in open then HalfOpen(m, e, g) else SameGroup(m, e, g);
    }
  }

  /** What is stale when an iteration begins: behind another one, its groups. */
  function AtStart(first: bool, cc: nat, n: nat, stale: set<nat>): set<nat> {
    if first then stale else stale + Range(cc, n)
  }

  /** The next iteration, and those behind it, conform, and leave no more stale than `out`. */
  predicate IterationConforms(a: Term, bw: bool, cc: nat, max: Count, first: bool, stale: set<nat>, out: set<nat>) {
    var n := TermGroups(a);
    var start := AtStart(first, cc, n, stale);
    && Conforms(a, bw, cc, start) && Out(Settled(a), cc, n, start) <= out
    && (max == Finite(1) || (Settled(a) && Conforms(a, bw, cc, Out(true, cc, n, start) + Range(cc, n))))
  }

  lemma IterationsConform(t: Term, bw: bool, cc: nat, stale: set<nat>)
    requires t.Repeat? && Conforms(t, bw, cc, stale) && t.max > 0
    ensures var n := TermGroups(t.atom);
            var stale0 := if t.min == 0 then stale - Range(cc, n) else stale;
            IterationConforms(t.atom, bw, cc, Bound(t.max), true, stale0, Out(Settled(t), cc, n, stale))
  {
    hide TermGroups;
    RepeatGroups(t);
    var n := TermGroups(t.atom);
    var groups := Range(cc, n);
    var stale0 := if t.min == 0 then stale - groups else stale;
    assert (stale0 - groups) + groups == stale + groups;
    assert n == 0 ==> stale - groups == stale && stale + groups == stale;
  }

  lemma NextConforms(a: Term, bw: bool, cc: nat, max: Count, first: bool, stale: set<nat>, out: set<nat>)
    requires IterationConforms(a, bw, cc, max, first, stale, out) && max != Finite(0) && max != Finite(1)
    ensures var stale1 := Out(Settled(a), cc, TermGroups(a), AtStart(first, cc, TermGroups(a), stale));
            IterationConforms(a, bw, cc, Dec(max), false, stale1, out)
  {
    hide TermGroups, Conforms, Settled;
    var n := TermGroups(a);
    var groups := Range(cc, n);
    var start := AtStart(first, cc, n, stale);
    assert ((start - groups) + groups) - groups == start - groups;
  }

  lemma {:induction false} RepeatAgrees(s: Subject, a: Term, bw: bool, cc: nat, min: nat, max: Count, greedy: bool, m: St, e: St,
                                        open: set<nat>, stale: set<nat>, first: bool, out: set<nat>,
                                        f: Continuation, c: Continuation, R: (St, St) -> bool)
    requires TermWf(a) && (max.Finite? ==> min <= max.n) && 2 * (cc + TermGroups(a)) <= |e.caps|
    requires Alike(m, e, open, stale) && Below(open, cc) && (first ==> Fresh(e, cc, TermGroups(a))) && (min == 0 ==> stale <= out)
    requires max == Finite(0) || IterationConforms(a, bw, cc, max, first, stale, out)
    requires Continue(s, bw, cc, TermGroups(a), m, e, open, out, f, c, R)
    ensures Related(R, Pick(MRepeat(s, a, bw, cc, min, max, greedy, m), f), StdRepeat(s, a, bw, cc, min, max, greedy, e, c))
    decreases a, 2, min, Left(s, bw, m.pos), 1
  {
    hide Alike, Continue, Pick, Onward, Fresh, Below, MTerm, MRepeatAll, StdTerm, TermGroups, IterationConforms, Left, Again, TermWf;
    if max == Finite(0) {
      AlikeMore(m, e, open, stale, out);
      HereAgrees(s, bw, cc, TermGroups(a), m, e, open, out, f, c, R);
      PickOne(m, f);
    } else {
      var x := e.(caps := ResetCaps(e.caps, cc, TermGroups(a)));
      var f1, c1 := Following(s, a, bw, cc, min, max, greedy, m, f), Again(s, a, bw, cc, min, max, greedy, e, c);
      IterationAgrees(s, a, bw, cc, min, max, greedy, m, e, open, stale, first, out, f, c, R);
      SamePos(m, e, open, stale);
      var once := MTerm(s, a, bw, cc, m);
      PickFollowing(s, a, bw, cc, min, max, greedy, m, once, f);
      if min == 0 {
        AlikeMore(m, e, open, stale, out);
        HereAgrees(s, bw, cc, TermGroups(a), m, e, open, out, f, c, R);
        PickOne(m, f);
        var more := MRepeatAll(s, a, bw, cc, 0, Dec(max), greedy, Moved(once, m.pos));
        PickConcat(more, [m], f);
        PickConcat([m], more, f);
      }
    }
  }

  /** Behind an iteration from m: the results of the others. */
  ghost function Following(s: Subject, a: Term, bw: bool, cc: nat, min: nat, max: Count, greedy: bool, m: St, f: Continuation): Continuation {
    r =>
      if min > 0 then Pick(MRepeat(s, a, bw, cc, min - 1, Dec(max), greedy, r), f)
      else if r.pos == m.pos then None
      else Pick(MRepeat(s, a, bw, cc, 0, Dec(max), greedy, r), f)
  }

  lemma FollowingAt(s: Subject, a: Term, bw: bool, cc: nat, min: nat, max: Count, greedy: bool, m: St, r: St, f: Continuation)
    ensures Following(s, a, bw, cc, min, max, greedy, m, f)(r) ==
            if min > 0 then Pick(MRepeat(s, a, bw, cc, min - 1, Dec(max), greedy, r), f)
            else if r.pos == m.pos then None
            else Pick(MRepeat(s, a, bw, cc, 0, Dec(max), greedy, r), f)
  {
    hide MRepeat, Pick;
  }

  lemma NothingRepeated(s: Subject, a: Term, bw: bool, cc: nat, min: nat, max: Count, greedy: bool)
    ensures MRepeatAll(s, a, bw, cc, min, max, greedy, []) == []
  {
  }

  lemma PickRepeatAll(s: Subject, a: Term, bw: bool, cc: nat, min: nat, max: Count, greedy: bool, x: St, rest: seq<St>, f: Continuation)
    ensures var first := Pick(MRepeat(s, a, bw, cc, min, max, greedy, x), f);
            Pick(MRepeatAll(s, a, bw, cc, min, max, greedy, [x] + rest), f) ==
            if first.Some? then first else Pick(MRepeatAll(s, a, bw, cc, min, max, greedy, rest), f)
  {
    hide MRepeat;
    assert ([x] + rest)[1..] == rest;
    PickConcat(MRepeat(s, a, bw, cc, min, max, greedy, x), MRepeatAll(s, a, bw, cc, min, max, greedy, rest), f);
  }

  lemma {:induction false} PickFollowing(s: Subject, a: Term, bw: bool, cc: nat, min: nat, max: Count, greedy: bool, m: St,
                                         L: seq<St>, f: Continuation)
    ensures Pick(L, Following(s, a, bw, cc, min, max, greedy, m, f)) ==
            if min > 0 then Pick(MRepeatAll(s, a, bw, cc, min - 1, Dec(max), greedy, L), f)
            else Pick(MRepeatAll(s, a, bw, cc, 0, Dec(max), greedy, Moved(L, m.pos)), f)
    decreases |L|
  {
    hide MRepeat, MRepeatAll, Following;
    if L == [] {
      NothingRepeated(s, a, bw, cc, if min > 0 then min - 1 else 0, Dec(max), greedy);
    } else {
      FollowingAt(s, a, bw, cc, min, max, greedy, m, L[0], f);
      PickFollowing(s, a, bw, cc, min, max, greedy, m, L[1..], f);
      if min > 0 || L[0].pos != m.pos {
        var rest := if min > 0 then L[1..] else Moved(L[1..], m.pos);
        assert [L[0]] + rest == if min > 0 then L else Moved(L, m.pos);
        PickRepeatAll(s, a, bw, cc, if min > 0 then min - 1 else 0, Dec(max), greedy, L[0], rest, f);
      } else {
        assert Moved(L, m.pos) == Moved(L[1..], m.pos);
      }
    }
  }

  lemma {:induction false} IterationAgrees(s: Subject, a: Term, bw: bool, cc: nat, min: nat, max: Count, greedy: bool, m: St, e: St,
                                           open: set<nat>, stale: set<nat>, first: bool, out: set<nat>,
                                           f: Continuation, c: Continuation, R: (St, St) -> bool)
    requires TermWf(a) && max != Finite(0) && (max.Finite? ==> min <= max.n) && 2 * (cc + TermGroups(a)) <= |e.caps|
    requires Alike(m, e, open, stale) && Below(open, cc) && (first ==> Fresh(e, cc, TermGroups(a)))
    requires IterationConforms(a, bw, cc, max, first, stale, out)
    requires Continue(s, bw, cc, TermGroups(a), m, e, open, out, f, c, R)
    ensures Related(R, Pick(MTerm(s, a, bw, cc, m), Following(s, a, bw, cc, min, max, greedy, m, f)),
                    StdTerm(s, a, bw, cc, e.(caps := ResetCaps(e.caps, cc, TermGroups(a))), Again(s, a, bw, cc, min, max, greedy, e, c)))
    decreases a, 2, min, Left(s, bw, m.pos), 0
  {
    hide Alike, Continue, Pick, Onward, Fresh, Below, MTerm, MRepeat, StdTerm, StdRepeat, TermGroups, Left, TermWf, Conforms, Settled;
    var n := TermGroups(a);
    var x := e.(caps := ResetCaps(e.caps, cc, n));
    var start := AtStart(first, cc, n, stale);
    var out1 := Out(Settled(a), cc, n, start);
    var f1, c1 := Following(s, a, bw, cc, min, max, greedy, m, f), Again(s, a, bw, cc, min, max, greedy, e, c);
    Begun(s, bw, m, e, cc, n, open, stale, first);
    if max != Finite(1) {
      NextConforms(a, bw, cc, max, first, stale, out);
    }
    forall rm: St, re: St | Onward(s, bw, m, rm, cc, n) && Onward(s, bw, x, re, cc, n) && Alike(rm, re, open, out1)
      ensures Related(R, f1(rm), c1(re))
    {
      SamePos(m, e, open, stale);
      SamePos(rm, re, open, out1);
      LessLeft(s, bw, m, rm, cc, n);
      OnwardThen(s, bw, e, x, re, cc, n, cc, n, cc, n);
      Proceed(s, bw, cc, n, cc, n, cc, n, m, e, rm, re, open, out, out, f, c, R);
      StillRoom(s, bw, x, re, cc, n);
      if min > 0 {
        RepeatAgrees(s, a, bw, cc, min - 1, Dec(max), greedy, rm, re, open, out1, false, out, f, c, R);
      } else if rm.pos != m.pos {
        RepeatAgrees(s, a, bw, cc, 0, Dec(max), greedy, rm, re, open, out1, false, out, f, c, R);
      }
    }
    AllContinue(s, bw, cc, n, m, x, open, out1, f1, c1, R);
    TermAgrees(s, a, bw, cc, m, x, open, start, f1, c1, R);
  }

  /** The captures that the standard resets are stale here. */
  lemma Begun(s: Subject, bw: bool, m: St, e: St, cc: nat, n: nat, open: set<nat>, stale: set<nat>, first: bool)
    requires Alike(m, e, open, stale) && Below(open, cc) && (first ==> Fresh(e, cc, n)) && 2 * (cc + n) <= |e.caps|
    ensures var x := e.(caps := ResetCaps(e.caps, cc, n));
            Alike(m, x, open, AtStart(first, cc, n, stale)) && Fresh(x, cc, n) && Onward(s, bw, e, x, cc, n)
  {
    var x := e.(caps := ResetCaps(e.caps, cc, n));
    assert first ==> x.caps == e.caps;
    forall g: nat | 2 * g + 1 < |x.caps| && g !in AtStart(first, cc, n, stale)
      ensures if g in open then HalfOpen(m, x, g) else SameGroup(m, x, g)
    {
      assert if g in open then HalfOpen(m, e, g) else SameGroup(m, e, g);
    }
  }

  lemma LessLeft(s: Subject, bw: bool, x: St, y: St, cc: nat, n: nat)
    requires Onward(s, bw, x, y, cc, n)
    ensures if y.pos == x.pos then Left(s, bw, y.pos) == Left(s, bw, x.pos) else Left(s, bw, y.pos) < Left(s, bw, x.pos)
  {
  }

  lemma StillRoom(s: Subject, bw: bool, x: St, y: St, cc: nat, n: nat)
    requires Onward(s, bw, x, y, cc, n)
    ensures |y.caps| == |x.caps|
  {
  }

  // ----- whole expressions -----

  lemma WholeAgrees(s: Subject, d: Disjunction, pos: nat)
    requires Wf(d) && DisjunctionConforms(d, false, 1, {})
    ensures var x := St(pos, seq(2 * (1 + Groups(d)), _ => None));
            var L := MWhole(s, d, x);
            StdWhole(s, d, x) == if L == [] then None else Some(L[0])
  {
    hide DisjunctionConforms, MDisj, StdTerm, Onward, Groups;
    var x := St(pos, seq(2 * (1 + Groups(d)), _ => None));
    var n := 1 + Groups(d);
    var same := (rm: St, re: St) => rm == re;
    assert MTerm(s, Group(d), false, 0, x) == MWhole(s, d, x);
    assert Out(SettledDisjunction(d), 0, n, {}) == {};
    forall rm: St, re: St | Onward(s, false, x, rm, 0, n) && Onward(s, false, x, re, 0, n) && Alike(rm, re, {}, {})
      ensures Related(same, Success()(rm), Success()(re))
    {
      StillRoom(s, false, x, rm, 0, n);
      AlikeIsSame(rm, re);
    }
    AllContinue(s, false, 0, n, x, x, {}, {}, Success(), Success(), same);
    GroupAgrees(s, d, false, 0, x, x, {}, {}, Success(), Success(), same);
    PickFirst(MWhole(s, d, x));
  }

  lemma AlikeIsSame(m: St, e: St)
    requires Alike(m, e, {}, {}) && |m.caps| % 2 == 0
    ensures m == e
  {
    forall i | 0 <= i < |m.caps| ensures m.caps[i] == e.caps[i] {
      assert SameGroup(m, e, i / 2);
    }
  }

  /** For an expression that conforms, the first result of the search here is the match of the standard, or there is none. */
  lemma {:induction false} SearchAgrees(s: Subject, d: Disjunction, sticky: bool, pos: nat)
    requires Wf(d) && DisjunctionConforms(d, false, 1, {})
    ensures var x := St(pos, seq(2 * (1 + Groups(d)), _ => None));
            var L := MSearch(s, d, sticky, x);
            StdSearch(s, d, sticky, x) == if L == [] then None else Some(L[0])
    decreases Left(s, false, pos)
  {
    hide MWhole, StdWhole, DisjunctionConforms, Groups;
    WholeAgrees(s, d, pos);
    if !sticky && pos < |s.input| {
      SearchAgrees(s, d, sticky, pos + 1);
    }
  }
}
