/** Which compiled expressions match as ECMA-262 says, and one that does not. */
module RegexConformance {
  import opened Bytes
  import opened Wrappers
  import opened RegexSyntax
  import opened RegexReference
  import opened RegexCompiler
  import opened RegexMachine
  import opened RegexProgram
  import Simulation = RegexSimulation
  import Standard = RegexStandard

  // ----- expressions that conform -----

  /** No capture group is inside an atom that may be repeated. */
  predicate GroupsOnce(t: Term) {
    match t
    case Plain(d) => DisjunctionGroupsOnce(d)
    case Group(d) => DisjunctionGroupsOnce(d)
    case Lookaround(d, _, _) => DisjunctionGroupsOnce(d)
    case Repeat(a, _, max, _) => (TermGroups(a) == 0 || max <= 1) && GroupsOnce(a)
    case _ => true
  }

  predicate AlternativeGroupsOnce(a: Alternative) {
    match a
    case Empty => true
    case Snoc(init, last) => AlternativeGroupsOnce(init) && GroupsOnce(last)
  }

  predicate DisjunctionGroupsOnce(d: Disjunction) {
    match d
    case Single(a) => AlternativeGroupsOnce(a)
    case Or(init, a) => DisjunctionGroupsOnce(init) && AlternativeGroupsOnce(a)
  }

  lemma {:induction false} OnceConforms(t: Term, bw: bool, cc: nat)
    requires GroupsOnce(t)
    ensures Standard.Conforms(t, bw, cc, {})
    decreases t
  {
    match t {
      case Plain(d) => DisjunctionOnceConforms(d, bw, cc);
      case Group(d) => DisjunctionOnceConforms(d, bw, cc + 1);
      case Lookaround(d, behind, _) => DisjunctionOnceConforms(d, behind, cc);
      case Repeat(a, min, _, _) =>
        OnceConforms(a, bw, cc);
        assert {} - Standard.Range(cc, TermGroups(a)) == {};
      case _ =>
    }
  }

  lemma {:induction false} AlternativeOnceConforms(a: Alternative, bw: bool, cc: nat)
    requires AlternativeGroupsOnce(a)
    ensures Standard.AlternativeConforms(a, bw, cc, {})
    decreases a
  {
    match a {
      case Empty =>
      case Snoc(init, last) =>
        var g := cc + AltGroups(init);
        AlternativeOnceConforms(init, bw, cc);
        OnceConforms(last, bw, g);
        assert Standard.Out(Standard.Settled(last), g, TermGroups(last), {}) == {};
        assert Standard.Out(Standard.SettledAlternative(init), cc, AltGroups(init), {}) == {};
    }
  }

  lemma {:induction false} DisjunctionOnceConforms(d: Disjunction, bw: bool, cc: nat)
    requires DisjunctionGroupsOnce(d)
    ensures Standard.DisjunctionConforms(d, bw, cc, {})
    decreases d
  {
    match d {
      case Single(a) => AlternativeOnceConforms(a, bw, cc);
      case Or(init, a) =>
        DisjunctionOnceConforms(init, bw, cc);
        AlternativeOnceConforms(a, bw, cc + Groups(init));
    }
  }

  /** Compiling and executing an expression that conforms gives the captures of the match that ECMA-262 defines. */
  lemma CompiledExpressionConforms(f: Flags, canon: CodePoint -> CodePoint, d: Disjunction, sticky: bool, reFlags: int,
                                   input: seq<byte>, start: nat)
    requires Wf(d) && start <= |input| && Standard.DisjunctionConforms(d, false, 1, {})
    requires Compile(f, canon, d, sticky, reFlags).Ok? && |Compile(f, canon, d, sticky, reFlags).value| <= INT32_MAX
    ensures var buf := Compile(f, canon, d, sticky, reFlags).value;
            var s := Subject(input, f, canon);
            var r := Standard.StdSearch(s, d, sticky, St(start, NoCaptures(1 + Groups(d))));
            |buf| >= HEADER_LEN && Simulation.Reaches(Load(buf, s), Start(buf, start), Done(if r.Some? then Some(r.value.caps) else None))
  {
    hide MSearch, Compile, Wf;
    CompiledExpressionIsCorrect(f, canon, d, sticky, reFlags, input, start);
    Standard.SearchAgrees(Subject(input, f, canon), d, sticky, start);
    assert NoCaptures(1 + Groups(d)) == seq(2 * (1 + Groups(d)), _ => None);
  }

  // ----- an expression that does not -----

  const LETTER_A := Snoc(Empty, Character(97))
  const LETTER_B := Snoc(Empty, Character(98))
  const EITHER := Plain(Or(Single(Snoc(Empty, Group(Single(LETTER_A)))), LETTER_B))

  /** (?:(a)|b)* */
  const EITHERS := Single(Snoc(Empty, Repeat(EITHER, 0, INT32_MAX, true)))

  /** The text ab. */
  function Letters(): Subject { Subject([97, 98], Flags(false, false, false), c => c) }

  function Next(st: St): St { st.(pos := st.pos + 1) }

  lemma OneLetter(c: CodePoint, st: St)
    requires st.pos <= 2
    ensures OneChar(Letters(), Character(c), false, st) == if st.pos < 2 && [97, 98][st.pos] == c then [Next(st)] else []
  {
  }

  lemma OneLetterHere(c: CodePoint, cc: nat, st: St)
    requires st.pos <= 2
    ensures MAlt(Letters(), Snoc(Empty, Character(c)), false, cc, st) == if st.pos < 2 && [97, 98][st.pos] == c then [Next(st)] else []
  {
    hide OneChar, Letters;
    OneLetter(c, st);
    AllOfOne(Character(c), cc, st);
  }

  lemma AllOfOne(t: Term, cc: nat, st: St)
    ensures MTermAll(Letters(), t, false, cc, [st]) == MTerm(Letters(), t, false, cc, st)
  {
    hide MTerm, Letters;
    assert [st][1..] == [];
    assert MTermAll(Letters(), t, false, cc, []) == [];
  }

  /** Behind the group at 0. */
  function BehindA(x: St): St
    requires |x.caps| == 4
  {
    St(1, [x.caps[0], x.caps[1], Some(0), Some(1)])
  }

  lemma GroupHere(st: St)
    requires |st.caps| == 4 && st.pos <= 2
    ensures MTerm(Letters(), Group(Single(LETTER_A)), false, 1, st) == if st.pos == 0 then [BehindA(st)] else []
  {
    hide MAlt, Letters;
    var x := SetCap(st, 2);
    assert |x.caps| == 4 && x.pos == st.pos;
    OneLetterHere(97, 2, x);
    var L := MAlt(Letters(), LETTER_A, false, 2, x);
    assert MDisj(Letters(), Single(LETTER_A), false, 2, x) == L;
    assert SetCapAll(L, 3) == if st.pos == 0 then [SetCap(Next(x), 3)] else [] by { SetOne(Next(x), 3); }
    assert st.pos == 0 ==> SetCap(Next(x), 3).caps == BehindA(st).caps;
  }

  lemma SetOne(x: St, i: nat)
    ensures SetCapAll([x], i) == [SetCap(x, i)] && SetCapAll([], i) == []
  {
    assert [x][1..] == [];
  }

  /** One iteration here: (a) at 0, and b at 1. */
  lemma Iteration(st: St)
    requires |st.caps| == 4 && st.pos <= 2
    ensures MTerm(Letters(), EITHER, false, 1, st) ==
            if st.pos == 0 then [BehindA(st)] else if st.pos == 1 then [Next(st)] else []
  {
    hide MTerm, MAlt, Letters;
    GroupHere(st);
    OneLetterHere(98, 2, st);
    AlternativeHere(st);
    EitherHere(st);
  }

  lemma AlternativeHere(st: St)
    ensures MAlt(Letters(), Snoc(Empty, Group(Single(LETTER_A))), false, 1, st) == MTerm(Letters(), Group(Single(LETTER_A)), false, 1, st)
  {
    hide MTerm, MTermAll, Letters;
    AllOfOne(Group(Single(LETTER_A)), 1, st);
  }

  lemma EitherHere(st: St)
    ensures MTerm(Letters(), EITHER, false, 1, st) ==
            MAlt(Letters(), Snoc(Empty, Group(Single(LETTER_A))), false, 1, st) + MAlt(Letters(), LETTER_B, false, 2, st)
  {
    hide MAlt, Letters;
    assert Groups(Single(Snoc(Empty, Group(Single(LETTER_A))))) == 1;
  }

  /** The first result of the repetition, from each position: all letters that are left. */
  lemma {:induction false} Iterations(st: St)
    requires |st.caps| == 4 && st.pos <= 2
    ensures var L := MRepeat(Letters(), EITHER, false, 1, 0, Infinite, true, st);
            L != [] && L[0] == if st.pos == 0 then St(2, BehindA(st).caps) else St(2, st.caps)
    decreases 2 - st.pos
  {
    hide MTerm, Letters;
    Iteration(st);
    if st.pos < 2 {
      var r := MTerm(Letters(), EITHER, false, 1, st)[0];
      Iterations(r);
      assert [r][1..] == [];
    }
  }

  lemma StdLetter(c: CodePoint, cc: nat, x: St, k: Standard.Continuation)
    requires x.pos <= 2
    ensures Standard.StdAlternative(Letters(), Snoc(Empty, Character(c)), false, cc, x, k) ==
            if x.pos < 2 && [97, 98][x.pos] == c then k(Next(x)) else None
  {
    hide OneChar, Letters;
    OneLetter(c, x);
    Standard.PickOne(Next(x), k);
    var t := Character(c);
    assert Standard.StdTerm(Letters(), t, false, cc, x, k) == Standard.Pick(OneChar(Letters(), t, false, x), k);
    assert Standard.ThenTerm(Letters(), t, false, cc, k)(x) == Standard.StdTerm(Letters(), t, false, cc, x, k);
  }

  lemma StdGroup(x: St, k: Standard.Continuation)
    requires |x.caps| == 4 && x.pos <= 2
    ensures Standard.StdAlternative(Letters(), Snoc(Empty, Group(Single(LETTER_A))), false, 1, x, k) == if x.pos == 0 then k(BehindA(x)) else None
  {
    hide Letters;
    StdLetter(97, 2, x, Standard.Recording(x.pos, false, 1, k));
    assert x.pos == 0 ==> Standard.Captured(Next(x), 0, false, 1).caps == BehindA(x).caps;
  }

  lemma StdIteration(x: St, k: Standard.Continuation)
    requires |x.caps| == 4 && x.pos <= 2
    ensures Standard.StdTerm(Letters(), EITHER, false, 1, x, k) ==
            if x.pos == 0 then k(BehindA(x)) else if x.pos == 1 then k(Next(x)) else None
  {
    hide Letters, Standard.StdAlternative;
    StdGroup(x, k);
    StdLetter(98, 2, x, k);
    assert Groups(Single(Snoc(Empty, Group(Single(LETTER_A))))) == 1;
  }

  lemma {:induction false} StdIterations(x: St, k: Standard.Continuation)
    requires |x.caps| == 4 && x.pos <= 2 && forall y :: k(y).Some?
    ensures Standard.StdRepeat(Letters(), EITHER, false, 1, 0, Infinite, true, x, k) ==
            k(if x.pos == 2 then x else St(2, [x.caps[0], x.caps[1], None, None]))
    decreases 2 - x.pos
  {
    hide Standard.StdTerm;
    assert TermGroups(EITHER) == 1;
    var xr := x.(caps := ResetCaps(x.caps, 1, 1));
    assert xr.caps == [x.caps[0], x.caps[1], None, None];
    var again := Standard.Again(Letters(), EITHER, false, 1, 0, Infinite, true, x, k);
    StdIteration(xr, again);
    if x.pos == 0 {
      StdIterations(BehindA(xr), k);
    } else if x.pos == 1 {
      StdIterations(Next(xr), k);
    }
  }

  lemma SearchHere()
    ensures First(MSearch(Letters(), EITHERS, true, St(0, NoCaptures(2)))) == Some([Some(0), Some(2), Some(0), Some(1)])
  {
    hide MRepeat, Letters;
    var t := Repeat(EITHER, 0, INT32_MAX, true);
    var x := St(0, [Some(0), None, None, None]);
    assert SetCap(St(0, NoCaptures(2)), 0).caps == x.caps;
    assert TermGroups(EITHER) == 1 && ResetCaps(x.caps, 1, 1) == x.caps;
    Iterations(x);
    AllOfOne(t, 1, x);
    var L := MRepeat(Letters(), EITHER, false, 1, 0, Infinite, true, x);
    assert MDisj(Letters(), EITHERS, false, 1, x) == L by {
      assert MTerm(Letters(), t, false, 1, x) == L;
      assert MAlt(Letters(), Snoc(Empty, t), false, 1, x) == MTermAll(Letters(), t, false, 1, [x]);
    }
    assert SetCapAll(L, 1)[0].caps == [Some(0), Some(2), Some(0), Some(1)];
  }

  lemma SearchStandard()
    ensures Standard.StdSearch(Letters(), EITHERS, true, St(0, NoCaptures(2))) == Some(St(2, [Some(0), Some(2), None, None]))
  {
    hide Standard.StdRepeat, Letters;
    var t := Repeat(EITHER, 0, INT32_MAX, true);
    var x := St(0, NoCaptures(2));
    var k := Standard.Recording(0, false, 0, Standard.Success());
    StdIterations(x, k);
    assert Standard.ThenTerm(Letters(), t, false, 1, k)(x) == Standard.StdTerm(Letters(), t, false, 1, x, k);
    assert Standard.StdTerm(Letters(), t, false, 1, x, k) == Standard.StdRepeat(Letters(), EITHER, false, 1, 0, Infinite, true, x, k);
    assert Standard.StdDisjunction(Letters(), EITHERS, false, 1, x, k) == Standard.ThenTerm(Letters(), t, false, 1, k)(x);
    assert Standard.Captured(St(2, [None, None, None, None]), 0, false, 0).caps == [Some(0), Some(2), None, None];
  }

  lemma EithersDoNotConform()
    ensures Wf(EITHERS) && Groups(EITHERS) == 1 && !Standard.DisjunctionConforms(EITHERS, false, 1, {})
  {
    assert Groups(EITHER.body) == 1;
    assert !Standard.Settled(EITHER);
  }

  /** On ab, group 1 of (?:(a)|b)* keeps the a of the first iteration; in the standard, the second has reset it. */
  lemma StaleCapture()
    ensures Wf(EITHERS) && Groups(EITHERS) == 1 && !Standard.DisjunctionConforms(EITHERS, false, 1, {})
    ensures First(MSearch(Letters(), EITHERS, true, St(0, NoCaptures(2)))) == Some([Some(0), Some(2), Some(0), Some(1)])
    ensures Standard.StdSearch(Letters(), EITHERS, true, St(0, NoCaptures(2))) == Some(St(2, [Some(0), Some(2), None, None]))
  {
    hide MSearch, Standard.StdSearch, Letters, Standard.DisjunctionConforms, Wf, Groups;
    EithersDoNotConform();
    SearchHere();
    SearchStandard();
  }
}
