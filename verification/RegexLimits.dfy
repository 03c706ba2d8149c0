/**
 Which patterns compile, told from the pattern alone: those with at most 254 groups whose quantifiers, nested in each other, need
 at most 255 places on the value stack.
 */
module RegexLimits {
  import opened Bytes
  import opened Wrappers
  import opened RegexSyntax
  import opened RegexBytecode
  import opened RegexCompiler
  import opened RegexMachine
  import opened RegexSimulation
  import opened RegexAnalyses
  import opened RegexCorrectness
  import opened RegexProgram

  // ----- what the analyses of an atom find, on the pattern -----

  /** Exactly once. */
  predicate Once(min: nat, max: nat) { min == 1 && max == 1 }

  /** Only assertions and characters, matched forward: the code is repeated by a single instruction if a character is read. */
  predicate SimpleTerm(t: Term, bw: bool) {
    match t
    case Character(_) => !bw
    case Period => !bw
    case Class(_) => !bw
    case Bol => true
    case Eol => true
    case Boundary(_) => true
    case Reference(_) => false
    case Plain(d) => SimpleDisj(d, bw)
    case Group(_) => false
    case Lookaround(_, _, _) => false
    case Repeat(a, min, max, greedy) =>
      if max == 0 then TermGroups(a) == 0 else Once(min, max) && SimpleTerm(a, bw) && !(greedy && ReadsTerm(a))
  }

  predicate SimpleAlt(a: Alternative, bw: bool) {
    match a
    case Empty => true
    case Snoc(init, last) => SimpleAlt(init, bw) && SimpleTerm(last, bw)
  }

  predicate SimpleDisj(d: Disjunction, bw: bool) {
    match d
    case Single(a) => SimpleAlt(a, bw)
    case Or(_, _) => false
  }

  /** One way through, without a choice. */
  predicate StraightTerm(t: Term, bw: bool) {
    match t
    case Plain(d) => StraightDisj(d, bw)
    case Group(d) => StraightDisj(d, bw)
    case Lookaround(_, _, _) => false
    case Repeat(a, min, max, greedy) =>
      max == 0 || (Once(min, max) && StraightTerm(a, bw) && !(greedy && SimpleTerm(a, bw) && ReadsTerm(a)))
    case _ => true
  }

  predicate StraightAlt(a: Alternative, bw: bool) {
    match a
    case Empty => true
    case Snoc(init, last) => StraightAlt(init, bw) && StraightTerm(last, bw)
  }

  predicate StraightDisj(d: Disjunction, bw: bool) {
    match d
    case Single(a) => StraightAlt(a, bw)
    case Or(_, _) => false
  }

  /** On the way through, if there is only one, a character is read. */
  predicate ReadsTerm(t: Term) {
    match t
    case Character(_) => true
    case Period => true
    case Class(_) => true
    case Plain(d) => ReadsDisj(d)
    case Group(d) => ReadsDisj(d)
    case Repeat(a, min, max, _) => Once(min, max) && ReadsTerm(a)
    case _ => false
  }

  predicate ReadsAlt(a: Alternative) {
    match a
    case Empty => false
    case Snoc(init, last) => ReadsAlt(init) || ReadsTerm(last)
  }

  predicate ReadsDisj(d: Disjunction) {
    match d
    case Single(a) => ReadsAlt(a)
    case Or(_, _) => false
  }

  // ----- the levels of the value stack -----

  function Higher(a: nat, b: nat): nat { if a >= b then a else b }

  /** For the iterations that must happen: a counter if there are several. */
  function MustLevels(l: nat, min: nat): nat {
    if min == 0 then 0 else if min == 1 then l else 1 + l
  }

  /** For those that may happen, of which each takes x levels: a counter unless there is no limit, or at most one. */
  function MayLevels(x: nat, min: nat, max: nat): nat {
    if max == 0x7fff_ffff then x else if max <= min then 0 else if min == 0 && max == 1 then x else 1 + x
  }

  /** The levels of a quantifier: none for a single instruction, else one more for the position if the atom may be empty. */
  function RepeatLevels(l: nat, single: bool, moves: bool, min: nat, max: nat): nat {
    if max == 0 || single then 0 else Higher(MustLevels(l, min), MayLevels(if moves then l else 1 + l, min, max))
  }

  function TermLevels(t: Term, bw: bool): nat {
    match t
    case Plain(d) => Levels(d, bw)
    case Group(d) => Levels(d, bw)
    case Lookaround(d, behind, _) => Levels(d, behind)
    case Repeat(a, min, max, greedy) =>
      RepeatLevels(TermLevels(a, bw), greedy && SimpleTerm(a, bw) && ReadsTerm(a), StraightTerm(a, bw) && ReadsTerm(a), min, max)
    case _ => 0
  }

  function AltLevels(a: Alternative, bw: bool): nat {
    match a
    case Empty => 0
    case Snoc(init, last) => Higher(AltLevels(init, bw), TermLevels(last, bw))
  }

  /** The places on the value stack that a pattern needs, matched forward or, in a lookbehind, backward. */
  function Levels(d: Disjunction, bw: bool): nat {
    match d
    case Single(a) => AltLevels(a, bw)
    case Or(init, a) => Higher(Levels(init, bw), AltLevels(a, bw))
  }

  /** How deep quantifiers are nested in each other. */
  function TermNesting(t: Term): nat {
    match t
    case Plain(d) => Nesting(d)
    case Group(d) => Nesting(d)
    case Lookaround(d, _, _) => Nesting(d)
    case Repeat(a, _, _, _) => 1 + TermNesting(a)
    case _ => 0
  }

  function AltNesting(a: Alternative): nat {
    match a
    case Empty => 0
    case Snoc(init, last) => Higher(AltNesting(init), TermNesting(last))
  }

  function Nesting(d: Disjunction): nat {
    match d
    case Single(a) => AltNesting(a)
    case Or(init, a) => Higher(Nesting(init), AltNesting(a))
  }

  /** A quantifier needs at most two places: a counter and a position. */
  lemma {:induction false} TermNeeds(t: Term, bw: bool)
    ensures TermLevels(t, bw) <= 2 * TermNesting(t)
    decreases t
  {
    match t {
      case Plain(d) => NestingBounds(d, bw);
      case Group(d) => NestingBounds(d, bw);
      case Lookaround(d, behind, _) => NestingBounds(d, behind);
      case Repeat(a, _, _, _) => TermNeeds(a, bw);
      case _ =>
    }
  }

  lemma {:induction false} AltNeeds(a: Alternative, bw: bool)
    ensures AltLevels(a, bw) <= 2 * AltNesting(a)
    decreases a
  {
    match a {
      case Empty =>
      case Snoc(init, last) =>
        AltNeeds(init, bw);
        TermNeeds(last, bw);
    }
  }

  lemma {:induction false} NestingBounds(d: Disjunction, bw: bool)
    ensures Levels(d, bw) <= 2 * Nesting(d)
    decreases d
  {
    match d {
      case Single(a) => AltNeeds(a, bw);
      case Or(init, a) =>
        NestingBounds(init, bw);
        AltNeeds(a, bw);
    }
  }

  // ----- the analyses of the code -----

  /** What the analyses find of some code. */
  ghost predicate Analysed(code: Code, simple: bool, straight: bool, some: bool) {
    && (AllSimple(code) <==> simple) && (AllPredictable(code) <==> straight) && (straight ==> (HasCharTest(code) <==> some))
    && (simple ==> straight)
  }

  lemma AnalysedConcat(a: Code, b: Code, s: bool, t: bool, r: bool, s1: bool, t1: bool, r1: bool)
    requires Analysed(a, s, t, r) && Analysed(b, s1, t1, r1)
    ensures Analysed(a + b, s && s1, t && t1, r || r1)
  {
    hide AllSimple, AllPredictable, HasCharTest;
    SimpleConcat(a, b);
    PredictableConcat(a, b);
  }

  lemma AnalysedOne(i: Instr)
    ensures Analysed([i], IsSimple(i), IsPredictable(i), IsCharTest(i))
  {
    PredictableOne(i);
    assert [i][0] == i;
  }

  lemma AnalysedNothing()
    ensures Analysed([], true, true, false)
  {
  }

  /** Code with an instruction that the analyses do not look through. */
  lemma NotAnalysed(code: Code, some: bool)
    requires !AllPredictable(code)
    ensures Analysed(code, false, false, some)
  {
  }

  lemma {:induction false} CountsChars(code: Code)
    ensures CharTests(code) > 0 <==> HasCharTest(code)
    decreases |code|
  {
    if code != [] {
      CountsChars(code[1..]);
      assert HasCharTest(code) <==> IsCharTest(code[0]) || HasCharTest(code[1..]) by {
        assert code == [code[0]] + code[1..];
        PredictableConcat([code[0]], code[1..]);
        PredictableOne(code[0]);
      }
    }
  }

  lemma AtomAnalysed(atom: Code, s: bool, t: bool, r: bool)
    requires Analysed(atom, s, t, r)
    ensures SimpleQuantifier(atom) > 0 <==> s && r
    ensures NeedCheckAdvance(atom) <==> !(t && r)
  {
    CountsChars(atom);
  }

  lemma RepeatAnalysed(atom: Code, s: bool, t: bool, r: bool, cc: nat, groups: nat, min: nat, max: nat, greedy: bool)
    requires Analysed(atom, s, t, r) && min <= max
    ensures Analysed(RepeatCode(atom, cc, groups, min, max, greedy),
                     if max == 0 then groups == 0 else Once(min, max) && s && !(greedy && r),
                     max == 0 || (Once(min, max) && t && !(greedy && s && r)),
                     Once(min, max) && r)
  {
    hide Analysed, SimpleQuantifier, NeedCheckAdvance, AllPredictable, HasCharTest, Size, CountedCode, StarCode, OptionalCode;
    var code := RepeatCode(atom, cc, groups, min, max, greedy);
    AtomAnalysed(atom, s, t, r);
    ImpliesStraight(atom, s, t, r);
    if max == 0 {
      AnalysedNothing();
      if groups > 0 {
        AnalysedOne(SaveReset(cc, cc + groups - 1));
      }
      assert code == if groups > 0 then [SaveReset(cc, cc + groups - 1)] else [];
    } else if Once(min, max) && !(greedy && s && r) {
      assert code == atom;
    } else {
      if AllPredictable(code) {
        RepeatShape(atom, cc, groups, min, max, greedy);
      }
      if Once(min, max) {
        assert code[0] == SimpleGreedyQuant(Size(atom) + 1, min, max, SimpleQuantifier(atom));
        Unpredictable(code, 0);
      }
      NotAnalysed(code, Once(min, max) && r);
    }
  }

  lemma ImpliesStraight(code: Code, s: bool, t: bool, r: bool)
    requires Analysed(code, s, t, r)
    ensures s ==> t
  {
  }

  lemma {:induction false} TermAnalysed(f: Flags, canon: CodePoint -> CodePoint, t: Term, bw: bool, cc: nat)
    requires TermWf(t)
    ensures Analysed(TermCode(f, canon, t, bw, cc), SimpleTerm(t, bw), StraightTerm(t, bw), ReadsTerm(t))
    decreases t
  {
    hide Analysed, AllPredictable, RepeatCode, DisjCode, CharTermInstr, IsPredictable, IsSimple, IsCharTest, Size;
    var code := TermCode(f, canon, t, bw, cc);
    match t {
      case Plain(d) => DisjAnalysed(f, canon, d, bw, cc);
      case Group(d) =>
        DisjAnalysed(f, canon, d, bw, cc + 1);
        GroupAnalysed(DisjCode(f, canon, d, bw, cc + 1), SimpleDisj(d, bw), StraightDisj(d, bw), ReadsDisj(d), bw, cc);
      case Lookaround(d, behind, negated) =>
        LookAnalysed(code);
      case Repeat(a, min, max, greedy) =>
        TermAnalysed(f, canon, a, bw, cc);
        RepeatAnalysed(TermCode(f, canon, a, bw, cc), SimpleTerm(a, bw), StraightTerm(a, bw), ReadsTerm(a), cc, TermGroups(a), min, max, greedy);
      case _ => LeafAnalysed(f, canon, t, bw, cc);
    }
  }

  predicate IsLeaf(t: Term) {
    !t.Plain? && !t.Group? && !t.Lookaround? && !t.Repeat?
  }

  lemma LeafAnalysed(f: Flags, canon: CodePoint -> CodePoint, t: Term, bw: bool, cc: nat)
    requires IsLeaf(t)
    ensures Analysed(TermCode(f, canon, t, bw, cc), SimpleTerm(t, bw), StraightTerm(t, bw), ReadsTerm(t))
  {
    hide Analysed;
    var code := TermCode(f, canon, t, bw, cc);
    if |code| == 1 {
      assert code == [code[0]];
      AnalysedOne(code[0]);
    } else {
      var i := code[1];
      assert code == [Prev] + [i] + [Prev];
      AnalysedOne(Prev);
      AnalysedOne(i);
      AnalysedConcat([Prev], [i], false, true, false, IsSimple(i), IsPredictable(i), IsCharTest(i));
      AnalysedConcat([Prev] + [i], [Prev], false, IsPredictable(i), IsCharTest(i), false, true, false);
    }
  }

  lemma GroupAnalysed(body: Code, s: bool, t: bool, r: bool, bw: bool, cc: nat)
    requires Analysed(body, s, t, r)
    ensures Analysed([Save(bw, cc)] + body + [Save(!bw, cc)], false, t, r)
  {
    hide Analysed;
    AnalysedOne(Save(bw, cc));
    AnalysedOne(Save(!bw, cc));
    AnalysedConcat([Save(bw, cc)], body, false, true, false, s, t, r);
    AnalysedConcat([Save(bw, cc)] + body, [Save(!bw, cc)], false, t, r, false, true, false);
  }

  lemma LookAnalysed(code: Code)
    requires code != [] && (code[0].Look? || code[0].Split?)
    ensures Analysed(code, false, false, false)
  {
    Unpredictable(code, 0);
    NotAnalysed(code, false);
  }

  lemma {:induction false} AltAnalysed(f: Flags, canon: CodePoint -> CodePoint, a: Alternative, bw: bool, cc: nat)
    requires AltWf(a)
    ensures Analysed(AltCode(f, canon, a, bw, cc), SimpleAlt(a, bw), StraightAlt(a, bw), ReadsAlt(a))
    decreases a
  {
    hide Analysed, TermCode, SimpleTerm, StraightTerm, ReadsTerm, TermWf;
    match a {
      case Empty => AnalysedNothing();
      case Snoc(init, last) =>
        AltAnalysed(f, canon, init, bw, cc);
        TermAnalysed(f, canon, last, bw, cc + AltGroups(init));
        var first := AltCode(f, canon, init, bw, cc);
        var next := TermCode(f, canon, last, bw, cc + AltGroups(init));
        AnalysedConcat(first, next, SimpleAlt(init, bw), StraightAlt(init, bw), ReadsAlt(init),
                       SimpleTerm(last, bw), StraightTerm(last, bw), ReadsTerm(last));
        AnalysedConcat(next, first, SimpleTerm(last, bw), StraightTerm(last, bw), ReadsTerm(last),
                       SimpleAlt(init, bw), StraightAlt(init, bw), ReadsAlt(init));
    }
  }

  lemma {:induction false} DisjAnalysed(f: Flags, canon: CodePoint -> CodePoint, d: Disjunction, bw: bool, cc: nat)
    requires Wf(d)
    ensures Analysed(DisjCode(f, canon, d, bw, cc), SimpleDisj(d, bw), StraightDisj(d, bw), ReadsDisj(d))
    decreases d
  {
    hide Analysed, AltCode, SimpleAlt, StraightAlt, ReadsAlt, AltWf;
    match d {
      case Single(a) => AltAnalysed(f, canon, a, bw, cc);
      case Or(init, a) => LookAnalysed(DisjCode(f, canon, d, bw, cc));
    }
  }

  // ----- the stack level of the code -----

  /** Balanced code that reaches the level l. */
  ghost predicate Reaching(code: Code, l: nat) {
    Net(code) == 0 && MaxDepth(code) == l
  }

  lemma ReachingConcat(a: Code, b: Code, l: nat, l': nat)
    requires Reaching(a, l) && Reaching(b, l')
    ensures Reaching(a + b, Higher(l, l'))
  {
    hide Net, MaxDepth;
    DepthConcat(a, b);
  }

  lemma ReachingOne(i: Instr)
    requires Effect(i) == 0
    ensures Reaching([i], 0)
  {
    OneLevel(i);
  }

  /** Code between an instruction that pushes, or not, and one that takes away again. */
  lemma ReachingAround(i: Instr, code: Code, j: Instr, l: nat)
    requires Reaching(code, l) && Effect(i) >= 0 && Effect(j) == -Effect(i)
    ensures Reaching([i] + code + [j], Effect(i) + l)
  {
    hide Net, MaxDepth, Effect;
    DepthConcat([i] + code, [j]);
    DepthConcat([i], code);
    OneLevel(i);
    OneLevel(j);
  }

  lemma OneLevel(i: Instr)
    ensures Net([i]) == Effect(i) && MaxDepth([i]) == if Effect(i) > 0 then Effect(i) else 0
  {
    assert [i][1..] == [];
  }

  lemma {:induction false} SimpleDepth(code: Code)
    requires AllSimple(code)
    ensures MaxDepth(code) == 0
    decreases |code|
  {
    if code != [] {
      assert IsSimple(code[0]);
      assert forall k | 0 <= k < |code[1..]| :: code[1..][k] == code[k + 1];
      SimpleDepth(code[1..]);
    }
  }

  lemma ReachingGuarded(atom: Code, check: bool, l: nat)
    requires Reaching(atom, l)
    ensures Reaching(Guarded(atom, check), if check then 1 + l else l)
  {
    hide Reaching;
    if check {
      ReachingAround(PushCharPos, atom, CheckAdvance, l);
    }
  }

  lemma ReachingLoops(atom: Code, check: bool, greedy: bool, n: nat, l: nat)
    requires Reaching(atom, l)
    ensures var x := if check then 1 + l else l;
            && Reaching(OptionalCode(atom, check, greedy), x) && Reaching(StarCode(atom, check, greedy), x)
            && Reaching(CountedCode(atom, check, greedy, n), 1 + x)
  {
    hide Reaching, Size, Guarded;
    var g, x := Guarded(atom, check), if check then 1 + l else l;
    ReachingGuarded(atom, check, l);
    ReachingOne(Split(greedy, Size(g)));
    ReachingConcat([Split(greedy, Size(g))], g, 0, x);
    ReachingAround(Split(greedy, Size(g) + 5), g, Goto(-(Size(g) + 10)), x);
    ReachingAround(Split(greedy, Size(g) + 5), g, Loop(-(Size(g) + 10)), x);
    ReachingAround(PushI32(n), [Split(greedy, Size(g) + 5)] + g + [Loop(-(Size(g) + 10))], Drop, x);
  }

  lemma ReachingMust(atom: Code, cc: nat, groups: nat, min: nat, l: nat)
    requires Reaching(atom, l)
    ensures Reaching(Prefix(atom, cc, groups, min), MustLevels(l, min))
  {
    hide Reaching, Size;
    ReachingNothing();
    if min > 1 {
      var loop := Loop(-(Size(atom) + 5));
      ReachingOne(loop);
      ReachingConcat(atom, [loop], l, 0);
      ReachingAround(PushI32(min), atom + [loop], Drop, l);
    } else if min == 0 && groups > 0 {
      ReachingOne(SaveReset(cc, cc + groups - 1));
    }
  }

  lemma ReachingNothing()
    ensures Reaching([], 0)
  {
  }

  lemma ReachingRepeat(atom: Code, l: nat, s: bool, t: bool, r: bool, cc: nat, groups: nat, min: nat, max: nat, greedy: bool)
    requires Reaching(atom, l) && Analysed(atom, s, t, r) && min <= max <= INT32_MAX
    ensures Reaching(RepeatCode(atom, cc, groups, min, max, greedy), RepeatLevels(l, greedy && s && r, t && r, min, max))
  {
    hide Reaching, Analysed, SimpleQuantifier, NeedCheckAdvance, Size, CountedCode, StarCode, OptionalCode, MandatoryCode;
    AtomAnalysed(atom, s, t, r);
    ReachingNothing();
    if greedy && max > 0 && SimpleQuantifier(atom) > 0 {
      SimpleIsFlat(atom, l, s, t, r);
      ReachingAround(SimpleGreedyQuant(Size(atom) + 1, min, max, SimpleQuantifier(atom)), atom, Match, l);
    } else if min == 1 && max == INT32_MAX && !NeedCheckAdvance(atom) {
      ReachingOne(Split(!greedy, -(Size(atom) + 5)));
      ReachingConcat(atom, [Split(!greedy, -(Size(atom) + 5))], l, 0);
    } else {
      ReachingMust(atom, cc, groups, min, l);
      ReachingLoops(atom, NeedCheckAdvance(atom), greedy, if max > min then max - min else 0, l);
      var x := if t && r then l else 1 + l;
      ReachingConcat(Prefix(atom, cc, groups, min), Remainder(atom, min, max, greedy), MustLevels(l, min), MayLevels(x, min, max));
    }
  }

  lemma SimpleIsFlat(atom: Code, l: nat, s: bool, t: bool, r: bool)
    requires Reaching(atom, l) && Analysed(atom, s, t, r) && s
    ensures l == 0
  {
    SimpleDepth(atom);
  }

  lemma {:induction false} TermReaches(f: Flags, canon: CodePoint -> CodePoint, t: Term, bw: bool, cc: nat)
    requires TermWf(t)
    ensures Reaching(TermCode(f, canon, t, bw, cc), TermLevels(t, bw))
    decreases t
  {
    hide Reaching, RepeatCode, DisjCode, CharTermInstr, Analysed, RepeatLevels, Size;
    match t {
      case Plain(d) => DisjReaches(f, canon, d, bw, cc);
      case Group(d) =>
        DisjReaches(f, canon, d, bw, cc + 1);
        ReachingAround(Save(bw, cc), DisjCode(f, canon, d, bw, cc + 1), Save(!bw, cc), Levels(d, bw));
      case Lookaround(d, behind, negated) =>
        var body := DisjCode(f, canon, d, behind, cc);
        DisjReaches(f, canon, d, behind, cc);
        ReachingAround(Look(negated, Size(body) + 1), body, Match, Levels(d, behind));
      case Repeat(a, min, max, greedy) =>
        TermReaches(f, canon, a, bw, cc);
        TermAnalysed(f, canon, a, bw, cc);
        ReachingRepeat(TermCode(f, canon, a, bw, cc), TermLevels(a, bw), SimpleTerm(a, bw), StraightTerm(a, bw), ReadsTerm(a),
                       cc, TermGroups(a), min, max, greedy);
      case _ => LeafReaches(f, canon, t, bw, cc);
    }
  }

  lemma LeafReaches(f: Flags, canon: CodePoint -> CodePoint, t: Term, bw: bool, cc: nat)
    requires IsLeaf(t)
    ensures Reaching(TermCode(f, canon, t, bw, cc), 0)
  {
    hide Reaching;
    var code := TermCode(f, canon, t, bw, cc);
    if |code| == 1 {
      assert code == [code[0]];
      ReachingOne(code[0]);
    } else {
      assert code == [Prev] + [code[1]] + [Prev];
      ReachingOne(code[1]);
      ReachingAround(Prev, [code[1]], Prev, 0);
    }
  }

  lemma {:induction false} AltReaches(f: Flags, canon: CodePoint -> CodePoint, a: Alternative, bw: bool, cc: nat)
    requires AltWf(a)
    ensures Reaching(AltCode(f, canon, a, bw, cc), AltLevels(a, bw))
    decreases a
  {
    hide Reaching, TermCode, TermLevels;
    match a {
      case Empty => ReachingNothing();
      case Snoc(init, last) =>
        AltReaches(f, canon, init, bw, cc);
        TermReaches(f, canon, last, bw, cc + AltGroups(init));
        var first := AltCode(f, canon, init, bw, cc);
        var next := TermCode(f, canon, last, bw, cc + AltGroups(init));
        ReachingConcat(first, next, AltLevels(init, bw), TermLevels(last, bw));
        ReachingConcat(next, first, TermLevels(last, bw), AltLevels(init, bw));
    }
  }

  lemma {:induction false} DisjReaches(f: Flags, canon: CodePoint -> CodePoint, d: Disjunction, bw: bool, cc: nat)
    requires Wf(d)
    ensures Reaching(DisjCode(f, canon, d, bw, cc), Levels(d, bw))
    decreases d
  {
    hide Reaching, AltCode, AltLevels, OrCode;
    match d {
      case Single(a) => AltReaches(f, canon, a, bw, cc);
      case Or(init, a) =>
        DisjReaches(f, canon, init, bw, cc);
        AltReaches(f, canon, a, bw, cc + Groups(init));
        OrReaches(DisjCode(f, canon, init, bw, cc), AltCode(f, canon, a, bw, cc + Groups(init)), Levels(init, bw), AltLevels(a, bw));
    }
  }

  lemma OrReaches(left: Code, right: Code, l: nat, l': nat)
    requires Reaching(left, l) && Reaching(right, l')
    ensures Reaching(OrCode(left, right), Higher(l, l'))
  {
    hide Reaching, Size;
    var i, j := Split(true, Size(left) + 5), Goto(Size(right));
    ReachingOne(i);
    ReachingOne(j);
    ReachingConcat([i], left, 0, l);
    ReachingConcat([j], right, 0, l');
    ReachingConcat([i] + left, [j] + right, l, l');
  }

  /** The stack size of a whole program. */
  lemma ProgramReaches(f: Flags, canon: CodePoint -> CodePoint, d: Disjunction, sticky: bool)
    requires Wf(d)
    ensures MaxDepth(ProgramCode(f, canon, d, sticky)) == Levels(d, false)
  {
    hide Reaching, DisjCode, Levels;
    var body, l := DisjCode(f, canon, d, false, 1), Levels(d, false);
    DisjReaches(f, canon, d, false, 1);
    ReachingAround(Save(false, 0), body, Save(true, 0), l);
    ReachingOne(Match);
    ReachingConcat([Save(false, 0)] + body + [Save(true, 0)], [Match], l, 0);
    SearchReaches(sticky);
    ReachingConcat(SearchLoop(sticky), WholeCode(f, canon, d), 0, l);
    ReachedLevel(ProgramCode(f, canon, d, sticky), l);
  }

  lemma ReachedLevel(code: Code, l: nat)
    requires Reaching(code, l)
    ensures MaxDepth(code) == l
  {
  }

  lemma SearchReaches(sticky: bool)
    ensures Reaching(SearchLoop(sticky), 0)
  {
    hide Reaching;
    ReachingNothing();
    ReachingOne(Any);
    ReachingAround(Split(false, 6), [Any], Goto(-11), 0);
    assert [Split(false, 6), Any, Goto(-11)] == [Split(false, 6)] + [Any] + [Goto(-11)];
  }

  // ----- which patterns compile -----

  /**
   For every pattern: with more than 254 groups it has too many captures; with at most 254 groups, of which the whole match is
   another one, it has too many quantifiers in each other if they need more than 255 places; and else it compiles.
   */
  lemma CompilesExactly(f: Flags, canon: CodePoint -> CodePoint, d: Disjunction, sticky: bool, reFlags: int)
    requires Wf(d)
    ensures var r := Compile(f, canon, d, sticky, reFlags);
            && (r == Err(TooManyCaptures) <==> Groups(d) > 254)
            && (r == Err(TooManyImbricatedQuantifiers) <==> Groups(d) <= 254 && Levels(d, false) > 255)
            && (r.Ok? <==> Groups(d) <= 254 && Levels(d, false) <= 255)
  {
    hide Levels, ProgramCode, MaxDepth, EncAll, Header, Size;
    ProgramReaches(f, canon, d, sticky);
  }

  /** At most 254 groups and quantifiers nested at most 127 deep are always enough. */
  lemma ShallowCompiles(f: Flags, canon: CodePoint -> CodePoint, d: Disjunction, sticky: bool, reFlags: int)
    requires Wf(d) && Groups(d) <= 254 && Nesting(d) <= 127
    ensures Compile(f, canon, d, sticky, reFlags).Ok?
  {
    hide Levels, Nesting, Compile;
    NestingBounds(d, false);
    CompilesExactly(f, canon, d, sticky, reFlags);
  }
}
