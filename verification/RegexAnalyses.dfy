/** Soundness of the two static analyses of an atom, against the reference matcher. */
module RegexAnalyses {
  import opened Bytes
  import opened RegexSyntax
  import opened RegexBytecode
  import opened RegexReference
  import opened RegexCompiler
  import opened RegexMachine
  import opened RegexClass

  lemma PredictableConcat(a: Code, b: Code)
    ensures AllPredictable(a + b) <==> AllPredictable(a) && AllPredictable(b)
    ensures HasCharTest(a + b) <==> HasCharTest(a) || HasCharTest(b)
  {
    assert forall k | 0 <= k < |a| :: (a + b)[k] == a[k];
    assert forall k | 0 <= k < |b| :: (a + b)[|a| + k] == b[k];
  }

  lemma PredictableOne(i: Instr)
    ensures AllPredictable([i]) <==> IsPredictable(i)
    ensures HasCharTest([i]) <==> IsCharTest(i)
  {
    assert [i][0] == i;
  }

  lemma Unpredictable(code: Code, k: nat)
    requires k < |code| && !IsPredictable(code[k])
    ensures !AllPredictable(code)
  {
  }

  lemma PredictableHead(code: Code)
    requires AllPredictable(code)
    ensures code != [] ==> IsPredictable(code[0])
  {
  }

  lemma LoopsUnpredictable(atom: Code, check: bool, greedy: bool, n: nat)
    ensures !AllPredictable(OptionalCode(atom, check, greedy))
    ensures !AllPredictable(StarCode(atom, check, greedy))
    ensures !AllPredictable(CountedCode(atom, check, greedy, n))
    ensures n != 1 ==> !AllPredictable(MandatoryCode(atom, n))
  {
    Unpredictable(OptionalCode(atom, check, greedy), 0);
    Unpredictable(StarCode(atom, check, greedy), 0);
    Unpredictable(CountedCode(atom, check, greedy, n), 1);
    if n != 1 {
      assert MandatoryCode(atom, n)[|atom| + 1] == Loop(-(Size(atom) + 5));
      Unpredictable(MandatoryCode(atom, n), |atom| + 1);
    }
  }

  lemma PartsShape(atom: Code, cc: nat, groups: nat, min: nat, max: nat, greedy: bool)
    requires min <= max
    ensures AllPredictable(Prefix(atom, cc, groups, min)) ==> min <= 1
    ensures AllPredictable(Remainder(atom, min, max, greedy)) ==> max == min && Remainder(atom, min, max, greedy) == []
  {
    hide AllPredictable, StarCode, CountedCode, OptionalCode, MandatoryCode, NeedCheckAdvance;
    LoopsUnpredictable(atom, NeedCheckAdvance(atom), greedy, min);
    LoopsUnpredictable(atom, NeedCheckAdvance(atom), greedy, max - min);
  }

  /** The only repetitions whose code both analyses look through are {0,0} and {1,1}. */
  lemma RepeatShape(atom: Code, cc: nat, groups: nat, min: nat, max: nat, greedy: bool)
    requires min <= max && AllPredictable(RepeatCode(atom, cc, groups, min, max, greedy))
    ensures min == max <= 1
    ensures RepeatCode(atom, cc, groups, min, max, greedy) == Prefix(atom, cc, groups, min)
    ensures min == 1 ==> Prefix(atom, cc, groups, min) == atom
  {
    hide Size, SimpleQuantifier, NeedCheckAdvance, AllPredictable, HasCharTest, Remainder;
    if greedy && max > 0 && SimpleQuantifier(atom) > 0 {
      Unpredictable(RepeatCode(atom, cc, groups, min, max, greedy), 0);
    } else if min == 1 && max == INT32_MAX && !NeedCheckAdvance(atom) {
      Unpredictable(RepeatCode(atom, cc, groups, min, max, greedy), |atom|);
    } else {
      PredictableConcat(Prefix(atom, cc, groups, min), Remainder(atom, min, max, greedy));
      PartsShape(atom, cc, groups, min, max, greedy);
    }
  }

  ghost predicate AllMoved(L: seq<St>, p: nat) { forall i | 0 <= i < |L| :: L[i].pos != p }

  /** When re_need_check_advance says no check is needed, every success of the atom moves the position. */
  lemma {:induction false} TermMoves(s: Subject, t: Term, bw: bool, cc: nat, st: St)
    requires TermWf(t) && !NeedCheckAdvance(TermCode(s.flags, s.canon, t, bw, cc))
    ensures AllMoved(MTerm(s, t, bw, cc, st), st.pos)
    decreases t, 1
  {
    var code := TermCode(s.flags, s.canon, t, bw, cc);
    PredictableHead(code);
    if |code| == 1 {
      assert code == [code[0]];
      PredictableOne(code[0]);
    }
    match t {
      case Plain(d) => DisjMoves(s, d, bw, cc, st);
      case Group(d) => GroupMoves(s, t, bw, cc, st);
      case Repeat(a, min, max, greedy) => RepeatMoves(s, t, bw, cc, st);
      case _ =>
    }
  }

  lemma {:induction false} GroupMoves(s: Subject, t: Term, bw: bool, cc: nat, st: St)
    requires t.Group? && TermWf(t) && !NeedCheckAdvance(TermCode(s.flags, s.canon, t, bw, cc))
    ensures AllMoved(MTerm(s, t, bw, cc, st), st.pos)
    decreases t, 0
  {
    hide AllPredictable, HasCharTest, DisjCode;
    var body := DisjCode(s.flags, s.canon, t.body, bw, cc + 1);
    PredictableConcat([Save(bw, cc)] + body, [Save(!bw, cc)]);
    PredictableConcat([Save(bw, cc)], body);
    PredictableOne(Save(bw, cc));
    PredictableOne(Save(!bw, cc));
    var st1 := SetCap(st, 2 * cc + (if bw then 1 else 0));
    DisjMoves(s, t.body, bw, cc + 1, st1);
    SetCapAllMoved(MDisj(s, t.body, bw, cc + 1, st1), 2 * cc + (if bw then 0 else 1), st.pos);
  }

  lemma SetCapAllMoved(L: seq<St>, i: nat, p: nat)
    requires AllMoved(L, p)
    ensures AllMoved(SetCapAll(L, i), p)
  {
    if L != [] {
      assert forall k | 0 <= k < |L[1..]| :: L[1..][k] == L[k + 1];
      SetCapAllMoved(L[1..], i, p);
    }
  }

  /** The only repetition that is predictable and tests a character is {1,1}. */
  lemma {:induction false} RepeatMoves(s: Subject, t: Term, bw: bool, cc: nat, st: St)
    requires t.Repeat? && TermWf(t) && !NeedCheckAdvance(TermCode(s.flags, s.canon, t, bw, cc))
    ensures AllMoved(MTerm(s, t, bw, cc, st), st.pos)
    decreases t, 0
  {
    var Repeat(a, min, max, greedy) := t;
    RepeatShape(TermCode(s.flags, s.canon, a, bw, cc), cc, TermGroups(a), min, max, greedy);
    if min == 1 {
      TermMoves(s, a, bw, cc, st);
      RepeatOnce(s, a, bw, cc, greedy, st);
    }
  }

  lemma RepeatOnce(s: Subject, a: Term, bw: bool, cc: nat, greedy: bool, st: St)
    ensures MRepeat(s, a, bw, cc, 1, Finite(1), greedy, st) == MTerm(s, a, bw, cc, st)
  {
    RepeatZero(s, a, bw, cc, greedy, MTerm(s, a, bw, cc, st));
  }

  /** No further iteration allowed: every state is its own only result. */
  lemma {:induction false} RepeatZero(s: Subject, a: Term, bw: bool, cc: nat, greedy: bool, L: seq<St>)
    ensures MRepeatAll(s, a, bw, cc, 0, Finite(0), greedy, L) == L
    decreases |L|
  {
    if L != [] {
      RepeatZero(s, a, bw, cc, greedy, L[1..]);
    }
  }

  lemma ConcatMoves(a: Code, b: Code)
    requires !NeedCheckAdvance(a + b)
    ensures !NeedCheckAdvance(a) || !NeedCheckAdvance(b)
  {
    PredictableConcat(a, b);
  }

  /** A straight-line alternative moves if some term of it moves, because no term moves back. */
  lemma {:induction false} AltMoves(s: Subject, a: Alternative, bw: bool, cc: nat, st: St)
    requires AltWf(a) && !NeedCheckAdvance(AltCode(s.flags, s.canon, a, bw, cc))
    ensures AllMoved(MAlt(s, a, bw, cc, st), st.pos)
    decreases a, 1
  {
    if a.Snoc? {
      if bw { AltMovesBackward(s, a, cc, st); } else { AltMovesForward(s, a, cc, st); }
    }
  }

  lemma {:induction false} AltMovesBackward(s: Subject, a: Alternative, cc: nat, st: St)
    requires a.Snoc? && AltWf(a) && !NeedCheckAdvance(AltCode(s.flags, s.canon, a, true, cc))
    ensures AllMoved(MAlt(s, a, true, cc, st), st.pos)
    decreases a, 0
  {
    hide NeedCheckAdvance, MTerm, TermCode, TermWf, AllMoved, Ahead;
    var cc1 := cc + AltGroups(a.init);
    var next := TermCode(s.flags, s.canon, a.last, true, cc1);
    ConcatMoves(next, AltCode(s.flags, s.canon, a.init, true, cc));
    if !NeedCheckAdvance(next) {
      TermMoves(s, a.last, true, cc1, st);
    }
    AltAllMoves(s, a.init, true, cc, MTerm(s, a.last, true, cc1, st), st);
  }

  lemma {:induction false} AltMovesForward(s: Subject, a: Alternative, cc: nat, st: St)
    requires a.Snoc? && AltWf(a) && !NeedCheckAdvance(AltCode(s.flags, s.canon, a, false, cc))
    ensures AllMoved(MAlt(s, a, false, cc, st), st.pos)
    decreases a, 0
  {
    hide NeedCheckAdvance, MTerm, TermCode, TermWf, AllMoved, Ahead;
    var first := AltCode(s.flags, s.canon, a.init, false, cc);
    ConcatMoves(first, TermCode(s.flags, s.canon, a.last, false, cc + AltGroups(a.init)));
    if !NeedCheckAdvance(first) {
      AltMoves(s, a.init, false, cc, st);
    }
    TermAllMoves(s, a.last, false, cc + AltGroups(a.init), MAlt(s, a.init, false, cc, st), st);
  }

  lemma AheadNotBack(s: Subject, bw: bool, st: St, r: St, q: St)
    requires Ahead(s, bw, st, r) && Ahead(s, bw, r, q) && (r.pos != st.pos || q.pos != r.pos)
    ensures q.pos != st.pos
  {
  }

  lemma {:induction false} TermAllMoves(s: Subject, t: Term, bw: bool, cc: nat, from: seq<St>, st: St)
    requires TermWf(t) && AllAhead(s, bw, st, from)
    requires AllMoved(from, st.pos) || !NeedCheckAdvance(TermCode(s.flags, s.canon, t, bw, cc))
    ensures AllMoved(MTermAll(s, t, bw, cc, from), st.pos)
    decreases t, 2, |from|
  {
    if from != [] {
      var L := MTerm(s, t, bw, cc, from[0]);
      if !AllMoved(from, st.pos) {
        TermMoves(s, t, bw, cc, from[0]);
      }
      assert Ahead(s, bw, st, from[0]);
      forall i | 0 <= i < |L| ensures L[i].pos != st.pos {
        AheadNotBack(s, bw, st, from[0], L[i]);
      }
      assert forall k | 0 <= k < |from[1..]| :: from[1..][k] == from[k + 1];
      TermAllMoves(s, t, bw, cc, from[1..], st);
    }
  }

  lemma {:induction false} AltAllMoves(s: Subject, a: Alternative, bw: bool, cc: nat, from: seq<St>, st: St)
    requires AltWf(a) && AllAhead(s, bw, st, from)
    requires AllMoved(from, st.pos) || !NeedCheckAdvance(AltCode(s.flags, s.canon, a, bw, cc))
    ensures AllMoved(MAltAll(s, a, bw, cc, from), st.pos)
    decreases a, 2, |from|
  {
    if from != [] {
      var L := MAlt(s, a, bw, cc, from[0]);
      if !AllMoved(from, st.pos) {
        AltMoves(s, a, bw, cc, from[0]);
      }
      assert Ahead(s, bw, st, from[0]);
      forall i | 0 <= i < |L| ensures L[i].pos != st.pos {
        AheadNotBack(s, bw, st, from[0], L[i]);
      }
      assert forall k | 0 <= k < |from[1..]| :: from[1..][k] == from[k + 1];
      AltAllMoves(s, a, bw, cc, from[1..], st);
    }
  }

  lemma {:induction false} DisjMoves(s: Subject, d: Disjunction, bw: bool, cc: nat, st: St)
    requires Wf(d) && !NeedCheckAdvance(DisjCode(s.flags, s.canon, d, bw, cc))
    ensures AllMoved(MDisj(s, d, bw, cc, st), st.pos)
    decreases d, 1
  {
    match d {
      case Single(a) => AltMoves(s, a, bw, cc, st);
      case Or(init, a) =>
        PredictableHead(DisjCode(s.flags, s.canon, d, bw, cc));
    }
  }

  // ----- simple quantifiers -----

  /** Running simple code straight through. */
  function RunSimple(s: Subject, code: Code, pos: nat): (r: Test)
    requires pos <= |s.input|
    ensures r.Moves? ==> pos <= r.pos <= |s.input|
    decreases |code|
  {
    if code == [] then Moves(pos)
    else
      match SimpleTest(s, code[0], pos)
      case Fails => Fails
      case Moves(q) => RunSimple(s, code[1..], q)
  }

  lemma {:induction false} RunSimpleConcat(s: Subject, a: Code, b: Code, pos: nat)
    requires pos <= |s.input|
    ensures RunSimple(s, a + b, pos) ==
            match RunSimple(s, a, pos) { case Fails => Fails case Moves(q) => RunSimple(s, b, q) }
    decreases |a|
  {
    if a == [] {
      assert a + b == b;
    } else {
      assert (a + b)[1..] == a[1..] + b;
      match SimpleTest(s, a[0], pos)
      case Fails =>
      case Moves(q) => RunSimpleConcat(s, a[1..], b, q);
    }
  }

  /** Every success of simple code moves by the number of its character tests. */
  lemma {:induction false} RunSimpleDistance(s: Subject, code: Code, pos: nat)
    requires pos <= |s.input| && AllSimple(code)
    ensures var r := RunSimple(s, code, pos); r.Moves? ==> r.pos == pos + CharTests(code)
    decreases |code|
  {
    if code != [] {
      assert IsSimple(code[0]);
      match SimpleTest(s, code[0], pos)
      case Fails =>
      case Moves(q) =>
        assert forall k | 0 <= k < |code[1..]| :: code[1..][k] == code[k + 1];
        RunSimpleDistance(s, code[1..], q);
    }
  }

  lemma SimpleConcat(a: Code, b: Code)
    ensures AllSimple(a + b) <==> AllSimple(a) && AllSimple(b)
  {
    assert forall k | 0 <= k < |a| :: (a + b)[k] == a[k];
    assert forall k | 0 <= k < |b| :: (a + b)[|a| + k] == b[k];
  }

  ghost function AtMostOne(r: Test, st: St): seq<St> {
    if r.Fails? then [] else [st.(pos := r.pos)]
  }

  /** An atom accepted by re_is_simple_quantifier is deterministic: the reference matcher has the one result, or
      none, that running the code gives. */
  lemma {:induction false} TermSimple(s: Subject, t: Term, bw: bool, cc: nat, st: St)
    requires TermWf(t) && st.pos <= |s.input|
    requires AllSimple(TermCode(s.flags, s.canon, t, bw, cc))
    ensures MTerm(s, t, bw, cc, st) == AtMostOne(RunSimple(s, TermCode(s.flags, s.canon, t, bw, cc), st.pos), st)
    decreases t, 1
  {
    var code := TermCode(s.flags, s.canon, t, bw, cc);
    SimpleHead(code);
    match t {
      case Plain(d) => DisjSimple(s, d, bw, cc, st);
      case Repeat(a, min, max, greedy) => RepeatSimple(s, t, bw, cc, st);
      case Bol => AssertionSimple(s, t, bw, cc, st);
      case Eol => AssertionSimple(s, t, bw, cc, st);
      case Boundary(n) => AssertionSimple(s, t, bw, cc, st);
      case Group(d) =>
      case Lookaround(d, behind, negated) =>
      case Reference(n) =>
      case _ =>
        if !bw {
          assert code[0] == CharTermInstr(s.flags, s.canon, t) && code[1..] == [];
          CharTestMeaning(s, t, if st.pos < |s.input| then s.input[st.pos] else 0);
        }
    }
  }

  lemma AssertionSimple(s: Subject, t: Term, bw: bool, cc: nat, st: St)
    requires (t.Bol? || t.Eol? || t.Boundary?) && st.pos <= |s.input|
    ensures MTerm(s, t, bw, cc, st) == AtMostOne(RunSimple(s, TermCode(s.flags, s.canon, t, bw, cc), st.pos), st)
  {
    var code := TermCode(s.flags, s.canon, t, bw, cc);
    assert code[1..] == [];
    assert AssertionTest(s, code[0], st.pos) <==> Holds(s, t, st.pos);
  }

  lemma {:induction false} RepeatSimple(s: Subject, t: Term, bw: bool, cc: nat, st: St)
    requires t.Repeat? && TermWf(t) && st.pos <= |s.input|
    requires AllSimple(TermCode(s.flags, s.canon, t, bw, cc))
    ensures MTerm(s, t, bw, cc, st) == AtMostOne(RunSimple(s, TermCode(s.flags, s.canon, t, bw, cc), st.pos), st)
    decreases t, 0
  {
    var Repeat(a, min, max, greedy) := t;
    SimpleHead(TermCode(s.flags, s.canon, t, bw, cc));
    RepeatShape(TermCode(s.flags, s.canon, a, bw, cc), cc, TermGroups(a), min, max, greedy);
    if min == 1 {
      TermSimple(s, a, bw, cc, st);
      RepeatOnce(s, a, bw, cc, greedy, st);
    }
  }

  lemma SimpleHead(code: Code)
    requires AllSimple(code)
    ensures AllPredictable(code) && (code != [] ==> IsSimple(code[0]))
  {
  }

  lemma TermAllOne(s: Subject, t: Term, bw: bool, cc: nat, st: St)
    ensures MTermAll(s, t, bw, cc, [st]) == MTerm(s, t, bw, cc, st)
  {
    assert [st][1..] == [];
  }

  lemma AltAllOne(s: Subject, a: Alternative, bw: bool, cc: nat, st: St)
    ensures MAltAll(s, a, bw, cc, [st]) == MAlt(s, a, bw, cc, st)
  {
    assert [st][1..] == [];
  }

  lemma {:induction false} AltSimple(s: Subject, a: Alternative, bw: bool, cc: nat, st: St)
    requires AltWf(a) && st.pos <= |s.input|
    requires AllSimple(AltCode(s.flags, s.canon, a, bw, cc))
    ensures MAlt(s, a, bw, cc, st) == AtMostOne(RunSimple(s, AltCode(s.flags, s.canon, a, bw, cc), st.pos), st)
    decreases a, 1
  {
    if a.Snoc? {
      if bw { AltSimpleBackward(s, a, cc, st); } else { AltSimpleForward(s, a, cc, st); }
    }
  }

  lemma {:induction false} AltSimpleBackward(s: Subject, a: Alternative, cc: nat, st: St)
    requires a.Snoc? && AltWf(a) && st.pos <= |s.input|
    requires AllSimple(AltCode(s.flags, s.canon, a, true, cc))
    ensures MAlt(s, a, true, cc, st) == AtMostOne(RunSimple(s, AltCode(s.flags, s.canon, a, true, cc), st.pos), st)
    decreases a, 0
  {
    hide MTerm, TermCode, AllSimple, RunSimple, TermWf;
    var cc1 := cc + AltGroups(a.init);
    var first := AltCode(s.flags, s.canon, a.init, true, cc);
    var next := TermCode(s.flags, s.canon, a.last, true, cc1);
    SimpleConcat(next, first);
    RunSimpleConcat(s, next, first, st.pos);
    TermSimple(s, a.last, true, cc1, st);
    match RunSimple(s, next, st.pos)
    case Fails =>
    case Moves(q) =>
      AltSimple(s, a.init, true, cc, st.(pos := q));
      AltAllOne(s, a.init, true, cc, st.(pos := q));
  }

  lemma {:induction false} AltSimpleForward(s: Subject, a: Alternative, cc: nat, st: St)
    requires a.Snoc? && AltWf(a) && st.pos <= |s.input|
    requires AllSimple(AltCode(s.flags, s.canon, a, false, cc))
    ensures MAlt(s, a, false, cc, st) == AtMostOne(RunSimple(s, AltCode(s.flags, s.canon, a, false, cc), st.pos), st)
    decreases a, 0
  {
    hide MTerm, TermCode, AllSimple, RunSimple, TermWf;
    var cc1 := cc + AltGroups(a.init);
    var first := AltCode(s.flags, s.canon, a.init, false, cc);
    var next := TermCode(s.flags, s.canon, a.last, false, cc1);
    SimpleConcat(first, next);
    RunSimpleConcat(s, first, next, st.pos);
    AltSimple(s, a.init, false, cc, st);
    match RunSimple(s, first, st.pos)
    case Fails =>
    case Moves(q) =>
      TermSimple(s, a.last, false, cc1, st.(pos := q));
      TermAllOne(s, a.last, false, cc1, st.(pos := q));
  }

  lemma {:induction false} DisjSimple(s: Subject, d: Disjunction, bw: bool, cc: nat, st: St)
    requires Wf(d) && st.pos <= |s.input|
    requires AllSimple(DisjCode(s.flags, s.canon, d, bw, cc))
    ensures MDisj(s, d, bw, cc, st) == AtMostOne(RunSimple(s, DisjCode(s.flags, s.canon, d, bw, cc), st.pos), st)
    decreases d, 1
  {
    match d {
      case Single(a) => AltSimple(s, a, bw, cc, st);
      case Or(init, a) =>
        SimpleHead(DisjCode(s.flags, s.canon, d, bw, cc));
    }
  }
}
