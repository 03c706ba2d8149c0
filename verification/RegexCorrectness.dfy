/** Compiler correctness: the emitted code, run by the backtracking machine, enumerates the reference results. */
module RegexCorrectness {
  import opened Bytes
  import opened Wrappers
  import opened RegexSyntax
  import opened RegexBytecode
  import opened RegexReference
  import opened RegexCompiler
  import opened RegexMachine
  import opened RegexSimulation
  import opened RegexClass
  import opened RegexAnalyses
  import opened RegexGreedy

  /** The state is inside the input and has a slot for each of the first n groups. */
  ghost predicate Good(p: Program, st: St, n: nat) {
    st.pos <= |p.subject.input| && 2 * n <= |st.caps|
  }

  function Code1(p: Program, t: Term, bw: bool, cc: nat): Code { TermCode(p.subject.flags, p.subject.canon, t, bw, cc) }

  function CodeA(p: Program, a: Alternative, bw: bool, cc: nat): Code { AltCode(p.subject.flags, p.subject.canon, a, bw, cc) }

  function CodeD(p: Program, d: Disjunction, bw: bool, cc: nat): Code { DisjCode(p.subject.flags, p.subject.canon, d, bw, cc) }

  lemma AheadGood(p: Program, bw: bool, st: St, L: seq<St>, n: nat)
    requires Good(p, st, n) && AllAhead(p.subject, bw, st, L)
    ensures forall i | 0 <= i < |L| :: Good(p, L[i], n)
  {
    forall i | 0 <= i < |L| ensures Good(p, L[i], n) {
      assert Ahead(p.subject, bw, st, L[i]);
    }
  }

  // ----- every fragment leaves the value stack as it found it -----

  lemma {:induction false} TermBalanced(f: Flags, canon: CodePoint -> CodePoint, t: Term, bw: bool, cc: nat)
    ensures Net(TermCode(f, canon, t, bw, cc)) == 0
    decreases t
  {
    hide RepeatCode, DisjCode, Size, Net;
    match t {
      case Plain(d) => DisjBalanced(f, canon, d, bw, cc);
      case Group(d) =>
        DisjBalanced(f, canon, d, bw, cc + 1);
        NetAround(Save(bw, cc), DisjCode(f, canon, d, bw, cc + 1), Save(!bw, cc));
      case Lookaround(d, behind, negated) =>
        var body := DisjCode(f, canon, d, behind, cc);
        DisjBalanced(f, canon, d, behind, cc);
        NetAround(Look(negated, Size(body) + 1), body, Match);
      case Repeat(a, min, max, greedy) =>
        TermBalanced(f, canon, a, bw, cc);
        RepeatBalanced(TermCode(f, canon, a, bw, cc), cc, TermGroups(a), min, max, greedy);
      case Bol => NetOne(LineStart(f.multiLine));
      case Eol => NetOne(LineEnd(f.multiLine));
      case Boundary(n) => NetOne(WordBoundary(n, f.ignoreCase));
      case Reference(n) => NetOne(BackRef(bw, f.ignoreCase, n));
      case _ =>
        var i := CharTermInstr(f, canon, t);
        NetOne(i);
        NetAround(Prev, [i], Prev);
        assert [Prev, i, Prev] == [Prev] + [i] + [Prev];
    }
  }

  lemma NetAround(i: Instr, code: Code, j: Instr)
    ensures Net([i] + code + [j]) == Effect(i) + Net(code) + Effect(j)
  {
    DepthConcat([i] + code, [j]);
    DepthConcat([i], code);
    NetOne(i);
    NetOne(j);
  }

  lemma NetOne(i: Instr)
    ensures Net([i]) == Effect(i)
  {
    assert [i][1..] == [];
  }

  lemma GuardedBalanced(atom: Code, check: bool)
    requires Net(atom) == 0
    ensures Net(Guarded(atom, check)) == 0
  {
    if check { NetAround(PushCharPos, atom, CheckAdvance); }
  }

  lemma LoopsBalanced(atom: Code, check: bool, greedy: bool, n: nat)
    requires Net(atom) == 0
    ensures Net(OptionalCode(atom, check, greedy)) == Net(StarCode(atom, check, greedy)) == 0
    ensures Net(CountedCode(atom, check, greedy, n)) == Net(MandatoryCode(atom, n)) == 0
  {
    var g := Guarded(atom, check);
    GuardedBalanced(atom, check);
    DepthConcat([Split(greedy, Size(g))], g);
    NetOne(Split(greedy, Size(g)));
    NetAround(Split(greedy, Size(g) + 5), g, Goto(-(Size(g) + 10)));
    NetAround(Split(greedy, Size(g) + 5), g, Loop(-(Size(g) + 10)));
    NetAround(PushI32(n), [Split(greedy, Size(g) + 5)] + g + [Loop(-(Size(g) + 10))], Drop);
    var l := Loop(-(Size(atom) + 5));
    DepthConcat(atom, [l]);
    NetOne(l);
    NetAround(PushI32(n), atom + [l], Drop);
  }

  lemma RepeatBalanced(atom: Code, cc: nat, groups: nat, min: nat, max: nat, greedy: bool)
    requires Net(atom) == 0
    ensures Net(RepeatCode(atom, cc, groups, min, max, greedy)) == 0
  {
    hide StarCode, CountedCode, OptionalCode, MandatoryCode, Size, SimpleQuantifier, NeedCheckAdvance;
    var check := NeedCheckAdvance(atom);
    if greedy && max > 0 && SimpleQuantifier(atom) > 0 {
      NetAround(SimpleGreedyQuant(Size(atom) + 1, min, max, SimpleQuantifier(atom)), atom, Match);
    } else if min == 1 && max == INT32_MAX && !check {
      DepthConcat(atom, [Split(!greedy, -(Size(atom) + 5))]);
      NetOne(Split(!greedy, -(Size(atom) + 5)));
    } else {
      LoopsBalanced(atom, check, greedy, max);
      LoopsBalanced(atom, check, greedy, if max > min then max - min else 0);
      LoopsBalanced(atom, check, greedy, min);
      NetOne(SaveReset(cc, if groups > 0 then cc + groups - 1 else 0));
      var pre := Prefix(atom, cc, groups, min);
      var rest := Remainder(atom, min, max, greedy);
      DepthConcat(pre, rest);
    }
  }

  lemma NetNothing()
    ensures Net([]) == 0
  {
  }

  lemma {:induction false} AltBalanced(f: Flags, canon: CodePoint -> CodePoint, a: Alternative, bw: bool, cc: nat)
    ensures Net(AltCode(f, canon, a, bw, cc)) == 0
    decreases a
  {
    hide Net, MaxDepth, TermCode;
    NetNothing();
    match a {
      case Empty =>
      case Snoc(init, last) =>
        AltBalanced(f, canon, init, bw, cc);
        TermBalanced(f, canon, last, bw, cc + AltGroups(init));
        var first := AltCode(f, canon, init, bw, cc);
        var next := TermCode(f, canon, last, bw, cc + AltGroups(init));
        DepthConcat(first, next);
        DepthConcat(next, first);
    }
  }

  lemma {:induction false} DisjBalanced(f: Flags, canon: CodePoint -> CodePoint, d: Disjunction, bw: bool, cc: nat)
    ensures Net(DisjCode(f, canon, d, bw, cc)) == 0
    decreases d
  {
    hide Net, AltCode, OrCode;
    match d {
      case Single(a) => AltBalanced(f, canon, a, bw, cc);
      case Or(init, a) =>
        DisjBalanced(f, canon, init, bw, cc);
        AltBalanced(f, canon, a, bw, cc + Groups(init));
        OrBalanced(DisjCode(f, canon, init, bw, cc), AltCode(f, canon, a, bw, cc + Groups(init)));
    }
  }

  lemma OrBalanced(left: Code, right: Code)
    requires Net(left) == Net(right) == 0
    ensures Net(OrCode(left, right)) == 0
  {
    hide Net, MaxDepth, Size;
    DepthConcat([Split(true, Size(left) + 5)] + left, [Goto(Size(right))] + right);
    DepthConcat([Split(true, Size(left) + 5)], left);
    DepthConcat([Goto(Size(right))], right);
    NetOne(Split(true, Size(left) + 5));
    NetOne(Goto(Size(right)));
  }

  // ----- single characters -----

  lemma DirectedRuns(p: Program, t: Term, bw: bool, cc: nat, pc: int, st: St, stack: seq<nat>)
    requires (t.Character? || t.Period? || t.Class?) && TermWf(t)
    requires Fits(p, pc, Code1(p, t, bw, cc), |stack|) && Good(p, st, 0)
    ensures Yields(p, pc, st, stack, MTerm(p.subject, t, bw, cc, st), pc + Size(Code1(p, t, bw, cc)), stack)
  {
    hide Fits, Yields, Fetch, TermWf, CharTermInstr, Size, OneChar;
    var i := CharTermInstr(p.subject.flags, p.subject.canon, t);
    if bw {
      BackwardCharRuns(p, t, i, pc, st, stack);
    } else {
      ForwardCharRuns(p, t, i, pc, st, stack);
    }
  }

  lemma ForwardCharRuns(p: Program, t: Term, i: Instr, pc: int, st: St, stack: seq<nat>)
    requires (t.Character? || t.Period? || t.Class?) && TermWf(t) && i == CharTermInstr(p.subject.flags, p.subject.canon, t)
    requires Fits(p, pc, [i], |stack|) && Good(p, st, 0)
    ensures Yields(p, pc, st, stack, OneChar(p.subject, t, false, st), pc + Size([i]), stack)
  {
    hide Fits, Yields, Fetch, Accepts, CharTest, TermWf, CharTermInstr, Size, InstrSize;
    var s := p.subject;
    EncAllOne(i);
    FitsFetch(p, pc, i, |stack|);
    CharTestMeaning(s, t, if st.pos < |s.input| then s.input[st.pos] else 0);
    SimpleRuns(p, pc, i, st, stack);
  }

  lemma BackwardCharRuns(p: Program, t: Term, i: Instr, pc: int, st: St, stack: seq<nat>)
    requires (t.Character? || t.Period? || t.Class?) && TermWf(t) && i == CharTermInstr(p.subject.flags, p.subject.canon, t)
    requires Fits(p, pc, [Prev, i, Prev], |stack|) && Good(p, st, 0)
    ensures Yields(p, pc, st, stack, OneChar(p.subject, t, true, st), pc + Size([Prev, i, Prev]), stack)
  {
    hide Fits, Yields, Fetch, Accepts, CharTest, TermWf, CharTermInstr, Size, InstrSize;
    var s := p.subject;
    var pc2 := pc + 1 + InstrSize(i);
    AroundSize(i);
    FitsHead(p, pc, Prev, [i] + [Prev], |stack|);
    CharTestMeaning(s, t, if st.pos > 0 then s.input[st.pos - 1] else 0);
    FitsHead(p, pc + 1, i, [Prev], |stack|);
    FitsFetch(p, pc2, Prev, |stack|);
    PrevRuns(p, pc, st, stack);
    var L := OneChar(s, t, true, st);
    if st.pos > 0 {
      var st1 := st.(pos := st.pos - 1);
      SimpleRuns(p, pc + 1, i, st1, stack);
      PrevRuns(p, pc2, st, stack);
      YieldsChain(p, pc + 1, st1, stack, if L == [] then [] else [st], pc2, stack, L, pc2 + 1, stack);
    }
    YieldsChain(p, pc, st, stack, StepBack(st), pc + 1, stack, L, pc2 + 1, stack);
  }

  lemma AroundSize(i: Instr)
    ensures [Prev, i, Prev] == [Prev] + ([i] + [Prev]) && InstrSize(Prev) == 1
    ensures Size([Prev, i, Prev]) == InstrSize(i) + 2
  {
    assert [Prev, i, Prev][1..] == [i, Prev] && [i, Prev][1..] == [Prev] && [Prev][1..] == [];
    assert Size([Prev]) == 1;
    assert Size([i, Prev]) == InstrSize(i) + Size([Prev]);
    assert Size([Prev, i, Prev]) == 1 + Size([i, Prev]);
  }

  ghost function StepBack(st: St): seq<St> { if st.pos == 0 then [] else [st.(pos := st.pos - 1)] }

  lemma PrevRuns(p: Program, pc: int, st: St, stack: seq<nat>)
    requires Fetch(p.code, pc) == Some(Prev) && st.pos <= |p.subject.input|
    ensures Yields(p, pc, st, stack, StepBack(st), pc + 1, stack)
  {
    hide Fetch, Yields;
    if st.pos == 0 {
      YieldsFail(p, pc, st, stack, Prev, pc + 1, stack);
    } else {
      YieldsOne(p, pc, st, stack, Prev, pc + 1, st.(pos := st.pos - 1), stack);
    }
  }

  /** An opcode that only tests the input. */
  lemma SimpleRuns(p: Program, pc: int, i: Instr, st: St, stack: seq<nat>)
    requires IsSimple(i) && Fetch(p.code, pc) == Some(i) && st.pos <= |p.subject.input|
    ensures Yields(p, pc, st, stack, AtMostOne(SimpleTest(p.subject, i, st.pos), st), pc + InstrSize(i), stack)
  {
    hide Fetch, Exec, SimpleTest, Yields, InstrSize;
    ExecSimple(p, i, pc + InstrSize(i), st, stack);
    match SimpleTest(p.subject, i, st.pos)
    case Fails => YieldsFail(p, pc, st, stack, i, pc + InstrSize(i), stack);
    case Moves(q) => YieldsOne(p, pc, st, stack, i, pc + InstrSize(i), st.(pos := q), stack);
  }

  lemma ExecSimple(p: Program, i: Instr, next: int, st: St, stack: seq<nat>)
    requires IsSimple(i) && st.pos <= |p.subject.input|
    ensures forall K :: Exec(p, i, next, st, stack, K) ==
              match SimpleTest(p.subject, i, st.pos) { case Fails => Fail(K) case Moves(q) => Run(next, st.(pos := q), stack, K) }
  {
    hide SimpleTest;
  }

  // ----- back references -----

  lemma SameCharShift(s: Subject, a: nat, b: nat, i: nat)
    ensures SameChar(s, a, b, i + 1) <==> SameChar(s, a + 1, b + 1, i)
  {
  }

  lemma SameTextTail(s: Subject, a: nat, b: nat, n: nat)
    requires n > 0 && SameText(s, a, b, n)
    ensures SameText(s, a + 1, b + 1, n - 1)
  {
    forall i: nat {:trigger SameChar(s, a + 1, b + 1, i)} | i < n - 1 ensures SameChar(s, a + 1, b + 1, i) {
      assert SameChar(s, a, b, i + 1);
    }
  }

  lemma {:induction false} WalkForwardMeaning(s: Subject, from: nat, end: nat, pos: nat)
    requires from <= end && pos <= |s.input|
    ensures WalkForward(s, s.flags.ignoreCase, from, end, pos) ==
            if SameText(s, from, pos, end - from) then Moves(pos + (end - from)) else Fails
    decreases end - from
  {
    if from < end {
      if SameChar(s, from, pos, 0) {
        WalkForwardMeaning(s, from + 1, end, pos + 1);
        if SameText(s, from, pos, end - from) {
          SameTextTail(s, from, pos, end - from);
        }
        if SameText(s, from + 1, pos + 1, end - from - 1) {
          forall i: nat | i < end - from ensures SameChar(s, from, pos, i) {
            if i > 0 { SameCharShift(s, from, pos, i - 1); }
          }
        }
      }
    }
  }

  lemma {:induction false} WalkBackwardMeaning(s: Subject, start: nat, from: nat, pos: nat)
    requires start <= from && pos <= |s.input|
    ensures WalkBackward(s, s.flags.ignoreCase, start, from, pos) ==
            if from - start <= pos && SameText(s, start, pos - (from - start), from - start) then Moves(pos - (from - start)) else Fails
    decreases from
  {
    if from > start {
      var n := from - start;
      if pos > 0 {
        WalkBackwardMeaning(s, start, from - 1, pos - 1);
        if n <= pos {
          assert SameChar(s, start, pos - n, n - 1) <==>
                 from <= |s.input| && Fold(s, s.input[from - 1]) == Fold(s, s.input[pos - 1]);
        }
      }
    }
  }

  lemma BackRefRuns(p: Program, n: nat, bw: bool, cc: nat, pc: int, st: St, stack: seq<nat>)
    requires Fetch(p.code, pc) == Some(BackRef(bw, p.subject.flags.ignoreCase, n)) && Good(p, st, 0)
    ensures Yields(p, pc, st, stack, MReference(p.subject, n, bw, st), pc + 2, stack)
  {
    hide Fetch, Yields, SameText, WalkForward, WalkBackward;
    var s := p.subject;
    var i := BackRef(bw, s.flags.ignoreCase, n);
    if 2 * n + 1 < |st.caps| && st.caps[2 * n].Some? && st.caps[2 * n + 1].Some? {
      WalkMeaning(s, bw, st.caps[2 * n].value, st.caps[2 * n + 1].value, st.pos);
    }
    match BackRefTest(s, bw, s.flags.ignoreCase, n, st)
    case Fails => YieldsFail(p, pc, st, stack, i, pc + 2, stack);
    case Moves(q) => YieldsOne(p, pc, st, stack, i, pc + 2, st.(pos := q), stack);
  }

  lemma WalkMeaning(s: Subject, bw: bool, start: nat, end: nat, pos: nat)
    requires pos <= |s.input|
    ensures var n := if start <= end then end - start else 0;
            && WalkForward(s, s.flags.ignoreCase, start, end, pos) == (if SameText(s, start, pos, n) then Moves(pos + n) else Fails)
            && WalkBackward(s, s.flags.ignoreCase, start, end, pos) ==
               (if n <= pos && SameText(s, start, pos - n, n) then Moves(pos - n) else Fails)
  {
    if start <= end {
      WalkForwardMeaning(s, start, end, pos);
      WalkBackwardMeaning(s, start, end, pos);
    }
  }

  // ----- layout of the composite fragments -----

  lemma GroupLayout(p: Program, pc: int, i: Instr, body: Code, j: Instr, n: int)
    requires Fits(p, pc, [i] + body + [j], n) && Net(body) == 0 && n + Effect(i) >= 0
    ensures pc >= 0 && Fetch(p.code, pc) == Some(i) && n + Effect(i) <= p.stackMax
    ensures Fits(p, pc + InstrSize(i), body, n + Effect(i))
    ensures Fetch(p.code, pc + InstrSize(i) + Size(body)) == Some(j)
    ensures Size([i] + body + [j]) == InstrSize(i) + Size(body) + InstrSize(j)
  {
    hide Fits, Fetch, Size, Net, InstrSize;
    assert [i] + body + [j] == [i] + (body + [j]);
    FitsHead(p, pc, i, body + [j], n);
    FitsLast(p, pc + InstrSize(i), body, j, n + Effect(i));
  }

  // ----- repetition -----

  lemma {:induction false} RepeatAllBind(s: Subject, a: Term, bw: bool, cc: nat, min: nat, max: Count, greedy: bool,
                                         L: seq<St>, f: St -> seq<St>)
    requires forall r :: f(r) == MRepeat(s, a, bw, cc, min, max, greedy, r)
    ensures Bind(L, f) == MRepeatAll(s, a, bw, cc, min, max, greedy, L)
    decreases |L|
  {
    if L != [] {
      RepeatAllBind(s, a, bw, cc, min, max, greedy, L[1..], f);
    }
  }

  lemma {:induction false} MovedBind(L: seq<St>, pos: nat, f: St -> seq<St>)
    requires forall r :: f(r) == if r.pos != pos then [r] else []
    ensures Bind(L, f) == Moved(L, pos)
    decreases |L|
  {
    if L != [] {
      MovedBind(L[1..], pos, f);
    }
  }

  lemma {:induction false} MovedAll(L: seq<St>, pos: nat)
    requires AllMoved(L, pos)
    ensures Moved(L, pos) == L
    decreases |L|
  {
    if L != [] {
      assert forall i | 0 <= i < |L[1..]| :: L[1..][i] == L[i + 1];
      MovedAll(L[1..], pos);
    }
  }

  /** An iteration after the mandatory ones: its results that have moved. */
  lemma {:induction false} GuardedRuns(p: Program, a: Term, bw: bool, cc: nat, pc: int, st: St, stack: seq<nat>)
    requires TermWf(a) && Good(p, st, cc + TermGroups(a))
    requires var atom := Code1(p, a, bw, cc); Fits(p, pc, Guarded(atom, NeedCheckAdvance(atom)), |stack|)
    ensures var atom := Code1(p, a, bw, cc);
            Yields(p, pc, st, stack, Moved(MTerm(p.subject, a, bw, cc, st), st.pos),
                   pc + Size(Guarded(atom, NeedCheckAdvance(atom))), stack)
    decreases a, 2
  {
    hide Fits, Yields, Fetch, NeedCheckAdvance, Size, MTerm, TermWf, Moved, TermCode;
    var atom := Code1(p, a, bw, cc);
    var L := MTerm(p.subject, a, bw, cc, st);
    if NeedCheckAdvance(atom) {
      var pc1, pc2 := pc + 1, pc + 1 + Size(atom);
      TermBalanced(p.subject.flags, p.subject.canon, a, bw, cc);
      GroupLayout(p, pc, PushCharPos, atom, CheckAdvance, |stack|);
      TermRuns(p, a, bw, cc, pc1, st, stack + [st.pos]);
      AheadGood(p, bw, st, L, cc + TermGroups(a));
      CheckedRuns(p, pc1, st, stack, L, pc2);
      PushPosStep(p, pc, st, stack, Moved(L, st.pos), pc2 + 1, stack);
    } else {
      TermRuns(p, a, bw, cc, pc, st, stack);
      TermMoves(p.subject, a, bw, cc, st);
      MovedAll(L, st.pos);
    }
  }

  /** The check, behind every result of the atom. */
  lemma CheckedRuns(p: Program, pc: int, st: St, stack: seq<nat>, L: seq<St>, mid: int)
    requires Yields(p, pc, st, stack + [st.pos], L, mid, stack + [st.pos]) && Fetch(p.code, mid) == Some(CheckAdvance)
    requires forall i | 0 <= i < |L| :: L[i].pos <= |p.subject.input|
    ensures Yields(p, pc, st, stack + [st.pos], Moved(L, st.pos), mid + 1, stack)
  {
    hide Yields, Fetch, Moved, Bind;
    var f := (r: St) => if r.pos != st.pos then [r] else [];
    forall i | 0 <= i < |L| ensures Yields(p, mid, L[i], stack + [st.pos], f(L[i]), mid + 1, stack) {
      CheckRuns(p, mid, L[i], stack, st.pos);
    }
    YieldsThen(p, pc, st, stack + [st.pos], L, mid, stack + [st.pos], f, mid + 1, stack);
    MovedBind(L, st.pos, f);
  }

  lemma CheckRuns(p: Program, pc: int, st: St, stack: seq<nat>, pos: nat)
    requires Fetch(p.code, pc) == Some(CheckAdvance) && st.pos <= |p.subject.input|
    ensures Yields(p, pc, st, stack + [pos], if st.pos != pos then [st] else [], pc + 1, stack)
  {
    hide Fetch, Yields;
    var stack1 := stack + [pos];
    assert stack1[..|stack1| - 1] == stack;
    if st.pos != pos {
      YieldsOne(p, pc, st, stack1, CheckAdvance, pc + 1, st, stack);
    } else {
      YieldsFail(p, pc, st, stack1, CheckAdvance, pc + 1, stack);
    }
  }

  lemma PushPosStep(p: Program, pc: int, st: St, stack: seq<nat>, L: seq<St>, end: int, stack2: seq<nat>)
    requires Fetch(p.code, pc) == Some(PushCharPos) && st.pos <= |p.subject.input| && |stack| < p.stackMax
    requires Yields(p, pc + 1, st, stack + [st.pos], L, end, stack2)
    ensures Yields(p, pc, st, stack, L, end, stack2)
  {
    hide Fetch, Yields;
    YieldsStep(p, pc, st, stack, PushCharPos, pc + 1, st, stack + [st.pos], L, end, stack2);
  }

  lemma GotoStep(p: Program, pc: int, off: int, st: St, stack: seq<nat>, L: seq<St>, end: int, stack2: seq<nat>)
    requires Fetch(p.code, pc) == Some(Goto(off)) && st.pos <= |p.subject.input|
    requires Yields(p, pc + 5 + off, st, stack, L, end, stack2)
    ensures Yields(p, pc, st, stack, L, end, stack2)
  {
    hide Fetch, Yields;
    YieldsStep(p, pc, st, stack, Goto(off), pc + 5 + off, st, stack, L, end, stack2);
  }

  lemma PushStep(p: Program, pc: int, n: nat, st: St, stack: seq<nat>, L: seq<St>, end: int, stack2: seq<nat>)
    requires Fetch(p.code, pc) == Some(PushI32(n)) && st.pos <= |p.subject.input| && |stack| < p.stackMax
    requires Yields(p, pc + 5, st, stack + [n], L, end, stack2)
    ensures Yields(p, pc, st, stack, L, end, stack2)
  {
    hide Fetch, Yields;
    YieldsStep(p, pc, st, stack, PushI32(n), pc + 5, st, stack + [n], L, end, stack2);
  }

  lemma DropStep(p: Program, pc: int, n: nat, st: St, stack: seq<nat>, L: seq<St>, end: int, stack2: seq<nat>)
    requires Fetch(p.code, pc) == Some(Drop) && st.pos <= |p.subject.input|
    requires Yields(p, pc + 1, st, stack, L, end, stack2)
    ensures Yields(p, pc, st, stack + [n], L, end, stack2)
  {
    hide Fetch, Yields;
    assert (stack + [n])[..|stack + [n]| - 1] == stack;
    YieldsStep(p, pc, st, stack + [n], Drop, pc + 1, st, stack, L, end, stack2);
  }

  /** The loop instruction with the value n on top of the stack. */
  lemma LoopStep(p: Program, pc: int, off: int, n: nat, st: St, stack: seq<nat>, L: seq<St>, end: int, stack2: seq<nat>)
    requires Fetch(p.code, pc) == Some(Loop(off)) && st.pos <= |p.subject.input| && n > 0
    requires Yields(p, if n > 1 then pc + 5 + off else pc + 5, st, stack + [n - 1], L, end, stack2)
    ensures Yields(p, pc, st, stack + [n], L, end, stack2)
  {
    hide Fetch, Yields;
    assert (stack + [n])[..|stack + [n]| - 1] == stack;
    YieldsStep(p, pc, st, stack + [n], Loop(off), if n > 1 then pc + 5 + off else pc + 5, st, stack + [n - 1], L, end, stack2);
  }

  /** How a greedy or lazy repetition combines one more iteration with stopping. */
  ghost function Prefer(greedy: bool, more: seq<St>, st: St): seq<St> { if greedy then more + [st] else [st] + more }

  lemma RepeatUnfold(s: Subject, a: Term, bw: bool, cc: nat, max: Count, greedy: bool, st: St)
    requires max != Finite(0)
    ensures MRepeat(s, a, bw, cc, 0, max, greedy, st) ==
            Prefer(greedy, MRepeatAll(s, a, bw, cc, 0, Dec(max), greedy, Moved(MTerm(s, a, bw, cc, st), st.pos)), st)
  {
  }

  /** The choice at the head of a loop: go round, or leave to address out. */
  lemma ChoiceRuns(p: Program, pc: int, greedy: bool, off: int, st: St, stack: seq<nat>, more: seq<St>, end: int, stack2: seq<nat>)
    requires Fetch(p.code, pc) == Some(Split(greedy, off)) && st.pos <= |p.subject.input|
    requires Yields(p, pc + 5, st, stack, more, end, stack2)
    requires Yields(p, pc + 5 + off, st, stack, [st], end, stack2)
    ensures Yields(p, pc, st, stack, Prefer(greedy, more, st), end, stack2)
  {
    hide Fetch, Yields;
    if greedy {
      YieldsSplit(p, pc, st, stack, greedy, off, more, [st], end, stack2);
    } else {
      YieldsSplit(p, pc, st, stack, greedy, off, [st], more, end, stack2);
    }
  }

  lemma {:induction false} StarRuns(p: Program, a: Term, bw: bool, cc: nat, pc: int, greedy: bool, st: St, stack: seq<nat>)
    requires TermWf(a) && Good(p, st, cc + TermGroups(a))
    requires var atom := Code1(p, a, bw, cc); Fits(p, pc, StarCode(atom, NeedCheckAdvance(atom), greedy), |stack|)
    ensures var atom := Code1(p, a, bw, cc);
            Yields(p, pc, st, stack, MRepeat(p.subject, a, bw, cc, 0, Infinite, greedy, st),
                   pc + Size(StarCode(atom, NeedCheckAdvance(atom), greedy)), stack)
    decreases a, 3, Left(p.subject, bw, st.pos), 0
  {
    hide Fits, Yields, Fetch, NeedCheckAdvance, Size, MTerm, TermWf, TermCode, Guarded, MRepeat, MRepeatAll, Moved, Bind, Net, Left, Prefer;
    var s := p.subject;
    var atom := Code1(p, a, bw, cc);
    var g := Guarded(atom, NeedCheckAdvance(atom));
    var mid := pc + 5 + Size(g);
    TermBalanced(s.flags, s.canon, a, bw, cc);
    GuardedBalanced(atom, NeedCheckAdvance(atom));
    GroupLayout(p, pc, Split(greedy, Size(g) + 5), g, Goto(-(Size(g) + 10)), |stack|);
    GuardedRuns(p, a, bw, cc, pc + 5, st, stack);
    var moved := Moved(MTerm(s, a, bw, cc, st), st.pos);
    var f := (r: St) => MRepeat(s, a, bw, cc, 0, Infinite, greedy, r);
    forall i | 0 <= i < |moved| ensures Yields(p, mid, moved[i], stack, f(moved[i]), mid + 5, stack) {
      MovedAhead(p, a, bw, cc, st, i);
      StarTurn(p, a, bw, cc, pc, greedy, moved[i], stack);
    }
    YieldsThen(p, pc + 5, st, stack, moved, mid, stack, f, mid + 5, stack);
    RepeatAllBind(s, a, bw, cc, 0, Infinite, greedy, moved, f);
    YieldsHere(p, mid + 5, st, stack);
    RepeatUnfold(s, a, bw, cc, Infinite, greedy, st);
    ChoiceRuns(p, pc, greedy, Size(g) + 5, st, stack, Bind(moved, f), mid + 5, stack);
  }

  lemma {:induction false} StarTurn(p: Program, a: Term, bw: bool, cc: nat, pc: int, greedy: bool, r: St, stack: seq<nat>)
    requires TermWf(a) && Good(p, r, cc + TermGroups(a))
    requires var atom := Code1(p, a, bw, cc);
             var g := Guarded(atom, NeedCheckAdvance(atom));
             Fits(p, pc, StarCode(atom, NeedCheckAdvance(atom), greedy), |stack|) &&
             Fetch(p.code, pc + 5 + Size(g)) == Some(Goto(-(Size(g) + 10))) && Size(StarCode(atom, NeedCheckAdvance(atom), greedy)) == Size(g) + 10
    ensures var atom := Code1(p, a, bw, cc);
            var mid := pc + 5 + Size(Guarded(atom, NeedCheckAdvance(atom)));
            Yields(p, mid, r, stack, MRepeat(p.subject, a, bw, cc, 0, Infinite, greedy, r), mid + 5, stack)
    decreases a, 3, Left(p.subject, bw, r.pos), 1
  {
    hide Fits, Yields, Fetch, NeedCheckAdvance, Size, MTerm, TermWf, TermCode, Guarded, MRepeat, Left, StarCode;
    var atom := Code1(p, a, bw, cc);
    var g := Guarded(atom, NeedCheckAdvance(atom));
    StarRuns(p, a, bw, cc, pc, greedy, r, stack);
    GotoStep(p, pc + 5 + Size(g), -(Size(g) + 10), r, stack, MRepeat(p.subject, a, bw, cc, 0, Infinite, greedy, r), pc + 10 + Size(g), stack);
  }

  /** A state that has moved is good, and has fewer characters left. */
  lemma MovedAhead(p: Program, a: Term, bw: bool, cc: nat, st: St, i: nat)
    requires Good(p, st, cc + TermGroups(a)) && i < |Moved(MTerm(p.subject, a, bw, cc, st), st.pos)|
    ensures var r := Moved(MTerm(p.subject, a, bw, cc, st), st.pos)[i];
            Good(p, r, cc + TermGroups(a)) && Left(p.subject, bw, r.pos) < Left(p.subject, bw, st.pos)
  {
    var L := MTerm(p.subject, a, bw, cc, st);
    var r := Moved(L, st.pos)[i];
    assert r in L;
    var k :| 0 <= k < |L| && L[k] == r;
    assert Ahead(p.subject, bw, st, L[k]);
  }

  /** Maximum number of iterations left after the first min ones. */
  function After(min: nat, max: nat): Count
    requires min <= max
  {
    if max == INT32_MAX then Infinite else Finite(max - min)
  }

  lemma {:induction false} OptionalRuns(p: Program, a: Term, bw: bool, cc: nat, pc: int, greedy: bool, st: St, stack: seq<nat>)
    requires TermWf(a) && Good(p, st, cc + TermGroups(a))
    requires var atom := Code1(p, a, bw, cc); Fits(p, pc, OptionalCode(atom, NeedCheckAdvance(atom), greedy), |stack|)
    ensures var atom := Code1(p, a, bw, cc);
            Yields(p, pc, st, stack, MRepeat(p.subject, a, bw, cc, 0, Finite(1), greedy, st),
                   pc + Size(OptionalCode(atom, NeedCheckAdvance(atom), greedy)), stack)
    decreases a, 3, 0
  {
    hide Fits, Yields, Fetch, NeedCheckAdvance, Size, MTerm, TermWf, TermCode, Guarded, MRepeat, MRepeatAll, Moved, Net, Prefer;
    var s := p.subject;
    var atom := Code1(p, a, bw, cc);
    var g := Guarded(atom, NeedCheckAdvance(atom));
    FitsHead(p, pc, Split(greedy, Size(g)), g, |stack|);
    GuardedRuns(p, a, bw, cc, pc + 5, st, stack);
    var moved := Moved(MTerm(s, a, bw, cc, st), st.pos);
    RepeatZero(s, a, bw, cc, greedy, moved);
    RepeatUnfold(s, a, bw, cc, Finite(1), greedy, st);
    YieldsHere(p, pc + 5 + Size(g), st, stack);
    ChoiceRuns(p, pc, greedy, Size(g), st, stack, moved, pc + 5 + Size(g), stack);
  }

  function LoopBody(g: Code, greedy: bool): Code { [Split(greedy, Size(g) + 5)] + g + [Loop(-(Size(g) + 10))] }

  /** The counted loop, with n > 0 iterations left on top of the value stack. */
  lemma {:induction false} CountedLoopRuns(p: Program, a: Term, bw: bool, cc: nat, pc: int, greedy: bool, n: nat, st: St, stack: seq<nat>)
    requires TermWf(a) && Good(p, st, cc + TermGroups(a)) && n > 0
    requires var atom := Code1(p, a, bw, cc);
             var g := Guarded(atom, NeedCheckAdvance(atom));
             Fits(p, pc, LoopBody(g, greedy), |stack| + 1) && Fetch(p.code, pc + Size(g) + 10) == Some(Drop)
    ensures var atom := Code1(p, a, bw, cc);
            Yields(p, pc, st, stack + [n], MRepeat(p.subject, a, bw, cc, 0, Finite(n), greedy, st),
                   pc + Size(Guarded(atom, NeedCheckAdvance(atom))) + 11, stack)
    decreases a, 3, n
  {
    hide Fits, Yields, Fetch, NeedCheckAdvance, Size, MTerm, TermWf, TermCode, Guarded, MRepeat, MRepeatAll, Moved, Bind, Net, Left, Prefer;
    var s := p.subject;
    var atom := Code1(p, a, bw, cc);
    var g := Guarded(atom, NeedCheckAdvance(atom));
    var mid, end := pc + 5 + Size(g), pc + Size(g) + 11;
    var stack1 := stack + [n];
    TermBalanced(s.flags, s.canon, a, bw, cc);
    GuardedBalanced(atom, NeedCheckAdvance(atom));
    GroupLayout(p, pc, Split(greedy, Size(g) + 5), g, Loop(-(Size(g) + 10)), |stack1|);
    GuardedRuns(p, a, bw, cc, pc + 5, st, stack1);
    var moved := Moved(MTerm(s, a, bw, cc, st), st.pos);
    var f := (r: St) => MRepeat(s, a, bw, cc, 0, Finite(n - 1), greedy, r);
    forall i | 0 <= i < |moved| ensures Yields(p, mid, moved[i], stack1, f(moved[i]), end, stack) {
      MovedAhead(p, a, bw, cc, st, i);
      CountedTurn(p, a, bw, cc, pc, greedy, n, moved[i], stack);
    }
    YieldsThen(p, pc + 5, st, stack1, moved, mid, stack1, f, end, stack);
    RepeatAllBind(s, a, bw, cc, 0, Finite(n - 1), greedy, moved, f);
    YieldsHere(p, end, st, stack);
    DropStep(p, mid + 5, n, st, stack, [st], end, stack);
    RepeatUnfold(s, a, bw, cc, Finite(n), greedy, st);
    ChoiceRuns(p, pc, greedy, Size(g) + 5, st, stack1, Bind(moved, f), end, stack);
  }

  /** After one turn: the loop instruction, then the turns that are left or the drop. */
  lemma {:induction false} CountedTurn(p: Program, a: Term, bw: bool, cc: nat, pc: int, greedy: bool, n: nat, r: St, stack: seq<nat>)
    requires TermWf(a) && Good(p, r, cc + TermGroups(a)) && n > 0
    requires var atom := Code1(p, a, bw, cc);
             var g := Guarded(atom, NeedCheckAdvance(atom));
             Fits(p, pc, LoopBody(g, greedy), |stack| + 1) && Fetch(p.code, pc + Size(g) + 10) == Some(Drop)
    ensures var atom := Code1(p, a, bw, cc);
            var g := Guarded(atom, NeedCheckAdvance(atom));
            Yields(p, pc + 5 + Size(g), r, stack + [n], MRepeat(p.subject, a, bw, cc, 0, Finite(n - 1), greedy, r),
                   pc + Size(g) + 11, stack)
    decreases a, 3, n, 0
  {
    hide Fits, Yields, Fetch, NeedCheckAdvance, Size, MTerm, TermWf, TermCode, Guarded, MRepeatAll, Moved, Bind, Net, Left, Prefer;
    var atom := Code1(p, a, bw, cc);
    var g := Guarded(atom, NeedCheckAdvance(atom));
    var mid, end := pc + 5 + Size(g), pc + Size(g) + 11;
    TermBalanced(p.subject.flags, p.subject.canon, a, bw, cc);
    GuardedBalanced(atom, NeedCheckAdvance(atom));
    GroupLayout(p, pc, Split(greedy, Size(g) + 5), g, Loop(-(Size(g) + 10)), |stack + [n]|);
    var results := MRepeat(p.subject, a, bw, cc, 0, Finite(n - 1), greedy, r);
    if n > 1 {
      CountedLoopRuns(p, a, bw, cc, pc, greedy, n - 1, r, stack);
    } else {
      YieldsHere(p, end, r, stack);
      DropStep(p, mid + 5, n - 1, r, stack, [r], end, stack);
    }
    LoopStep(p, mid, -(Size(g) + 10), n, r, stack, results, end, stack);
  }

  lemma {:induction false} CountedRuns(p: Program, a: Term, bw: bool, cc: nat, pc: int, greedy: bool, n: nat, st: St, stack: seq<nat>)
    requires TermWf(a) && Good(p, st, cc + TermGroups(a)) && n > 0
    requires var atom := Code1(p, a, bw, cc); Fits(p, pc, CountedCode(atom, NeedCheckAdvance(atom), greedy, n), |stack|)
    ensures var atom := Code1(p, a, bw, cc);
            Yields(p, pc, st, stack, MRepeat(p.subject, a, bw, cc, 0, Finite(n), greedy, st),
                   pc + Size(CountedCode(atom, NeedCheckAdvance(atom), greedy, n)), stack)
    decreases a, 4, 0
  {
    hide Fits, Yields, Fetch, NeedCheckAdvance, Size, MTerm, TermWf, TermCode, Guarded, MRepeat, Net, LoopBody;
    var atom := Code1(p, a, bw, cc);
    var g := Guarded(atom, NeedCheckAdvance(atom));
    TermBalanced(p.subject.flags, p.subject.canon, a, bw, cc);
    GuardedBalanced(atom, NeedCheckAdvance(atom));
    LoopBodyFacts(g, greedy);
    assert CountedCode(atom, NeedCheckAdvance(atom), greedy, n) == [PushI32(n)] + LoopBody(g, greedy) + [Drop];
    GroupLayout(p, pc, PushI32(n), LoopBody(g, greedy), Drop, |stack|);
    CountedLoopRuns(p, a, bw, cc, pc + 5, greedy, n, st, stack);
    PushStep(p, pc, n, st, stack, MRepeat(p.subject, a, bw, cc, 0, Finite(n), greedy, st), pc + Size(g) + 16, stack);
  }

  lemma LoopBodyFacts(g: Code, greedy: bool)
    requires Net(g) == 0
    ensures Net(LoopBody(g, greedy)) == 0 && Size(LoopBody(g, greedy)) == Size(g) + 10
    ensures LoopBody(g, greedy) == [Split(greedy, Size(g) + 5)] + g + [Loop(-(Size(g) + 10))]
  {
    hide Enc, EncAll, Net, Size;
    NetAround(Split(greedy, Size(g) + 5), g, Loop(-(Size(g) + 10)));
    EncAllConcat([Split(greedy, Size(g) + 5)] + g, [Loop(-(Size(g) + 10))]);
    EncAllConcat([Split(greedy, Size(g) + 5)], g);
    EncAllOne(Split(greedy, Size(g) + 5));
    EncAllOne(Loop(-(Size(g) + 10)));
  }

  lemma {:induction false} RemainderRuns(p: Program, a: Term, bw: bool, cc: nat, pc: int, min: nat, max: nat, greedy: bool,
                                         st: St, stack: seq<nat>)
    requires TermWf(a) && Good(p, st, cc + TermGroups(a)) && min <= max <= INT32_MAX
    requires Fits(p, pc, Remainder(Code1(p, a, bw, cc), min, max, greedy), |stack|)
    ensures Yields(p, pc, st, stack, MRepeat(p.subject, a, bw, cc, 0, After(min, max), greedy, st),
                   pc + Size(Remainder(Code1(p, a, bw, cc), min, max, greedy)), stack)
    decreases a, 5
  {
    hide Fits, Yields, NeedCheckAdvance, MTerm, TermWf, TermCode, StarCode, CountedCode, OptionalCode;
    if max == INT32_MAX {
      StarRuns(p, a, bw, cc, pc, greedy, st, stack);
    } else if max == min {
      YieldsHere(p, pc, st, stack);
    } else if min == 0 && max == 1 {
      OptionalRuns(p, a, bw, cc, pc, greedy, st, stack);
    } else {
      CountedRuns(p, a, bw, cc, pc, greedy, max - min, st, stack);
    }
  }

  /** A first iteration, then the rest of the repetition from each of its results. */
  lemma RepeatMore(s: Subject, a: Term, bw: bool, cc: nat, k: nat, max: Count, greedy: bool, st: St, f: St -> seq<St>)
    requires k > 0 && max != Finite(0)
    requires forall r :: f(r) == MRepeat(s, a, bw, cc, k - 1, Dec(max), greedy, r)
    ensures MRepeat(s, a, bw, cc, k, max, greedy, st) == Bind(MTerm(s, a, bw, cc, st), f)
  {
    RepeatAllBind(s, a, bw, cc, k - 1, Dec(max), greedy, MTerm(s, a, bw, cc, st), f);
  }

  /** The mandatory loop, with k iterations left on top of the value stack, and everything after it. */
  lemma {:induction false} MandatoryLoopRuns(p: Program, a: Term, bw: bool, cc: nat, pc: int, k: nat, min: nat, max: nat, greedy: bool,
                                             st: St, stack: seq<nat>)
    requires TermWf(a) && Good(p, st, cc + TermGroups(a)) && 1 <= k <= min <= max <= INT32_MAX
    requires var atom := Code1(p, a, bw, cc);
             && Fits(p, pc, atom, |stack| + 1)
             && Fetch(p.code, pc + Size(atom)) == Some(Loop(-(Size(atom) + 5)))
             && Fetch(p.code, pc + Size(atom) + 5) == Some(Drop)
             && Fits(p, pc + Size(atom) + 6, Remainder(atom, min, max, greedy), |stack|)
    ensures var atom := Code1(p, a, bw, cc);
            Yields(p, pc, st, stack + [k], MRepeat(p.subject, a, bw, cc, k, After(min - k, max), greedy, st),
                   pc + Size(atom) + 6 + Size(Remainder(atom, min, max, greedy)), stack)
    decreases a, 6, k
  {
    hide Fits, Yields, Fetch, NeedCheckAdvance, Size, MTerm, TermWf, TermCode, Remainder, MRepeat, MRepeatAll, Bind;
    var s := p.subject;
    var atom := Code1(p, a, bw, cc);
    var mid := pc + Size(atom);
    var end := mid + 6 + Size(Remainder(atom, min, max, greedy));
    var stack1 := stack + [k];
    TermRuns(p, a, bw, cc, pc, st, stack1);
    var once := MTerm(s, a, bw, cc, st);
    AheadGood(p, bw, st, once, cc + TermGroups(a));
    var f := (r: St) => MRepeat(s, a, bw, cc, k - 1, After(min - (k - 1), max), greedy, r);
    forall i | 0 <= i < |once| ensures Yields(p, mid, once[i], stack1, f(once[i]), end, stack) {
      MandatoryTurn(p, a, bw, cc, pc, k, min, max, greedy, once[i], stack);
    }
    YieldsThen(p, pc, st, stack1, once, mid, stack1, f, end, stack);
    RepeatMore(s, a, bw, cc, k, After(min - k, max), greedy, st, f);
  }

  /** After one iteration: the loop instruction, then the iterations that are left or the drop and the rest. */
  lemma {:induction false} MandatoryTurn(p: Program, a: Term, bw: bool, cc: nat, pc: int, k: nat, min: nat, max: nat, greedy: bool,
                                         r: St, stack: seq<nat>)
    requires TermWf(a) && Good(p, r, cc + TermGroups(a)) && 1 <= k <= min <= max <= INT32_MAX
    requires var atom := Code1(p, a, bw, cc);
             && Fits(p, pc, atom, |stack| + 1)
             && Fetch(p.code, pc + Size(atom)) == Some(Loop(-(Size(atom) + 5)))
             && Fetch(p.code, pc + Size(atom) + 5) == Some(Drop)
             && Fits(p, pc + Size(atom) + 6, Remainder(atom, min, max, greedy), |stack|)
    ensures var atom := Code1(p, a, bw, cc);
            Yields(p, pc + Size(atom), r, stack + [k], MRepeat(p.subject, a, bw, cc, k - 1, After(min - (k - 1), max), greedy, r),
                   pc + Size(atom) + 6 + Size(Remainder(atom, min, max, greedy)), stack)
    decreases a, 6, k, 0
  {
    hide Fits, Yields, Fetch, NeedCheckAdvance, Size, MTerm, TermWf, TermCode, Remainder, MRepeat;
    var atom := Code1(p, a, bw, cc);
    var mid := pc + Size(atom);
    var end := mid + 6 + Size(Remainder(atom, min, max, greedy));
    var L := MRepeat(p.subject, a, bw, cc, k - 1, After(min - (k - 1), max), greedy, r);
    if k > 1 {
      MandatoryLoopRuns(p, a, bw, cc, pc, k - 1, min, max, greedy, r, stack);
    } else {
      RemainderRuns(p, a, bw, cc, mid + 6, min, max, greedy, r, stack);
      DropStep(p, mid + 5, k - 1, r, stack, L, end, stack);
    }
    LoopStep(p, mid, -(Size(atom) + 5), k, r, stack, L, end, stack);
  }

  lemma MandatoryLayout(p: Program, pc: int, atom: Code, min: nat, rest: Code, n: nat)
    requires Fits(p, pc, MandatoryCode(atom, min) + rest, n) && Net(atom) == 0 && min > 1
    ensures pc >= 0 && Fetch(p.code, pc) == Some(PushI32(min)) && n + 1 <= p.stackMax
    ensures Fits(p, pc + 5, atom, n + 1)
    ensures Fetch(p.code, pc + 5 + Size(atom)) == Some(Loop(-(Size(atom) + 5)))
    ensures Fetch(p.code, pc + 10 + Size(atom)) == Some(Drop)
    ensures Fits(p, pc + 11 + Size(atom), rest, n)
    ensures Size(MandatoryCode(atom, min) + rest) == 11 + Size(atom) + Size(rest)
  {
    hide Fits, Fetch, Size, Net;
    var l := Loop(-(Size(atom) + 5));
    var body := atom + [l];
    assert MandatoryCode(atom, min) == [PushI32(min)] + body + [Drop];
    LoopsBalanced(atom, false, false, min);
    FitsSplit(p, pc, [PushI32(min)] + body + [Drop], rest, n);
    DepthConcat(atom, [l]);
    NetOne(l);
    GroupLayout(p, pc, PushI32(min), body, Drop, n);
    FitsLast(p, pc + 5, atom, l, n + 1);
  }

  lemma {:induction false} MandatoryRuns(p: Program, a: Term, bw: bool, cc: nat, pc: int, min: nat, max: nat, greedy: bool,
                                         st: St, stack: seq<nat>)
    requires TermWf(a) && Good(p, st, cc + TermGroups(a)) && 1 <= min <= max <= INT32_MAX
    requires var atom := Code1(p, a, bw, cc); Fits(p, pc, MandatoryCode(atom, min) + Remainder(atom, min, max, greedy), |stack|)
    ensures var atom := Code1(p, a, bw, cc);
            Yields(p, pc, st, stack, MRepeat(p.subject, a, bw, cc, min, Bound(max), greedy, st),
                   pc + Size(MandatoryCode(atom, min) + Remainder(atom, min, max, greedy)), stack)
    decreases a, 7
  {
    hide Fits, Yields, Fetch, NeedCheckAdvance, Size, MTerm, TermWf, TermCode, Remainder, MRepeat, MRepeatAll, Bind, Net;
    var s := p.subject;
    var atom := Code1(p, a, bw, cc);
    var rest := Remainder(atom, min, max, greedy);
    TermBalanced(s.flags, s.canon, a, bw, cc);
    if min > 1 {
      MandatoryLayout(p, pc, atom, min, rest, |stack|);
      MandatoryLoopRuns(p, a, bw, cc, pc + 5, min, min, max, greedy, st, stack);
      PushStep(p, pc, min, st, stack, MRepeat(s, a, bw, cc, min, Bound(max), greedy, st), pc + 11 + Size(atom) + Size(rest), stack);
    } else {
      FitsSplit(p, pc, atom, rest, |stack|);
      var mid := pc + Size(atom);
      TermRuns(p, a, bw, cc, pc, st, stack);
      var once := MTerm(s, a, bw, cc, st);
      AheadGood(p, bw, st, once, cc + TermGroups(a));
      var f := (r: St) => MRepeat(s, a, bw, cc, 0, After(min, max), greedy, r);
      forall i | 0 <= i < |once| ensures Yields(p, mid, once[i], stack, f(once[i]), mid + Size(rest), stack) {
        RemainderRuns(p, a, bw, cc, mid, min, max, greedy, once[i], stack);
      }
      YieldsThen(p, pc, st, stack, once, mid, stack, f, mid + Size(rest), stack);
      RepeatMore(s, a, bw, cc, 1, Bound(max), greedy, st, f);
    }
  }

  // ----- one or more, without check: the loop jumps back into the mandatory iteration -----

  lemma {:induction false} PlusChoiceRuns(p: Program, a: Term, bw: bool, cc: nat, pc: int, greedy: bool, st: St, stack: seq<nat>)
    requires TermWf(a) && Good(p, st, cc + TermGroups(a))
    requires var atom := Code1(p, a, bw, cc);
             && !NeedCheckAdvance(atom) && Fits(p, pc, atom, |stack|)
             && Fetch(p.code, pc + Size(atom)) == Some(Split(!greedy, -(Size(atom) + 5)))
    ensures var end := pc + Size(Code1(p, a, bw, cc)) + 5;
            Yields(p, end - 5, st, stack, MRepeat(p.subject, a, bw, cc, 0, Infinite, greedy, st), end, stack)
    decreases a, 3, Left(p.subject, bw, st.pos)
  {
    hide Fits, Yields, Fetch, NeedCheckAdvance, Size, MTerm, TermWf, TermCode, MRepeat, MRepeatAll, Moved, Bind, Left;
    var s := p.subject;
    var mid := pc + Size(Code1(p, a, bw, cc));
    TermRuns(p, a, bw, cc, pc, st, stack);
    var once := MTerm(s, a, bw, cc, st);
    TermMoves(s, a, bw, cc, st);
    MovedAll(once, st.pos);
    var f := (r: St) => MRepeat(s, a, bw, cc, 0, Infinite, greedy, r);
    forall i | 0 <= i < |once| ensures Yields(p, mid, once[i], stack, f(once[i]), mid + 5, stack) {
      MovedAhead(p, a, bw, cc, st, i);
      PlusChoiceRuns(p, a, bw, cc, pc, greedy, once[i], stack);
    }
    YieldsThen(p, pc, st, stack, once, mid, stack, f, mid + 5, stack);
    RepeatAllBind(s, a, bw, cc, 0, Infinite, greedy, once, f);
    RepeatUnfold(s, a, bw, cc, Infinite, greedy, st);
    YieldsHere(p, mid + 5, st, stack);
    if greedy {
      YieldsSplit(p, mid, st, stack, false, pc - mid - 5, Bind(once, f), [st], mid + 5, stack);
    } else {
      YieldsSplit(p, mid, st, stack, true, pc - mid - 5, [st], Bind(once, f), mid + 5, stack);
    }
  }

  lemma {:induction false} PlusRuns(p: Program, a: Term, bw: bool, cc: nat, pc: int, greedy: bool, st: St, stack: seq<nat>)
    requires TermWf(a) && Good(p, st, cc + TermGroups(a))
    requires var atom := Code1(p, a, bw, cc);
             !NeedCheckAdvance(atom) && Fits(p, pc, atom + [Split(!greedy, -(Size(atom) + 5))], |stack|)
    ensures var atom := Code1(p, a, bw, cc);
            Yields(p, pc, st, stack, MRepeat(p.subject, a, bw, cc, 1, Infinite, greedy, st),
                   pc + Size(atom + [Split(!greedy, -(Size(atom) + 5))]), stack)
    decreases a, 4, 0
  {
    hide Fits, Yields, Fetch, NeedCheckAdvance, Size, MTerm, TermWf, TermCode, MRepeat, MRepeatAll, Bind, Net;
    var s := p.subject;
    var atom := Code1(p, a, bw, cc);
    var mid := pc + Size(atom);
    TermBalanced(s.flags, s.canon, a, bw, cc);
    FitsLast(p, pc, atom, Split(!greedy, -(Size(atom) + 5)), |stack|);
    TermRuns(p, a, bw, cc, pc, st, stack);
    var once := MTerm(s, a, bw, cc, st);
    AheadGood(p, bw, st, once, cc + TermGroups(a));
    var f := (r: St) => MRepeat(s, a, bw, cc, 0, Infinite, greedy, r);
    forall i | 0 <= i < |once| ensures Yields(p, mid, once[i], stack, f(once[i]), mid + 5, stack) {
      PlusChoiceRuns(p, a, bw, cc, pc, greedy, once[i], stack);
    }
    YieldsThen(p, pc, st, stack, once, mid, stack, f, mid + 5, stack);
    RepeatMore(s, a, bw, cc, 1, Infinite, greedy, st, f);
  }

  // ----- the terms -----

  lemma ResetStep(p: Program, pc: int, cc: nat, groups: nat, st: St, stack: seq<nat>, L: seq<St>, end: int, stack2: seq<nat>)
    requires groups > 0 && Fetch(p.code, pc) == Some(SaveReset(cc, cc + groups - 1)) && Good(p, st, cc + groups)
    requires Yields(p, pc + 3, st.(caps := ResetCaps(st.caps, cc, groups)), stack, L, end, stack2)
    ensures Yields(p, pc, st, stack, L, end, stack2)
  {
    hide Fetch, Yields, ResetCaps;
    YieldsStep(p, pc, st, stack, SaveReset(cc, cc + groups - 1), pc + 3, st.(caps := ResetCaps(st.caps, cc, groups)), stack,
               L, end, stack2);
  }

  lemma {:induction false} RepeatRuns(p: Program, t: Term, bw: bool, cc: nat, pc: int, st: St, stack: seq<nat>)
    requires t.Repeat? && TermWf(t) && Good(p, st, cc + TermGroups(t)) && Fits(p, pc, Code1(p, t, bw, cc), |stack|)
    ensures Yields(p, pc, st, stack, MTerm(p.subject, t, bw, cc, st), pc + Size(Code1(p, t, bw, cc)), stack)
    decreases t, 0
  {
    hide Fits, Yields, Fetch, NeedCheckAdvance, Size, SimpleQuantifier, MRepeat, Remainder, MandatoryCode, Net;
    var Repeat(a, min, max, greedy) := t;
    var s := p.subject;
    var atom := Code1(p, a, bw, cc);
    if greedy && max > 0 && SimpleQuantifier(atom) > 0 {
      SimpleAtomGroups(p, a, bw, cc);
      QuantRuns(p, a, bw, cc, pc, min, max, st, stack);
      QuantLayout(p, pc, SimpleGreedyQuant(Size(atom) + 1, min, max, SimpleQuantifier(atom)), atom, |stack|);
    } else if min == 1 && max == INT32_MAX && !NeedCheckAdvance(atom) {
      PlusRuns(p, a, bw, cc, pc, greedy, st, stack);
    } else if min > 0 {
      MandatoryRuns(p, a, bw, cc, pc, min, max, greedy, st, stack);
    } else {
      var rest := Remainder(atom, min, max, greedy);
      if TermGroups(a) > 0 {
        var i := SaveReset(cc, cc + TermGroups(a) - 1);
        FitsHead(p, pc, i, rest, |stack|);
        var st0 := st.(caps := ResetCaps(st.caps, cc, TermGroups(a)));
        RemainderRuns(p, a, bw, cc, pc + 3, min, max, greedy, st0, stack);
        ResetStep(p, pc, cc, TermGroups(a), st, stack, MTerm(s, t, bw, cc, st), pc + 3 + Size(rest), stack);
      } else {
        assert [] + rest == rest;
        RemainderRuns(p, a, bw, cc, pc, min, max, greedy, st, stack);
      }
    }
  }

  lemma SimpleAtomGroups(p: Program, a: Term, bw: bool, cc: nat)
    requires TermWf(a) && SimpleQuantifier(Code1(p, a, bw, cc)) > 0
    ensures TermGroups(a) == 0
  {
    SimpleTermGroups(p.subject.flags, p.subject.canon, a, bw, cc);
  }

  lemma SaveStep(p: Program, pc: int, isEnd: bool, g: nat, st: St, stack: seq<nat>, L: seq<St>, end: int, stack2: seq<nat>)
    requires Fetch(p.code, pc) == Some(Save(isEnd, g)) && Good(p, st, g + 1)
    requires Yields(p, pc + 2, SetCap(st, 2 * g + (if isEnd then 1 else 0)), stack, L, end, stack2)
    ensures Yields(p, pc, st, stack, L, end, stack2)
  {
    hide Fetch, Yields;
    YieldsStep(p, pc, st, stack, Save(isEnd, g), pc + 2, SetCap(st, 2 * g + (if isEnd then 1 else 0)), stack, L, end, stack2);
  }

  lemma {:induction false} SetCapBind(L: seq<St>, i: nat, f: St -> seq<St>)
    requires forall r :: f(r) == [SetCap(r, i)]
    ensures Bind(L, f) == SetCapAll(L, i)
    decreases |L|
  {
    if L != [] {
      SetCapBind(L[1..], i, f);
    }
  }

  /** A save instruction after a fragment: it acts on every result. */
  lemma SaveAfter(p: Program, pc: int, st: St, stack: seq<nat>, L: seq<St>, mid: int, isEnd: bool, g: nat)
    requires Yields(p, pc, st, stack, L, mid, stack) && Fetch(p.code, mid) == Some(Save(isEnd, g))
    requires forall i | 0 <= i < |L| :: Good(p, L[i], g + 1)
    ensures Yields(p, pc, st, stack, SetCapAll(L, 2 * g + (if isEnd then 1 else 0)), mid + 2, stack)
  {
    hide Fetch, Yields, SetCap, SetCapAll, Bind;
    var k := 2 * g + (if isEnd then 1 else 0);
    var f := (r: St) => [SetCap(r, k)];
    forall i | 0 <= i < |L| ensures Yields(p, mid, L[i], stack, f(L[i]), mid + 2, stack) {
      YieldsHere(p, mid + 2, SetCap(L[i], k), stack);
      SaveStep(p, mid, isEnd, g, L[i], stack, f(L[i]), mid + 2, stack);
    }
    YieldsThen(p, pc, st, stack, L, mid, stack, f, mid + 2, stack);
    SetCapBind(L, k, f);
  }

  lemma {:induction false} GroupRuns(p: Program, t: Term, bw: bool, cc: nat, pc: int, st: St, stack: seq<nat>)
    requires t.Group? && TermWf(t) && Good(p, st, cc + TermGroups(t)) && Fits(p, pc, Code1(p, t, bw, cc), |stack|)
    ensures Yields(p, pc, st, stack, MTerm(p.subject, t, bw, cc, st), pc + Size(Code1(p, t, bw, cc)), stack)
    decreases t, 0
  {
    hide Fits, Yields, Fetch, Size, DisjCode, MDisj, Wf, SetCapAll, Net;
    var s := p.subject;
    var body := CodeD(p, t.body, bw, cc + 1);
    var mid := pc + 2 + Size(body);
    DisjBalanced(s.flags, s.canon, t.body, bw, cc + 1);
    GroupLayout(p, pc, Save(bw, cc), body, Save(!bw, cc), |stack|);
    var st1 := SetCap(st, 2 * cc + (if bw then 1 else 0));
    DisjRuns(p, t.body, bw, cc + 1, pc + 2, st1, stack);
    var L := MDisj(s, t.body, bw, cc + 1, st1);
    AheadGood(p, bw, st1, L, cc + 1 + Groups(t.body));
    SaveAfter(p, pc + 2, st1, stack, L, mid, !bw, cc);
    SaveStep(p, pc, bw, cc, st, stack, MTerm(s, t, bw, cc, st), mid + 2, stack);
  }

  lemma {:induction false} LookRuns(p: Program, t: Term, bw: bool, cc: nat, pc: int, st: St, stack: seq<nat>)
    requires t.Lookaround? && TermWf(t) && Good(p, st, cc + TermGroups(t)) && Fits(p, pc, Code1(p, t, bw, cc), |stack|)
    ensures Yields(p, pc, st, stack, MTerm(p.subject, t, bw, cc, st), pc + Size(Code1(p, t, bw, cc)), stack)
    decreases t, 0
  {
    hide Fits, Yields, Fetch, Size, DisjCode, MDisj, Wf, Net;
    var s := p.subject;
    var body := CodeD(p, t.body, t.behind, cc);
    var L := MDisj(s, t.body, t.behind, cc, st);
    DisjBalanced(s.flags, s.canon, t.body, t.behind, cc);
    GroupLayout(p, pc, Look(t.negated, Size(body) + 1), body, Match, |stack|);
    DisjRuns(p, t.body, t.behind, cc, pc + 5, st, stack);
    AheadGood(p, t.behind, st, L, cc + Groups(t.body));
    YieldsLook(p, pc, st, stack, t.negated, Size(body) + 1, L, pc + 5 + Size(body));
  }

  lemma {:induction false} TermRuns(p: Program, t: Term, bw: bool, cc: nat, pc: int, st: St, stack: seq<nat>)
    requires TermWf(t) && Good(p, st, cc + TermGroups(t)) && Fits(p, pc, Code1(p, t, bw, cc), |stack|)
    ensures Yields(p, pc, st, stack, MTerm(p.subject, t, bw, cc, st), pc + Size(Code1(p, t, bw, cc)), stack)
    decreases t, 1
  {
    hide Fits, Yields, Fetch, Size, DisjCode, MDisj, Wf, Net, RepeatCode, MRepeat, MReference;
    match t {
      case Plain(d) => DisjRuns(p, d, bw, cc, pc, st, stack);
      case Group(d) => GroupRuns(p, t, bw, cc, pc, st, stack);
      case Lookaround(d, behind, negated) => LookRuns(p, t, bw, cc, pc, st, stack);
      case Repeat(a, min, max, greedy) => RepeatRuns(p, t, bw, cc, pc, st, stack);
      case Reference(n) =>
        FitsFetch(p, pc, BackRef(bw, p.subject.flags.ignoreCase, n), |stack|);
        BackRefRuns(p, n, bw, cc, pc, st, stack);
      case Bol => AssertionRuns(p, t, bw, cc, pc, st, stack);
      case Eol => AssertionRuns(p, t, bw, cc, pc, st, stack);
      case Boundary(n) => AssertionRuns(p, t, bw, cc, pc, st, stack);
      case _ => DirectedRuns(p, t, bw, cc, pc, st, stack);
    }
  }

  lemma AssertionRuns(p: Program, t: Term, bw: bool, cc: nat, pc: int, st: St, stack: seq<nat>)
    requires (t.Bol? || t.Eol? || t.Boundary?) && Good(p, st, 0) && Fits(p, pc, Code1(p, t, bw, cc), |stack|)
    ensures Yields(p, pc, st, stack, MTerm(p.subject, t, bw, cc, st), pc + Size(Code1(p, t, bw, cc)), stack)
  {
    hide Fits, Yields, Fetch;
    var i := Code1(p, t, bw, cc)[0];
    assert Code1(p, t, bw, cc) == [i];
    FitsFetch(p, pc, i, |stack|);
    SimpleRuns(p, pc, i, st, stack);
    AssertionSimple(p.subject, t, bw, cc, st);
    assert [i][1..] == [];
  }

  lemma {:induction false} TermAllBind(s: Subject, t: Term, bw: bool, cc: nat, L: seq<St>, f: St -> seq<St>)
    requires forall r :: f(r) == MTerm(s, t, bw, cc, r)
    ensures Bind(L, f) == MTermAll(s, t, bw, cc, L)
    decreases |L|
  {
    if L != [] {
      TermAllBind(s, t, bw, cc, L[1..], f);
    }
  }

  lemma {:induction false} AltAllBind(s: Subject, a: Alternative, bw: bool, cc: nat, L: seq<St>, f: St -> seq<St>)
    requires forall r :: f(r) == MAlt(s, a, bw, cc, r)
    ensures Bind(L, f) == MAltAll(s, a, bw, cc, L)
    decreases |L|
  {
    if L != [] {
      AltAllBind(s, a, bw, cc, L[1..], f);
    }
  }

  lemma {:induction false} AltRuns(p: Program, a: Alternative, bw: bool, cc: nat, pc: int, st: St, stack: seq<nat>)
    requires AltWf(a) && Good(p, st, cc + AltGroups(a)) && Fits(p, pc, CodeA(p, a, bw, cc), |stack|)
    ensures Yields(p, pc, st, stack, MAlt(p.subject, a, bw, cc, st), pc + Size(CodeA(p, a, bw, cc)), stack)
    decreases a, 1
  {
    hide Fits, Yields, Fetch, MAlt, AltCode, AltWf, Size, Good, AltGroups;
    if a.Empty? {
      EmptyRuns(p, bw, cc, pc, st, stack);
    } else if bw {
      AltRunsBackward(p, a, cc, pc, st, stack);
    } else {
      AltRunsForward(p, a, cc, pc, st, stack);
    }
  }

  lemma EmptyRuns(p: Program, bw: bool, cc: nat, pc: int, st: St, stack: seq<nat>)
    ensures Yields(p, pc, st, stack, MAlt(p.subject, Empty, bw, cc, st), pc + Size(CodeA(p, Empty, bw, cc)), stack)
  {
    hide Yields;
    YieldsHere(p, pc, st, stack);
  }

  lemma {:induction false} AltRunsForward(p: Program, a: Alternative, cc: nat, pc: int, st: St, stack: seq<nat>)
    requires a.Snoc? && AltWf(a) && Good(p, st, cc + AltGroups(a)) && Fits(p, pc, CodeA(p, a, false, cc), |stack|)
    ensures Yields(p, pc, st, stack, MAlt(p.subject, a, false, cc, st), pc + Size(CodeA(p, a, false, cc)), stack)
    decreases a, 0
  {
    hide Fits, Yields, Fetch, MTerm, TermCode, TermWf, Size, Bind, MTermAll, Net;
    var s := p.subject;
    var cc1 := cc + AltGroups(a.init);
    var first := CodeA(p, a.init, false, cc);
    var next := Code1(p, a.last, false, cc1);
    var mid := pc + Size(first);
    FitsSplit(p, pc, first, next, |stack|);
    AltBalanced(s.flags, s.canon, a.init, false, cc);
    AltRuns(p, a.init, false, cc, pc, st, stack);
    var L := MAlt(s, a.init, false, cc, st);
    AheadGood(p, false, st, L, cc1 + TermGroups(a.last));
    var f := (r: St) => MTerm(s, a.last, false, cc1, r);
    forall i | 0 <= i < |L| ensures Yields(p, mid, L[i], stack, f(L[i]), mid + Size(next), stack) {
      TermRuns(p, a.last, false, cc1, mid, L[i], stack);
    }
    YieldsThen(p, pc, st, stack, L, mid, stack, f, mid + Size(next), stack);
    TermAllBind(s, a.last, false, cc1, L, f);
  }

  lemma {:induction false} AltRunsBackward(p: Program, a: Alternative, cc: nat, pc: int, st: St, stack: seq<nat>)
    requires a.Snoc? && AltWf(a) && Good(p, st, cc + AltGroups(a)) && Fits(p, pc, CodeA(p, a, true, cc), |stack|)
    ensures Yields(p, pc, st, stack, MAlt(p.subject, a, true, cc, st), pc + Size(CodeA(p, a, true, cc)), stack)
    decreases a, 0
  {
    hide Fits, Yields, Fetch, MTerm, TermCode, TermWf, Size, Bind, MAltAll, Net;
    var s := p.subject;
    var cc1 := cc + AltGroups(a.init);
    var first := CodeA(p, a.init, true, cc);
    var next := Code1(p, a.last, true, cc1);
    var mid := pc + Size(next);
    FitsSplit(p, pc, next, first, |stack|);
    TermBalanced(s.flags, s.canon, a.last, true, cc1);
    TermRuns(p, a.last, true, cc1, pc, st, stack);
    var L := MTerm(s, a.last, true, cc1, st);
    AheadGood(p, true, st, L, cc1 + TermGroups(a.last));
    var f := (r: St) => MAlt(s, a.init, true, cc, r);
    forall i | 0 <= i < |L| ensures Yields(p, mid, L[i], stack, f(L[i]), mid + Size(first), stack) {
      AltRuns(p, a.init, true, cc, mid, L[i], stack);
    }
    YieldsThen(p, pc, st, stack, L, mid, stack, f, mid + Size(first), stack);
    AltAllBind(s, a.init, true, cc, L, f);
  }

  lemma OrLayout(p: Program, pc: int, left: Code, right: Code, n: int)
    requires Fits(p, pc, OrCode(left, right), n) && Net(left) == 0
    ensures pc >= 0 && Fetch(p.code, pc) == Some(Split(true, Size(left) + 5))
    ensures Fits(p, pc + 5, left, n)
    ensures Fetch(p.code, pc + 5 + Size(left)) == Some(Goto(Size(right)))
    ensures Fits(p, pc + 10 + Size(left), right, n)
    ensures Size(OrCode(left, right)) == 10 + Size(left) + Size(right)
  {
    hide Fits, Fetch, Size, Net;
    var i, j := Split(true, Size(left) + 5), Goto(Size(right));
    var tail := left + ([j] + right);
    assert OrCode(left, right) == [i] + tail;
    FitsNat(p, pc, [i] + tail, n);
    FitsHead(p, pc, i, tail, n);
    FitsSplit(p, pc + 5, left, [j] + right, n);
    FitsHead(p, pc + 5 + Size(left), j, right, n);
  }

  lemma {:induction false} DisjRuns(p: Program, d: Disjunction, bw: bool, cc: nat, pc: int, st: St, stack: seq<nat>)
    requires Wf(d) && Good(p, st, cc + Groups(d)) && Fits(p, pc, CodeD(p, d, bw, cc), |stack|)
    ensures Yields(p, pc, st, stack, MDisj(p.subject, d, bw, cc, st), pc + Size(CodeD(p, d, bw, cc)), stack)
    decreases d, 1
  {
    hide Fits, Yields, Fetch, MAlt, AltCode, AltWf, Size, Net, OrCode;
    match d {
      case Single(a) => AltRuns(p, a, bw, cc, pc, st, stack);
      case Or(init, a) =>
        var s := p.subject;
        var left, right := CodeD(p, init, bw, cc), CodeA(p, a, bw, cc + Groups(init));
        var pc2 := pc + 10 + Size(left);
        var end := pc2 + Size(right);
        DisjBalanced(s.flags, s.canon, init, bw, cc);
        OrLayout(p, pc, left, right, |stack|);
        DisjRuns(p, init, bw, cc, pc + 5, st, stack);
        AltRuns(p, a, bw, cc + Groups(init), pc2, st, stack);
        var L := MDisj(s, init, bw, cc, st);
        AheadGood(p, bw, st, L, 0);
        GotoAfter(p, pc + 5, st, stack, L, pc + 5 + Size(left), Size(right), end);
        YieldsSplit(p, pc, st, stack, true, Size(left) + 5, L, MAlt(s, a, bw, cc + Groups(init), st), end, stack);
    }
  }

  /** A goto after a fragment: every result goes on at its target. */
  lemma GotoAfter(p: Program, pc: int, st: St, stack: seq<nat>, L: seq<St>, mid: int, off: int, end: int)
    requires Yields(p, pc, st, stack, L, mid, stack) && Fetch(p.code, mid) == Some(Goto(off)) && end == mid + 5 + off
    requires forall i | 0 <= i < |L| :: Good(p, L[i], 0)
    ensures Yields(p, pc, st, stack, L, end, stack)
  {
    hide Fetch, Yields;
    var f := (r: St) => [r];
    forall i | 0 <= i < |L| ensures Yields(p, mid, L[i], stack, f(L[i]), end, stack) {
      YieldsHere(p, end, L[i], stack);
      GotoStep(p, mid, off, L[i], stack, f(L[i]), end, stack);
    }
    YieldsThen(p, pc, st, stack, L, mid, stack, f, end, stack);
    BindUnit(L, f);
  }

  lemma {:induction false} BindUnit(L: seq<St>, f: St -> seq<St>)
    requires forall r :: f(r) == [r]
    ensures Bind(L, f) == L
    decreases |L|
  {
    if L != [] {
      BindUnit(L[1..], f);
    }
  }
}
