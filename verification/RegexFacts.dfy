/** What the byte scans rely on: emitted code can be stepped over, and never drops below its own stack level. */
module RegexFacts {
  import opened Bytes
  import opened RegexSyntax
  import opened RegexBytecode
  import opened RegexCompiler
  import opened RegexSimulation
  import opened RegexCorrectness
  import opened RegexScans

  /** Both facts about one fragment, run at any level. */
  ghost predicate Sound(code: Code) {
    Scannable(code) && NeverBelow(code, 0)
  }

  lemma SoundOne(i: Instr)
    requires Effect(i) >= 0 && (i.Range? ==> |i.pairs| < TWO16)
    ensures Sound([i])
  {
    NetOne(i);
    assert [i][..0] == [] && [i][..1] == [i];
  }

  lemma SoundConcat(a: Code, b: Code)
    requires Sound(a) && Sound(b) && Net(a) >= 0
    ensures Sound(a + b)
  {
    ScannableConcat(a, b);
    forall k | 0 <= k <= |a + b| ensures Net((a + b)[..k]) >= 0 {
      if k <= |a| {
        assert (a + b)[..k] == a[..k];
      } else {
        assert (a + b)[..k] == a + b[..k - |a|];
        DepthConcat(a, b[..k - |a|]);
      }
    }
  }

  lemma SoundAround(i: Instr, code: Code, j: Instr)
    requires Sound(code) && Net(code) == 0 && !i.Range? && !j.Range?
    requires Effect(i) >= 0 && Effect(i) + Effect(j) >= 0
    ensures Sound([i] + code + [j])
  {
    hide Effect, Net;
    SoundOne(i);
    NetOne(i);
    SoundConcat([i], code);
    DepthConcat([i], code);
    ScannableConcat([i] + code, [j]);
    SoundLast([i] + code, j);
  }

  /** A last instruction may pop what the fragment has pushed. */
  lemma SoundLast(code: Code, j: Instr)
    requires Sound(code) && Net(code) + Effect(j) >= 0 && !j.Range?
    ensures Sound(code + [j])
  {
    ScannableConcat(code, [j]);
    forall k | 0 <= k <= |code + [j]| ensures Net((code + [j])[..k]) >= 0 {
      if k <= |code| {
        assert (code + [j])[..k] == code[..k];
      } else {
        assert (code + [j])[..k] == code + [j];
        DepthConcat(code, [j]);
        NetOne(j);
      }
    }
  }

  lemma SoundNothing()
    ensures Sound([])
  {
    var none: Code := [];
    assert none[..0] == none;
  }

  lemma {:induction false} TermSound(f: Flags, canon: CodePoint -> CodePoint, t: Term, bw: bool, cc: nat)
    requires TermWf(t)
    ensures Sound(TermCode(f, canon, t, bw, cc))
    decreases t
  {
    hide Sound, Net, Size, RepeatCode, DisjCode, Wf;
    match t {
      case Plain(d) => DisjSound(f, canon, d, bw, cc);
      case Group(d) =>
        DisjSound(f, canon, d, bw, cc + 1);
        DisjBalanced(f, canon, d, bw, cc + 1);
        SoundAround(Save(bw, cc), DisjCode(f, canon, d, bw, cc + 1), Save(!bw, cc));
      case Lookaround(d, behind, negated) =>
        var body := DisjCode(f, canon, d, behind, cc);
        DisjSound(f, canon, d, behind, cc);
        DisjBalanced(f, canon, d, behind, cc);
        SoundAround(Look(negated, Size(body) + 1), body, Match);
      case Repeat(a, min, max, greedy) =>
        TermSound(f, canon, a, bw, cc);
        TermBalanced(f, canon, a, bw, cc);
        RepeatSound(TermCode(f, canon, a, bw, cc), cc, TermGroups(a), min, max, greedy);
      case Bol => SoundOne(LineStart(f.multiLine));
      case Eol => SoundOne(LineEnd(f.multiLine));
      case Boundary(n) => SoundOne(WordBoundary(n, f.ignoreCase));
      case Reference(n) => SoundOne(BackRef(bw, f.ignoreCase, n));
      case _ => CharSound(f, canon, t, bw);
    }
  }

  lemma CharSound(f: Flags, canon: CodePoint -> CodePoint, t: Term, bw: bool)
    requires (t.Character? || t.Period? || t.Class?) && TermWf(t)
    ensures Sound(Directed(bw, CharTermInstr(f, canon, t)))
  {
    hide Sound, Net;
    var i := CharTermInstr(f, canon, t);
    SoundOne(i);
    NetOne(i);
    SoundAround(Prev, [i], Prev);
    assert [Prev, i, Prev] == [Prev] + [i] + [Prev];
  }

  lemma LoopsSound(atom: Code, check: bool, greedy: bool, n: nat)
    requires Sound(atom) && Net(atom) == 0
    ensures Sound(OptionalCode(atom, check, greedy)) && Sound(StarCode(atom, check, greedy))
    ensures Sound(CountedCode(atom, check, greedy, n)) && Sound(MandatoryCode(atom, n))
  {
    hide Sound, Net, Size;
    var g := Guarded(atom, check);
    GuardedBalanced(atom, check);
    SoundAround(PushCharPos, atom, CheckAdvance);
    assert Sound(g);
    SoundOne(Split(greedy, Size(g)));
    NetOne(Split(greedy, Size(g)));
    SoundConcat([Split(greedy, Size(g))], g);
    SoundAround(Split(greedy, Size(g) + 5), g, Goto(-(Size(g) + 10)));
    SoundAround(Split(greedy, Size(g) + 5), g, Loop(-(Size(g) + 10)));
    NetAround(Split(greedy, Size(g) + 5), g, Loop(-(Size(g) + 10)));
    SoundAround(PushI32(n), [Split(greedy, Size(g) + 5)] + g + [Loop(-(Size(g) + 10))], Drop);
    var l := Loop(-(Size(atom) + 5));
    SoundLast(atom, l);
    DepthConcat(atom, [l]);
    NetOne(l);
    SoundAround(PushI32(n), atom + [l], Drop);
  }

  lemma RepeatSound(atom: Code, cc: nat, groups: nat, min: nat, max: nat, greedy: bool)
    requires Sound(atom) && Net(atom) == 0
    ensures Sound(RepeatCode(atom, cc, groups, min, max, greedy))
  {
    hide Sound, Net, Size, NeedCheckAdvance, SimpleQuantifier, OptionalCode, StarCode, CountedCode, MandatoryCode;
    var check := NeedCheckAdvance(atom);
    if greedy && max > 0 && SimpleQuantifier(atom) > 0 {
      SoundAround(SimpleGreedyQuant(Size(atom) + 1, min, max, SimpleQuantifier(atom)), atom, Match);
    } else if min == 1 && max == INT32_MAX && !check {
      SoundLast(atom, Split(!greedy, -(Size(atom) + 5)));
    } else {
      LoopsSound(atom, check, greedy, min);
      LoopsSound(atom, check, greedy, max);
      LoopsSound(atom, check, greedy, if max > min then max - min else 0);
      LoopsBalanced(atom, check, greedy, min);
      var reset := SaveReset(cc, if groups > 0 then cc + groups - 1 else 0);
      SoundOne(reset);
      NetOne(reset);
      SoundNothing();
      NetNothing();
      SoundConcat(Prefix(atom, cc, groups, min), Remainder(atom, min, max, greedy));
    }
  }

  lemma {:induction false} AltSound(f: Flags, canon: CodePoint -> CodePoint, a: Alternative, bw: bool, cc: nat)
    requires AltWf(a)
    ensures Sound(AltCode(f, canon, a, bw, cc))
    decreases a
  {
    hide Sound, Net, TermCode, TermWf;
    match a {
      case Empty => SoundNothing();
      case Snoc(init, last) =>
        var first := AltCode(f, canon, init, bw, cc);
        var next := TermCode(f, canon, last, bw, cc + AltGroups(init));
        AltSound(f, canon, init, bw, cc);
        TermSound(f, canon, last, bw, cc + AltGroups(init));
        AltBalanced(f, canon, init, bw, cc);
        TermBalanced(f, canon, last, bw, cc + AltGroups(init));
        SoundConcat(first, next);
        SoundConcat(next, first);
    }
  }

  lemma {:induction false} DisjSound(f: Flags, canon: CodePoint -> CodePoint, d: Disjunction, bw: bool, cc: nat)
    requires Wf(d)
    ensures Sound(DisjCode(f, canon, d, bw, cc))
    decreases d
  {
    hide Sound, Net, AltCode, AltWf, Size;
    match d {
      case Single(a) => AltSound(f, canon, a, bw, cc);
      case Or(init, a) =>
        var left := DisjCode(f, canon, init, bw, cc);
        var right := AltCode(f, canon, a, bw, cc + Groups(init));
        var i, j := Split(true, Size(left) + 5), Goto(Size(right));
        DisjSound(f, canon, init, bw, cc);
        AltSound(f, canon, a, bw, cc + Groups(init));
        DisjBalanced(f, canon, init, bw, cc);
        SoundOne(i);
        SoundOne(j);
        NetOne(i);
        NetOne(j);
        SoundConcat([i], left);
        DepthConcat([i], left);
        SoundConcat([j], right);
        SoundConcat([i] + left, [j] + right);
    }
  }

  lemma ProgramSound(f: Flags, canon: CodePoint -> CodePoint, d: Disjunction, sticky: bool)
    requires Wf(d)
    ensures Sound(ProgramCode(f, canon, d, sticky))
  {
    hide Sound, Net, DisjCode, Wf;
    var body := DisjCode(f, canon, d, false, 1);
    DisjSound(f, canon, d, false, 1);
    DisjBalanced(f, canon, d, false, 1);
    SoundAround(Save(false, 0), body, Save(true, 0));
    NetAround(Save(false, 0), body, Save(true, 0));
    SoundLast([Save(false, 0)] + body + [Save(true, 0)], Match);
    SoundNothing();
    NetNothing();
    SoundOne(Any);
    NetOne(Any);
    SoundAround(Split(false, 6), [Any], Goto(-11));
    NetAround(Split(false, 6), [Any], Goto(-11));
    assert SearchLoop(false) == [Split(false, 6)] + [Any] + [Goto(-11)];
    SoundConcat(SearchLoop(sticky), WholeCode(f, canon, d));
  }
}
