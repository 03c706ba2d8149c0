/** Whole programs: the header, the search loop, and the main theorem about compiling and executing. */
module RegexProgram {
  import opened Bytes
  import opened Wrappers
  import opened RegexSyntax
  import opened RegexBytecode
  import opened RegexReference
  import opened RegexCompiler
  import opened RegexMachine
  import opened RegexSimulation
  import opened RegexClass
  import opened RegexCorrectness

  datatype CompileError = TooManyCaptures | TooManyImbricatedQuantifiers

  function Header(reFlags: int, captureCount: byte, stackSize: byte, len: nat): (h: seq<byte>)
    ensures |h| == HEADER_LEN
  {
    U16(reFlags) + [captureCount] + [stackSize] + U32(len)
  }

  /** The buffer lre_compile returns, or its error. */
  function Compile(f: Flags, canon: CodePoint -> CodePoint, d: Disjunction, sticky: bool, reFlags: int): Result<seq<byte>, CompileError> {
    var code := ProgramCode(f, canon, d, sticky);
    if 1 + Groups(d) > CAPTURE_COUNT_MAX then Err(TooManyCaptures)
    else if MaxDepth(code) > STACK_SIZE_MAX then Err(TooManyImbricatedQuantifiers)
    else Ok(Header(reFlags, 1 + Groups(d), MaxDepth(code), Size(code)) + EncAll(code))
  }

  /** lre_exec: the stack size and the number of captures come from the header. */
  function Load(buf: seq<byte>, s: Subject): Program
    requires |buf| >= HEADER_LEN
  {
    Program(buf, s, buf[3])
  }

  function NoCaptures(n: nat): Captures { seq(2 * n, _ => None) }

  function Start(buf: seq<byte>, start: nat): Config
    requires |buf| >= HEADER_LEN
  {
    Run(HEADER_LEN, St(start, NoCaptures(buf[2])), [], [])
  }

  ghost function First(L: seq<St>): Option<Captures> { if L == [] then None else Some(L[0].caps) }

  // ----- every operand fits its field -----

  lemma SizeConcat(a: Code, b: Code)
    ensures Size(a + b) == Size(a) + Size(b)
    ensures AllEncodable(a + b) <==> AllEncodable(a) && AllEncodable(b)
  {
    EncAllConcat(a, b);
    EncodableConcat(a, b);
  }

  lemma SizeOne(i: Instr)
    ensures Size([i]) == InstrSize(i) && (AllEncodable([i]) <==> Encodable(i))
  {
    EncAllOne(i);
    assert [i][0] == i;
  }

  lemma SizeAround(i: Instr, code: Code, j: Instr)
    ensures Size([i] + code + [j]) == InstrSize(i) + Size(code) + InstrSize(j)
    ensures AllEncodable([i] + code + [j]) <==> Encodable(i) && AllEncodable(code) && Encodable(j)
  {
    hide Size, AllEncodable, Encodable, InstrSize;
    SizeConcat([i] + code, [j]);
    SizeConcat([i], code);
    SizeOne(i);
    SizeOne(j);
  }

  lemma {:induction false} TermEncodable(f: Flags, canon: CodePoint -> CodePoint, t: Term, bw: bool, cc: nat)
    requires TermWf(t) && cc + TermGroups(t) <= 256 && Size(TermCode(f, canon, t, bw, cc)) <= INT32_MAX
    ensures AllEncodable(TermCode(f, canon, t, bw, cc))
    decreases t, 1
  {
    hide Size, AllEncodable, DisjCode, RepeatCode, Wf, InstrSize;
    match t {
      case Plain(d) => DisjEncodable(f, canon, d, bw, cc);
      case Group(d) => GroupEncodable(f, canon, t, bw, cc);
      case Lookaround(d, behind, negated) => LookEncodable(f, canon, t, bw, cc);
      case Repeat(a, min, max, greedy) =>
        AtomSize(TermCode(f, canon, a, bw, cc), cc, TermGroups(a), min, max, greedy);
        if !(min == 0 && max == 0) {
          TermEncodable(f, canon, a, bw, cc);
        }
        RepeatEncodable(TermCode(f, canon, a, bw, cc), cc, TermGroups(a), min, max, greedy);
      case Bol => SizeOne(LineStart(f.multiLine));
      case Eol => SizeOne(LineEnd(f.multiLine));
      case Boundary(n) => SizeOne(WordBoundary(n, f.ignoreCase));
      case Reference(n) => SizeOne(BackRef(bw, f.ignoreCase, n));
      case _ => CharEncodable(f, canon, t, bw);
    }
  }

  lemma CharEncodable(f: Flags, canon: CodePoint -> CodePoint, t: Term, bw: bool)
    requires (t.Character? || t.Period? || t.Class?) && TermWf(t)
    ensures AllEncodable(Directed(bw, CharTermInstr(f, canon, t)))
  {
    hide AllEncodable, Size, CharTermInstr, InstrSize;
    var i := CharTermInstr(f, canon, t);
    CharInstrEncodable(f, canon, t);
    SizeOne(i);
    SizeAround(Prev, [i], Prev);
    assert [Prev, i, Prev] == [Prev] + [i] + [Prev];
  }

  lemma CharInstrEncodable(f: Flags, canon: CodePoint -> CodePoint, t: Term)
    requires (t.Character? || t.Period? || t.Class?) && TermWf(t)
    ensures Encodable(CharTermInstr(f, canon, t))
  {
    if t.Class? && t.points != [] {
      PairsEncodable(NeedsWide(t.points), t.points);
    }
  }

  lemma {:induction false} GroupEncodable(f: Flags, canon: CodePoint -> CodePoint, t: Term, bw: bool, cc: nat)
    requires t.Group? && TermWf(t) && cc + TermGroups(t) <= 256 && Size(TermCode(f, canon, t, bw, cc)) <= INT32_MAX
    ensures AllEncodable(TermCode(f, canon, t, bw, cc))
    decreases t, 0
  {
    hide Size, AllEncodable, DisjCode, Wf;
    SizeAround(Save(bw, cc), DisjCode(f, canon, t.body, bw, cc + 1), Save(!bw, cc));
    DisjEncodable(f, canon, t.body, bw, cc + 1);
  }

  lemma {:induction false} LookEncodable(f: Flags, canon: CodePoint -> CodePoint, t: Term, bw: bool, cc: nat)
    requires t.Lookaround? && TermWf(t) && cc + TermGroups(t) <= 256 && Size(TermCode(f, canon, t, bw, cc)) <= INT32_MAX
    ensures AllEncodable(TermCode(f, canon, t, bw, cc))
    decreases t, 0
  {
    hide Size, AllEncodable, DisjCode, Wf;
    LookSize(t.negated, DisjCode(f, canon, t.body, t.behind, cc));
    DisjEncodable(f, canon, t.body, t.behind, cc);
  }

  lemma LookSize(negated: bool, body: Code)
    ensures var code := [Look(negated, Size(body) + 1)] + body + [Match];
            Size(code) == Size(body) + 6 && (AllEncodable(body) && Size(body) < INT32_MAX ==> AllEncodable(code))
  {
    hide Size, AllEncodable;
    SizeAround(Look(negated, Size(body) + 1), body, Match);
  }

  lemma LoopSizes(atom: Code, check: bool, greedy: bool, n: nat)
    ensures Size(OptionalCode(atom, check, greedy)) >= Size(atom) + 5
    ensures Size(StarCode(atom, check, greedy)) >= Size(atom) + 10
    ensures Size(CountedCode(atom, check, greedy, n)) >= Size(atom) + 16
    ensures n != 1 ==> Size(MandatoryCode(atom, n)) == Size(atom) + 11
    ensures n < TWO32 && AllEncodable(atom) && Size(OptionalCode(atom, check, greedy)) <= INT32_MAX ==>
              AllEncodable(OptionalCode(atom, check, greedy))
    ensures n < TWO32 && AllEncodable(atom) && Size(StarCode(atom, check, greedy)) <= INT32_MAX ==>
              AllEncodable(StarCode(atom, check, greedy))
    ensures n < TWO32 && AllEncodable(atom) && Size(CountedCode(atom, check, greedy, n)) <= INT32_MAX ==>
              AllEncodable(CountedCode(atom, check, greedy, n))
    ensures n < TWO32 && AllEncodable(atom) && Size(MandatoryCode(atom, n)) <= INT32_MAX ==>
              AllEncodable(MandatoryCode(atom, n))
  {
    hide Size, AllEncodable;
    var g := Guarded(atom, check);
    SizeAround(PushCharPos, atom, CheckAdvance);
    var split := Split(greedy, Size(g) + 5);
    SizeConcat([Split(greedy, Size(g))], g);
    SizeOne(Split(greedy, Size(g)));
    SizeAround(split, g, Goto(-(Size(g) + 10)));
    SizeAround(split, g, Loop(-(Size(g) + 10)));
    SizeAround(PushI32(n), [split] + g + [Loop(-(Size(g) + 10))], Drop);
    var l := Loop(-(Size(atom) + 5));
    SizeConcat(atom, [l]);
    SizeOne(l);
    SizeAround(PushI32(n), atom + [l], Drop);
  }

  /** Unless it is dropped ({0,0}), the atom is part of the code of the quantifier. */
  lemma AtomSize(atom: Code, cc: nat, groups: nat, min: nat, max: nat, greedy: bool)
    requires min <= max
    ensures min == max == 0 || Size(atom) <= Size(RepeatCode(atom, cc, groups, min, max, greedy))
  {
    hide Size, NeedCheckAdvance, SimpleQuantifier, OptionalCode, StarCode, CountedCode, InstrSize;
    var check := NeedCheckAdvance(atom);
    if greedy && max > 0 && SimpleQuantifier(atom) > 0 {
      SizeAround(SimpleGreedyQuant(Size(atom) + 1, min, max, SimpleQuantifier(atom)), atom, Match);
    } else if min == 1 && max == INT32_MAX && !check {
      SizeConcat(atom, [Split(!greedy, -(Size(atom) + 5))]);
    } else {
      LoopSizes(atom, check, greedy, min);
      LoopSizes(atom, check, greedy, max - min);
      SizeConcat(Prefix(atom, cc, groups, min), Remainder(atom, min, max, greedy));
    }
  }

  lemma RepeatEncodable(atom: Code, cc: nat, groups: nat, min: nat, max: nat, greedy: bool)
    requires min <= max <= INT32_MAX && cc + groups <= 256
    requires min == max == 0 || AllEncodable(atom)
    requires Size(RepeatCode(atom, cc, groups, min, max, greedy)) <= INT32_MAX
    ensures AllEncodable(RepeatCode(atom, cc, groups, min, max, greedy))
  {
    hide Size, AllEncodable, NeedCheckAdvance, SimpleQuantifier, OptionalCode, StarCode, CountedCode, MandatoryCode;
    var check := NeedCheckAdvance(atom);
    if greedy && max > 0 && SimpleQuantifier(atom) > 0 {
      SizeAround(SimpleGreedyQuant(Size(atom) + 1, min, max, SimpleQuantifier(atom)), atom, Match);
      AtomChars(atom);
    } else if min == 1 && max == INT32_MAX && !check {
      SizeConcat(atom, [Split(!greedy, -(Size(atom) + 5))]);
      SizeOne(Split(!greedy, -(Size(atom) + 5)));
    } else {
      LoopSizes(atom, check, greedy, min);
      LoopSizes(atom, check, greedy, max - min);
      SizeConcat(Prefix(atom, cc, groups, min), Remainder(atom, min, max, greedy));
      SizeOne(SaveReset(cc, if groups > 0 then cc + groups - 1 else 0));
      NothingEncodable();
    }
  }

  lemma NothingEncodable()
    ensures AllEncodable([])
  {
  }

  lemma AtomChars(atom: Code)
    ensures SimpleQuantifier(atom) <= Size(atom)
  {
    CharsAtMostSize(atom);
  }

  lemma {:induction false} CharsAtMostSize(code: Code)
    ensures CharTests(code) <= Size(code)
    decreases |code|
  {
    if code != [] {
      CharsAtMostSize(code[1..]);
    }
  }

  lemma {:induction false} AltEncodable(f: Flags, canon: CodePoint -> CodePoint, a: Alternative, bw: bool, cc: nat)
    requires AltWf(a) && cc + AltGroups(a) <= 256 && Size(AltCode(f, canon, a, bw, cc)) <= INT32_MAX
    ensures AllEncodable(AltCode(f, canon, a, bw, cc))
    decreases a, 1
  {
    hide Size, AllEncodable, TermCode, TermWf;
    match a {
      case Empty => NothingEncodable();
      case Snoc(init, last) =>
        var first := AltCode(f, canon, init, bw, cc);
        var next := TermCode(f, canon, last, bw, cc + AltGroups(init));
        SizeConcat(first, next);
        SizeConcat(next, first);
        AltEncodable(f, canon, init, bw, cc);
        TermEncodable(f, canon, last, bw, cc + AltGroups(init));
    }
  }

  lemma {:induction false} DisjEncodable(f: Flags, canon: CodePoint -> CodePoint, d: Disjunction, bw: bool, cc: nat)
    requires Wf(d) && cc + Groups(d) <= 256 && Size(DisjCode(f, canon, d, bw, cc)) <= INT32_MAX
    ensures AllEncodable(DisjCode(f, canon, d, bw, cc))
    decreases d, 1
  {
    hide Size, AllEncodable, AltCode, AltWf, OrCode;
    match d {
      case Single(a) => AltEncodable(f, canon, a, bw, cc);
      case Or(init, a) =>
        OrSize(DisjCode(f, canon, init, bw, cc), AltCode(f, canon, a, bw, cc + Groups(init)));
        DisjEncodable(f, canon, init, bw, cc);
        AltEncodable(f, canon, a, bw, cc + Groups(init));
    }
  }

  lemma OrSize(left: Code, right: Code)
    ensures Size(OrCode(left, right)) == 10 + Size(left) + Size(right)
    ensures Size(OrCode(left, right)) <= INT32_MAX && AllEncodable(left) && AllEncodable(right) ==> AllEncodable(OrCode(left, right))
  {
    hide Size, AllEncodable;
    var i, j := Split(true, Size(left) + 5), Goto(Size(right));
    SizeConcat([i] + left, [j] + right);
    SizeConcat([i], left);
    SizeConcat([j], right);
    SizeOne(i);
    SizeOne(j);
  }

  lemma ProgramEncodable(f: Flags, canon: CodePoint -> CodePoint, d: Disjunction, sticky: bool)
    requires Wf(d) && 1 + Groups(d) <= 256 && Size(ProgramCode(f, canon, d, sticky)) <= INT32_MAX
    ensures AllEncodable(ProgramCode(f, canon, d, sticky))
  {
    hide Size, AllEncodable, DisjCode, Wf;
    var body := DisjCode(f, canon, d, false, 1);
    SizeConcat(SearchLoop(sticky), WholeCode(f, canon, d));
    SizeConcat([Save(false, 0)] + body + [Save(true, 0)], [Match]);
    SizeAround(Save(false, 0), body, Save(true, 0));
    SizeOne(Match);
    NothingEncodable();
    SizeAround(Split(false, 6), [Any], Goto(-11));
    SizeOne(Any);
    assert SearchLoop(false) == [Split(false, 6)] + [Any] + [Goto(-11)];
    DisjEncodable(f, canon, d, false, 1);
  }

  // ----- the program in memory -----

  lemma ProgramFits(f: Flags, canon: CodePoint -> CodePoint, d: Disjunction, sticky: bool, reFlags: int, s: Subject)
    requires Wf(d) && Compile(f, canon, d, sticky, reFlags).Ok?
    requires |Compile(f, canon, d, sticky, reFlags).value| <= INT32_MAX
    ensures var buf := Compile(f, canon, d, sticky, reFlags).value;
            && |buf| >= HEADER_LEN && buf[2] == 1 + Groups(d) && buf[3] == MaxDepth(ProgramCode(f, canon, d, sticky))
            && Fits(Load(buf, s), HEADER_LEN, ProgramCode(f, canon, d, sticky), 0)
  {
    hide Size, AllEncodable, ProgramCode, Wf, MaxDepth, EncAll;
    var code := ProgramCode(f, canon, d, sticky);
    var buf := Compile(f, canon, d, sticky, reFlags).value;
    var h := Header(reFlags, 1 + Groups(d), MaxDepth(code), Size(code));
    assert buf == h + EncAll(code);
    assert buf[HEADER_LEN..HEADER_LEN + |EncAll(code)|] == EncAll(code);
    assert buf[2] == h[2] && buf[3] == h[3];
    ProgramEncodable(f, canon, d, sticky);
  }

  /** From the start of WholeCode to its match instruction. */
  lemma WholeRuns(p: Program, d: Disjunction, pc: int, st: St)
    requires Wf(d) && Good(p, st, 1 + Groups(d))
    requires Fits(p, pc, WholeCode(p.subject.flags, p.subject.canon, d), 0)
    ensures var end := pc + Size(CodeD(p, d, false, 1)) + 4;
            Yields(p, pc, st, [], MWhole(p.subject, d, st), end, []) && Fetch(p.code, end) == Some(Match)
  {
    hide Fits, Yields, Fetch, Size, DisjCode, MDisj, Wf, SetCapAll, Net;
    var s := p.subject;
    var body := CodeD(p, d, false, 1);
    var first := [Save(false, 0)] + body + [Save(true, 0)];
    var mid := pc + 2 + Size(body);
    DisjBalanced(s.flags, s.canon, d, false, 1);
    NetAround(Save(false, 0), body, Save(true, 0));
    FitsLast(p, pc, first, Match, 0);
    GroupLayout(p, pc, Save(false, 0), body, Save(true, 0), 0);
    var st1 := SetCap(st, 0);
    DisjRuns(p, d, false, 1, pc + 2, st1, []);
    var L := MDisj(s, d, false, 1, st1);
    AheadGood(p, false, st1, L, 1 + Groups(d));
    SaveAfter(p, pc + 2, st1, [], L, mid, true, 0);
    SaveStep(p, pc, false, 0, st, [], MWhole(s, d, st), mid + 2, []);
  }

  lemma SearchLayout(p: Program, pc: int, d: Disjunction)
    requires Fits(p, pc, ProgramCode(p.subject.flags, p.subject.canon, d, false), 0)
    ensures Fetch(p.code, pc) == Some(Split(false, 6)) && Fetch(p.code, pc + 5) == Some(Any)
    ensures Fetch(p.code, pc + 6) == Some(Goto(-11))
    ensures Fits(p, pc + 11, WholeCode(p.subject.flags, p.subject.canon, d), 0)
  {
    hide Fits, Fetch, Size, WholeCode;
    var whole := WholeCode(p.subject.flags, p.subject.canon, d);
    assert SearchLoop(false) + whole == [Split(false, 6)] + ([Any] + ([Goto(-11)] + whole));
    FitsHead(p, pc, Split(false, 6), [Any] + ([Goto(-11)] + whole), 0);
    FitsHead(p, pc + 5, Any, [Goto(-11)] + whole, 0);
    FitsHead(p, pc + 6, Goto(-11), whole, 0);
  }

  /** The search loop tries every start position from st on. */
  lemma {:induction false} SearchRuns(p: Program, d: Disjunction, pc: int, st: St)
    requires Wf(d) && Good(p, st, 1 + Groups(d))
    requires Fits(p, pc, ProgramCode(p.subject.flags, p.subject.canon, d, false), 0)
    ensures var end := pc + Size(CodeD(p, d, false, 1)) + 15;
            Yields(p, pc, st, [], MSearch(p.subject, d, false, st), end, [])
    decreases Left(p.subject, false, st.pos)
  {
    hide Fits, Yields, Fetch, Size, MWhole, Wf, ProgramCode, WholeCode;
    var s := p.subject;
    var end := pc + Size(CodeD(p, d, false, 1)) + 15;
    SearchLayout(p, pc, d);
    WholeRuns(p, d, pc + 11, st);
    var L := if st.pos < |s.input| then MSearch(s, d, false, st.(pos := st.pos + 1)) else [];
    SimpleRuns(p, pc + 5, Any, st, []);
    if st.pos < |s.input| {
      var st1 := st.(pos := st.pos + 1);
      SearchRuns(p, d, pc, st1);
      GotoStep(p, pc + 6, -11, st1, [], L, end, []);
      YieldsChain(p, pc + 5, st, [], [st1], pc + 6, [], L, end, []);
    } else {
      YieldsChain(p, pc + 5, st, [], [], pc + 6, [], [], end, []);
      assert MWhole(s, d, st) + [] == MWhole(s, d, st);
    }
    YieldsSplit(p, pc, st, [], false, 6, MWhole(s, d, st), L, end, []);
  }

  /** A run that produces L at the final match instruction halts with the first element of L. */
  lemma Halts(p: Program, x: Config, L: seq<St>, end: int)
    requires Produces(p, x, L, end, [], []) && Fetch(p.code, end) == Some(Match)
    requires L != [] ==> L[0].pos <= |p.subject.input|
    ensures Reaches(p, x, Done(First(L)))
  {
    hide Fetch, Reaches;
    if L == [] {
      ReachesStep(p, Fail([]));
      ReachesTrans(p, x, Fail([]), Done(None));
    } else {
      var S :| Extends(S, []) && Reaches(p, x, Run(end, L[0], [], S));
      var y := Run(end, L[0], [], S);
      ReachesStep(p, y);
      ReachesTrans(p, x, y, Success(L[0].caps, S));
      Discard(p, L[0].caps, S, []);
      ReachesTrans(p, x, Success(L[0].caps, S), Success(L[0].caps, []));
      ReachesStep(p, Success(L[0].caps, []));
      ReachesTrans(p, x, Success(L[0].caps, []), Done(Some(L[0].caps)));
    }
  }

  lemma SearchInside(s: Subject, d: Disjunction, sticky: bool, st: St)
    requires st.pos <= |s.input|
    ensures forall i | 0 <= i < |MSearch(s, d, sticky, st)| :: MSearch(s, d, sticky, st)[i].pos <= |s.input|
    decreases Left(s, false, st.pos)
  {
    var st1 := SetCap(st, 0);
    var L := MDisj(s, d, false, 1, st1);
    SetCapAllAhead(s, false, st1, L, 1);
    var W := MWhole(s, d, st);
    forall i | 0 <= i < |W| ensures W[i].pos <= |s.input| {
      assert Ahead(s, false, st1, W[i]);
    }
    if !sticky && st.pos < |s.input| {
      SearchInside(s, d, sticky, st.(pos := st.pos + 1));
    }
  }

  /** Compiler correctness and termination. For every expression that compiles, every input and every start
      position, executing the compiled buffer halts, and it answers with the captures of the reference matcher's
      first result, or with no match when there is none. */
  lemma CompiledExpressionIsCorrect(f: Flags, canon: CodePoint -> CodePoint, d: Disjunction, sticky: bool, reFlags: int,
                                    input: seq<byte>, start: nat)
    requires Wf(d) && start <= |input|
    requires Compile(f, canon, d, sticky, reFlags).Ok? && |Compile(f, canon, d, sticky, reFlags).value| <= INT32_MAX
    ensures var buf := Compile(f, canon, d, sticky, reFlags).value;
            var s := Subject(input, f, canon);
            && |buf| >= HEADER_LEN
            && Reaches(Load(buf, s), Start(buf, start),
                       Done(First(MSearch(s, d, sticky, St(start, NoCaptures(1 + Groups(d)))))))
  {
    hide Fits, Yields, Fetch, Size, MWhole, MSearch, Wf, DisjCode, WholeCode, Compile, Produces;
    var s := Subject(input, f, canon);
    var buf := Compile(f, canon, d, sticky, reFlags).value;
    ProgramFits(f, canon, d, sticky, reFlags, s);
    var p := Load(buf, s);
    var st := St(start, NoCaptures(1 + Groups(d)));
    SearchInside(s, d, sticky, st);
    var L := MSearch(s, d, sticky, st);
    if sticky {
      assert ProgramCode(f, canon, d, true) == WholeCode(f, canon, d);
      StickySearch(s, d, st);
      WholeRuns(p, d, HEADER_LEN, st);
      ProducesFromYields(p, HEADER_LEN, st, L, HEADER_LEN + Size(CodeD(p, d, false, 1)) + 4);
      Halts(p, Start(buf, start), L, HEADER_LEN + Size(CodeD(p, d, false, 1)) + 4);
    } else {
      SearchLayout(p, HEADER_LEN, d);
      WholeRuns(p, d, HEADER_LEN + 11, st);
      SearchRuns(p, d, HEADER_LEN, st);
      ProducesFromYields(p, HEADER_LEN, st, L, HEADER_LEN + Size(CodeD(p, d, false, 1)) + 15);
      Halts(p, Start(buf, start), L, HEADER_LEN + Size(CodeD(p, d, false, 1)) + 15);
    }
  }

  lemma StickySearch(s: Subject, d: Disjunction, st: St)
    ensures MSearch(s, d, true, st) == MWhole(s, d, st)
  {
  }

  lemma ProducesFromYields(p: Program, pc: int, st: St, L: seq<St>, end: int)
    requires Yields(p, pc, st, [], L, end, [])
    ensures Produces(p, Run(pc, st, [], []), L, end, [], [])
  {
  }

  // ----- the answer is unique -----

  lemma {:induction false} DoneStays(p: Program, r: Option<Captures>, n: nat)
    ensures Steps(p, Done(r), n) == Done(r)
    decreases n
  {
    if n > 0 {
      DoneStays(p, r, n - 1);
    }
  }

  /** The machine is deterministic: it halts with at most one answer. */
  lemma AnswerUnique(p: Program, x: Config, a: Option<Captures>, b: Option<Captures>)
    requires Reaches(p, x, Done(a)) && Reaches(p, x, Done(b))
    ensures a == b
  {
    var m: nat :| Steps(p, x, m) == Done(a);
    var n: nat :| Steps(p, x, n) == Done(b);
    if m <= n {
      StepsAdd(p, x, m, n - m);
      DoneStays(p, a, n - m);
    } else {
      StepsAdd(p, x, n, m - n);
      DoneStays(p, b, m - n);
    }
  }
}
