/**
 Which push a slot of the value stack comes from. The machine is run with a mark on every slot: the address of the
 instruction that pushed it. In every run of a compiled expression, the slot that loop, drop or check_advance acts on
 was pushed by the matching push in the program text, whatever splits, backward jumps and resumed states lie between.
 */
module RegexOrigins {
  import opened Bytes
  import opened Wrappers
  import opened RegexSyntax
  import opened RegexBytecode
  import Reference = RegexReference
  import opened RegexCompiler
  import opened RegexMachine
  import opened RegexSimulation
  import opened RegexCorrectness
  import opened RegexProgram
  import opened RegexExec
  import opened RegexSafety

  // ----- the machine with marks -----

  // marks: where each slot of the value stack was pushed; saved: the marks of the saved states
  datatype Marked = Marked(c: Config, marks: seq<int>, saved: seq<seq<int>>)

  /** A slot keeps its mark until it is popped; a new one is marked with pc. */
  function MarksAfter(marks: seq<int>, pc: int, height: nat): seq<int> {
    if height <= |marks| then marks[..height] else marks + [pc]
  }

  function Kept(saved: seq<seq<int>>, n: nat): seq<seq<int>> {
    if n < |saved| then saved[..n] else saved
  }

  /** A step of the machine; a state is saved and resumed with the marks of its stack. */
  function MarkedStep(p: Program, t: Marked): Marked {
    var d := Step(p, t.c);
    match d
    case Run(_, _, stack, saved) =>
      if t.c.Run? then
        Marked(d, MarksAfter(t.marks, t.c.pc, |stack|), if |saved| > |t.saved| then t.saved + [t.marks] else t.saved)
      else Marked(d, if t.saved == [] then t.marks else t.saved[|t.saved| - 1], Kept(t.saved, |saved|))
    case Fail(saved) => Marked(d, t.marks, Kept(t.saved, |saved|))
    case Success(_, saved) => Marked(d, t.marks, Kept(t.saved, |saved|))
    case _ => t.(c := d)
  }

  function MarkedSteps(p: Program, t: Marked, n: nat): Marked
    decreases n
  {
    if n == 0 then t else MarkedSteps(p, MarkedStep(p, t), n - 1)
  }

  /** The marks only observe the run. */
  lemma {:induction false} MarksObserve(p: Program, t: Marked, n: nat)
    ensures MarkedSteps(p, t, n).c == Steps(p, t.c, n)
    decreases n
  {
    hide Step;
    if n > 0 {
      MarksObserve(p, MarkedStep(p, t), n - 1);
    }
  }

  // ----- matching pushes in the program text -----

  predicate Pushes(i: Instr) { i.PushI32? || i.PushCharPos? }

  /** The level before instruction i, above that after instruction j. */
  function Rise(code: Code, j: nat, i: nat): int
    requires j < i <= |code|
  {
    Net(code[j + 1..i])
  }

  /** The push j is open until instruction k: in between, the level never falls below it, and at k it is the last one. */
  ghost predicate Matches(code: Code, j: nat, k: nat) {
    && j < k <= |code| && Pushes(code[j])
    && Rise(code, j, k) == 0
    && forall i | j < i <= k :: Rise(code, j, i) >= 0
  }

  /** No instruction has two matching pushes. */
  lemma MatchesOnce(code: Code, j: nat, j': nat, k: nat)
    requires Matches(code, j, k) && Matches(code, j', k)
    ensures j == j'
  {
    hide Net;
    var a, b := if j <= j' then j else j', if j <= j' then j' else j;
    assert Rise(code, a, k) == 0 && (a < b ==> Rise(code, a, b) >= 0);
    if a < b {
      assert code[a + 1..k] == code[a + 1..b] + ([code[b]] + code[b + 1..k]);
      DepthConcat(code[a + 1..b], [code[b]] + code[b + 1..k]);
      DepthConcat([code[b]], code[b + 1..k]);
      NetOne(code[b]);
    }
  }

  // ----- the slots of the static shape -----

  lemma ScanNext(code: Code, k: nat)
    requires k < |code|
    ensures Scan([], 0, code[..k + 1]) ==
            match Scan([], 0, code[..k]) { case None => None case Some(s) => ShapeAfter(s, k, code[k]) }
  {
    hide Scan, ShapeAfter;
    assert code[..k + 1] == code[..k] + [code[k]];
    ScanConcat([], 0, code[..k], [code[k]]);
    if Scan([], 0, code[..k]).Some? {
      ScanOne(Scan([], 0, code[..k]).value, k, code[k]);
    }
  }

  /** The height of the shape before instruction k. */
  ghost function Height(code: Code, k: nat): nat
    requires k <= |code| && Scan([], 0, code[..k]).Some?
  {
    |Scan([], 0, code[..k]).value|
  }

  /** Slot m before instruction k is that of the push j: it was slot m when j pushed it, and is there ever since. */
  ghost predicate Open(code: Code, k: nat, m: nat, j: nat) {
    && j < k <= |code| && Pushes(code[j])
    && forall i | j < i <= k :: Scan([], 0, code[..i]).Some? && Height(code, i) > m && (i == j + 1 ==> Height(code, i) == m + 1)
  }

  function Slotted(code: Code, j: nat): Slot
    requires j < |code|
  {
    if code[j].PushCharPos? then Position(j) else Counter(j)
  }

  lemma {:induction false} SlotOpen(code: Code, k: nat, m: nat)
    requires k <= |code| && Scan([], 0, code[..k]).Some? && m < Height(code, k)
    ensures var slot := Scan([], 0, code[..k]).value[m];
            Open(code, k, m, slot.pusher) && slot == Slotted(code, slot.pusher)
    decreases k
  {
    hide Scan;
    ScanNothing([], 0);
    assert code[..0] == [];
    if k > 0 {
      ScanNext(code, k - 1);
      var before := Scan([], 0, code[..k - 1]).value;
      if m < |before| {
        SlotOpen(code, k - 1, m);
        assert Scan([], 0, code[..k]).value[m] == before[m];
      } else {
        assert Open(code, k, m, k - 1);
      }
    }
  }

  /** The slot on top is that of the matching push. */
  lemma OpenMatches(code: Code, k: nat, m: nat, j: nat)
    requires Open(code, k, m, j) && Height(code, k) == m + 1
    ensures Matches(code, j, k)
  {
    hide Scan, Net;
    forall i | j < i <= k ensures Rise(code, j, i) == Height(code, i) - (m + 1) {
      assert code[..i] == code[..j + 1] + code[j + 1..i];
      DepthConcat(code[..j + 1], code[j + 1..i]);
      ShapeSize([], 0, code[..i]);
      ShapeSize([], 0, code[..j + 1]);
    }
  }

  // ----- the marks at an instruction -----

  function Address(code: Code, k: nat): int
    requires k <= |code|
  {
    HEADER_LEN + Size(code[..k])
  }

  /** The marks are the addresses of the pushes that the static shape names. */
  ghost predicate MarksAt(code: Code, k: nat, marks: seq<int>) {
    && k <= |code| && Scan([], 0, code[..k]).Some?
    && var s := Scan([], 0, code[..k]).value;
    && |marks| == |s|
    && forall m | 0 <= m < |s| :: s[m].pusher < |code| && marks[m] == Address(code, s[m].pusher)
  }

  ghost predicate MarkedAt(code: Code, pc: int, marks: seq<int>) {
    exists k: nat :: k <= |code| && pc == Address(code, k) && MarksAt(code, k, marks)
  }

  lemma AddressGrows(code: Code, k: nat, k': nat)
    requires k < k' <= |code|
    ensures Address(code, k) < Address(code, k')
  {
    hide Size;
    assert code[..k'] == code[..k] + ([code[k]] + code[k + 1..k']);
    SizeConcat(code[..k], [code[k]] + code[k + 1..k']);
    SizeConcat([code[k]], code[k + 1..k']);
    SizeOne(code[k]);
  }

  lemma MarksHere(code: Code, k: nat, marks: seq<int>)
    requires k <= |code| && MarkedAt(code, Address(code, k), marks)
    ensures MarksAt(code, k, marks)
  {
    hide Address, MarksAt;
    var k': nat :| k' <= |code| && Address(code, k) == Address(code, k') && MarksAt(code, k', marks);
    if k < k' {
      AddressGrows(code, k, k');
    } else if k' < k {
      AddressGrows(code, k', k);
    }
  }

  lemma MarksNext(code: Code, k: nat, marks: seq<int>)
    requires k < |code| && MarksAt(code, k, marks) && Scan([], 0, code[..k + 1]).Some?
    ensures Height(code, k + 1) == Height(code, k) + Effect(code[k])
    ensures MarksAt(code, k + 1, MarksAfter(marks, Address(code, k), Height(code, k + 1)))
  {
    hide Scan, Address;
    ScanNext(code, k);
  }

  /** A jump keeps the marks. */
  lemma MarksJump(code: Code, k: nat, marks: seq<int>)
    requires k < |code| && WellShaped([], 0, code) && MarksAt(code, k + 1, marks)
    ensures MarkedAt(code, Address(code, k + 1), marks)
    ensures Jumps(code[k]) ==> MarkedAt(code, Address(code, k + 1) + Offset(code[k]), marks)
  {
    hide Scan, Size;
    assert JumpOk([], 0, code, k);
    if Jumps(code[k]) {
      var j: nat :| Lands([], 0, code, k, j);
      assert MarksAt(code, j, marks);
    }
  }

  // ----- runs -----

  /** Where a saved state is resumed; that of a quantifier is at its instruction. */
  function ResumedAt(rs: Saved): int { if rs.kind == GreedyState then rs.pc - 1 else rs.pc }

  ghost predicate SavedMarked(code: Code, saved: seq<Saved>, marks: seq<seq<int>>) {
    |marks| == |saved| && forall i | 0 <= i < |saved| :: MarkedAt(code, ResumedAt(saved[i]), marks[i])
  }

  ghost predicate MarkedWell(code: Code, t: Marked) {
    match t.c
    case Run(pc, _, _, saved) => MarkedAt(code, pc, t.marks) && SavedMarked(code, saved, t.saved)
    case Fail(saved) => SavedMarked(code, saved, t.saved)
    case Success(_, saved) => SavedMarked(code, saved, t.saved)
    case _ => true
  }

  predicate NextOrTarget(i: Instr, next: int, pc: int) {
    pc == next || (Jumps(i) && pc == next + Offset(i))
  }

  /** What a step does to the height of the stack, to pc and to the saved states. */
  ghost predicate StepShape(i: Instr, next: int, stack: seq<nat>, saved: seq<Saved>, c: Config) {
    match c
    case Run(pc, _, stack', saved') =>
      && |stack'| == |stack| + Effect(i)
      && NextOrTarget(i, next, pc)
      && (saved' == saved ||
          (&& Jumps(i) && |saved'| == |saved| + 1 && saved'[..|saved|] == saved
           && (NextOrTarget(i, next, ResumedAt(saved'[|saved|])) ||
               (i.SimpleGreedyQuant? && ResumedAt(saved'[|saved|]) == next - InstrSize(i)))))
    case Fail(saved') => saved' == saved
    case Success(_, saved') => saved' == saved
    case _ => true
  }

  lemma ExecShape(p: Program, i: Instr, next: int, st: Reference.St, stack: seq<nat>, saved: seq<Saved>)
    requires st.pos <= |p.subject.input|
    ensures StepShape(i, next, stack, saved, Exec(p, i, next, st, stack, saved))
  {
    hide CountAtoms, BackRefTest, SimpleTest, Reference.ResetCaps;
  }

  lemma RunMarked(p: Program, code: Code, t: Marked)
    requires RegexSafety.Holds(p, code) && t.c.Run? && Safe(p, code, t.c) && MarkedWell(code, t) && Step(p, t.c) != Stuck
    ensures MarkedWell(code, MarkedStep(p, t))
  {
    hide Fetch, Exec, Size, AllSavedOk, Scan, Typed, Fits, WellShaped, ShapeAfter, StepShape, SavedMarked, MarkedAt;
    var k: nat :| AtInstr(p, code, k, t.c.pc, t.c.st, t.c.stack);
    InstrAhead(p, code, k, t.c);
    FetchInstr(p, code, k);
    ScanPrefix(code, k + 1);
    MarksPerSlot(p, code, k, t);
    ExecShape(p, code[k], Address(code, k + 1), t.c.st, t.c.stack, t.c.saved);
    InstrMarked(code, k, t, MarkedStep(p, t));
  }

  lemma MarksPerSlot(p: Program, code: Code, k: nat, t: Marked)
    requires t.c.Run? && AtInstr(p, code, k, t.c.pc, t.c.st, t.c.stack) && MarkedAt(code, t.c.pc, t.marks)
    ensures |t.marks| == |t.c.stack|
  {
    hide Scan, MarkedAt;
    MarksHere(code, k, t.marks);
  }

  lemma InstrMarked(code: Code, k: nat, t: Marked, u: Marked)
    requires k < |code| && WellShaped([], 0, code) && t.c.Run? && t.c.pc == Address(code, k) && Scan([], 0, code[..k + 1]).Some?
    requires MarkedWell(code, t) && |t.c.stack| == |t.marks| && Address(code, k + 1) == Address(code, k) + InstrSize(code[k])
    requires StepShape(code[k], Address(code, k + 1), t.c.stack, t.c.saved, u.c) && u.c != Stuck
    requires u.c.Run? ==> u.marks == MarksAfter(t.marks, t.c.pc, |u.c.stack|) &&
                          u.saved == if |u.c.saved| > |t.saved| then t.saved + [t.marks] else t.saved
    requires u.c.Fail? || u.c.Success? ==> u.saved == Kept(t.saved, |u.c.saved|)
    ensures MarkedWell(code, u)
  {
    hide Scan, WellShaped, MarkedAt, Address, SavedMarked;
    MarksHere(code, k, t.marks);
    SavedLength(code, t);
    MarksNext(code, k, t.marks);
    if u.c.Run? {
      MarksJump(code, k, u.marks);
      if u.c.saved != t.c.saved {
        assert u.marks == t.marks;
        var last := u.c.saved[|t.c.saved|];
        AddMarked(code, t.c.saved, t.saved, last, t.marks);
        assert u.c.saved == t.c.saved + [last];
      }
    }
  }

  lemma SavedLength(code: Code, t: Marked)
    requires MarkedWell(code, t) && t.c.Run?
    ensures |t.saved| == |t.c.saved|
  {
  }

  lemma LastMarked(code: Code, saved: seq<Saved>, marks: seq<seq<int>>)
    requires SavedMarked(code, saved, marks) && saved != []
    ensures var n := |saved| - 1;
            && |marks| == n + 1 && marks == marks[..n] + [marks[n]]
            && MarkedAt(code, ResumedAt(saved[n]), marks[n]) && SavedMarked(code, saved[..n], marks[..n])
  {
    hide MarkedAt;
  }

  /** Where a quantifier goes on after giving one iteration back. */
  lemma TargetMarked(p: Program, code: Code, rs: Saved, marks: seq<int>)
    requires RegexSafety.Holds(p, code) && SavedOk(p, code, rs) && rs.kind == GreedyState && MarkedAt(code, ResumedAt(rs), marks)
    ensures var i := Fetch(p.code, rs.pc - 1);
            i.Some? && i.value.SimpleGreedyQuant? && MarkedAt(code, rs.pc + 16 + i.value.off, marks)
  {
    hide Fetch, Size, Scan, Typed, Fits, WellShaped, MarkedAt;
    var k: nat :| AtInstr(p, code, k, rs.pc - 1, rs.st, rs.stack) && k < |code| && code[k].SimpleGreedyQuant?;
    FetchInstr(p, code, k);
    ScanPrefix(code, k + 1);
    QuantifierMarked(code, k, marks);
  }

  lemma QuantifierMarked(code: Code, k: nat, marks: seq<int>)
    requires k < |code| && code[k].SimpleGreedyQuant? && WellShaped([], 0, code) && MarkedAt(code, Address(code, k), marks)
    requires Scan([], 0, code[..k + 1]).Some?
    ensures MarkedAt(code, Address(code, k + 1) + code[k].off, marks)
  {
    hide Scan, WellShaped, MarkedAt, Address;
    MarksHere(code, k, marks);
    MarksNext(code, k, marks);
    MarksJump(code, k, marks);
  }

  /** What resuming the state saved last does to pc and to the saved states. */
  ghost predicate ResumeShape(p: Program, c: Config, d: Config)
    requires (c.Fail? || c.Success?) && c.saved != []
  {
    var n := |c.saved| - 1;
    var rs := c.saved[n];
    match d
    case Run(pc, _, _, saved) =>
      if c.Fail? && rs.kind == GreedyState then
        var i := Fetch(p.code, rs.pc - 1);
        && i.Some? && i.value.SimpleGreedyQuant? && pc == rs.pc + 16 + i.value.off
        && (saved == c.saved[..n] || (|saved| == n + 1 && saved[..n] == c.saved[..n] && ResumedAt(saved[n]) == ResumedAt(rs)))
      else pc == ResumedAt(rs) && saved == c.saved[..n]
    case Fail(saved) => saved == c.saved[..n]
    case Success(_, saved) => saved == c.saved[..n]
    case _ => true
  }

  lemma StepResumes(p: Program, c: Config)
    requires (c.Fail? || c.Success?) && c.saved != []
    ensures ResumeShape(p, c, Step(p, c)) && !Step(p, c).Done?
  {
    hide Fetch;
  }

  lemma ResumeMarked(p: Program, code: Code, t: Marked)
    requires RegexSafety.Holds(p, code) && Safe(p, code, t.c) && MarkedWell(code, t) && Step(p, t.c) != Stuck
    requires (t.c.Fail? || t.c.Success?) && t.c.saved != []
    ensures MarkedWell(code, MarkedStep(p, t))
  {
    hide RegexSafety.Holds, Fetch, SavedOk, AtBoundary, MarkedAt, SavedMarked, Step;
    var saved, n := t.c.saved, |t.c.saved| - 1;
    LastMarked(code, saved, t.saved);
    StepResumes(p, t.c);
    var d := Step(p, t.c);
    if d.Run? {
      if t.c.Fail? && saved[n].kind == GreedyState {
        assert SavedOk(p, code, saved[n]);
        TargetMarked(p, code, saved[n], t.saved[n]);
        if d.saved != saved[..n] {
          AddMarked(code, saved[..n], t.saved[..n], d.saved[n], t.saved[n]);
          assert d.saved == saved[..n] + [d.saved[n]];
        }
      }
    }
  }

  lemma AddMarked(code: Code, saved: seq<Saved>, marks: seq<seq<int>>, rs: Saved, m: seq<int>)
    requires SavedMarked(code, saved, marks) && MarkedAt(code, ResumedAt(rs), m)
    ensures SavedMarked(code, saved + [rs], marks + [m])
  {
    hide MarkedAt;
  }

  lemma StepMarked(p: Program, code: Code, t: Marked)
    requires RegexSafety.Holds(p, code) && Safe(p, code, t.c) && MarkedWell(code, t) && Step(p, t.c) != Stuck
    ensures MarkedWell(code, MarkedStep(p, t))
  {
    hide RegexSafety.Holds, Exec, Backtrack, Accept, Fetch, Safe, AllSavedOk, SavedMarked, MarkedAt;
    if t.c.Run? {
      RunMarked(p, code, t);
    } else if (t.c.Fail? || t.c.Success?) && t.c.saved != [] {
      ResumeMarked(p, code, t);
    }
  }

  /** A run that ends is not stuck on the way. */
  lemma NotStuck(p: Program, c: Config, n: nat, m: nat, result: Option<Reference.Captures>)
    requires Steps(p, c, m) == Done(result)
    ensures Steps(p, c, n) != Stuck
  {
    hide Step;
    if n <= m {
      StepsAdd(p, c, n, m - n);
      StuckStays(p, m - n);
    } else {
      StepsAdd(p, c, m, n - m);
      DoneStays(p, result, n - m);
    }
  }

  lemma {:induction false} StepsMarked(p: Program, code: Code, t: Marked, n: nat, m: nat, result: Option<Reference.Captures>)
    requires RegexSafety.Holds(p, code) && Safe(p, code, t.c) && MarkedWell(code, t) && Steps(p, t.c, m) == Done(result)
    ensures MarkedWell(code, MarkedSteps(p, t, n))
    decreases n
  {
    hide Step, Safe, RegexSafety.Holds, MarkedWell;
    if n > 0 {
      NotStuck(p, t.c, 1, m, result);
      OneStep(p, t.c);
      StepSafe(p, code, t.c);
      StepMarked(p, code, t);
      StillEnds(p, t.c, m, result);
      StepsMarked(p, code, MarkedStep(p, t), n - 1, if m > 0 then m - 1 else 0, result);
    }
  }

  lemma StillEnds(p: Program, c: Config, m: nat, result: Option<Reference.Captures>)
    requires Steps(p, c, m) == Done(result)
    ensures Steps(p, Step(p, c), if m > 0 then m - 1 else 0) == Done(result)
  {
    hide Exec, Backtrack, Accept;
  }

  /** The slot on top of the value stack was pushed by the push that matches instruction k, of the right kind. */
  ghost predicate TopFromMatch(code: Code, k: nat, marks: seq<int>) {
    && k < |code| && marks != []
    && exists j: nat :: Matches(code, j, k) && marks[|marks| - 1] == Address(code, j) &&
                        if code[k].CheckAdvance? then code[j].PushCharPos? else code[j].PushI32?
  }

  lemma TopMatches(code: Code, k: nat, marks: seq<int>)
    requires k < |code| && MarksAt(code, k, marks) && Scan([], 0, code[..k + 1]).Some?
    requires code[k].Loop? || code[k].Drop? || code[k].CheckAdvance?
    ensures TopFromMatch(code, k, marks)
  {
    hide Scan, Open;
    ScanNext(code, k);
    var m := Height(code, k) - 1;
    SlotOpen(code, k, m);
    var j := Scan([], 0, code[..k]).value[m].pusher;
    OpenMatches(code, k, m, j);
  }

  /** In every configuration that a run of a compiled expression reaches, the slot that loop, drop or check_advance is
      about to act on was pushed by its matching push in the program text. */
  lemma PushesMatch(f: Flags, canon: CodePoint -> CodePoint, d: Disjunction, sticky: bool, reFlags: int,
                    input: seq<byte>, start: nat, n: nat)
    requires Wf(d) && start <= |input|
    requires Compile(f, canon, d, sticky, reFlags).Ok? && |Compile(f, canon, d, sticky, reFlags).value| <= INT32_MAX
    ensures var buf := Compile(f, canon, d, sticky, reFlags).value;
            var p := Load(buf, Reference.Subject(input, f, canon));
            var code := ProgramCode(f, canon, d, sticky);
            |buf| >= HEADER_LEN &&
            var t := MarkedSteps(p, Marked(Start(buf, start), [], []), n);
            && t.c == Steps(p, Start(buf, start), n)
            && (t.c.Run? ==>
                exists k: nat ::
                  && Located(p, code, k, t.c) && |t.marks| == |t.c.stack|
                  && (code[k].Loop? || code[k].Drop? || code[k].CheckAdvance? ==> TopFromMatch(code, k, t.marks)))
  {
    hide ProgramCode, Compile, Fits, Fetch, Size, Scan, Wf, Steps, WellShaped, Reference.MSearch, MaxDepth, AllSavedOk, MarkedSteps,
         MarkedAt, AtInstr, TopFromMatch, Matches, Net, Start, RegexSafety.Holds;
    CompiledExpressionIsSafe(f, canon, d, sticky, reFlags, input, start, n);
    CompiledExpressionIsCorrect(f, canon, d, sticky, reFlags, input, start);
    var s := Reference.Subject(input, f, canon);
    var buf := Compile(f, canon, d, sticky, reFlags).value;
    var p, code := Load(buf, s), ProgramCode(f, canon, d, sticky);
    var result := First(Reference.MSearch(s, d, sticky, Reference.St(start, NoCaptures(1 + Groups(d)))));
    var m: nat :| Steps(p, Start(buf, start), m) == Done(result);
    var t0 := Marked(Start(buf, start), [], []);
    MarksObserve(p, t0, n);
    CompiledExpressionIsSafe(f, canon, d, sticky, reFlags, input, start, 0);
    StartMarked(p, code, buf, start);
    StepsMarked(p, code, t0, n, m, result);
    var t := MarkedSteps(p, t0, n);
    if t.c.Run? {
      var k: nat :| Located(p, code, k, t.c);
      LocatedMarked(p, code, k, t);
    }
  }

  lemma StartMarked(p: Program, code: Code, buf: seq<byte>, start: nat)
    requires |buf| >= HEADER_LEN && start <= |p.subject.input| && RegexSafety.Holds(p, code)
    ensures var t := Marked(Start(buf, start), [], []); Safe(p, code, t.c) && MarkedWell(code, t)
  {
    StartSafe(p, code, buf, start);
    assert code[..0] == [];
    ScanNothing([], 0);
    assert MarksAt(code, 0, []);
  }

  lemma LocatedMarked(p: Program, code: Code, k: nat, t: Marked)
    requires RegexSafety.Holds(p, code) && Located(p, code, k, t.c) && MarkedWell(code, t)
    ensures |t.marks| == |t.c.stack|
    ensures code[k].Loop? || code[k].Drop? || code[k].CheckAdvance? ==> TopFromMatch(code, k, t.marks)
  {
    hide Fits, Fetch, Size, Scan, Net, WellShaped, TopFromMatch, MarkedAt;
    MarksHere(code, k, t.marks);
    ScanPrefix(code, k + 1);
    ShapeSize([], 0, code[..k]);
    if code[k].Loop? || code[k].Drop? || code[k].CheckAdvance? {
      TopMatches(code, k, t.marks);
    }
  }
}
