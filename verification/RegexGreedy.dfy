/**
 The simple_greedy_quant instruction: counting forward and giving back one iteration per failure visits the
 positions of the general greedy loop, in the same order.
 */
module RegexGreedy {
  import opened Bytes
  import opened Wrappers
  import opened RegexSyntax
  import opened RegexBytecode
  import opened RegexReference
  import opened RegexCompiler
  import opened RegexMachine
  import opened RegexSimulation
  import opened RegexAnalyses

  // ----- a simple atom opens no group, so no capture has to be reset -----

  lemma {:induction false} SimpleTermGroups(f: Flags, canon: CodePoint -> CodePoint, t: Term, bw: bool, cc: nat)
    requires TermWf(t) && AllSimple(TermCode(f, canon, t, bw, cc))
    ensures TermGroups(t) == 0
    decreases t
  {
    SimpleHead(TermCode(f, canon, t, bw, cc));
    match t {
      case Plain(d) => SimpleGroups(f, canon, d, bw, cc);
      case Repeat(a, min, max, greedy) =>
        RepeatShape(TermCode(f, canon, a, bw, cc), cc, TermGroups(a), min, max, greedy);
        if min == 1 {
          SimpleTermGroups(f, canon, a, bw, cc);
        }
      case _ =>
    }
  }

  lemma {:induction false} SimpleAltGroups(f: Flags, canon: CodePoint -> CodePoint, a: Alternative, bw: bool, cc: nat)
    requires AltWf(a) && AllSimple(AltCode(f, canon, a, bw, cc))
    ensures AltGroups(a) == 0
    decreases a
  {
    if a.Snoc? {
      var first := AltCode(f, canon, a.init, bw, cc);
      var next := TermCode(f, canon, a.last, bw, cc + AltGroups(a.init));
      SimpleConcat(first, next);
      SimpleConcat(next, first);
      SimpleAltGroups(f, canon, a.init, bw, cc);
      SimpleTermGroups(f, canon, a.last, bw, cc + AltGroups(a.init));
    }
  }

  lemma {:induction false} SimpleGroups(f: Flags, canon: CodePoint -> CodePoint, d: Disjunction, bw: bool, cc: nat)
    requires Wf(d) && AllSimple(DisjCode(f, canon, d, bw, cc))
    ensures Groups(d) == 0
    decreases d
  {
    SimpleHead(DisjCode(f, canon, d, bw, cc));
    if d.Single? {
      SimpleAltGroups(f, canon, d.alt, bw, cc);
    }
  }

  // ----- the inner run of the atom -----

  lemma {:induction false} RunAtomMeaning(p: Program, pc: int, atom: Code, n: int, pos: nat)
    requires Fits(p, pc, atom + [Match], n) && AllSimple(atom) && pos <= |p.subject.input|
    ensures RunAtom(p, pc, pos) ==
            match RunSimple(p.subject, atom, pos) { case Fails => NoMatch case Moves(q) => Matched(q) }
    decreases |atom|
  {
    hide Fits, Fetch, SimpleTest, InstrSize, Size;
    if atom == [] {
      assert atom + [Match] == [Match];
      FitsFetch(p, pc, Match, n);
    } else {
      assert IsSimple(atom[0]);
      assert atom + [Match] == [atom[0]] + (atom[1..] + [Match]);
      FitsHead(p, pc, atom[0], atom[1..] + [Match], n);
      assert Fits(p, pc, [atom[0]] + (atom[1..] + [Match]), n);
      FitsNat(p, pc, [atom[0]] + (atom[1..] + [Match]), n);
      assert forall k | 0 <= k < |atom[1..]| :: atom[1..][k] == atom[k + 1];
      match SimpleTest(p.subject, atom[0], pos)
      case Fails =>
      case Moves(q) => RunAtomMeaning(p, pc + InstrSize(atom[0]), atom[1..], n, q);
    }
  }

  lemma FitsNat(p: Program, pc: int, code: Code, n: int)
    requires Fits(p, pc, code, n)
    ensures n >= 0
  {
  }

  // ----- the positions that are given back -----

  /** From position pos, stepping back n times by size. */
  ghost function GiveBack(caps: Captures, pos: nat, n: nat, size: nat): seq<St>
    decreases n
  {
    [St(pos, caps)] + (if n == 0 || pos < size then [] else GiveBack(caps, pos - size, n - 1, size))
  }

  lemma {:induction false} GiveBackMore(caps: Captures, pos: nat, n: nat, size: nat)
    requires (n + 1) * size <= pos
    ensures GiveBack(caps, pos, n + 1, size) == GiveBack(caps, pos, n, size) + [St(pos - (n + 1) * size, caps)]
    decreases n
  {
    assert (n + 1) * size == n * size + size;
    assert n * size >= 0;
    if n == 0 {
      assert 0 * size == 0;
    } else {
      GiveBackMore(caps, pos - size, n - 1, size);
    }
  }

  /** Iterations left to the greedy loop after q of them. */
  ghost function Rest(max: nat, q: nat): Count
    requires max != INT32_MAX ==> q <= max
  {
    if max == INT32_MAX then Infinite else Finite(max - q)
  }

  ghost function Minus(a: nat, b: nat): nat { if a <= b then 0 else a - b }

  /** The counting loop, started after q iterations, and the reference repetition from the same position. */
  lemma {:induction false} CountMeaning(p: Program, a: Term, bw: bool, cc: nat, pc: int, n: int, st: St, q: nat, min: nat, max: nat)
    requires TermWf(a) && st.pos <= |p.subject.input| && min <= max
    requires max != INT32_MAX ==> q < max
    requires var atom := TermCode(p.subject.flags, p.subject.canon, a, bw, cc);
             SimpleQuantifier(atom) > 0 && Fits(p, pc, atom + [Match], n)
    ensures var size := SimpleQuantifier(TermCode(p.subject.flags, p.subject.canon, a, bw, cc));
            var r := CountAtoms(p, pc, st.pos, q, max);
            && r.Reached? && r.count >= q && r.pos == st.pos + (r.count - q) * size && r.pos <= |p.subject.input|
            && MRepeat(p.subject, a, bw, cc, Minus(min, q), Rest(max, q), true, st) ==
               if r.count < min then [] else GiveBack(st.caps, r.pos, r.count - (if min < q then q else min), size)
    decreases |p.subject.input| - st.pos
  {
    hide Fits, TermCode, MTerm, RunSimple, SimpleQuantifier, TermWf, MRepeat, MRepeatAll, GiveBack, RunAtom;
    var s := p.subject;
    var size := SimpleQuantifier(TermCode(s.flags, s.canon, a, bw, cc));
    AtomOnce(p, a, bw, cc, pc, n, st);
    match RunAtom(p, pc, st.pos) {
      case NoMatch => CountStops(s, a, bw, cc, st, q, min, max, size);
      case Matched(pos) =>
        var st1 := st.(pos := pos);
        var r := CountAtoms(p, pc, st.pos, q, max);
        if max == INT32_MAX || q + 1 < max {
          CountMeaning(p, a, bw, cc, pc, n, st1, q + 1, min, max);
          assert r == CountAtoms(p, pc, pos, q + 1, max);
        } else {
          assert r == Reached(q + 1, pos);
          GiveBackZero(st1, size);
          NoneLeft(s, a, bw, cc, Minus(min, q + 1), st1);
        }
        OneMore(r.count - q, size);
        CountGoesOn(s, a, bw, cc, st, st1, q, min, max, size, r.count, r.pos);
    }
  }

  /** One run of the atom: the machine and the reference matcher agree, and a success moves by the size. */
  lemma AtomOnce(p: Program, a: Term, bw: bool, cc: nat, pc: int, n: int, st: St)
    requires TermWf(a) && st.pos <= |p.subject.input|
    requires var atom := TermCode(p.subject.flags, p.subject.canon, a, bw, cc);
             SimpleQuantifier(atom) > 0 && Fits(p, pc, atom + [Match], n)
    ensures var size := SimpleQuantifier(TermCode(p.subject.flags, p.subject.canon, a, bw, cc));
            match RunAtom(p, pc, st.pos) {
              case Bad => false
              case NoMatch => MTerm(p.subject, a, bw, cc, st) == []
              case Matched(pos) => pos == st.pos + size && MTerm(p.subject, a, bw, cc, st) == [st.(pos := pos)] }
  {
    hide Fits, TermCode, MTerm, RunSimple, AllSimple, CharTests, TermWf;
    var atom := TermCode(p.subject.flags, p.subject.canon, a, bw, cc);
    RunAtomMeaning(p, pc, atom, n, st.pos);
    TermSimple(p.subject, a, bw, cc, st);
    RunSimpleDistance(p.subject, atom, st.pos);
  }

  lemma OneMore(k: nat, size: nat)
    requires k > 0
    ensures k * size == (k - 1) * size + size && (k - 1) * size >= 0
  {
  }

  lemma NoneLeft(s: Subject, a: Term, bw: bool, cc: nat, min: nat, st: St)
    ensures MRepeat(s, a, bw, cc, min, Finite(0), true, st) == [st]
  {
  }

  lemma GiveBackTail(st: St, n: nat, size: nat)
    requires n > 0 && Room(n, size, st.pos)
    ensures size <= st.pos
    ensures var L := GiveBack(st.caps, st.pos, n, size);
            L != [] && L[0] == st && L[1..] == GiveBack(st.caps, st.pos - size, n - 1, size)
  {
    assert n * size == (n - 1) * size + size;
    assert (n - 1) * size >= 0;
  }

  lemma GiveBackZero(st: St, size: nat)
    ensures GiveBack(st.caps, st.pos, 0, size) == [st]
  {
  }

  lemma CountStops(s: Subject, a: Term, bw: bool, cc: nat, st: St, q: nat, min: nat, max: nat, size: nat)
    requires min <= max && (max != INT32_MAX ==> q < max) && MTerm(s, a, bw, cc, st) == []
    ensures MRepeat(s, a, bw, cc, Minus(min, q), Rest(max, q), true, st) == if q < min then [] else GiveBack(st.caps, st.pos, 0, size)
  {
    hide MTerm;
  }

  /** One more iteration: its results come before stopping here. */
  lemma CountGoesOn(s: Subject, a: Term, bw: bool, cc: nat, st: St, st1: St, q: nat, min: nat, max: nat, size: nat, count: nat, pos: nat)
    requires min <= max && (max != INT32_MAX ==> q < max) && size > 0 && count > q
    requires MTerm(s, a, bw, cc, st) == [st1] && st1 == st.(pos := st.pos + size)
    requires pos == st.pos + (count - q) * size
    requires MRepeat(s, a, bw, cc, Minus(min, q + 1), Rest(max, q + 1), true, st1) ==
             if count < min then [] else GiveBack(st.caps, pos, count - (if min < q + 1 then q + 1 else min), size)
    ensures MRepeat(s, a, bw, cc, Minus(min, q), Rest(max, q), true, st) ==
            if count < min then [] else GiveBack(st.caps, pos, count - (if min < q then q else min), size)
  {
    hide MTerm, GiveBack;
    var k := Minus(min, q);
    var next := MRepeat(s, a, bw, cc, Minus(min, q + 1), Rest(max, q + 1), true, st1);
    RepeatAllOne(s, a, bw, cc, Minus(min, q + 1), Rest(max, q + 1), st1);
    if k > 0 {
      assert MRepeat(s, a, bw, cc, k, Rest(max, q), true, st) == next;
    } else {
      MovedOne(st1, st.pos);
      assert MRepeat(s, a, bw, cc, 0, Rest(max, q), true, st) == next + [st];
      GiveBackMore(st.caps, pos, count - q - 1, size);
    }
  }

  lemma MovedOne(st: St, pos: nat)
    requires st.pos != pos
    ensures Moved([st], pos) == [st]
  {
    assert [st][1..] == [];
  }

  lemma RepeatAllOne(s: Subject, a: Term, bw: bool, cc: nat, min: nat, max: Count, st: St)
    ensures MRepeatAll(s, a, bw, cc, min, max, true, [st]) == MRepeat(s, a, bw, cc, min, max, true, st)
  {
    hide MRepeat;
    assert [st][1..] == [];
  }

  // ----- the machine -----

  /** count times size fits before pos. */
  predicate Room(count: nat, size: nat, pos: nat) {
    count * size <= pos
  }

  lemma LessRoom(count: nat, size: nat, pos: nat)
    requires count > 0 && Room(count, size, pos)
    ensures size <= pos && Room(count - 1, size, pos - size)
  {
    OneMore(count, size);
  }

  /** The saved state of a quantifier, made to fail, gives back its remaining positions. */
  lemma {:induction false} GreedyFails(p: Program, pc: int, off: int, min: nat, max: nat, size: nat,
                                       st: St, count: nat, stack: seq<nat>, K: seq<Saved>)
    requires Fetch(p.code, pc) == Some(SimpleGreedyQuant(off, min, max, size))
    requires count > 0 && size <= st.pos && Room(count - 1, size, st.pos - size)
    ensures Produces(p, Fail(K + [Saved(GreedyState, stack, count, pc + 1, st)]),
                     GiveBack(st.caps, st.pos - size, count - 1, size), pc + 17 + off, stack, K)
    decreases count
  {
    hide Fetch, Reaches, GiveBack, Step, Produces, Extends, Room;
    var st1 := st.(pos := st.pos - size);
    var S1 := if count == 1 then K else K + [Saved(GreedyState, stack, count - 1, pc + 1, st1)];
    var x := Fail(K + [Saved(GreedyState, stack, count, pc + 1, st)]);
    GreedyStep(p, pc, off, min, max, size, st, count, stack, K);
    ReachesStep(p, x);
    ExtendsOne(K, Saved(GreedyState, stack, count - 1, pc + 1, st1));
    var L := GiveBack(st.caps, st1.pos, count - 1, size);
    if count == 1 {
      GiveBackZero(st1, size);
      YieldsHere(p, pc + 17 + off, st1, stack);
      ProducesFrom(p, x, Run(pc + 17 + off, st1, stack, K), L, pc + 17 + off, stack, K);
    } else {
      LessRoom(count - 1, size, st1.pos);
      GreedyFails(p, pc, off, min, max, size, st1, count - 1, stack, K);
      GiveBackTail(st1, count - 1, size);
      ProducesCons(p, x, S1, L, pc + 17 + off, stack, K);
    }
  }

  lemma ExtendsOne(K: seq<Saved>, s: Saved)
    requires s.kind == GreedyState
    ensures Extends(K, K) && Extends(K + [s], K)
  {
  }

  lemma GreedyStep(p: Program, pc: int, off: int, min: nat, max: nat, size: nat, st: St, count: nat, stack: seq<nat>, K: seq<Saved>)
    requires Fetch(p.code, pc) == Some(SimpleGreedyQuant(off, min, max, size)) && count > 0 && size <= st.pos
    ensures var st1 := st.(pos := st.pos - size);
            Step(p, Fail(K + [Saved(GreedyState, stack, count, pc + 1, st)])) ==
            Run(pc + 17 + off, st1, stack, if count == 1 then K else K + [Saved(GreedyState, stack, count - 1, pc + 1, st1)])
  {
    hide Fetch;
    var S := K + [Saved(GreedyState, stack, count, pc + 1, st)];
    assert S[..|S| - 1] == K && S[|S| - 1] == Saved(GreedyState, stack, count, pc + 1, st);
  }

  lemma QuantLayout(p: Program, pc: int, i: Instr, atom: Code, n: int)
    requires i.SimpleGreedyQuant? && Fits(p, pc, [i] + atom + [Match], n)
    ensures Fetch(p.code, pc) == Some(i) && Fits(p, pc + 17, atom + [Match], n)
    ensures Size([i] + atom + [Match]) == Size(atom) + 18
  {
    hide Fits, Fetch, Size;
    assert [i] + atom + [Match] == [i] + (atom + [Match]);
    FitsNat(p, pc, [i] + (atom + [Match]), n);
    FitsHead(p, pc, i, atom + [Match], n);
    EncAllConcat(atom, [Match]);
    EncAllOne(Match);
  }

  lemma QuantRuns(p: Program, a: Term, bw: bool, cc: nat, pc: int, min: nat, max: nat, st: St, stack: seq<nat>)
    requires TermWf(a) && st.pos <= |p.subject.input| && min <= max && max > 0
    requires var atom := TermCode(p.subject.flags, p.subject.canon, a, bw, cc);
             && SimpleQuantifier(atom) > 0
             && Fits(p, pc, [SimpleGreedyQuant(Size(atom) + 1, min, max, SimpleQuantifier(atom))] + atom + [Match], |stack|)
    ensures var atom := TermCode(p.subject.flags, p.subject.canon, a, bw, cc);
            Yields(p, pc, st, stack, MRepeat(p.subject, a, bw, cc, min, Bound(max), true, st), pc + Size(atom) + 18, stack)
  {
    hide Fits, Fetch, Size, TermCode, SimpleQuantifier, MRepeat, TermWf, CountAtoms, Produces, GiveBack, Reaches;
    var atom := TermCode(p.subject.flags, p.subject.canon, a, bw, cc);
    var size := SimpleQuantifier(atom);
    var i := SimpleGreedyQuant(Size(atom) + 1, min, max, size);
    var end := pc + Size(atom) + 18;
    QuantLayout(p, pc, i, atom, |stack|);
    CountMeaning(p, a, bw, cc, pc + 17, |stack|, st, 0, min, max);
    var r := CountAtoms(p, pc + 17, st.pos, 0, max);
    var st1 := st.(pos := r.pos);
    var L := if r.count < min then [] else GiveBack(st.caps, r.pos, r.count - min, size);
    forall K: seq<Saved> ensures Produces(p, Run(pc, st, stack, K), L, end, stack, K) {
      var x := Run(pc, st, stack, K);
      QuantStep(p, pc, i, st, stack, K);
      if r.count < min {
        ProducesNone(p, x, end, stack, K);
      } else if r.count == min {
        YieldsHere(p, end, st1, stack);
        GiveBackZero(st1, size);
        ProducesFrom(p, x, Run(end, st1, stack, K), L, end, stack, K);
      } else {
        PartOfProduct(r.count, min, size);
        QuantSaves(p, pc, i, st1, r.count - min, stack, K, x);
      }
    }
  }

  lemma PartOfProduct(count: nat, min: nat, size: nat)
    requires min <= count
    ensures (count - min) * size <= count * size
  {
  }

  lemma QuantStep(p: Program, pc: int, i: Instr, st: St, stack: seq<nat>, K: seq<Saved>)
    requires i.SimpleGreedyQuant? && Fetch(p.code, pc) == Some(i) && st.pos <= |p.subject.input|
    requires CountAtoms(p, pc + 17, st.pos, 0, i.max).Reached?
    ensures var r := CountAtoms(p, pc + 17, st.pos, 0, i.max);
            var st1 := st.(pos := r.pos);
            Reaches(p, Run(pc, st, stack, K),
                    if r.count < i.min then Fail(K)
                    else Run(pc + 17 + i.off, st1, stack,
                             if r.count == i.min then K else K + [Saved(GreedyState, stack, r.count - i.min, pc + 1, st1)]))
  {
    hide Fetch, CountAtoms, Reaches;
    ReachesStep(p, Run(pc, st, stack, K));
  }

  lemma ProducesNone(p: Program, x: Config, end: int, stack: seq<nat>, K: seq<Saved>)
    requires Reaches(p, x, Fail(K))
    ensures Produces(p, x, [], end, stack, K)
  {
  }

  lemma QuantSaves(p: Program, pc: int, i: Instr, st: St, count: nat, stack: seq<nat>, K: seq<Saved>, x: Config)
    requires i.SimpleGreedyQuant? && Fetch(p.code, pc) == Some(i) && count > 0 && count * i.charCount <= st.pos
    requires Reaches(p, x, Run(pc + 17 + i.off, st, stack, K + [Saved(GreedyState, stack, count, pc + 1, st)]))
    ensures Produces(p, x, GiveBack(st.caps, st.pos, count, i.charCount), pc + 17 + i.off, stack, K)
  {
    hide Fetch, Reaches, GiveBack;
    var size := i.charCount;
    var S := K + [Saved(GreedyState, stack, count, pc + 1, st)];
    assert Extends(S, K);
    LessRoom(count, size, st.pos);
    GreedyFails(p, pc, i.off, i.min, i.max, size, st, count, stack, K);
    GiveBackTail(st, count, size);
    var L := GiveBack(st.caps, st.pos, count, size);
    assert Produces(p, Fail(S), L[1..], pc + 17 + i.off, stack, K);
  }
}
