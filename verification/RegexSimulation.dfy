/**
 How a run of the machine enumerates a list of results. Produces says that, from a configuration, the machine
 reaches the given address once per element of the list, in order: first with the first element, then, each time
 it is made to fail, with the next one, and at last it fails into the states that were saved before.
 */
module RegexSimulation {
  import opened Bytes
  import opened Wrappers
  import opened RegexBytecode
  import opened RegexReference
  import opened RegexCompiler
  import opened RegexMachine

  ghost predicate Reaches(p: Program, x: Config, y: Config) {
    exists n: nat :: Steps(p, x, n) == y
  }

  lemma {:induction false} StepsAdd(p: Program, x: Config, m: nat, n: nat)
    ensures Steps(p, x, m + n) == Steps(p, Steps(p, x, m), n)
    decreases m
  {
    if m > 0 {
      StepsAdd(p, Step(p, x), m - 1, n);
    }
  }

  lemma ReachesTrans(p: Program, x: Config, y: Config, z: Config)
    requires Reaches(p, x, y) && Reaches(p, y, z)
    ensures Reaches(p, x, z)
  {
    var m: nat :| Steps(p, x, m) == y;
    var n: nat :| Steps(p, y, n) == z;
    StepsAdd(p, x, m, n);
  }

  lemma ReachesStep(p: Program, x: Config)
    ensures Reaches(p, x, x) && Reaches(p, x, Step(p, x))
  {
    assert Steps(p, x, 0) == x;
    assert Steps(p, x, 1) == Steps(p, Step(p, x), 0) == Step(p, x);
  }

  /** S is K plus states that only backtracking looks at. */
  ghost predicate Extends(S: seq<Saved>, K: seq<Saved>) {
    && |K| <= |S| && S[..|K|] == K
    && forall i | |K| <= i < |S| :: S[i].kind == SplitState || S[i].kind == GreedyState
  }

  lemma ExtendsTrans(S: seq<Saved>, K1: seq<Saved>, K: seq<Saved>)
    requires Extends(S, K1) && Extends(K1, K)
    ensures Extends(S, K)
  {
    assert S[..|K|] == K1[..|K|];
    forall i | |K| <= i < |S| ensures S[i].kind == SplitState || S[i].kind == GreedyState {
      if i < |K1| {
        assert S[i] == S[..|K1|][i] == K1[i];
      }
    }
  }

  ghost predicate Produces(p: Program, x: Config, L: seq<St>, end: int, stack: seq<nat>, K: seq<Saved>)
    decreases |L|
  {
    if L == [] then Reaches(p, x, Fail(K))
    else
      exists S {:trigger Extends(S, K)} ::
        Extends(S, K) && Reaches(p, x, Run(end, L[0], stack, S)) && Produces(p, Fail(S), L[1..], end, stack, K)
  }

  lemma ProducesFrom(p: Program, x: Config, y: Config, L: seq<St>, end: int, stack: seq<nat>, K: seq<Saved>)
    requires Reaches(p, x, y) && Produces(p, y, L, end, stack, K)
    ensures Produces(p, x, L, end, stack, K)
  {
    if L == [] {
      ReachesTrans(p, x, y, Fail(K));
    } else {
      var S :| Extends(S, K) && Reaches(p, y, Run(end, L[0], stack, S)) && Produces(p, Fail(S), L[1..], end, stack, K);
      ReachesTrans(p, x, y, Run(end, L[0], stack, S));
    }
  }

  lemma ProducesCons(p: Program, x: Config, S: seq<Saved>, L: seq<St>, end: int, stack: seq<nat>, K: seq<Saved>)
    requires L != [] && Extends(S, K) && Reaches(p, x, Run(end, L[0], stack, S)) && Produces(p, Fail(S), L[1..], end, stack, K)
    ensures Produces(p, x, L, end, stack, K)
  {
  }

  lemma {:induction false} ProducesAppend(p: Program, x: Config, A: seq<St>, B: seq<St>, end: int, stack: seq<nat>,
                                          K1: seq<Saved>, K: seq<Saved>)
    requires Extends(K1, K) && Produces(p, x, A, end, stack, K1) && Produces(p, Fail(K1), B, end, stack, K)
    ensures Produces(p, x, A + B, end, stack, K)
    decreases |A|
  {
    hide Reaches, Extends;
    if A == [] {
      assert A + B == B;
      ProducesFrom(p, x, Fail(K1), B, end, stack, K);
    } else {
      var S :| Extends(S, K1) && Reaches(p, x, Run(end, A[0], stack, S)) && Produces(p, Fail(S), A[1..], end, stack, K1);
      ProducesAppend(p, Fail(S), A[1..], B, end, stack, K1, K);
      ExtendsTrans(S, K1, K);
      assert (A + B)[1..] == A[1..] + B;
    }
  }

  // ----- contracts of code fragments -----

  /** From address pc, with any saved states below, the machine produces L at address end. */
  ghost predicate Yields(p: Program, pc: int, st: St, stack: seq<nat>, L: seq<St>, end: int, stack': seq<nat>) {
    forall K: seq<Saved> :: Produces(p, Run(pc, st, stack, K), L, end, stack', K)
  }

  ghost function Bind(L: seq<St>, f: St -> seq<St>): seq<St> {
    if L == [] then [] else f(L[0]) + Bind(L[1..], f)
  }

  lemma {:induction false} ProducesBind(p: Program, x: Config, L: seq<St>, mid: int, stack1: seq<nat>,
                                        f: St -> seq<St>, end: int, stack: seq<nat>, K: seq<Saved>)
    requires Produces(p, x, L, mid, stack1, K)
    requires forall i | 0 <= i < |L| :: Yields(p, mid, L[i], stack1, f(L[i]), end, stack)
    ensures Produces(p, x, Bind(L, f), end, stack, K)
    decreases |L|
  {
    if L != [] {
      var S :| Extends(S, K) && Reaches(p, x, Run(mid, L[0], stack1, S)) && Produces(p, Fail(S), L[1..], mid, stack1, K);
      assert Yields(p, mid, L[0], stack1, f(L[0]), end, stack);
      ProducesFrom(p, x, Run(mid, L[0], stack1, S), f(L[0]), end, stack, S);
      forall i | 0 <= i < |L[1..]| ensures Yields(p, mid, L[1..][i], stack1, f(L[1..][i]), end, stack) {
        assert L[1..][i] == L[i + 1];
      }
      ProducesBind(p, Fail(S), L[1..], mid, stack1, f, end, stack, K);
      ProducesAppend(p, x, f(L[0]), Bind(L[1..], f), end, stack, S, K);
    }
  }

  /** Sequential composition. */
  lemma YieldsThen(p: Program, pc: int, st: St, stack: seq<nat>, L: seq<St>, mid: int, stack1: seq<nat>,
                   f: St -> seq<St>, end: int, stack2: seq<nat>)
    requires Yields(p, pc, st, stack, L, mid, stack1)
    requires forall i | 0 <= i < |L| :: Yields(p, mid, L[i], stack1, f(L[i]), end, stack2)
    ensures Yields(p, pc, st, stack, Bind(L, f), end, stack2)
  {
    forall K: seq<Saved> ensures Produces(p, Run(pc, st, stack, K), Bind(L, f), end, stack2, K) {
      ProducesBind(p, Run(pc, st, stack, K), L, mid, stack1, f, end, stack2, K);
    }
  }

  /** The empty fragment. */
  lemma YieldsHere(p: Program, pc: int, st: St, stack: seq<nat>)
    ensures Yields(p, pc, st, stack, [st], pc, stack)
  {
    forall K: seq<Saved> ensures Produces(p, Run(pc, st, stack, K), [st], pc, stack, K) {
      ReachesStep(p, Run(pc, st, stack, K));
      ReachesStep(p, Fail(K));
      assert Extends(K, K);
      assert [st][1..] == [];
      assert Produces(p, Fail(K), [st][1..], pc, stack, K);
    }
  }

  /** An instruction that goes on at another address without saving anything. */
  lemma YieldsStep(p: Program, pc: int, st: St, stack: seq<nat>, i: Instr, pc1: int, st1: St, stack1: seq<nat>,
                   L: seq<St>, end: int, stack2: seq<nat>)
    requires st.pos <= |p.subject.input| && Fetch(p.code, pc) == Some(i)
    requires forall K :: Exec(p, i, pc + InstrSize(i), st, stack, K) == Run(pc1, st1, stack1, K)
    requires Yields(p, pc1, st1, stack1, L, end, stack2)
    ensures Yields(p, pc, st, stack, L, end, stack2)
  {
    forall K: seq<Saved> ensures Produces(p, Run(pc, st, stack, K), L, end, stack2, K) {
      ReachesStep(p, Run(pc, st, stack, K));
      ProducesFrom(p, Run(pc, st, stack, K), Run(pc1, st1, stack1, K), L, end, stack2, K);
    }
  }

  lemma YieldsOne(p: Program, pc: int, st: St, stack: seq<nat>, i: Instr, pc1: int, st1: St, stack1: seq<nat>)
    requires st.pos <= |p.subject.input| && Fetch(p.code, pc) == Some(i)
    requires forall K :: Exec(p, i, pc + InstrSize(i), st, stack, K) == Run(pc1, st1, stack1, K)
    ensures Yields(p, pc, st, stack, [st1], pc1, stack1)
  {
    YieldsHere(p, pc1, st1, stack1);
    YieldsStep(p, pc, st, stack, i, pc1, st1, stack1, [st1], pc1, stack1);
  }

  lemma YieldsFail(p: Program, pc: int, st: St, stack: seq<nat>, i: Instr, end: int, stack1: seq<nat>)
    requires st.pos <= |p.subject.input| && Fetch(p.code, pc) == Some(i)
    requires forall K :: Exec(p, i, pc + InstrSize(i), st, stack, K) == Fail(K)
    ensures Yields(p, pc, st, stack, [], end, stack1)
  {
    forall K: seq<Saved> ensures Produces(p, Run(pc, st, stack, K), [], end, stack1, K) {
      ReachesStep(p, Run(pc, st, stack, K));
    }
  }

  /** Sequential composition when the first part has one result, or none. */
  lemma YieldsChain(p: Program, pc: int, st: St, stack: seq<nat>, L1: seq<St>, mid: int, stack1: seq<nat>,
                    L: seq<St>, end: int, stack2: seq<nat>)
    requires Yields(p, pc, st, stack, L1, mid, stack1) && |L1| <= 1
    requires L1 == [] ==> L == []
    requires L1 != [] ==> Yields(p, mid, L1[0], stack1, L, end, stack2)
    ensures Yields(p, pc, st, stack, L, end, stack2)
  {
    hide Produces;
    YieldsThen(p, pc, st, stack, L1, mid, stack1, r => L, end, stack2);
    if L1 != [] {
      assert L1[1..] == [];
      assert Bind(L1, r => L) == L;
    }
  }

  /** A choice: everything from one address, then everything from the other. */
  lemma YieldsSplit(p: Program, pc: int, st: St, stack: seq<nat>, nextFirst: bool, off: int,
                    L1: seq<St>, L2: seq<St>, end: int, stack2: seq<nat>)
    requires st.pos <= |p.subject.input| && Fetch(p.code, pc) == Some(Split(nextFirst, off))
    requires Yields(p, if nextFirst then pc + 5 else pc + 5 + off, st, stack, L1, end, stack2)
    requires Yields(p, if nextFirst then pc + 5 + off else pc + 5, st, stack, L2, end, stack2)
    ensures Yields(p, pc, st, stack, L1 + L2, end, stack2)
  {
    hide Fetch, Produces, Reaches;
    var now := if nextFirst then pc + 5 else pc + 5 + off;
    var later := if nextFirst then pc + 5 + off else pc + 5;
    forall K: seq<Saved> ensures Produces(p, Run(pc, st, stack, K), L1 + L2, end, stack2, K) {
      var rs := Saved(SplitState, stack, 0, later, st);
      var K1 := K + [rs];
      assert Step(p, Run(pc, st, stack, K)) == Run(now, st, stack, K1);
      ReachesStep(p, Run(pc, st, stack, K));
      ProducesFrom(p, Run(pc, st, stack, K), Run(now, st, stack, K1), L1, end, stack2, K1);
      assert K1[..|K1| - 1] == K && K1[|K1| - 1] == rs;
      assert Step(p, Fail(K1)) == Run(later, st, stack, K);
      ReachesStep(p, Fail(K1));
      ProducesFrom(p, Fail(K1), Run(later, st, stack, K), L2, end, stack2, K);
      assert Extends(K1, K);
      ProducesAppend(p, Run(pc, st, stack, K), L1, L2, end, stack2, K1, K);
    }
  }

  /** After a match inside a lookaround, the states saved by its body are discarded. */
  lemma {:induction false} Discard(p: Program, caps: Captures, S: seq<Saved>, K: seq<Saved>)
    requires Extends(S, K)
    ensures Reaches(p, Success(caps, S), Success(caps, K))
    decreases |S|
  {
    ReachesStep(p, Success(caps, S));
    if |S| == |K| {
      assert S == K;
    } else {
      var S1 := S[..|S| - 1];
      assert S1[..|K|] == S[..|K|];
      assert Extends(S1, K);
      Discard(p, caps, S1, K);
      ReachesTrans(p, Success(caps, S), Success(caps, S1), Success(caps, K));
    }
  }

  ghost function LookResult(negated: bool, st: St, L: seq<St>): seq<St> {
    if negated then (if L == [] then [st] else [])
    else if L == [] then [] else [St(st.pos, L[0].caps)]
  }

  /** A lookaround: only the first result of its body matters, and nothing inside it can be retried. */
  lemma YieldsLook(p: Program, pc: int, st: St, stack: seq<nat>, negated: bool, off: int, L: seq<St>, mid: int)
    requires st.pos <= |p.subject.input| && Fetch(p.code, pc) == Some(Look(negated, off))
    requires Yields(p, pc + 5, st, stack, L, mid, stack) && Fetch(p.code, mid) == Some(Match)
    requires L != [] ==> L[0].pos <= |p.subject.input|
    ensures Yields(p, pc, st, stack, LookResult(negated, st, L), pc + 5 + off, stack)
  {
    hide Fetch, Reaches, Extends;
    var end := pc + 5 + off;
    var R := LookResult(negated, st, L);
    forall K: seq<Saved> ensures Produces(p, Run(pc, st, stack, K), R, end, stack, K) {
      var x := Run(pc, st, stack, K);
      var rs := Saved(if negated then NegativeLookaheadState else LookaheadState, stack, 0, end, st);
      var K1 := K + [rs];
      assert K1[..|K1| - 1] == K && K1[|K1| - 1] == rs;
      var y := Run(pc + 5, st, stack, K1);
      assert Step(p, x) == y;
      ReachesStep(p, x);
      assert Produces(p, y, L, mid, stack, K1);
      if L == [] {
        ReachesTrans(p, x, y, Fail(K1));
        LookFails(p, x, negated, st, stack, end, K);
      } else {
        var S :| Extends(S, K1) && Reaches(p, y, Run(mid, L[0], stack, S));
        ReachesTrans(p, x, y, Run(mid, L[0], stack, S));
        ReachesStep(p, Run(mid, L[0], stack, S));
        ReachesTrans(p, x, Run(mid, L[0], stack, S), Success(L[0].caps, S));
        Discard(p, L[0].caps, S, K1);
        ReachesTrans(p, x, Success(L[0].caps, S), Success(L[0].caps, K1));
        LookSucceeds(p, x, negated, st, L[0].caps, stack, end, K);
      }
    }
  }

  lemma LookFails(p: Program, x: Config, negated: bool, st: St, stack: seq<nat>, end: int, K: seq<Saved>)
    requires var rs := Saved(if negated then NegativeLookaheadState else LookaheadState, stack, 0, end, st);
             Reaches(p, x, Fail(K + [rs]))
    ensures Produces(p, x, if negated then [st] else [], end, stack, K)
  {
    var rs := Saved(if negated then NegativeLookaheadState else LookaheadState, stack, 0, end, st);
    var K1 := K + [rs];
    assert K1[..|K1| - 1] == K && K1[|K1| - 1] == rs;
    ReachesStep(p, Fail(K1));
    if negated {
      ReachesTrans(p, x, Fail(K1), Run(end, st, stack, K));
      YieldsHere(p, end, st, stack);
      ProducesFrom(p, x, Run(end, st, stack, K), [st], end, stack, K);
    } else {
      ReachesTrans(p, x, Fail(K1), Fail(K));
    }
  }

  lemma LookSucceeds(p: Program, x: Config, negated: bool, st: St, caps: Captures, stack: seq<nat>, end: int, K: seq<Saved>)
    requires var rs := Saved(if negated then NegativeLookaheadState else LookaheadState, stack, 0, end, st);
             Reaches(p, x, Success(caps, K + [rs]))
    ensures Produces(p, x, if negated then [] else [St(st.pos, caps)], end, stack, K)
  {
    var rs := Saved(if negated then NegativeLookaheadState else LookaheadState, stack, 0, end, st);
    var K1 := K + [rs];
    assert K1[..|K1| - 1] == K && K1[|K1| - 1] == rs;
    ReachesStep(p, Success(caps, K1));
    if negated {
      ReachesTrans(p, x, Success(caps, K1), Fail(K));
    } else {
      var st1 := St(st.pos, caps);
      ReachesTrans(p, x, Success(caps, K1), Run(end, st1, stack, K));
      YieldsHere(p, end, st1, stack);
      ProducesFrom(p, x, Run(end, st1, stack, K), [st1], end, stack, K);
    }
  }

  // ----- code in memory -----

  ghost predicate AllEncodable(code: Code) { forall k | 0 <= k < |code| :: Encodable(code[k]) }

  lemma EncodableConcat(a: Code, b: Code)
    ensures AllEncodable(a + b) <==> AllEncodable(a) && AllEncodable(b)
  {
    assert forall k | 0 <= k < |a| :: (a + b)[k] == a[k];
    assert forall k | 0 <= k < |b| :: (a + b)[|a| + k] == b[k];
  }

  /** The fragment is stored at pc, and the value stack has room for it above n values. */
  ghost predicate Fits(p: Program, pc: int, code: Code, n: int) {
    && Stored(p.code, pc, EncAll(code))
    && AllEncodable(code)
    && 0 <= n && n + MaxDepth(code) <= p.stackMax
  }

  lemma {:induction false} DepthConcat(a: Code, b: Code)
    ensures Net(a + b) == Net(a) + Net(b)
    ensures MaxDepth(a + b) >= MaxDepth(a) && MaxDepth(a + b) >= Net(a) + MaxDepth(b)
    ensures MaxDepth(a + b) <= MaxDepth(a) || MaxDepth(a + b) <= Net(a) + MaxDepth(b)
    decreases |a|
  {
    if a == [] {
      assert a + b == b;
    } else {
      assert (a + b)[1..] == a[1..] + b;
      DepthConcat(a[1..], b);
    }
  }

  lemma FitsSplit(p: Program, pc: int, a: Code, b: Code, n: int)
    requires Fits(p, pc, a + b, n)
    ensures Fits(p, pc, a, n)
    ensures n + Net(a) >= 0 ==> Fits(p, pc + Size(a), b, n + Net(a))
    ensures Size(a + b) == Size(a) + Size(b)
  {
    hide Stored, EncAll, AllEncodable, MaxDepth, Net, Size;
    EncAllConcat(a, b);
    StoredSplit(p.code, pc, EncAll(a), EncAll(b));
    DepthConcat(a, b);
    EncodableConcat(a, b);
  }

  lemma FitsFetch(p: Program, pc: int, i: Instr, n: int)
    requires Fits(p, pc, [i], n)
    ensures pc >= 0 && Fetch(p.code, pc) == Some(i)
    ensures n + Effect(i) <= p.stackMax && Size([i]) == InstrSize(i) && Net([i]) == Effect(i)
  {
    EncAllOne(i);
    assert [i][0] == i;
    FetchEnc(i, p.code, pc);
    assert Net([]) == 0 && MaxDepth([]) == 0;
    assert [i][1..] == [];
  }

  /** The first instruction of a fragment, and the rest. */
  lemma FitsHead(p: Program, pc: int, i: Instr, rest: Code, n: int)
    requires Fits(p, pc, [i] + rest, n)
    ensures pc >= 0 && Fetch(p.code, pc) == Some(i) && n + Effect(i) <= p.stackMax
    ensures n + Effect(i) >= 0 ==> Fits(p, pc + InstrSize(i), rest, n + Effect(i))
    ensures Size([i] + rest) == InstrSize(i) + Size(rest)
  {
    hide Fits, Fetch, MaxDepth;
    FitsSplit(p, pc, [i], rest, n);
    FitsFetch(p, pc, i, n);
  }

  /** The last instruction of a balanced fragment. */
  lemma FitsLast(p: Program, pc: int, code: Code, i: Instr, n: int)
    requires Fits(p, pc, code + [i], n) && Net(code) == 0
    ensures Fits(p, pc, code, n) && Fetch(p.code, pc + Size(code)) == Some(i)
    ensures Size(code + [i]) == Size(code) + InstrSize(i)
  {
    hide Stored, AllEncodable, EncAll, Fetch, MaxDepth, Net, Size;
    FitsSplit(p, pc, code, [i], n);
    FitsFetch(p, pc + Size(code), i, n);
  }
}
