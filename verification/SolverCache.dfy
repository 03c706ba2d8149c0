/**
 The shared cache of solved challenges, used by several threads, and the rewriting of a URL with the solutions.
 The engine is a function from requests to responses, aligned with its input; it may also throw, at any time.
 */
module SolverCaches {
  import opened Wrappers
  import opened UrlQueries

  datatype Request = Request(kind: Text, challenge: Text)
  datatype Response = Response(ok: bool, data: Text, error: Text)
  datatype Format = Format(url: Text, sp: Text, requests: seq<Request>)
  datatype Solved = Solved(decodedUrl: Text, solverError: Text)

  /** A solution, with the kind of its request. */
  datatype Ready = Ready(kind: Text, value: Text)

  type Engine = Request -> Response

  const N: Text := [110]
  const SIG: Text := [115, 105, 103]
  const SIGNATURE: Text := [115, 105, 103, 110, 97, 116, 117, 114, 101]

  function Ascii(s: string): Text {
    seq(|s|, i requires 0 <= i < |s| => if s[i] as int < 256 then s[i] as int else 63)
  }

  // ----- the cache -----

  datatype CacheState = CacheState(nValues: map<Text, Text>, nErrors: map<Text, Text>,
                                   sigValues: map<Text, Text>, sigErrors: map<Text, Text>)

  const EMPTY := CacheState(map[], map[], map[], map[])

  /** What the cache knows about a request: a value comes before an error. */
  function Known(c: CacheState, r: Request): Option<Response> {
    if r.kind == N then
      if r.challenge in c.nValues then Some(Response(true, c.nValues[r.challenge], []))
      else if r.challenge in c.nErrors then Some(Response(false, [], c.nErrors[r.challenge]))
      else None
    else if r.kind == SIG then
      if r.challenge in c.sigValues then Some(Response(true, c.sigValues[r.challenge], []))
      else if r.challenge in c.sigErrors then Some(Response(false, [], c.sigErrors[r.challenge]))
      else None
    else None
  }

  /** What a single request adds to the known solutions. */
  function KnownHead(c: CacheState, r: Request): seq<Ready> {
    match Known(c, r)
    case Some(Response(true, v, _)) => [Ready(r.kind, v)]
    case _ => []
  }

  function KnownReady(c: CacheState, rs: seq<Request>): seq<Ready> {
    if rs == [] then [] else KnownHead(c, rs[0]) + KnownReady(c, rs[1..])
  }

  function Missing(c: CacheState, rs: seq<Request>): seq<Request> {
    if rs == [] then []
    else (if Known(c, rs[0]).None? then [rs[0]] else []) + Missing(c, rs[1..])
  }

  /** A further error message, separated from those before it. */
  function AddError(error: Text, e: Text): Text {
    (if error != [] then error + Ascii(" | ") else []) + e
  }

  function KnownError(c: CacheState, r: Request, error: Text): Text {
    match Known(c, r)
    case Some(Response(false, _, e)) => AddError(error, e)
    case _ => error
  }

  function KnownErrors(c: CacheState, rs: seq<Request>, error: Text): Text
    decreases |rs|
  {
    if rs == [] then error else KnownErrors(c, rs[1..], KnownError(c, rs[0], error))
  }

  function Recorded(c: CacheState, r: Request, p: Response): CacheState {
    if r.kind == N then
      if p.ok then c.(nValues := c.nValues[r.challenge := p.data]) else c.(nErrors := c.nErrors[r.challenge := p.error])
    else if r.kind == SIG then
      if p.ok then c.(sigValues := c.sigValues[r.challenge := p.data]) else c.(sigErrors := c.sigErrors[r.challenge := p.error])
    else c
  }

  /** The cache after the responses are stored, as many as there are requests and responses. */
  function RecordAll(c: CacheState, rs: seq<Request>, ps: seq<Response>): CacheState
    decreases |rs|
  {
    if rs == [] || ps == [] then c else RecordAll(Recorded(c, rs[0], ps[0]), rs[1..], ps[1..])
  }

  function AnsweredReady(rs: seq<Request>, ps: seq<Response>): seq<Ready>
    decreases |rs|
  {
    if rs == [] || ps == [] then []
    else (if ps[0].ok then [Ready(rs[0].kind, ps[0].data)] else []) + AnsweredReady(rs[1..], ps[1..])
  }

  function AnsweredErrors(rs: seq<Request>, ps: seq<Response>, error: Text): Text
    decreases |rs|
  {
    if rs == [] || ps == [] then error
    else AnsweredErrors(rs[1..], ps[1..], if ps[0].ok then error else AddError(error, ps[0].error))
  }

  function Solve(engine: Engine, rs: seq<Request>): seq<Response> {
    if rs == [] then [] else [engine(rs[0])] + Solve(engine, rs[1..])
  }

  function SpName(fmt: Format): Text {
    if fmt.sp == [] then SIGNATURE else fmt.sp
  }

  /** The URL with the solutions put in, one after the other. */
  function Rewrite(url: Text, sp: Text, ready: seq<Ready>): Text
    decreases |ready|
  {
    if ready == [] then url else Rewrite(Applied(url, sp, ready[0]), sp, ready[1..])
  }

  /** The URL with one solution put in. */
  function Applied(url: Text, sp: Text, r: Ready): Text {
    if r.kind == N then SetParam(url, N, r.value) else if r.kind == SIG then SetParam(url, sp, r.value) else url
  }

  /** What one request adds to a look-up. */
  lemma LookUpStep(c: CacheState, rs: seq<Request>, i: nat, error: Text)
    requires i < |rs|
    ensures KnownReady(c, rs[i..]) == KnownHead(c, rs[i]) + KnownReady(c, rs[i + 1..])
    ensures Missing(c, rs[i..]) == (if Known(c, rs[i]).None? then [rs[i]] else []) + Missing(c, rs[i + 1..])
    ensures KnownErrors(c, rs[i..], error) == KnownErrors(c, rs[i + 1..], KnownError(c, rs[i], error))
  {
    hide Known, AddError;
    assert rs[i..][1..] == rs[i + 1..];
  }

  lemma NothingToLookUp(c: CacheState, rs: seq<Request>, error: Text)
    ensures KnownReady(c, rs[|rs|..]) == [] && Missing(c, rs[|rs|..]) == [] && KnownErrors(c, rs[|rs|..], error) == error
  {
  }

  lemma KnownForms(c: CacheState, r: Request)
    ensures r.kind == N && r.challenge in c.nValues ==> Known(c, r) == Some(Response(true, c.nValues[r.challenge], []))
    ensures r.kind == N && r.challenge !in c.nValues && r.challenge in c.nErrors ==>
              Known(c, r) == Some(Response(false, [], c.nErrors[r.challenge]))
    ensures r.kind == N && r.challenge !in c.nValues && r.challenge !in c.nErrors ==> Known(c, r) == None
    ensures r.kind == SIG && r.challenge in c.sigValues ==> Known(c, r) == Some(Response(true, c.sigValues[r.challenge], []))
    ensures r.kind == SIG && r.challenge !in c.sigValues && r.challenge in c.sigErrors ==>
              Known(c, r) == Some(Response(false, [], c.sigErrors[r.challenge]))
    ensures r.kind == SIG && r.challenge !in c.sigValues && r.challenge !in c.sigErrors ==> Known(c, r) == None
    ensures r.kind != N && r.kind != SIG ==> Known(c, r) == None
  {
    assert N != SIG;
  }

  /** What one response changes. */
  lemma StoreStep(c: CacheState, rs: seq<Request>, ps: seq<Response>, i: nat, error: Text)
    requires i < |rs| && i < |ps|
    ensures RecordAll(c, rs[i..], ps[i..]) == RecordAll(Recorded(c, rs[i], ps[i]), rs[i + 1..], ps[i + 1..])
    ensures AnsweredReady(rs[i..], ps[i..]) ==
            (if ps[i].ok then [Ready(rs[i].kind, ps[i].data)] else []) + AnsweredReady(rs[i + 1..], ps[i + 1..])
    ensures AnsweredErrors(rs[i..], ps[i..], error) ==
            AnsweredErrors(rs[i + 1..], ps[i + 1..], if ps[i].ok then error else AddError(error, ps[i].error))
  {
    hide Recorded, AddError;
    assert rs[i..][1..] == rs[i + 1..] && ps[i..][1..] == ps[i + 1..];
  }

  lemma NothingToStore(c: CacheState, rs: seq<Request>, ps: seq<Response>, i: nat, error: Text)
    requires i <= |rs| && i <= |ps| && (i == |rs| || i == |ps|)
    ensures RecordAll(c, rs[i..], ps[i..]) == c && AnsweredReady(rs[i..], ps[i..]) == []
    ensures AnsweredErrors(rs[i..], ps[i..], error) == error
  {
  }

  class SolverSharedCache {
    var nValues: map<Text, Text>
    var nErrors: map<Text, Text>
    var sigValues: map<Text, Text>
    var sigErrors: map<Text, Text>

    constructor ()
      ensures View() == EMPTY
    {
      nValues, nErrors, sigValues, sigErrors := map[], map[], map[], map[];
    }

    function View(): CacheState
      reads this
    {
      CacheState(nValues, nErrors, sigValues, sigErrors)
    }

    /** The locked section that looks the requests up. */
    method LookUp(rs: seq<Request>) returns (ready: seq<Ready>, missing: seq<Request>, error: Text)
      ensures ready == KnownReady(View(), rs) && missing == Missing(View(), rs) && error == KnownErrors(View(), rs, [])
    {
      hide KnownReady, Missing, KnownErrors, Known, AddError;
      ready, missing, error := [], [], [];
      assert rs[0..] == rs;
      for i := 0 to |rs|
        invariant KnownReady(View(), rs) == ready + KnownReady(View(), rs[i..])
        invariant Missing(View(), rs) == missing + Missing(View(), rs[i..])
        invariant KnownErrors(View(), rs, []) == KnownErrors(View(), rs[i..], error)
      {
        var req := rs[i];
        LookUpStep(View(), rs, i, error);
        KnownForms(View(), req);
        if req.kind == N {
          if req.challenge in nValues {
            ready := ready + [Ready(req.kind, nValues[req.challenge])];
          } else if req.challenge in nErrors {
            error := AddError(error, nErrors[req.challenge]);
          } else {
            missing := missing + [req];
          }
        } else if req.kind == SIG {
          if req.challenge in sigValues {
            ready := ready + [Ready(req.kind, sigValues[req.challenge])];
          } else if req.challenge in sigErrors {
            error := AddError(error, sigErrors[req.challenge]);
          } else {
            missing := missing + [req];
          }
        } else {
          missing := missing + [req];
        }
      }
      NothingToLookUp(View(), rs, error);
    }

    /** The locked section that stores the responses. */
    method Store(rs: seq<Request>, ps: seq<Response>, ready0: seq<Ready>, error0: Text) returns (ready: seq<Ready>, error: Text)
      modifies this
      ensures View() == RecordAll(old(View()), rs, ps)
      ensures ready == ready0 + AnsweredReady(rs, ps) && error == AnsweredErrors(rs, ps, error0)
    {
      hide RecordAll, AnsweredReady, AnsweredErrors, AddError;
      ready, error := ready0, error0;
      var i := 0;
      assert rs[0..] == rs && ps[0..] == ps;
      while i < |rs| && i < |ps|
        invariant i <= |rs| && i <= |ps|
        invariant RecordAll(old(View()), rs, ps) == RecordAll(View(), rs[i..], ps[i..])
        invariant ready0 + AnsweredReady(rs, ps) == ready + AnsweredReady(rs[i..], ps[i..])
        invariant AnsweredErrors(rs, ps, error0) == AnsweredErrors(rs[i..], ps[i..], error)
      {
        var req, resp := rs[i], ps[i];
        StoreStep(View(), rs, ps, i, error);
        if resp.ok {
          if req.kind == N {
            nValues := nValues[req.challenge := resp.data];
          } else if req.kind == SIG {
            sigValues := sigValues[req.challenge := resp.data];
          }
          ready := ready + [Ready(req.kind, resp.data)];
        } else {
          if req.kind == N {
            nErrors := nErrors[req.challenge := resp.error];
          } else if req.kind == SIG {
            sigErrors := sigErrors[req.challenge := resp.error];
          }
          error := AddError(error, resp.error);
        }
        i := i + 1;
      }
      NothingToStore(View(), rs, ps, i, error);
    }
  }

  method RewriteUrl(fmt: Format, ready: seq<Ready>) returns (current: Text)
    ensures current == Rewrite(fmt.url, SpName(fmt), ready)
  {
    current := fmt.url;
    for i := 0 to |ready|
      invariant Rewrite(fmt.url, SpName(fmt), ready) == Rewrite(current, SpName(fmt), ready[i..])
    {
      assert ready[i..][1..] == ready[i + 1..];
      if ready[i].kind == N {
        current := SetOrReplaceQueryParam(current, N, ready[i].value);
      } else if ready[i].kind == SIG {
        var sp := if fmt.sp == [] then SIGNATURE else fmt.sp;
        current := SetOrReplaceQueryParam(current, sp, ready[i].value);
      }
    }
  }

  /** The outcome for a format, when the look-up finds the cache c and the engine does not throw. */
  function Outcome(engine: Engine, fmt: Format, c: CacheState): Solved {
    if fmt.url == [] then Solved(fmt.url, Ascii("Keine URL vorhanden"))
    else if fmt.requests == [] then Solved(fmt.url, [])
    else
      var missing := Missing(c, fmt.requests);
      var answers := Solve(engine, missing);
      Solved(Rewrite(fmt.url, SpName(fmt), KnownReady(c, fmt.requests) + AnsweredReady(missing, answers)),
             AnsweredErrors(missing, answers, KnownErrors(c, fmt.requests, [])))
  }

  /** solve_format_url by one thread alone; `thrown` is the message of the engine if it throws. */
  method SolveFormatUrl(fmt: Format, cache: SolverSharedCache?, engine: Engine, thrown: Option<Text>) returns (out: Solved)
    modifies cache
    ensures fmt.url == [] || fmt.requests == [] ==> out == Outcome(engine, fmt, EMPTY)
    ensures fmt.url != [] && fmt.requests != [] && cache == null ==> out == Solved(fmt.url, Ascii("Solver-Cache fehlt"))
    ensures fmt.url != [] && fmt.requests != [] && cache != null ==>
              var missing := Missing(old(cache.View()), fmt.requests);
              if missing != [] && thrown.Some? then
                out == Solved(fmt.url, thrown.value) && cache.View() == old(cache.View())
              else
                out == Outcome(engine, fmt, old(cache.View()))
                && cache.View() == RecordAll(old(cache.View()), missing, Solve(engine, missing))
  {
    if fmt.url == [] {
      return Solved(fmt.url, Ascii("Keine URL vorhanden"));
    }
    if fmt.requests == [] {
      return Solved(fmt.url, []);
    }
    if cache == null {
      return Solved(fmt.url, Ascii("Solver-Cache fehlt"));
    }
    var ready, missing, error := cache.LookUp(fmt.requests);
    if missing != [] {
      if thrown.Some? {
        return Solved(fmt.url, thrown.value);
      }
      ready, error := cache.Store(missing, Solve(engine, missing), ready, error);
    }
    if missing == [] {
      NoneMissing(engine, fmt, cache.View());
    }
    var current := RewriteUrl(fmt, ready);
    out := Solved(current, error);
  }

  // ----- consistency -----

  ghost predicate Agrees(engine: Engine, kind: Text, values: map<Text, Text>, errors: map<Text, Text>) {
    && (forall ch | ch in values :: engine(Request(kind, ch)).ok && values[ch] == engine(Request(kind, ch)).data)
    && (forall ch | ch in errors :: !engine(Request(kind, ch)).ok && errors[ch] == engine(Request(kind, ch)).error)
  }

  /** Every cached value and every cached error is what the engine answers. */
  ghost predicate Consistent(engine: Engine, c: CacheState) {
    Agrees(engine, N, c.nValues, c.nErrors) && Agrees(engine, SIG, c.sigValues, c.sigErrors)
  }

  /** No challenge has both a value and an error. */
  lemma ConsistentIsDisjoint(engine: Engine, c: CacheState)
    requires Consistent(engine, c)
    ensures c.nValues.Keys !! c.nErrors.Keys && c.sigValues.Keys !! c.sigErrors.Keys
  {
    forall ch ensures !(ch in c.nValues.Keys && ch in c.nErrors.Keys) && !(ch in c.sigValues.Keys && ch in c.sigErrors.Keys) {
      assert ch in c.nValues ==> engine(Request(N, ch)).ok;
      assert ch in c.sigValues ==> engine(Request(SIG, ch)).ok;
    }
  }

  /** Storing what the engine answers keeps the cache consistent. */
  lemma {:induction false} RecordKeeps(engine: Engine, c: CacheState, rs: seq<Request>)
    requires Consistent(engine, c)
    ensures Consistent(engine, RecordAll(c, rs, Solve(engine, rs)))
    decreases |rs|
  {
    if rs != [] {
      RecordKeepsOne(engine, c, rs[0]);
      hide Consistent, Recorded;
      RecordKeeps(engine, Recorded(c, rs[0], engine(rs[0])), rs[1..]);
      assert Solve(engine, rs)[1..] == Solve(engine, rs[1..]);
    }
  }

  lemma RecordKeepsOne(engine: Engine, c: CacheState, r: Request)
    requires Consistent(engine, c)
    ensures Consistent(engine, Recorded(c, r, engine(r)))
  {
    assert r.kind == N ==> r == Request(N, r.challenge);
    assert r.kind == SIG ==> r == Request(SIG, r.challenge);
  }

  // ----- several threads -----

  /** Where a thread is: before the look-up, with requests at the engine, or done. */
  datatype Phase =
    | Waiting
    | Solving(ready: seq<Ready>, missing: seq<Request>, error: Text)
    | Finished(out: Solved)

  datatype System = System(cache: CacheState, threads: seq<Phase>)

  datatype Event = LookUp(i: nat) | Answer(i: nat) | Throw(i: nat, message: Text)

  /** One locked section, or an exception, of one thread; thread i solves fmts[i]. */
  function Next(engine: Engine, fmts: seq<Format>, s: System, e: Event): Option<System>
    requires |s.threads| == |fmts|
  {
    if e.i >= |fmts| then None
    else
      var fmt, t := fmts[e.i], s.threads[e.i];
      match e
      case LookUp(i) =>
        if !t.Waiting? then None
        else if fmt.url == [] || fmt.requests == [] then
          Some(s.(threads := s.threads[i := Finished(Outcome(engine, fmt, EMPTY))]))
        else
          var ready, missing := KnownReady(s.cache, fmt.requests), Missing(s.cache, fmt.requests);
          var error := KnownErrors(s.cache, fmt.requests, []);
          if missing == [] then
            Some(s.(threads := s.threads[i := Finished(Solved(Rewrite(fmt.url, SpName(fmt), ready), error))]))
          else
            Some(s.(threads := s.threads[i := Solving(ready, missing, error)]))
      case Answer(i) =>
        if !t.Solving? then None
        else
          var answers := Solve(engine, t.missing);
          var ready := t.ready + AnsweredReady(t.missing, answers);
          var out := Solved(Rewrite(fmt.url, SpName(fmt), ready), AnsweredErrors(t.missing, answers, t.error));
          Some(System(RecordAll(s.cache, t.missing, answers), s.threads[i := Finished(out)]))
      case Throw(i, message) =>
        if !t.Solving? then None else Some(s.(threads := s.threads[i := Finished(Solved(fmt.url, message))]))
  }

  /** The systems reached by a sequence of events, of any threads in any order. */
  ghost predicate Run(engine: Engine, fmts: seq<Format>, s: System, es: seq<Event>, s': System)
    decreases |es|
  {
    |s.threads| == |fmts|
    && if es == [] then s' == s
       else Next(engine, fmts, s, es[0]).Some? && Run(engine, fmts, Next(engine, fmts, s, es[0]).value, es[1..], s')
  }

  /** The threads whose engine threw. */
  function Thrown(es: seq<Event>): set<nat> {
    if es == [] then {} else (if es[0].Throw? then {es[0].i} else {}) + Thrown(es[1..])
  }

  /** What is known of a thread: what it has or gives back comes from some consistent cache, unless its engine threw. */
  ghost predicate Explained(engine: Engine, fmt: Format, t: Phase, threw: bool) {
    match t
    case Waiting => true
    case Solving(ready, missing, error) =>
      fmt.url != [] && fmt.requests != [] && exists c ::
        && Consistent(engine, c) && ready == KnownReady(c, fmt.requests) && missing == Missing(c, fmt.requests)
        && error == KnownErrors(c, fmt.requests, [])
    case Finished(out) =>
      || (exists c :: Consistent(engine, c) && out == Outcome(engine, fmt, c))
      || (threw && out.decodedUrl == fmt.url)
  }

  ghost predicate Invariant(engine: Engine, fmts: seq<Format>, s: System, thrown: set<nat>) {
    && |s.threads| == |fmts| && Consistent(engine, s.cache)
    && forall i: nat | i < |fmts| :: Explained(engine, fmts[i], s.threads[i], i in thrown)
  }

  /** Before the first look-up. */
  lemma StartIsInvariant(engine: Engine, fmts: seq<Format>, s: System)
    requires |s.threads| == |fmts| && Consistent(engine, s.cache) && forall t | t in s.threads :: t == Waiting
    ensures Invariant(engine, fmts, s, {})
  {
    hide Consistent;
    forall i: nat | i < |fmts| ensures Explained(engine, fmts[i], s.threads[i], false) {
      assert s.threads[i] in s.threads;
    }
  }

  lemma NoneMissing(engine: Engine, fmt: Format, c: CacheState)
    requires fmt.url != [] && fmt.requests != [] && Missing(c, fmt.requests) == []
    ensures Outcome(engine, fmt, c) ==
            Solved(Rewrite(fmt.url, SpName(fmt), KnownReady(c, fmt.requests)), KnownErrors(c, fmt.requests, []))
  {
    var ready := KnownReady(c, fmt.requests);
    assert ready + AnsweredReady([], Solve(engine, [])) == ready;
  }

  lemma EmptyIsConsistent(engine: Engine)
    ensures Consistent(engine, EMPTY)
  {
  }

  lemma StepKeeps(engine: Engine, fmts: seq<Format>, s: System, e: Event, thrown: set<nat>)
    requires Invariant(engine, fmts, s, thrown) && Next(engine, fmts, s, e).Some?
    ensures Invariant(engine, fmts, Next(engine, fmts, s, e).value, thrown + if e.Throw? then {e.i} else {})
  {
    hide Consistent, KnownReady, Missing, KnownErrors, RecordAll, AnsweredReady, AnsweredErrors, Rewrite, Solve;
    var i := e.i;
    var fmt, t, s' := fmts[i], s.threads[i], Next(engine, fmts, s, e).value;
    assert Explained(engine, fmt, t, i in thrown);
    EmptyIsConsistent(engine);
    match e
    case LookUp(_) =>
      if fmt.url != [] && fmt.requests != [] && Missing(s.cache, fmt.requests) == [] {
        NoneMissing(engine, fmt, s.cache);
      }
      assert Explained(engine, fmt, s'.threads[i], i in thrown);
    case Answer(_) =>
      RecordKeeps(engine, s.cache, t.missing);
      assert Explained(engine, fmt, s'.threads[i], i in thrown);
    case Throw(_, _) =>
      assert Explained(engine, fmt, s'.threads[i], true);
  }

  /** In every run, of any number of threads and in any order of their locked sections, the invariant is kept. */
  lemma {:induction false} RunKeeps(engine: Engine, fmts: seq<Format>, s: System, es: seq<Event>, s': System, thrown: set<nat>)
    requires Invariant(engine, fmts, s, thrown) && Run(engine, fmts, s, es, s')
    ensures Invariant(engine, fmts, s', thrown + Thrown(es))
    decreases |es|
  {
    hide Invariant, Next;
    if es != [] {
      StepKeeps(engine, fmts, s, es[0], thrown);
      var more := if es[0].Throw? then {es[0].i} else {};
      RunKeeps(engine, fmts, Next(engine, fmts, s, es[0]).value, es[1..], s', thrown + more);
      assert thrown + more + Thrown(es[1..]) == thrown + Thrown(es);
    } else {
      assert thrown + {} == thrown;
    }
  }

  // ----- known and new solutions -----

  lemma KnownAgrees(engine: Engine, c: CacheState, r: Request)
    requires Consistent(engine, c)
    ensures match Known(c, r)
            case None => true
            case Some(p) => p.ok == engine(r).ok && (p.ok ==> p.data == engine(r).data) && (!p.ok ==> p.error == engine(r).error)
  {
    assert r.kind == N ==> r == Request(N, r.challenge);
    assert r.kind == SIG ==> r == Request(SIG, r.challenge);
  }

  /** The solutions that the engine gives for the requests the cache does not know. */
  function NewReady(engine: Engine, c: CacheState, rs: seq<Request>): seq<Ready> {
    AnsweredReady(Missing(c, rs), Solve(engine, Missing(c, rs)))
  }

  /** What a single request adds to the new solutions. */
  function NewHead(engine: Engine, c: CacheState, r: Request): seq<Ready> {
    if Known(c, r).None? && engine(r).ok then [SolutionOf(engine, r)] else []
  }

  lemma ReadyHeads(engine: Engine, c: CacheState, rs: seq<Request>)
    requires rs != []
    ensures KnownReady(c, rs) == KnownHead(c, rs[0]) + KnownReady(c, rs[1..])
    ensures NewReady(engine, c, rs) == NewHead(engine, c, rs[0]) + NewReady(engine, c, rs[1..])
  {
    hide Known;
    var m, m' := Missing(c, rs), Missing(c, rs[1..]);
    if Known(c, rs[0]).None? {
      assert m == [rs[0]] + m';
      hide Missing;
      assert m[0] == rs[0] && m[1..] == m';
      SolveFirst(engine, m);
    } else {
      assert m == [] + m' == m';
    }
  }

  lemma SolveFirst(engine: Engine, m: seq<Request>)
    requires m != []
    ensures var ps := Solve(engine, m); ps != [] && ps[0] == engine(m[0]) && ps[1..] == Solve(engine, m[1..])
  {
  }

  lemma NothingReady(engine: Engine, c: CacheState)
    ensures KnownReady(c, []) == [] && NewReady(engine, c, []) == []
  {
  }

  /** The engine's solution of a request. */
  function SolutionOf(engine: Engine, r: Request): Ready {
    Ready(r.kind, engine(r).data)
  }

  function Solutions(engine: Engine, rs: seq<Request>): seq<Ready> {
    if rs == [] then [] else (if engine(rs[0]).ok then [SolutionOf(engine, rs[0])] else []) + Solutions(engine, rs[1..])
  }

  /** With a consistent cache, one request adds the engine's solution, as a known or as a new one. */
  lemma HeadSolution(engine: Engine, c: CacheState, r: Request)
    requires Consistent(engine, c)
    ensures if !engine(r).ok then KnownHead(c, r) == [] && NewHead(engine, c, r) == []
            else if Known(c, r).Some? then KnownHead(c, r) == [SolutionOf(engine, r)] && NewHead(engine, c, r) == []
            else KnownHead(c, r) == [] && NewHead(engine, c, r) == [SolutionOf(engine, r)]
  {
    hide Known, Consistent;
    KnownAgrees(engine, c, r);
  }

  /** Which solutions are known and which are new. */
  lemma {:induction false} ReadyFrom(engine: Engine, c: CacheState, rs: seq<Request>, x: Ready)
    requires Consistent(engine, c)
    ensures x in KnownReady(c, rs) <==> exists q | q in rs :: engine(q).ok && Known(c, q).Some? && x == SolutionOf(engine, q)
    ensures x in NewReady(engine, c, rs) <==> exists q | q in rs :: engine(q).ok && Known(c, q).None? && x == SolutionOf(engine, q)
  {
    hide Known, Consistent, KnownReady, NewReady, KnownHead, NewHead;
    if rs == [] {
      NothingReady(engine, c);
    } else {
      ReadyHeads(engine, c, rs);
      HeadSolution(engine, c, rs[0]);
      ReadyFrom(engine, c, rs[1..], x);
      assert forall q :: q in rs <==> q == rs[0] || q in rs[1..];
    }
  }

  lemma {:induction false} RewriteConcat(url: Text, sp: Text, a: seq<Ready>, b: seq<Ready>)
    ensures Rewrite(url, sp, a + b) == Rewrite(Rewrite(url, sp, a), sp, b)
    decreases |a|
  {
    hide Applied;
    if a == [] {
      assert a + b == b;
    } else {
      RewriteConcat(Applied(url, sp, a[0]), sp, a[1..], b);
      assert (a + b)[1..] == a[1..] + b;
    }
  }

  // ----- when the order of the solutions does not matter -----

  /** A solution of this kind is put into the URL. */
  predicate PutIn(kind: Text) {
    kind == N || kind == SIG
  }

  /** The parameter for solutions of a kind. */
  function ParamName(fmt: Format, kind: Text): Text {
    if kind == N then N else SpName(fmt)
  }

  /** The parameters n and signature can be set in every URL. */
  lemma DefaultNamesLast(fmt: Format, url: Text)
    ensures Lasting(url, N) && (fmt.sp == [] ==> Lasting(url, SpName(fmt)))
  {
    hide Lasting;
    assert HighKey(SIGNATURE) && HighKey(N);
    HighKeysLast(url, N);
    HighKeysLast(url, SIGNATURE);
  }

  /** If two solutions are for different parameters, both can be set in the URL. */
  ghost predicate NamesAreSet(fmt: Format, url: Text, x: Ready, y: Ready) {
    PutIn(x.kind) && PutIn(y.kind) ==> ParamName(fmt, x.kind) == ParamName(fmt, y.kind) || Lasting(url, SpName(fmt))
  }

  lemma LastingApplied(fmt: Format, url: Text, z: Ready)
    requires Lasting(url, SpName(fmt))
    ensures Lasting(Applied(url, SpName(fmt), z), SpName(fmt))
  {
    hide SetParam, Lasting;
    DefaultNamesLast(fmt, url);
    LastingPrevails(url, N);
    LastingPrevails(url, SpName(fmt));
    if PutIn(z.kind) {
      LastingKept(url, ParamName(fmt, z.kind), z.value, SpName(fmt));
    }
  }

  lemma NamesKept(fmt: Format, url: Text, x: Ready, y: Ready, z: Ready)
    requires NamesAreSet(fmt, url, x, y)
    ensures NamesAreSet(fmt, Applied(url, SpName(fmt), z), x, y)
  {
    hide Applied, Lasting;
    if Lasting(url, SpName(fmt)) {
      LastingApplied(fmt, url, z);
    }
  }

  /** Two solutions can be put in in either order, see OrdersAgree: one value, or values with nothing to decode. */
  predicate OrderFree(fmt: Format, x: Ready, y: Ready) {
    PutIn(x.kind) && PutIn(y.kind) ==>
      if ParamName(fmt, x.kind) == ParamName(fmt, y.kind) then x.value == y.value
      else NothingToDecode(x.value) && NothingToDecode(y.value)
  }

  lemma Exchange(fmt: Format, url: Text, x: Ready, y: Ready)
    requires NamesAreSet(fmt, url, x, y) && OrderFree(fmt, x, y)
    ensures var sp := SpName(fmt);
            Applied(Applied(url, sp, x), sp, y) == Applied(Applied(url, sp, y), sp, x)
  {
    hide SetParam, NothingToDecode, Lasting, Stable, Prevails, ParseQuery, QueryOf;
    var j, k := ParamName(fmt, x.kind), ParamName(fmt, y.kind);
    if PutIn(x.kind) && PutIn(y.kind) && j != k {
      DefaultNamesLast(fmt, url);
      LastingPrevails(url, j);
      LastingPrevails(url, k);
      OrdersAgree(url, j, x.value, k, y.value);
    }
  }

  /** A solution that can be exchanged with those before it may as well come first. */
  lemma {:induction false} MoveFirst(fmt: Format, url: Text, before: seq<Ready>, x: Ready)
    requires forall y | y in before :: NamesAreSet(fmt, url, y, x) && OrderFree(fmt, y, x)
    ensures Rewrite(url, SpName(fmt), before + [x]) == Rewrite(Applied(url, SpName(fmt), x), SpName(fmt), before)
    decreases |before|
  {
    hide NamesAreSet, OrderFree, Applied;
    var sp := SpName(fmt);
    if before == [] {
      assert before + [x] == [x] && [x][1..] == [];
    } else {
      var y, rest := before[0], before[1..];
      assert y in before && forall z | z in rest :: z in before;
      assert (before + [x])[1..] == rest + [x];
      forall z | z in rest ensures NamesAreSet(fmt, Applied(url, sp, y), z, x) {
        NamesKept(fmt, url, z, x, y);
      }
      MoveFirst(fmt, Applied(url, sp, y), rest, x);
      Exchange(fmt, url, y, x);
    }
  }

  /** Any two solutions of the format's requests can be put in in either order. */
  ghost predicate Independent(engine: Engine, fmt: Format) {
    forall a, b | a in fmt.requests && b in fmt.requests && engine(a).ok && engine(b).ok ::
      OrderFree(fmt, SolutionOf(engine, a), SolutionOf(engine, b))
  }

  /** If solutions for both parameters are put into the URL, both parameters can be set in it. */
  ghost predicate Settable(engine: Engine, fmt: Format, url: Text) {
    forall a, b | a in fmt.requests && b in fmt.requests && engine(a).ok && engine(b).ok ::
      NamesAreSet(fmt, url, SolutionOf(engine, a), SolutionOf(engine, b))
  }

  lemma SettableKept(engine: Engine, fmt: Format, url: Text, x: Ready)
    requires Settable(engine, fmt, url)
    ensures Settable(engine, fmt, Applied(url, SpName(fmt), x))
  {
    hide NamesAreSet, Applied;
    forall a, b | a in fmt.requests && b in fmt.requests && engine(a).ok && engine(b).ok
      ensures NamesAreSet(fmt, Applied(url, SpName(fmt), x), SolutionOf(engine, a), SolutionOf(engine, b))
    {
      NamesKept(fmt, url, SolutionOf(engine, a), SolutionOf(engine, b), x);
    }
  }

  /** Whatever a consistent cache knows, the known and the new solutions make the URL that all of them make in order. */
  lemma {:induction false} AnyOrder(engine: Engine, fmt: Format, c: CacheState, url: Text, rs: seq<Request>)
    requires Consistent(engine, c) && Independent(engine, fmt) && Settable(engine, fmt, url)
    requires forall r | r in rs :: r in fmt.requests
    ensures Rewrite(url, SpName(fmt), KnownReady(c, rs) + NewReady(engine, c, rs)) ==
            Rewrite(url, SpName(fmt), Solutions(engine, rs))
    decreases |rs|
  {
    hide Known, Consistent, KnownReady, NewReady, KnownHead, NewHead, OrderFree, NamesAreSet, Applied;
    if rs == [] {
      NothingReady(engine, c);
    } else {
      var r, rest, sp := rs[0], rs[1..], SpName(fmt);
      var known, added := KnownReady(c, rest), NewReady(engine, c, rest);
      assert r in fmt.requests && forall q | q in rest :: q in fmt.requests by { assert forall q | q in rest :: q in rs; }
      ReadyHeads(engine, c, rs);
      HeadSolution(engine, c, r);
      if !engine(r).ok {
        AnyOrder(engine, fmt, c, url, rest);
        assert KnownReady(c, rs) == known && NewReady(engine, c, rs) == added;
        assert Solutions(engine, rs) == Solutions(engine, rest);
      } else {
        var x := SolutionOf(engine, r);
        SettableKept(engine, fmt, url, x);
        AnyOrder(engine, fmt, c, Applied(url, sp, x), rest);
        RewriteConcat(Applied(url, sp, x), sp, known, added);
        if Known(c, r).Some? {
          assert KnownReady(c, rs) + NewReady(engine, c, rs) == [x] + (known + added);
          assert ([x] + (known + added))[1..] == known + added;
        } else {
          forall y | y in known ensures NamesAreSet(fmt, url, y, x) && OrderFree(fmt, y, x) {
            ReadyFrom(engine, c, rest, y);
          }
          MoveFirst(fmt, url, known, x);
          RewriteConcat(url, sp, known + [x], added);
          assert KnownReady(c, rs) + NewReady(engine, c, rs) == (known + [x]) + added;
        }
        assert Solutions(engine, rs)[0] == x && Solutions(engine, rs)[1..] == Solutions(engine, rest);
      }
    }
  }

  lemma OutcomeUrl(engine: Engine, fmt: Format, c: CacheState)
    requires fmt.url != [] && fmt.requests != []
    ensures Outcome(engine, fmt, c).decodedUrl ==
            Rewrite(fmt.url, SpName(fmt), KnownReady(c, fmt.requests) + NewReady(engine, c, fmt.requests))
  {
  }

  /** The URL with the engine's solutions put in, in the order of the requests: no cache at all. */
  function Direct(engine: Engine, fmt: Format): Text {
    if fmt.url == [] then fmt.url else Rewrite(fmt.url, SpName(fmt), Solutions(engine, fmt.requests))
  }

  /** From any consistent cache, the rewritten URL is that of the engine alone. */
  lemma CacheIsTransparent(engine: Engine, fmt: Format, c: CacheState)
    requires Consistent(engine, c) && Settable(engine, fmt, fmt.url) && Independent(engine, fmt)
    ensures Outcome(engine, fmt, c).decodedUrl == Direct(engine, fmt)
  {
    hide Consistent, Settable, Independent, KnownReady, NewReady;
    if fmt.url != [] && fmt.requests != [] {
      OutcomeUrl(engine, fmt, c);
      AnyOrder(engine, fmt, c, fmt.url, fmt.requests);
    }
  }

  /**
   For any number of threads that start with any consistent cache, whatever the order of their locked sections: the cache
   stays consistent, and a thread that is done and whose engine did not throw gives back the URL that the engine alone
   determines; after an exception it gives back the URL as it was.
   */
  lemma EveryRunIsTransparent(engine: Engine, fmts: seq<Format>, s: System, es: seq<Event>, s': System, i: nat)
    requires |s.threads| == |fmts| && Consistent(engine, s.cache) && forall t | t in s.threads :: t == Waiting
    requires Run(engine, fmts, s, es, s') && i < |fmts| && i < |s'.threads| && s'.threads[i].Finished?
    requires Settable(engine, fmts[i], fmts[i].url) && Independent(engine, fmts[i])
    ensures Consistent(engine, s'.cache)
    ensures i !in Thrown(es) ==> s'.threads[i].out.decodedUrl == Direct(engine, fmts[i])
    ensures s'.threads[i].out.decodedUrl == Direct(engine, fmts[i]) || s'.threads[i].out.decodedUrl == fmts[i].url
  {
    hide Consistent, Outcome, Direct, Independent, Settable, Run, Next;
    StartIsInvariant(engine, fmts, s);
    RunKeeps(engine, fmts, s, es, s', {});
    var out := s'.threads[i].out;
    assert {} + Thrown(es) == Thrown(es);
    assert Explained(engine, fmts[i], s'.threads[i], i in Thrown(es));
    forall c | Consistent(engine, c) && out == Outcome(engine, fmts[i], c) ensures out.decodedUrl == Direct(engine, fmts[i]) {
      CacheIsTransparent(engine, fmts[i], c);
    }
  }

  // ----- exactly when the cache does not matter -----

  /** Every consistent cache gives the URL that an empty one gives. */
  ghost predicate Transparent(engine: Engine, fmt: Format) {
    forall c | Consistent(engine, c) :: Outcome(engine, fmt, c).decodedUrl == Outcome(engine, fmt, EMPTY).decodedUrl
  }

  /** The requests other than r. */
  function Without(rs: seq<Request>, r: Request): (qs: seq<Request>)
    ensures forall q :: q in qs <==> q in rs && q != r
  {
    if rs == [] then []
    else
      var tail := Without(rs[1..], r);
      assert forall q :: q in rs <==> q == rs[0] || q in rs[1..];
      if rs[0] == r then tail else [rs[0]] + tail
  }

  lemma RecordedKnows(c: CacheState, r: Request, p: Response, q: Request)
    ensures Known(Recorded(c, r, p), q).Some? <==> Known(c, q).Some? || (q == r && PutIn(q.kind))
  {
    assert q.kind == r.kind && q.challenge == r.challenge ==> q == r;
  }

  lemma {:induction false} RecordAllKnows(engine: Engine, c: CacheState, rs: seq<Request>, q: Request)
    ensures Known(RecordAll(c, rs, Solve(engine, rs)), q).Some? <==> Known(c, q).Some? || (q in rs && PutIn(q.kind))
    decreases |rs|
  {
    hide Known, Recorded;
    if rs != [] {
      SolveFirst(engine, rs);
      RecordedKnows(c, rs[0], engine(rs[0]), q);
      RecordAllKnows(engine, Recorded(c, rs[0], engine(rs[0])), rs[1..], q);
      assert q in rs <==> q == rs[0] || q in rs[1..];
    }
  }

  /** The cache that knows every request but r. */
  lemma AllBut(engine: Engine, rs: seq<Request>, r: Request) returns (c: CacheState)
    ensures Consistent(engine, c)
    ensures forall q | q in rs :: Known(c, q).Some? <==> q != r && PutIn(q.kind)
  {
    hide Known, Consistent, RecordAll;
    EmptyIsConsistent(engine);
    c := RecordAll(EMPTY, Without(rs, r), Solve(engine, Without(rs, r)));
    RecordKeeps(engine, EMPTY, Without(rs, r));
    forall q | q in rs ensures Known(c, q).Some? <==> q != r && PutIn(q.kind) {
      RecordAllKnows(engine, EMPTY, Without(rs, r), q);
      EmptyKnowsNothing(q);
    }
  }

  lemma EmptyKnowsNothing(r: Request)
    ensures Known(EMPTY, r).None?
  {
  }

  /** If no other solution in the list is put in, x is put in last. */
  lemma {:induction false} LastApplied(url: Text, sp: Text, ready: seq<Ready>, x: Ready) returns (before: seq<Ready>)
    requires x in ready && forall y | y in ready :: y == x || !PutIn(y.kind)
    ensures Rewrite(url, sp, ready) == Applied(Rewrite(url, sp, before), sp, x)
    ensures forall y | y in before :: y in ready
    decreases |ready|
  {
    hide SetParam;
    var n := |ready| - 1;
    var last := ready[n];
    assert ready == ready[..n] + [last] && [last][1..] == [];
    RewriteConcat(url, sp, ready[..n], [last]);
    if last == x {
      before := ready[..n];
    } else {
      before := LastApplied(url, sp, ready[..n], x);
    }
  }

  /** From the cache that knows all requests but r, the solution of r is put in last, after all others. */
  lemma PutInLast(engine: Engine, fmt: Format, r: Request) returns (before: seq<Ready>)
    requires fmt.url != [] && r in fmt.requests && engine(r).ok && PutIn(r.kind) && Transparent(engine, fmt)
    ensures Outcome(engine, fmt, EMPTY).decodedUrl ==
            SetParam(Rewrite(fmt.url, SpName(fmt), before), ParamName(fmt, r.kind), engine(r).data)
    ensures forall x | x in before :: exists q | q in fmt.requests :: engine(q).ok && x == SolutionOf(engine, q)
    ensures forall q | q in fmt.requests && q != r && engine(q).ok && PutIn(q.kind) :: SolutionOf(engine, q) in before
  {
    hide Known, Consistent, KnownReady, NewReady, SetParam, Rewrite, Outcome;
    var rs, sp, x := fmt.requests, SpName(fmt), SolutionOf(engine, r);
    var c := AllBut(engine, rs, r);
    var known, added := KnownReady(c, rs), NewReady(engine, c, rs);
    forall y
      ensures y in known <==> exists q | q in rs :: engine(q).ok && Known(c, q).Some? && y == SolutionOf(engine, q)
      ensures y in added <==> exists q | q in rs :: engine(q).ok && Known(c, q).None? && y == SolutionOf(engine, q)
    {
      ReadyFrom(engine, c, rs, y);
    }
    OutcomeUrl(engine, fmt, c);
    RewriteConcat(fmt.url, sp, known, added);
    var late := LastApplied(Rewrite(fmt.url, sp, known), sp, added, x);
    RewriteConcat(fmt.url, sp, known, late);
    before := known + late;
  }

  /** A parameter that is set to v, and never to another value, reads in the end as v decoded at least once. */
  lemma {:induction false} ReadAtMost(fmt: Format, url: Text, ready: seq<Ready>, k: Text, v: Text)
    requires Lasting(url, SpName(fmt)) && (k == N || k == SpName(fmt))
    requires forall x | x in ready && PutIn(x.kind) && ParamName(fmt, x.kind) == k :: x.value == v
    requires || (exists x | x in ready :: PutIn(x.kind) && ParamName(fmt, x.kind) == k)
             || (QueryParam(url, k).Some? && Rank(QueryParam(url, k).value) <= Rank(DecodeOnce(v)))
    ensures var r := QueryParam(Rewrite(url, SpName(fmt), ready), k); r.Some? && Rank(r.value) <= Rank(DecodeOnce(v))
    decreases |ready|
  {
    hide SetParam, QueryParam, DecodeOnce, Rank, Lasting, ParseQuery, QueryOf, Prevails;
    if ready != [] {
      var x, sp := ready[0], SpName(fmt);
      var name, next := ParamName(fmt, x.kind), Applied(url, sp, x);
      assert forall y :: y in ready <==> y == x || y in ready[1..];
      LastingApplied(fmt, url, x);
      if PutIn(x.kind) {
        DefaultNamesLast(fmt, url);
        LastingPrevails(url, k);
        LastingPrevails(url, name);
        if name == k {
          GetAfterSet(url, k, v, k);
        } else if QueryParam(url, k).Some? {
          OtherAfterSet(url, name, x.value, k);
          DecodingLowersRank(QueryParam(url, k).value);
        }
      }
      ReadAtMost(fmt, next, ready[1..], k, v);
    }
  }

  /** If the cache does not matter, two solutions for one parameter have the same value. */
  lemma OneValue(engine: Engine, fmt: Format, a: Request, b: Request)
    requires fmt.url != [] && Transparent(engine, fmt) && a in fmt.requests && b in fmt.requests && engine(a).ok && engine(b).ok
    requires PutIn(a.kind) && PutIn(b.kind) && ParamName(fmt, a.kind) == ParamName(fmt, b.kind)
    ensures engine(a).data == engine(b).data
  {
    hide Transparent, SetParam, Rewrite, Outcome, QueryParam;
    var x := PutInLast(engine, fmt, a);
    var y := PutInLast(engine, fmt, b);
    var sp := SpName(fmt);
    SameUrl(Rewrite(fmt.url, sp, x), ParamName(fmt, a.kind), engine(a).data,
            Rewrite(fmt.url, sp, y), ParamName(fmt, b.kind), engine(b).data);
  }

  /** If the cache does not matter, a solution has nothing to decode when there is one for another parameter. */
  lemma NothingDecoded(engine: Engine, fmt: Format, a: Request, b: Request)
    requires fmt.url != [] && Transparent(engine, fmt) && a in fmt.requests && b in fmt.requests && engine(a).ok && engine(b).ok
    requires PutIn(a.kind) && PutIn(b.kind) && ParamName(fmt, a.kind) != ParamName(fmt, b.kind) && Lasting(fmt.url, SpName(fmt))
    ensures NothingToDecode(engine(a).data)
  {
    hide Transparent, SetParam, Rewrite, Outcome, QueryParam, NothingToDecode, Rank, DecodeOnce, Lasting;
    var sp, k, v := SpName(fmt), ParamName(fmt, a.kind), engine(a).data;
    var x := PutInLast(engine, fmt, a);
    var y := PutInLast(engine, fmt, b);
    SameUrl(Rewrite(fmt.url, sp, x), k, v, Rewrite(fmt.url, sp, y), ParamName(fmt, b.kind), engine(b).data);
    forall z | z in y && PutIn(z.kind) && ParamName(fmt, z.kind) == k ensures z.value == v {
      var q :| q in fmt.requests && engine(q).ok && z == SolutionOf(engine, q);
      OneValue(engine, fmt, a, q);
    }
    assert SolutionOf(engine, a) in y;
    ReadAtMost(fmt, fmt.url, y, k, v);
    DecodingLowersRank(v);
    StableMeaning(v);
  }

  /**
   Whatever the requests are, the URL does not depend on the cache if and only if any two solutions can be put in in either
   order: solutions for one parameter have one value, and there is nothing to decode in solutions for two parameters.
   */
  lemma TransparentExactly(engine: Engine, fmt: Format)
    requires fmt.url != [] && Settable(engine, fmt, fmt.url)
    ensures Transparent(engine, fmt) <==> Independent(engine, fmt)
  {
    hide Consistent, Outcome, NothingToDecode, Direct, Lasting;
    if Independent(engine, fmt) {
      EmptyIsConsistent(engine);
      CacheIsTransparent(engine, fmt, EMPTY);
      forall c | Consistent(engine, c) ensures Outcome(engine, fmt, c).decodedUrl == Outcome(engine, fmt, EMPTY).decodedUrl {
        CacheIsTransparent(engine, fmt, c);
      }
    }
    if Transparent(engine, fmt) {
      forall a, b | a in fmt.requests && b in fmt.requests && engine(a).ok && engine(b).ok
        ensures OrderFree(fmt, SolutionOf(engine, a), SolutionOf(engine, b))
      {
        if PutIn(a.kind) && PutIn(b.kind) {
          if ParamName(fmt, a.kind) == ParamName(fmt, b.kind) {
            OneValue(engine, fmt, a, b);
          } else {
            assert NamesAreSet(fmt, fmt.url, SolutionOf(engine, a), SolutionOf(engine, b));
            NothingDecoded(engine, fmt, a, b);
            NothingDecoded(engine, fmt, b, a);
          }
        }
      }
    }
  }

  /** An engine that solves every n request as "%41" and every sig request as "b". */
  function Escaping(): Engine { (r: Request) => Response(true, if r.kind == N then [37, 52, 49] else [98], []) }

  /** With one request of each kind and this engine, the URL depends on the cache. */
  lemma CacheShows(url: Text)
    requires url != []
    ensures var fmt := Format(url, [], [Request(N, []), Request(SIG, [])]);
            Settable(Escaping(), fmt, url) && !Transparent(Escaping(), fmt)
  {
    hide Transparent, NothingToDecode, Lasting;
    var a, b := Request(N, []), Request(SIG, []);
    var fmt := Format(url, [], [a, b]);
    DefaultNamesLast(fmt, url);
    assert N != SIG && N != SIGNATURE;
    var v: Text := [37, 52, 49];
    assert !NothingToDecode(v) by {
      StableMeaning(v);
      assert Escaped(v) && DecodeOnce(v)[0] == 65;
    }
    assert a in fmt.requests && b in fmt.requests;
    assert !OrderFree(fmt, SolutionOf(Escaping(), a), SolutionOf(Escaping(), b));
    TransparentExactly(Escaping(), fmt);
  }
}
