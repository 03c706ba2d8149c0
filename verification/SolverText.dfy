/** The texts that solve_format_url gives back, written out: the URL with its parameters, and the errors. */
module SolverTexts {
  import opened Bytes
  import opened Wrappers
  import opened UrlQueries
  import opened UrlTexts
  import opened SolverCaches

  /** The kinds of requests, and the parameters that their solutions are for. */
  lemma Names(fmt: Format)
    ensures N == TextOf("n") && SIG == TextOf("sig") && ParamName(fmt, N) == TextOf("n")
    ensures fmt.sp == [] ==> ParamName(fmt, SIG) == TextOf("signature")
    ensures fmt.sp != [] ==> ParamName(fmt, SIG) == fmt.sp
    ensures Harmless(N) && Harmless(SIGNATURE)
  {
    assert Harmless(N) by { SmallIs(110); }
    forall i | 0 <= i < |SIGNATURE| ensures InText(SIGNATURE[i], UNRESERVED) {
      SmallIs(SIGNATURE[i]);
    }
  }

  /** The URL with both parameters. */
  function WithBoth(base: Text, v: Text, w: Text): Text {
    base + TextOf("?n=") + v + TextOf("&signature=") + w
  }

  /**
   One request of each kind that are solved with unreserved characters, for a URL without a query: whatever a consistent
   cache knows, ?n= and &signature= are appended with the solutions.
   */
  lemma SolvedUrl(engine: Engine, base: Text, x: Request, y: Request, c: CacheState)
    requires x.kind == TextOf("n") && y.kind == TextOf("sig") && base != [] && '?' as int !in base && Consistent(engine, c)
    requires engine(x).ok && engine(y).ok && Harmless(engine(x).data) && Harmless(engine(y).data)
    ensures Outcome(engine, Format(base, [], [x, y]), c).decodedUrl == WithBoth(base, engine(x).data, engine(y).data)
  {
    hide SetParam, Consistent, Outcome, Harmless, UNRESERVED, Direct, Settable, Independent, TextOf, WithBoth;
    var fmt := Format(base, [], [x, y]);
    Names(fmt);
    TwoIndependent(engine, fmt, x, y);
    CacheIsTransparent(engine, fmt, c);
    TwoInOrder(engine, fmt, x, y);
    BothSet(base, engine(x).data, engine(y).data);
  }

  lemma TwoIndependent(engine: Engine, fmt: Format, x: Request, y: Request)
    requires fmt.sp == [] && fmt.requests == [x, y] && x.kind == N && y.kind == SIG
    requires engine(x).ok && engine(y).ok && Harmless(engine(x).data) && Harmless(engine(y).data)
    ensures Independent(engine, fmt) && Settable(engine, fmt, fmt.url)
  {
    hide Harmless, NothingToDecode, Stable, Lasting, UNRESERVED;
    HarmlessIsStable(engine(x).data);
    HarmlessIsStable(engine(y).data);
    StableMeaning(engine(x).data);
    StableMeaning(engine(y).data);
    DefaultNamesLast(fmt, fmt.url);
  }

  /** The solutions of two requests are put in one after the other. */
  lemma TwoInOrder(engine: Engine, fmt: Format, x: Request, y: Request)
    requires fmt.url != [] && fmt.requests == [x, y] && x.kind == N && y.kind == SIG && engine(x).ok && engine(y).ok
    ensures Direct(engine, fmt) == SetParam(SetParam(fmt.url, N, engine(x).data), SpName(fmt), engine(y).data)
  {
    hide SetParam;
    var a, b := SolutionOf(engine, x), SolutionOf(engine, y);
    assert [x, y][1..] == [y] && [y][1..] == [];
    assert Solutions(engine, [y]) == [b] by { assert Solutions(engine, []) == []; }
    assert Solutions(engine, [x, y]) == [a, b];
    assert [a, b][1..] == [b] && [b][1..] == [];
    assert Rewrite(fmt.url, SpName(fmt), [a, b]) == Rewrite(Applied(fmt.url, SpName(fmt), a), SpName(fmt), [b]);
    assert Rewrite(Applied(fmt.url, SpName(fmt), a), SpName(fmt), [b]) ==
           Rewrite(Applied(Applied(fmt.url, SpName(fmt), a), SpName(fmt), b), SpName(fmt), []);
  }

  lemma BothSet(base: Text, v: Text, w: Text)
    requires '?' as int !in base && Harmless(v) && Harmless(w)
    ensures SetParam(SetParam(base, N, v), SIGNATURE, w) == WithBoth(base, v, w)
  {
    hide SetParam, Harmless, UNRESERVED;
    Names(Format([], [], []));
    SetInBareUrl(base, N, v);
    var ps := [Param(N, v)];
    assert base + ['?' as int] + N + ['=' as int] + v == base + ['?' as int] + Joined(ps) by {
      assert Joined(ps) == N + ['=' as int] + v + [];
      assert base + ['?' as int] + (N + ['=' as int] + v + []) == base + ['?' as int] + N + ['=' as int] + v;
    }
    SetInQuery(base, ps, SIGNATURE, w);
    assert Less(N, SIGNATURE) && !Less(SIGNATURE, N);
    var qs := [Param(SIGNATURE, w)];
    assert ps[1..] == [];
    assert Put(ps, SIGNATURE, w) == ps + qs by { assert Put([], SIGNATURE, w) == qs; }
    assert (ps + qs)[1..] == qs;
    assert Joined(qs) == SIGNATURE + ['=' as int] + w + [];
    assert Joined(ps + qs) == N + ['=' as int] + v + (['&' as int] + Joined(qs));
    assert TextOf("?n=") == ['?' as int] + N + ['=' as int] && TextOf("&signature=") == ['&' as int] + SIGNATURE + ['=' as int];
    Regroup(base, ['?' as int], N, ['=' as int], v, ['&' as int], SIGNATURE, w);
  }

  lemma Regroup(base: Text, q: Text, n: Text, e: Text, v: Text, a: Text, s: Text, w: Text)
    ensures base + q + (n + e + v + (a + (s + e + w + []))) == base + (q + n + e) + v + (a + s + e) + w
  {
  }

  // ----- errors -----

  lemma AsciiIs(s: string)
    requires forall i | 0 <= i < |s| :: s[i] as int < 128
    ensures Ascii(s) == TextOf(s)
  {
  }

  /** Errors with bars between them. */
  ghost predicate Listed(t: Text, errors: seq<Text>)
    decreases |errors|
  {
    if errors == [] then t == []
    else if |errors| == 1 then t == errors[0]
    else exists rest: Text :: Listed(rest, errors[1..]) && t == errors[0] + TextOf(" | ") + rest
  }

  function ErrorsOf(engine: Engine, rs: seq<Request>): seq<Text> {
    if rs == [] then [] else [engine(rs[0]).error] + ErrorsOf(engine, rs[1..])
  }

  lemma {:induction false} ErrorsFollow(engine: Engine, rs: seq<Request>, error: Text)
    requires forall r | r in rs :: !engine(r).ok && engine(r).error != []
    ensures var t := AnsweredErrors(rs, Solve(engine, rs), error);
            if error == [] then Listed(t, ErrorsOf(engine, rs)) else Listed(t, [error] + ErrorsOf(engine, rs))
    decreases |rs|
  {
    if rs == [] {
      assert [error] + [] == [error];
    } else {
      var e, rest := engine(rs[0]).error, rs[1..];
      SolveFirst(engine, rs);
      assert rs[0] in rs && forall r | r in rest :: r in rs;
      ErrorsFollow(engine, rest, AddError(error, e));
      if error != [] {
        AsciiIs(" | ");
        FirstJoins(error, e, AnsweredErrors(rest, Solve(engine, rest), AddError(error, e)), ErrorsOf(engine, rest));
      } else {
        assert AddError([], e) == e;
      }
    }
  }

  /** A list whose first error is two errors with a bar between them. */
  lemma FirstJoins(a: Text, b: Text, t: Text, rest: seq<Text>)
    requires Listed(t, [a + TextOf(" | ") + b] + rest)
    ensures Listed(t, [a] + ([b] + rest))
  {
    var bar := TextOf(" | ");
    assert ([a] + ([b] + rest))[1..] == [b] + rest;
    if rest == [] {
      assert [b] + rest == [b] && Listed(b, [b]);
      assert t == a + bar + b;
    } else {
      assert ([a + bar + b] + rest)[1..] == rest && ([b] + rest)[1..] == rest;
      var u: Text :| Listed(u, rest) && t == (a + bar + b) + bar + u;
      assert Listed(b + bar + u, [b] + rest);
      assert t == a + bar + (b + bar + u);
    }
  }

  /** If the engine fails on every request and nothing is cached, all its errors are given back, with bars between them. */
  lemma AllErrors(engine: Engine, fmt: Format)
    requires fmt.url != [] && fmt.requests != [] && forall r | r in fmt.requests :: !engine(r).ok && engine(r).error != []
    ensures Listed(Outcome(engine, fmt, EMPTY).solverError, ErrorsOf(engine, fmt.requests))
    ensures Outcome(engine, fmt, EMPTY).decodedUrl == fmt.url
  {
    var rs := fmt.requests;
    NothingKnown(rs);
    ErrorsFollow(engine, rs, []);
    NothingSolved(engine, rs);
  }

  lemma {:induction false} NothingKnown(rs: seq<Request>)
    ensures Missing(EMPTY, rs) == rs && KnownReady(EMPTY, rs) == [] && KnownErrors(EMPTY, rs, []) == []
  {
    if rs != [] {
      NothingKnown(rs[1..]);
      assert rs == [rs[0]] + rs[1..];
    }
  }

  lemma {:induction false} NothingSolved(engine: Engine, rs: seq<Request>)
    requires forall r | r in rs :: !engine(r).ok
    ensures AnsweredReady(rs, Solve(engine, rs)) == []
  {
    if rs != [] {
      SolveFirst(engine, rs);
      assert rs[0] in rs && forall r | r in rs[1..] :: r in rs;
      NothingSolved(engine, rs[1..]);
    }
  }

  /** The error for a missing URL. */
  lemma NoUrl(engine: Engine, fmt: Format, c: CacheState)
    requires fmt.url == []
    ensures Outcome(engine, fmt, c).decodedUrl == [] && Outcome(engine, fmt, c).solverError == TextOf("Keine URL vorhanden")
  {
    AsciiIs("Keine URL vorhanden");
  }
}
