/**
 The interceptor chain and its panic isolation: server/interceptors.go and newGRPCServer in
 server/standard/server.go.

 A user interceptor is a strategy: it finishes, or calls the next handler and goes on with what that
 returned. It reaches shared state only through its own part of the world, so the panic counter, which is
 private to the package, is out of its hands.
 */
module Interceptors {
  import opened Codes
  import opened Common

  /** How a call ends; a panic value is its printed form. */
  datatype Outcome<R> = Returned(result: R) | Panicked(value: string)

  /** S is user state, Q a request with its context, R what a handler returns. */
  datatype Strategy<!S, !Q, !R> =
    | Finish(outcome: Outcome<R>, state: S)
    | CallNext(req: Q, state: S, rank: ORDINAL, resume: (Outcome<R>, S) -> Strategy<S, Q, R>)
  {
    ghost function Rank(): ORDINAL { if Finish? then 0 else rank }
  }

  /** Calls to next come to an end, whatever they return. */
  ghost predicate Terminates<S(!new), Q(!new), R(!new)>(p: Strategy<S, Q, R>)
    decreases p.Rank()
  {
    p.CallNext? ==>
      forall o, s :: p.resume(o, s).Rank() < p.Rank() && Terminates(p.resume(o, s))
  }

  /** `panics` logs the panics that arrive at an observation point; see Observe. */
  datatype World<S> = World(user: S, recovered: multiset<string>, panics: seq<string>)

  type Handler<!S, !Q, !R> = (Q, World<S>) -> (Outcome<R>, World<S>)

  type Interceptor<!S, !Q, !R> = (Q, S) -> Strategy<S, Q, R>

  ghost predicate Proper<S(!new), Q(!new), R(!new)>(i: Interceptor<S, Q, R>) {
    forall q, s :: Terminates(i(q, s))
  }

  ghost function Exec<S(!new), Q(!new), R(!new)>(
    p: Strategy<S, Q, R>, next: Handler<S, Q, R>, w: World<S>): (Outcome<R>, World<S>)
    requires Terminates(p)
    decreases p.Rank()
  {
    match p
    case Finish(o, s) => (o, w.(user := s))
    case CallNext(q, s, _, resume) =>
      var (o, w') := next(q, w.(user := s));
      Exec(resume(o, w'.user), next, w')
  }

  ghost function Apply<S(!new), Q(!new), R(!new)>(i: Interceptor<S, Q, R>, next: Handler<S, Q, R>): Handler<S, Q, R>
    requires Proper(i)
  {
    (q: Q, w: World<S>) => Exec(i(q, w.user), next, w)
  }

  /** The deferred recover: a panic becomes the given result, and the fullMethods counter goes up by one. */
  ghost function Isolate<S(!new), Q(!new), R(!new)>(
    fullMethod: string, recovery: string -> R, next: Handler<S, Q, R>): Handler<S, Q, R>
  {
    (q: Q, w: World<S>) =>
      var (o, w') := next(q, w);
      match o
      case Returned(_) => (o, w')
      case Panicked(v) => (Returned(recovery(v)), w'.(recovered := w'.recovered + multiset{fullMethod}))
  }

  /** One call to next inside an interceptor: the strategy and the world before it. */
  datatype Moment<!S, !Q, !R> = Moment(strategy: Strategy<S, Q, R>, world: World<S>)

  /** The interceptor's own steps: each moment calls next and goes on with what that returned. */
  ghost predicate IsTrace<S(!new), Q(!new), R(!new)>(trace: seq<Moment<S, Q, R>>, next: Handler<S, Q, R>) {
    && trace != []
    && forall k :: 0 <= k < |trace| - 1 ==>
         trace[k].strategy.CallNext? &&
         var (o, w') := next(trace[k].strategy.req, trace[k].world.(user := trace[k].strategy.state));
         trace[k + 1] == Moment(trace[k].strategy.resume(o, w'.user), w')
  }

  /** The trace ends in r: the last strategy finishes with r's outcome and user state, and r's world is its own. */
  ghost predicate EndsIn<S(!new), Q(!new), R(!new)>(trace: seq<Moment<S, Q, R>>, r: (Outcome<R>, World<S>))
    requires trace != []
  {
    var last := trace[|trace| - 1];
    last.strategy.Finish? && r == (last.strategy.outcome, last.world.(user := last.strategy.state))
  }

  lemma {:induction false} ExecTrace<S(!new), Q(!new), R(!new)>(
    p: Strategy<S, Q, R>, next: Handler<S, Q, R>, w: World<S>) returns (trace: seq<Moment<S, Q, R>>)
    requires Terminates(p)
    ensures IsTrace(trace, next) && trace[0] == Moment(p, w) && EndsIn(trace, Exec(p, next, w))
    decreases p.Rank()
  {
    if p.Finish? {
      trace := [Moment(p, w)];
    } else {
      var (o, w') := next(p.req, w.(user := p.state));
      var rest := ExecTrace(p.resume(o, w'.user), next, w');
      trace := [Moment(p, w)] + rest;
      assert forall k :: 0 < k < |trace| ==> trace[k] == rest[k - 1];
      assert trace[|trace| - 1] == rest[|rest| - 1];
    }
  }

  lemma {:induction false} TraceIsUnique<S(!new), Q(!new), R(!new)>(
    a: seq<Moment<S, Q, R>>, b: seq<Moment<S, Q, R>>, next: Handler<S, Q, R>, k: nat)
    requires IsTrace(a, next) && IsTrace(b, next) && a[0] == b[0] && k < |a| && k < |b|
    ensures a[k] == b[k]
  {
    if k > 0 {
      TraceIsUnique(a, b, next, k - 1);
    }
  }

  /**
   What an interceptor does around any handler, step by step: it ends in r exactly when a trace of its calls
   to next, each resumed with what next returned in the world next left, ends in r.
   */
  lemma ApplyIff<S(!new), Q(!new), R(!new)>(
    i: Interceptor<S, Q, R>, next: Handler<S, Q, R>, q: Q, w: World<S>, r: (Outcome<R>, World<S>))
    requires Proper(i)
    ensures Apply(i, next)(q, w) == r <==>
            exists trace: seq<Moment<S, Q, R>> ::
              IsTrace(trace, next) && trace[0] == Moment(i(q, w.user), w) && EndsIn(trace, r)
  {
    var own := ExecTrace(i(q, w.user), next, w);
    forall trace: seq<Moment<S, Q, R>>
      | IsTrace(trace, next) && trace[0] == Moment(i(q, w.user), w) && EndsIn(trace, r)
      ensures r == Apply(i, next)(q, w)
    {
      var k := if |own| < |trace| then |own| - 1 else |trace| - 1;
      TraceIsUnique(own, trace, next, k);
      assert own[k].strategy == trace[k].strategy;
    }
  }

  // ----- the two instances -----

  datatype UnaryResult<Resp> = UnaryResult(resp: Option<Resp>, err: Option<Status>)

  function UnaryRecovery<Resp>(v: string): UnaryResult<Resp> {
    UnaryResult(None, Some(Status(INTERNAL, "internal server error: " + v)))
  }

  function StreamRecovery(v: string): Option<Status> {
    Some(Status(INTERNAL, "internal server error: " + v))
  }

  // ----- the list newGRPCServer builds, and what grpc_middleware makes of it -----

  datatype Link<!S, !Q, !R> = Isolation | User(i: Interceptor<S, Q, R>)

  function Users<S, Q, R>(list: seq<Interceptor<S, Q, R>>): seq<Link<S, Q, R>> {
    seq(|list|, k requires 0 <= k < |list| => User(list[k]))
  }

  /** The appends in order: pre, isolation, the standard interceptors, the log one, post. */
  method BuildChain<S, Q, R>(
    pre: seq<Interceptor<S, Q, R>>, std: seq<Interceptor<S, Q, R>>, log: Interceptor<S, Q, R>,
    post: seq<Interceptor<S, Q, R>>) returns (chain: seq<Link<S, Q, R>>)
    ensures chain == Users(pre) + [Isolation] + Users(std + [log] + post)
  {
    chain := [];
    if |pre| > 0 {
      chain := chain + Users(pre);
    }
    chain := chain + [Isolation];
    chain := chain + Users(std);
    chain := chain + [User(log)];
    if |post| > 0 {
      chain := chain + Users(post);
    }
    assert Users(std + [log] + post) == Users(std) + [User(log)] + Users(post);
  }

  ghost predicate AllProper<S(!new), Q(!new), R(!new)>(list: seq<Interceptor<S, Q, R>>) {
    forall k :: 0 <= k < |list| ==> Proper(list[k])
  }

  ghost predicate ProperChain<S(!new), Q(!new), R(!new)>(chain: seq<Link<S, Q, R>>) {
    forall k :: 0 <= k < |chain| && chain[k].User? ==> Proper(chain[k].i)
  }

  /** The first interceptor runs outermost. */
  ghost function Compose<S(!new), Q(!new), R(!new)>(
    chain: seq<Link<S, Q, R>>, fullMethod: string, recovery: string -> R, handler: Handler<S, Q, R>): Handler<S, Q, R>
    requires ProperChain(chain)
  {
    if chain == [] then handler
    else
      var rest := Compose(chain[1..], fullMethod, recovery, handler);
      match chain[0]
      case Isolation => Isolate(fullMethod, recovery, rest)
      case User(i) => Apply(i, rest)
  }

  /** Interceptors alone, around a handler. */
  ghost function Around<S(!new), Q(!new), R(!new)>(
    list: seq<Interceptor<S, Q, R>>, handler: Handler<S, Q, R>): Handler<S, Q, R>
    requires AllProper(list)
  {
    if list == [] then handler else Apply(list[0], Around(list[1..], handler))
  }

  lemma {:induction false} ComposeUsers<S(!new), Q(!new), R(!new)>(
    list: seq<Interceptor<S, Q, R>>, tail: seq<Link<S, Q, R>>,
    fullMethod: string, recovery: string -> R, handler: Handler<S, Q, R>)
    requires AllProper(list) && ProperChain(tail)
    ensures ProperChain(Users(list) + tail)
    ensures Compose(Users(list) + tail, fullMethod, recovery, handler)
         == Around(list, Compose(tail, fullMethod, recovery, handler))
  {
    if list == [] {
      assert Users(list) + tail == tail;
    } else {
      assert (Users(list) + tail)[1..] == Users(list[1..]) + tail;
      ComposeUsers(list[1..], tail, fullMethod, recovery, handler);
    }
  }

  /** Chain meaning: the pre interceptors around the isolation around all the rest. */
  lemma ChainMeaning<S(!new), Q(!new), R(!new)>(
    pre: seq<Interceptor<S, Q, R>>, rest: seq<Interceptor<S, Q, R>>,
    fullMethod: string, recovery: string -> R, handler: Handler<S, Q, R>)
    requires AllProper(pre) && AllProper(rest)
    ensures var chain := Users(pre) + [Isolation] + Users(rest);
            ProperChain(chain) &&
            Compose(chain, fullMethod, recovery, handler)
            == Around(pre, Isolate(fullMethod, recovery, Around(rest, handler)))
  {
    ComposeUsers(rest, [], fullMethod, recovery, handler);
    assert Users(rest) + [] == Users(rest);
    var tail := [Isolation] + Users(rest);
    assert tail[1..] == Users(rest);
    ComposeUsers(pre, tail, fullMethod, recovery, handler);
    assert Users(pre) + [Isolation] + Users(rest) == Users(pre) + tail;
  }

  /** What the pre interceptors see of an inner panic: the Internal error, with no response, counted once. */
  lemma PanicBecomesInternal<S(!new), Q(!new), Resp(!new)>(
    rest: seq<Interceptor<S, Q, UnaryResult<Resp>>>, restS: seq<Interceptor<S, Q, Option<Status>>>, fullMethod: string,
    h: Handler<S, Q, UnaryResult<Resp>>, hS: Handler<S, Q, Option<Status>>, q: Q, w: World<S>, w': World<S>, v: string)
    requires AllProper(rest) && AllProper(restS)
    ensures var unary := [Isolation] + Users(rest);
            ProperChain(unary) &&
            (Around(rest, h)(q, w) == (Panicked(v), w') ==>
               Compose(unary, fullMethod, UnaryRecovery, h)(q, w)
               == (Returned(UnaryResult(None, Some(Status(INTERNAL, "internal server error: " + v)))),
                   w'.(recovered := w'.recovered + multiset{fullMethod})))
    ensures var stream := [Isolation] + Users(restS);
            ProperChain(stream) &&
            (Around(restS, hS)(q, w) == (Panicked(v), w') ==>
               Compose(stream, fullMethod, StreamRecovery, hS)(q, w)
               == (Returned(Some(Status(INTERNAL, "internal server error: " + v))),
                   w'.(recovered := w'.recovered + multiset{fullMethod})))
  {
    ChainMeaning([], rest, fullMethod, UnaryRecovery, h);
    ChainMeaning([], restS, fullMethod, StreamRecovery, hS);
    assert Users<S, Q, UnaryResult<Resp>>([]) + [Isolation] + Users(rest) == [Isolation] + Users(rest);
    assert Users<S, Q, Option<Status>>([]) + [Isolation] + Users(restS) == [Isolation] + Users(restS);
  }

  // ----- no panic leaves the chain -----

  /** Does not panic when what it calls does not. */
  ghost predicate Careful<S(!new), Q(!new), R(!new)>(p: Strategy<S, Q, R>)
    requires Terminates(p)
    decreases p.Rank()
  {
    match p
    case Finish(o, _) => o.Returned?
    case CallNext(_, _, _, resume) => forall o: Outcome<R>, s: S :: o.Returned? ==> Careful(resume(o, s))
  }

  ghost predicate Safe<S(!new), Q(!new), R(!new)>(h: Handler<S, Q, R>) {
    forall q: Q, w: World<S> :: h(q, w).0.Returned?
  }

  lemma {:induction false} ExecSafe<S(!new), Q(!new), R(!new)>(
    p: Strategy<S, Q, R>, next: Handler<S, Q, R>, w: World<S>)
    requires Terminates(p) && Careful(p) && Safe(next)
    ensures Exec(p, next, w).0.Returned?
    decreases p.Rank()
  {
    if p.CallNext? {
      var (o, w') := next(p.req, w.(user := p.state));
      ExecSafe(p.resume(o, w'.user), next, w');
    }
  }

  lemma {:induction false} AroundSafe<S(!new), Q(!new), R(!new)>(
    list: seq<Interceptor<S, Q, R>>, h: Handler<S, Q, R>)
    requires AllProper(list) && Safe(h)
    requires forall k, q, s :: 0 <= k < |list| ==> Careful(list[k](q, s))
    ensures Safe(Around(list, h))
  {
    if list != [] {
      var rest := Around(list[1..], h);
      AroundSafe(list[1..], h);
      forall q: Q, w: World<S> ensures Around(list, h)(q, w).0.Returned? {
        ExecSafe(list[0](q, w.user), rest, w);
      }
    }
  }

  /** With careful pre interceptors no request panics out of the chain, whatever handler and rest do. */
  lemma ChainNeverPanics<S(!new), Q(!new), R(!new)>(
    pre: seq<Interceptor<S, Q, R>>, rest: seq<Interceptor<S, Q, R>>,
    fullMethod: string, recovery: string -> R, handler: Handler<S, Q, R>)
    requires AllProper(pre) && AllProper(rest)
    requires forall k, q, s :: 0 <= k < |pre| ==> Careful(pre[k](q, s))
    ensures var chain := Users(pre) + [Isolation] + Users(rest);
            ProperChain(chain) && Safe(Compose(chain, fullMethod, recovery, handler))
  {
    ChainMeaning(pre, rest, fullMethod, recovery, handler);
    AroundSafe(pre, Isolate(fullMethod, recovery, Around(rest, handler)));
  }

  // ----- accounting -----

  /** Watches a handler from outside: logs its panics, changes nothing else. */
  ghost function Observe<S(!new), Q(!new), R(!new)>(h: Handler<S, Q, R>): Handler<S, Q, R> {
    (q: Q, w: World<S>) =>
      var (o, w') := h(q, w);
      (o, w'.(panics := w'.panics + if o.Panicked? then [o.value] else []))
  }

  /** A user handler: it has its own state only. */
  ghost function Lift<S(!new), Q(!new), R(!new)>(h: (Q, S) -> (Outcome<R>, S)): Handler<S, Q, R> {
    (q: Q, w: World<S>) => var (o, s) := h(q, w.user); (o, w.(user := s))
  }

  /** A preorder on worlds that user state has no part in. */
  ghost predicate Stable<S(!new)>(rel: (World<S>, World<S>) -> bool) {
    && (forall w: World<S>, s: S :: rel(w, w.(user := s)))
    && (forall a: World<S>, b: World<S>, c: World<S> :: rel(a, b) && rel(b, c) ==> rel(a, c))
  }

  ghost predicate Keeps<S(!new), Q(!new), R(!new)>(h: Handler<S, Q, R>, rel: (World<S>, World<S>) -> bool) {
    forall q: Q, w: World<S> :: rel(w, h(q, w).1)
  }

  lemma {:induction false} ExecKeeps<S(!new), Q(!new), R(!new)>(
    p: Strategy<S, Q, R>, next: Handler<S, Q, R>, w: World<S>, rel: (World<S>, World<S>) -> bool)
    requires Terminates(p) && Stable(rel) && Keeps(next, rel)
    ensures rel(w, Exec(p, next, w).1)
    decreases p.Rank()
  {
    if p.CallNext? {
      var w0 := w.(user := p.state);
      var (o, w') := next(p.req, w0);
      assert rel(w, w0) && rel(w0, w');
      ExecKeeps(p.resume(o, w'.user), next, w', rel);
    }
  }

  /** Interceptors reach the books only through what they call. */
  lemma {:induction false} AroundKeeps<S(!new), Q(!new), R(!new)>(
    list: seq<Interceptor<S, Q, R>>, h: Handler<S, Q, R>, rel: (World<S>, World<S>) -> bool)
    requires AllProper(list) && Stable(rel) && Keeps(h, rel)
    ensures Keeps(Around(list, h), rel)
  {
    if list != [] {
      var rest := Around(list[1..], h);
      AroundKeeps(list[1..], h, rel);
      forall q: Q, w: World<S> ensures rel(w, Around(list, h)(q, w).1) {
        ExecKeeps(list[0](q, w.user), rest, w, rel);
      }
    }
  }

  /** Touches neither the counter nor the observations. */
  ghost predicate SameBooks<S>(w: World<S>, w': World<S>) {
    w'.recovered == w.recovered && w'.panics == w.panics
  }

  /** n more panics were observed and n more recoveries counted, all on this method. */
  ghost predicate Accounts<S>(w: World<S>, w': World<S>, fullMethod: string) {
    && w.panics <= w'.panics
    && w'.recovered == w.recovered[fullMethod := w.recovered[fullMethod] + (|w'.panics| - |w.panics|)]
  }

  ghost predicate Balanced<S(!new), Q(!new), R(!new)>(h: Handler<S, Q, R>, fullMethod: string) {
    forall q: Q, w: World<S> :: Accounts(w, h(q, w).1, fullMethod)
  }

  /** The chain with an observation point just inside the isolation. */
  ghost function Observed<S(!new), Q(!new), R(!new)>(
    pre: seq<Interceptor<S, Q, R>>, rest: seq<Interceptor<S, Q, R>>,
    fullMethod: string, recovery: string -> R, handler: (Q, S) -> (Outcome<R>, S)): Handler<S, Q, R>
    requires AllProper(pre) && AllProper(rest)
  {
    Around(pre, Isolate(fullMethod, recovery, Observe(Around(rest, Lift(handler)))))
  }

  /** Exactly one recovery is counted for every panic that reaches the isolation, on the request's method. */
  lemma OneRecoveryPerPanic<S(!new), Q(!new), R(!new)>(
    pre: seq<Interceptor<S, Q, R>>, rest: seq<Interceptor<S, Q, R>>,
    fullMethod: string, recovery: string -> R, handler: (Q, S) -> (Outcome<R>, S))
    requires AllProper(pre) && AllProper(rest)
    ensures Balanced(Observed(pre, rest, fullMethod, recovery, handler), fullMethod)
  {
    var inner := Around(rest, Lift(handler));
    AroundKeeps(rest, Lift(handler), (w: World<S>, w': World<S>) => SameBooks(w, w'));
    var isolated := Isolate(fullMethod, recovery, Observe(inner));
    forall q: Q, w: World<S> ensures Accounts(w, isolated(q, w).1, fullMethod) {
      assert SameBooks(w, inner(q, w).1);
    }
    AroundKeeps(pre, isolated, (w: World<S>, w': World<S>) => Accounts(w, w', fullMethod));
  }

  /** h, seen without the observations, is g. */
  ghost predicate SameButLog<S(!new), Q(!new), R(!new)>(h: Handler<S, Q, R>, g: Handler<S, Q, R>) {
    forall q: Q, w: World<S>, log: seq<string> ::
      var (o, w1) := h(q, w.(panics := log));
      var (o', w2) := g(q, w);
      o == o' && w1.user == w2.user && w1.recovered == w2.recovered
  }

  lemma {:induction false} ExecSame<S(!new), Q(!new), R(!new)>(
    p: Strategy<S, Q, R>, h: Handler<S, Q, R>, g: Handler<S, Q, R>, w: World<S>, log: seq<string>)
    requires Terminates(p) && SameButLog(h, g)
    ensures var (o, w1) := Exec(p, h, w.(panics := log));
            var (o', w2) := Exec(p, g, w);
            o == o' && w1.user == w2.user && w1.recovered == w2.recovered
    decreases p.Rank()
  {
    if p.CallNext? {
      var (o, w1) := h(p.req, w.(user := p.state).(panics := log));
      var (o', w2) := g(p.req, w.(user := p.state));
      assert o == o' && w1 == w2.(panics := w1.panics);
      assert w.(panics := log).(user := p.state) == w.(user := p.state).(panics := log);
      ExecSame(p.resume(o, w2.user), h, g, w2, w1.panics);
    }
  }

  lemma {:induction false} AroundSame<S(!new), Q(!new), R(!new)>(
    list: seq<Interceptor<S, Q, R>>, h: Handler<S, Q, R>, g: Handler<S, Q, R>)
    requires AllProper(list) && SameButLog(h, g)
    ensures SameButLog(Around(list, h), Around(list, g))
  {
    if list != [] {
      AroundSame(list[1..], h, g);
      var (h', g') := (Around(list[1..], h), Around(list[1..], g));
      forall q: Q, w: World<S>, log: seq<string>
        ensures var (o, w1) := Around(list, h)(q, w.(panics := log));
                var (o', w2) := Around(list, g)(q, w);
                o == o' && w1.user == w2.user && w1.recovered == w2.recovered
      {
        ExecSame(list[0](q, w.user), h', g', w, log);
      }
    }
  }

  lemma LiftIgnoresLog<S(!new), Q(!new), R(!new)>(handler: (Q, S) -> (Outcome<R>, S))
    ensures SameButLog(Lift(handler), Lift(handler))
  {
    var f := Lift(handler);
    forall q: Q, w: World<S>, log: seq<string>
      ensures var (o, w1) := f(q, w.(panics := log));
              var (o', w2) := f(q, w);
              o == o' && w1.user == w2.user && w1.recovered == w2.recovered
    {
    }
  }

  /** The observation point changes nothing but its own log: the observed chain is the real one. */
  lemma ObservedIsTheChain<S(!new), Q(!new), R(!new)>(
    pre: seq<Interceptor<S, Q, R>>, rest: seq<Interceptor<S, Q, R>>,
    fullMethod: string, recovery: string -> R, handler: (Q, S) -> (Outcome<R>, S))
    requires AllProper(pre) && AllProper(rest)
    ensures var chain := Users(pre) + [Isolation] + Users(rest);
            ProperChain(chain) &&
            SameButLog(Observed(pre, rest, fullMethod, recovery, handler),
                         Compose(chain, fullMethod, recovery, Lift(handler)))
  {
    ChainMeaning(pre, rest, fullMethod, recovery, Lift(handler));
    var f := Lift(handler);
    LiftIgnoresLog(handler);
    AroundSame(rest, f, f);
    var g := Around(rest, f);
    AroundSame(pre, Isolate(fullMethod, recovery, Observe(g)), Isolate(fullMethod, recovery, g));
  }

  // ----- a panic outside the isolation -----

  /** Ends with the panic of whatever it calls. */
  ghost predicate PassesPanics<S(!new), Q(!new), R(!new)>(p: Strategy<S, Q, R>)
    requires Terminates(p)
    decreases p.Rank()
  {
    p.CallNext? ==>
      forall o: Outcome<R>, s: S ::
        PassesPanics(p.resume(o, s)) && (o.Panicked? ==> p.resume(o, s).Finish? && p.resume(o, s).outcome == o)
  }

  /** At most one panic is observed, and then it is how the call ends. */
  ghost predicate Surfaced<S, R>(w: World<S>, r: (Outcome<R>, World<S>)) {
    r.1.panics == w.panics || (r.0.Panicked? && r.1.panics == w.panics + [r.0.value])
  }

  ghost predicate Surfaces<S(!new), Q(!new), R(!new)>(h: Handler<S, Q, R>) {
    forall q: Q, w: World<S> :: Surfaced(w, h(q, w))
  }

  lemma {:induction false} ExecSurfaces<S(!new), Q(!new), R(!new)>(
    p: Strategy<S, Q, R>, next: Handler<S, Q, R>, w: World<S>)
    requires Terminates(p) && PassesPanics(p) && Surfaces(next)
    ensures Surfaced(w, Exec(p, next, w))
    decreases p.Rank()
  {
    if p.CallNext? {
      var w0 := w.(user := p.state);
      var (o, w') := next(p.req, w0);
      assert Surfaced(w0, next(p.req, w0)) && PassesPanics(p.resume(o, w'.user));
      if w'.panics == w0.panics {
        ExecSurfaces(p.resume(o, w'.user), next, w');
      }
    }
  }

  lemma {:induction false} AroundSurfaces<S(!new), Q(!new), R(!new)>(
    list: seq<Interceptor<S, Q, R>>, h: Handler<S, Q, R>)
    requires AllProper(list) && Surfaces(h)
    requires forall k, q, s :: 0 <= k < |list| ==> PassesPanics(list[k](q, s))
    ensures Surfaces(Around(list, h))
  {
    if list != [] {
      var rest := Around(list[1..], h);
      AroundSurfaces(list[1..], h);
      forall q: Q, w: World<S> ensures Surfaced(w, Around(list, h)(q, w)) {
        ExecSurfaces(list[0](q, w.user), rest, w);
      }
    }
  }

  /** The chain with an observation point just inside its first pre interceptors, `outer`. */
  ghost function ObservedOutside<S(!new), Q(!new), R(!new)>(
    outer: seq<Interceptor<S, Q, R>>, inner: seq<Interceptor<S, Q, R>>, rest: seq<Interceptor<S, Q, R>>,
    fullMethod: string, recovery: string -> R, handler: (Q, S) -> (Outcome<R>, S)): Handler<S, Q, R>
    requires AllProper(outer) && AllProper(inner) && AllProper(rest)
  {
    Around(outer, Observe(Around(inner, Isolate(fullMethod, recovery, Around(rest, Lift(handler))))))
  }

  /**
   Isolation does not reach outwards. When any pre interceptor panics, at any point of its work, and
   those outside it pass panics on, the request ends with that very panic. `inner` starts with the one
   that panics; the observed chain is the real one.
   */
  lemma PrePanicEscapes<S(!new), Q(!new), R(!new)>(
    outer: seq<Interceptor<S, Q, R>>, inner: seq<Interceptor<S, Q, R>>, rest: seq<Interceptor<S, Q, R>>,
    fullMethod: string, recovery: string -> R, handler: (Q, S) -> (Outcome<R>, S))
    requires AllProper(outer) && AllProper(inner) && AllProper(rest)
    requires forall k, q, s :: 0 <= k < |outer| ==> PassesPanics(outer[k](q, s))
    ensures Surfaces(ObservedOutside(outer, inner, rest, fullMethod, recovery, handler))
    ensures var chain := Users(outer + inner) + [Isolation] + Users(rest);
            ProperChain(chain) &&
            SameButLog(ObservedOutside(outer, inner, rest, fullMethod, recovery, handler),
                       Compose(chain, fullMethod, recovery, Lift(handler)))
  {
    var core := Around(rest, Lift(handler));
    var isolated := Isolate(fullMethod, recovery, core);
    var g := Around(inner, isolated);
    var sameLog := (w: World<S>, w': World<S>) => w'.panics == w.panics;
    AroundKeeps(rest, Lift(handler), sameLog);
    assert Keeps(isolated, sameLog) by {
      forall q: Q, w: World<S> ensures sameLog(w, isolated(q, w).1) {
        assert sameLog(w, core(q, w).1);
      }
    }
    AroundKeeps(inner, isolated, sameLog);
    forall q: Q, w: World<S> ensures Surfaced(w, Observe(g)(q, w)) {
      assert sameLog(w, g(q, w).1);
    }
    AroundSurfaces(outer, Observe(g));

    LiftIgnoresLog(handler);
    AroundSame(rest, Lift(handler), Lift(handler));
    AroundSame(inner, isolated, isolated);
    AroundSame(outer, Observe(g), g);
    AroundConcat(outer, inner, isolated);
    ChainMeaning(outer + inner, rest, fullMethod, recovery, Lift(handler));
  }

  /** Before the first call to next: the outermost interceptor's panic leaves the chain, and nothing is counted. */
  lemma OutermostPanicEscapes<S(!new), Q(!new), R(!new)>(
    pre: seq<Interceptor<S, Q, R>>, rest: seq<Interceptor<S, Q, R>>, fullMethod: string, recovery: string -> R,
    handler: Handler<S, Q, R>, q: Q, w: World<S>, v: string, s: S)
    requires AllProper(pre) && AllProper(rest)
    requires pre != [] && pre[0](q, w.user) == Finish(Panicked(v), s)
    ensures var chain := Users(pre) + [Isolation] + Users(rest);
            ProperChain(chain) && Compose(chain, fullMethod, recovery, handler)(q, w) == (Panicked(v), w.(user := s))
  {
    ChainMeaning(pre, rest, fullMethod, recovery, handler);
  }

  // ----- isolation is invisible without panics -----

  /** Same outcome and state as g on every request during which h observes no panic. */
  ghost predicate AgreesUnlessPanic<S(!new), Q(!new), R(!new)>(h: Handler<S, Q, R>, g: Handler<S, Q, R>) {
    forall q: Q, w: World<S> :: w.panics <= h(q, w).1.panics && (h(q, w).1.panics == w.panics ==> h(q, w) == g(q, w))
  }

  lemma {:induction false} ExecAgrees<S(!new), Q(!new), R(!new)>(
    p: Strategy<S, Q, R>, h: Handler<S, Q, R>, g: Handler<S, Q, R>, w: World<S>)
    requires Terminates(p) && AgreesUnlessPanic(h, g)
    ensures w.panics <= Exec(p, h, w).1.panics
    ensures Exec(p, h, w).1.panics == w.panics ==> Exec(p, h, w) == Exec(p, g, w)
    decreases p.Rank()
  {
    if p.CallNext? {
      var w0 := w.(user := p.state);
      var (o, w') := h(p.req, w0);
      assert w0.panics <= w'.panics && (w'.panics == w0.panics ==> h(p.req, w0) == g(p.req, w0));
      ExecAgrees(p.resume(o, w'.user), h, g, w');
    }
  }

  lemma {:induction false} AroundAgrees<S(!new), Q(!new), R(!new)>(
    list: seq<Interceptor<S, Q, R>>, h: Handler<S, Q, R>, g: Handler<S, Q, R>)
    requires AllProper(list) && AgreesUnlessPanic(h, g)
    ensures AgreesUnlessPanic(Around(list, h), Around(list, g))
  {
    if list != [] {
      AroundAgrees(list[1..], h, g);
      var (h', g') := (Around(list[1..], h), Around(list[1..], g));
      forall q: Q, w: World<S>
        ensures w.panics <= Around(list, h)(q, w).1.panics
        ensures Around(list, h)(q, w).1.panics == w.panics ==> Around(list, h)(q, w) == Around(list, g)(q, w)
      {
        ExecAgrees(list[0](q, w.user), h', g', w);
      }
    }
  }

  /** On every request whose inner part does not panic, the chain does what it would without isolation. */
  lemma IsolationIsTransparent<S(!new), Q(!new), R(!new)>(
    pre: seq<Interceptor<S, Q, R>>, rest: seq<Interceptor<S, Q, R>>,
    fullMethod: string, recovery: string -> R, handler: (Q, S) -> (Outcome<R>, S))
    requires AllProper(pre) && AllProper(rest)
    ensures AllProper(pre + rest)
    ensures AgreesUnlessPanic(Observed(pre, rest, fullMethod, recovery, handler), Around(pre + rest, Lift(handler)))
  {
    var inner := Around(rest, Lift(handler));
    AroundKeeps(rest, Lift(handler), (w: World<S>, w': World<S>) => SameBooks(w, w'));
    forall q: Q, w: World<S>
      ensures var r := Isolate(fullMethod, recovery, Observe(inner))(q, w);
              w.panics <= r.1.panics && (r.1.panics == w.panics ==> r == inner(q, w))
    {
      assert SameBooks(w, inner(q, w).1);
    }
    AroundAgrees(pre, Isolate(fullMethod, recovery, Observe(inner)), inner);
    AroundConcat(pre, rest, Lift(handler));
  }

  lemma {:induction false} AroundConcat<S(!new), Q(!new), R(!new)>(
    a: seq<Interceptor<S, Q, R>>, b: seq<Interceptor<S, Q, R>>, h: Handler<S, Q, R>)
    requires AllProper(a) && AllProper(b)
    ensures AllProper(a + b) && Around(a + b, h) == Around(a, Around(b, h))
  {
    if a == [] {
      assert a + b == b;
    } else {
      assert (a + b)[1..] == a[1..] + b;
      AroundConcat(a[1..], b, h);
    }
  }
}
