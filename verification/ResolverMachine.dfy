/**
 The "betterdns" resolver as a transition system: server/standard/resolver.go.

 One Resolver owns a channel of capacity one; every Build starts a polling loop on that same channel.
 ResolveNow, Close and the loops interleave freely. DNS answers, timers and the choice among ready
 select cases are the environment's.
 */
module ResolverMachine {
  import opened Common
  import opened Addresses
  import opened Target

  // ----- state -----

  datatype Phase =
    | AtHead                 // top of the for loop
    | InSelect(late: bool)   // blocked in the select; late: its timer was armed after cancellation
    | InLookup               // net.LookupIP in flight
    | InBackoff              // sleeping after a failed lookup
    | Returned
    | Panicked

  /** One manageConnections goroutine: its context and variables, what it looked up and told the ClientConn. */
  datatype Loop = Loop(
    target: string,
    cancelled: bool,
    phase: Phase,
    firstTime: bool,
    last: seq<Address>,
    force: bool,
    lookups: seq<string>,          // hosts given to net.LookupIP
    pushed: seq<seq<Address>>)

  datatype System = System(token: bool, loops: seq<Loop>)

  datatype Event =
    | Build(target: string)
    | ResolveNow
    | Close
    | Proceed(i: nat)
    | CtxDone(i: nat)
    | Timer(i: nat)
    | Receive(i: nat)
    | LookupFailed(i: nat)
    | LookupOk(i: nat, ips: seq<string>)
    | WakeUp(i: nat)
  {
    predicate ByLoop() { !Build? && !ResolveNow? && !Close? }
    predicate By(n: nat) { ByLoop() && i == n }
  }

  // ----- one loop -----

  function NewLoop(target: string): Loop {
    Loop(target, false, AtHead, true, [], false, [], [])
  }

  function Port(target: string): string {
    match ParseTarget(target)
    case Ok(hp) => hp.1
    case Err(_) => ""
  }

  function Rendered(ips: seq<string>, port: string): seq<Address> {
    seq(|ips|, k requires 0 <= k < |ips| => Address(ips[k] + ":" + port, ""))
  }

  /** The answer's IPs in the answer's order, each on port p. */
  predicate Carries(payload: seq<Address>, ips: seq<string>, p: string) {
    |payload| == |ips| && forall k :: 0 <= k < |ips| ==> payload[k] == Address(ips[k] + ":" + p, "")
  }

  lemma TargetParses(target: string, h: string, p: string)
    requires Denotes(target, h, p)
    ensures ParseTarget(target) == Ok((h, p)) && Port(target) == p
  {
    ParseTargetIff(target, h, p);
  }

  /**
   An answer is rendered IP by IP on the port the target denotes. An address splits back to the IP and that
   port exactly when the IP has no colon, which is so for every IPv4 answer.
   */
  lemma RenderedSplitsBack(target: string, h: string, p: string, ips: seq<string>, k: nat)
    requires Denotes(target, h, p) && k < |ips| && Bracketless(ips[k])
    ensures Carries(Rendered(ips, Port(target)), ips, p)
    ensures SplitHostPort(Rendered(ips, Port(target))[k].addr) == Ok((ips[k], p)) <==> ':' !in ips[k]
    ensures IsDotted(ips[k]) ==> ':' !in ips[k]
  {
    TargetParses(target, h, p);
    ParsedShape(target, h, p);
    RenderedSplitsBackIff(ips[k], p);
    DottedIff(ips[k]);
    if ':' in ips[k] && IsDotted(ips[k]) {
      IPv4Chars(ips[k], ':');
    }
  }

  /** Rendering on one port keeps apart what differs: equal Addrs mean equal IPs. */
  lemma RenderedBag(a: seq<string>, b: seq<string>, p: string)
    ensures Bag(Rendered(a, p)) == Bag(Rendered(b, p)) <==> multiset(a) == multiset(b)
  {
    forall x: string ensures Bag(Rendered(a, p))[x + ":" + p] == multiset(a)[x] { RenderedCount(a, p, x); }
    forall x: string ensures Bag(Rendered(b, p))[x + ":" + p] == multiset(b)[x] { RenderedCount(b, p, x); }
    if multiset(a) == multiset(b) {
      SameIPsSameBag(a, b, p);
    } else {
      var x :| multiset(a)[x] != multiset(b)[x];
      assert Bag(Rendered(a, p))[x + ":" + p] != Bag(Rendered(b, p))[x + ":" + p];
    }
  }

  lemma RenderedSnoc(a: seq<string>, ip: string, p: string)
    ensures Bag(Rendered(a + [ip], p)) == Bag(Rendered(a, p)) + multiset{ip + ":" + p}
  {
    assert AddrsOf(Rendered(a + [ip], p)) == AddrsOf(Rendered(a, p)) + [ip + ":" + p];
  }

  lemma {:induction false} RenderedCount(a: seq<string>, p: string, x: string)
    ensures Bag(Rendered(a, p))[x + ":" + p] == multiset(a)[x]
  {
    if a != [] {
      var front, ip := a[..|a| - 1], a[|a| - 1];
      assert a == front + [ip];
      RenderedCount(front, p, x);
      RenderedSnoc(front, ip, p);
      if ip + ":" + p == x + ":" + p {
        assert |ip| == |x| && (ip + ":" + p)[..|ip|] == ip && (x + ":" + p)[..|x|] == x;
      }
    }
  }

  /** Every rendered Addr comes from an IP, so the counts decide. */
  lemma SameIPsSameBag(a: seq<string>, b: seq<string>, p: string)
    requires multiset(a) == multiset(b)
    ensures Bag(Rendered(a, p)) == Bag(Rendered(b, p))
  {
    forall addr ensures Bag(Rendered(a, p))[addr] == Bag(Rendered(b, p))[addr] {
      if addr in Bag(Rendered(a, p)) || addr in Bag(Rendered(b, p)) {
        var ips := if addr in Bag(Rendered(a, p)) then a else b;
        assert addr in AddrsOf(Rendered(ips, p));
        var k :| 0 <= k < |ips| && AddrsOf(Rendered(ips, p))[k] == addr;
        RenderedCount(a, p, ips[k]);
        RenderedCount(b, p, ips[k]);
      }
    }
  }

  /** From after the select down to the lookup; a target that does not parse panics. */
  function Iterate(l: Loop): Loop {
    match ParseTarget(l.target)
    case Ok(hp) => l.(firstTime := false, phase := InLookup, lookups := l.lookups + [hp.0])
    case Err(_) => l.(firstTime := false, phase := Panicked)
  }

  ghost predicate Pushes(l: Loop, addresses: seq<Address>) {
    Bag(addresses) != Bag(l.last) || l.force
  }

  /** A successful lookup: UpdateState when the answer is new or an update is forced. */
  ghost function Answered(l: Loop, addresses: seq<Address>): Loop {
    if Pushes(l, addresses) then
      l.(phase := AtHead, last := addresses, force := false, pushed := l.pushed + [addresses])
    else
      l.(phase := AtHead)
  }

  // ----- the whole system -----

  predicate Alive(s: System) {
    forall j :: 0 <= j < |s.loops| ==> s.loops[j].phase != Panicked
  }

  /** A panic in a goroutine takes the process down, so nothing is enabled after one. */
  predicate Enabled(s: System, e: Event) {
    Alive(s) &&
    (e.ByLoop() ==> e.i < |s.loops|) &&
    match e
    case Build(_) => true
    case ResolveNow => true
    case Close => s.loops != []
    case Proceed(i) => s.loops[i].phase == AtHead
    case CtxDone(i) => s.loops[i].phase.InSelect? && s.loops[i].cancelled
    case Timer(i) => s.loops[i].phase.InSelect?
    case Receive(i) => s.loops[i].phase.InSelect? && s.token
    case LookupFailed(i) => s.loops[i].phase == InLookup
    case LookupOk(i, _) => s.loops[i].phase == InLookup
    case WakeUp(i) => s.loops[i].phase == InBackoff
  }

  ghost function LoopStep(l: Loop, e: Event): Loop
    requires e.ByLoop()
  {
    match e
    case Proceed(_) => if l.firstTime then Iterate(l) else l.(phase := InSelect(l.cancelled))
    case CtxDone(_) => l.(phase := Returned)
    case Timer(_) => Iterate(l)
    case Receive(_) => Iterate(l.(force := true))
    case LookupFailed(_) => l.(phase := InBackoff)
    case LookupOk(_, ips) => Answered(l, Rendered(ips, Port(l.target)))
    case WakeUp(_) => l.(phase := AtHead)
  }

  ghost function Step(s: System, e: Event): System
    requires Enabled(s, e)
  {
    match e
    case Build(target) => s.(loops := s.loops + [NewLoop(target)])
    case ResolveNow => s.(token := true)  // sent, or already pending and dropped by the default case
    case Close =>                         // only the context of the latest Build is still known
      var j := |s.loops| - 1;
      s.(loops := s.loops[j := s.loops[j].(cancelled := true)])
    case _ =>
      System(s.token && !e.Receive?, s.loops[e.i := LoopStep(s.loops[e.i], e)])
  }

  // ----- runs -----

  datatype Run = Run(states: seq<System>, events: seq<Event>)

  ghost predicate IsRun(r: Run) {
    && |r.states| == |r.events| + 1
    && r.states[0] == System(false, [])
    && forall k {:trigger r.events[k]} :: 0 <= k < |r.events| ==>
         Enabled(r.states[k], r.events[k]) && r.states[k + 1] == Step(r.states[k], r.events[k])
  }

  /** What is counted along a run. */
  datatype Kind =
    | Calls              // of ResolveNow
    | Sent               // ResolveNow that put a token in the channel
    | Received           // tokens received by any loop
    | Redundant          // updates that repeat the loop's previous one
    | Lookups(n: nat)    // completed by loop n
    | Steps(n: nat)      // taken by loop n

  ghost predicate Counts(kind: Kind, s: System, e: Event) {
    match kind
    case Calls => e.ResolveNow?
    case Sent => e.ResolveNow? && !s.token
    case Received => e.Receive?
    case Redundant => IsRedundant(s, e)
    case Lookups(n) => (e.LookupFailed? || e.LookupOk?) && e.i == n
    case Steps(n) => e.By(n)
  }

  /** How many of the first k events are of a kind. */
  ghost function Tally(r: Run, k: nat, kind: Kind): nat
    requires IsRun(r) && k <= |r.events|
  {
    if k == 0 then 0 else Tally(r, k - 1, kind) + if Counts(kind, r.states[k - 1], r.events[k - 1]) then 1 else 0
  }

  // ----- invariant -----

  ghost predicate LoopInv(l: Loop) {
    && l.last == LastOr(l.pushed, [])
    && (l.firstTime ==> l.phase == AtHead && l.pushed == [] && !l.force)
    && (l.phase == InLookup || l.phase == InBackoff ==> ParseTarget(l.target).Ok?)
    && (l.phase == InSelect(true) || l.phase == Returned ==> l.cancelled)
  }

  lemma LoopStepKeepsInv(l: Loop, e: Event)
    requires e.ByLoop() && LoopInv(l)
    requires e.Proceed? ==> l.phase == AtHead
    requires e.LookupOk? || e.LookupFailed? ==> l.phase == InLookup
    requires e.WakeUp? ==> l.phase == InBackoff
    requires e.Timer? || e.Receive? || e.CtxDone? ==> l.phase.InSelect?
    requires e.CtxDone? ==> l.cancelled
    ensures LoopInv(LoopStep(l, e)) && LoopStep(l, e).target == l.target
  {
  }

  lemma StepKeepsInv(s: System, e: Event)
    requires Enabled(s, e)
    requires forall j :: 0 <= j < |s.loops| ==> LoopInv(s.loops[j])
    ensures forall j :: 0 <= j < |Step(s, e).loops| ==> LoopInv(Step(s, e).loops[j])
  {
    if e.ByLoop() {
      LoopStepKeepsInv(s.loops[e.i], e);
      assert Step(s, e).loops == s.loops[e.i := LoopStep(s.loops[e.i], e)];
    }
  }

  /** Loops are only ever added, and keep their target. */
  lemma StepKeepsLoops(s: System, e: Event)
    requires Enabled(s, e)
    ensures |s.loops| <= |Step(s, e).loops|
    ensures forall j :: 0 <= j < |s.loops| ==> Step(s, e).loops[j].target == s.loops[j].target
  {
  }

  lemma {:induction false} RunInv(r: Run, k: nat)
    requires IsRun(r) && k <= |r.events|
    ensures forall j :: 0 <= j < |r.states[k].loops| ==> LoopInv(r.states[k].loops[j])
  {
    if k > 0 {
      RunInv(r, k - 1);
      StepKeepsInv(r.states[k - 1], r.events[k - 1]);
    }
  }

  // ----- cache agreement -----

  /** The latest successful answer of loop i among the first k events. */
  ghost function LatestAnswer(r: Run, k: nat, i: nat): Option<seq<string>>
    requires k <= |r.events|
  {
    if k == 0 then None
    else if r.events[k - 1].LookupOk? && r.events[k - 1].i == i then Some(r.events[k - 1].ips)
    else LatestAnswer(r, k - 1, i)
  }

  ghost function AnswerBag(answer: Option<seq<string>>, port: string): multiset<string> {
    match answer
    case None => multiset{}
    case Some(ips) => Bag(Rendered(ips, port))
  }

  ghost predicate Agrees(l: Loop, answer: Option<seq<string>>) {
    l.last == LastOr(l.pushed, []) && Bag(l.last) == AnswerBag(answer, Port(l.target))
  }

  lemma AnsweredKnows(l: Loop, addresses: seq<Address>)
    requires l.last == LastOr(l.pushed, [])
    ensures var l' := Answered(l, addresses);
            l'.last == LastOr(l'.pushed, []) && Bag(l'.last) == Bag(addresses) && l'.target == l.target
  {
  }

  /** A loop's own step keeps the agreement, with the answer it may bring. */
  lemma CacheOwnStep(l: Loop, e: Event, answer: Option<seq<string>>)
    requires e.ByLoop() && Agrees(l, answer)
    ensures Agrees(LoopStep(l, e), if e.LookupOk? then Some(e.ips) else answer)
  {
    if e.LookupOk? {
      AnsweredKnows(l, Rendered(e.ips, Port(l.target)));
    } else {
      var l' := LoopStep(l, e);
      assert l'.last == l.last && l'.pushed == l.pushed && l'.target == l.target;
    }
  }

  lemma CacheStep(s: System, e: Event, i: nat, answer: Option<seq<string>>)
    requires Enabled(s, e)
    requires if i < |s.loops| then Agrees(s.loops[i], answer) else answer == None
    ensures var answer' := if e.LookupOk? && e.i == i then Some(e.ips) else answer;
            if i < |Step(s, e).loops| then Agrees(Step(s, e).loops[i], answer') else answer' == None
  {
    if e.ByLoop() && e.i == i {
      CacheOwnStep(s.loops[i], e, answer);
      assert Step(s, e).loops[i] == LoopStep(s.loops[i], e);
    } else if i < |s.loops| {
      OtherStepKeeps(s, e, i);
    }
  }

  /** Nothing but its own steps changes a loop, except that Close may cancel it. */
  lemma OtherStepKeeps(s: System, e: Event, i: nat)
    requires Enabled(s, e) && i < |s.loops| && !e.By(i)
    ensures i < |Step(s, e).loops|
    ensures var l, l' := s.loops[i], Step(s, e).loops[i];
            l' == l.(cancelled := l'.cancelled) && (l.cancelled ==> l'.cancelled) &&
            (!e.Close? ==> l' == l)
  {
  }

  /**
   At every moment the cache is what the ClientConn was told last, and it holds the same Addrs as the
   latest successful lookup, however many lookups failed since.
   */
  lemma {:induction false} CacheAgreement(r: Run, k: nat, i: nat)
    requires IsRun(r) && k <= |r.events|
    ensures i < |r.states[k].loops| ==>
              Agrees(r.states[k].loops[i], LatestAnswer(r, k, i))
    ensures i >= |r.states[k].loops| ==> LatestAnswer(r, k, i) == None
  {
    if k > 0 {
      CacheAgreement(r, k - 1, i);
      CacheStep(r.states[k - 1], r.events[k - 1], i, LatestAnswer(r, k - 1, i));
    }
  }

  // ----- no lost wake-up -----

  ghost predicate AnswersIn(r: Run, i: nat, from: nat, to: nat)
    requires to <= |r.events|
  {
    exists m :: from <= m < to && r.events[m].LookupOk? && r.events[m].i == i
  }

  /** The first answer loop i gets after event v is pushed to the ClientConn, changed or not. */
  ghost predicate NextAnswerIsPushed(r: Run, i: nat, v: nat)
    requires IsRun(r)
  {
    forall m :: v < m < |r.events| && r.events[m].LookupOk? && r.events[m].i == i && !AnswersIn(r, i, v + 1, m) ==>
      i < |r.states[m].loops| &&
      var l, l' := r.states[m].loops[i], r.states[m + 1].loops[i];
      l'.pushed == l.pushed + [Rendered(r.events[m].ips, Port(l.target))]
  }

  lemma {:induction false} ForceHeld(r: Run, v: nat, m: nat, i: nat)
    requires IsRun(r) && v < m <= |r.events|
    requires r.events[v] == Receive(i) && !AnswersIn(r, i, v + 1, m)
    ensures i < |r.states[m].loops| && r.states[m].loops[i].force
  {
    hide Step;
    var s, e := r.states[m - 1], r.events[m - 1];
    assert Enabled(s, e) && r.states[m] == Step(s, e);
    if m > v + 1 {
      ForceHeld(r, v, m - 1, i);
      ForceKept(s, e, i);
    } else {
      ReceiveSetsForce(s, i);
    }
  }

  lemma ReceiveSetsForce(s: System, i: nat)
    requires Enabled(s, Receive(i))
    ensures var s' := Step(s, Receive(i)); i < |s'.loops| && s'.loops[i].force && !s'.token
  {
  }

  lemma ForceKept(s: System, e: Event, i: nat)
    requires Enabled(s, e) && i < |s.loops| && s.loops[i].force && !(e.LookupOk? && e.i == i)
    ensures i < |Step(s, e).loops| && Step(s, e).loops[i].force
  {
    if !e.By(i) {
      OtherStepKeeps(s, e, i);
    }
  }

  lemma ReceiveForcesNextPush(r: Run, v: nat, i: nat)
    requires IsRun(r) && v < |r.events| && r.events[v] == Receive(i)
    ensures NextAnswerIsPushed(r, i, v)
  {
    forall m | v < m < |r.events| && r.events[m].LookupOk? && r.events[m].i == i && !AnswersIn(r, i, v + 1, m)
      ensures i < |r.states[m].loops| &&
              r.states[m + 1].loops[i].pushed ==
              r.states[m].loops[i].pushed + [Rendered(r.events[m].ips, Port(r.states[m].loops[i].target))]
    {
      ForceHeld(r, v, m, i);
      assert Enabled(r.states[m], r.events[m]);
    }
  }

  /**
   After any ResolveNow, sent or dropped, and whatever happens next: the token is still pending, or some
   loop received one after the call and that loop's next successful answer is pushed, however many
   lookups fail before it.
   */
  lemma {:induction false} NoLostWakeUp(r: Run, t: nat, u: nat)
    requires IsRun(r) && t < u <= |r.events| && r.events[t] == ResolveNow
    ensures r.states[u].token ||
            exists v :: t < v < u && r.events[v].Receive? && r.events[v].i < |r.states[u].loops| &&
                        NextAnswerIsPushed(r, r.events[v].i, v)
  {
    hide Step, Enabled, NextAnswerIsPushed;
    var s, e := r.states[u - 1], r.events[u - 1];
    assert Enabled(s, e) && r.states[u] == Step(s, e);
    TokenStep(s, e);
    if u > t + 1 {
      NoLostWakeUp(r, t, u - 1);
      StepKeepsLoops(s, e);
      if s.token {
        if e.Receive? {
          ReceiveForcesNextPush(r, u - 1, e.i);
        }
      } else {
        var v :| t < v < u - 1 && r.events[v].Receive? && r.events[v].i < |s.loops| &&
                 NextAnswerIsPushed(r, r.events[v].i, v);
        assert t < v < u && r.events[v].i < |r.states[u].loops|;
      }
    }
  }

  /** ResolveNow leaves a token, and only a receive takes one. */
  lemma TokenStep(s: System, e: Event)
    requires Enabled(s, e)
    ensures Step(s, e).token <==> e.ResolveNow? || (s.token && !e.Receive?)
    ensures e.ByLoop() ==> e.i < |s.loops|
  {
  }

  // ----- what is pushed -----

  /** Loop i has received a token since its latest answer before event m. */
  ghost predicate TokenSince(r: Run, m: nat, i: nat)
    requires m <= |r.events|
  {
    exists v :: 0 <= v < m && r.events[v] == Receive(i) && !AnswersIn(r, i, v + 1, m)
  }

  /** The IPs of loop i's latest answer before event m, however long ago; none at first. */
  ghost function LatestIPs(r: Run, m: nat, i: nat): seq<string>
    requires m <= |r.events|
  {
    match LatestAnswer(r, m, i)
    case None => []
    case Some(ips) => ips
  }

  lemma ForceIff(r: Run, m: nat, i: nat)
    requires IsRun(r) && m <= |r.events| && i < |r.states[m].loops|
    ensures r.states[m].loops[i].force <==> TokenSince(r, m, i)
  {
    if r.states[m].loops[i].force {
      var v := ForceHasReceive(r, m, i);
    }
    if TokenSince(r, m, i) {
      var v :| 0 <= v < m && r.events[v] == Receive(i) && !AnswersIn(r, i, v + 1, m);
      ForceHeld(r, v, m, i);
    }
  }

  lemma ChangeIff(r: Run, m: nat, i: nat, h: string, p: string, ips: seq<string>)
    requires IsRun(r) && m <= |r.events| && i < |r.states[m].loops|
    requires Denotes(r.states[m].loops[i].target, h, p)
    ensures Bag(Rendered(ips, p)) != Bag(r.states[m].loops[i].last) <==> multiset(ips) != multiset(LatestIPs(r, m, i))
  {
    hide Step, Enabled, ParseTarget, Denotes;
    CacheAgreement(r, m, i);
    TargetParses(r.states[m].loops[i].target, h, p);
    RenderedBag(ips, LatestIPs(r, m, i), p);
    assert Rendered([], p) == [] && AddrsOf([]) == [];
  }

  /** A step appends at most the answer it brings. */
  lemma PushStep(s: System, e: Event, i: nat, p: string)
    requires Enabled(s, e) && i < |s.loops| && Port(s.loops[i].target) == p
    ensures i < |Step(s, e).loops|
    ensures var l, l' := s.loops[i], Step(s, e).loops[i];
            l'.pushed ==
            if e.LookupOk? && e.i == i && (Bag(Rendered(e.ips, p)) != Bag(l.last) || l.force)
            then l.pushed + [Rendered(e.ips, p)] else l.pushed
  {
    if !e.By(i) {
      OtherStepKeeps(s, e, i);
    }
  }

  /**
   What a ClientConn is told, event by event: nothing but answers, each as one payload with the answer's
   IPs in order on the target's port, and an answer exactly when its IPs, counted with repetitions,
   differ from those of the loop's latest answer or the loop received a token since that answer.
   */
  lemma PushedIff(r: Run, m: nat, i: nat, h: string, p: string)
    requires IsRun(r) && m < |r.events| && i < |r.states[m].loops| && Denotes(r.states[m].loops[i].target, h, p)
    ensures i < |r.states[m + 1].loops|
    ensures var e, l, l' := r.events[m], r.states[m].loops[i], r.states[m + 1].loops[i];
            if e.LookupOk? && e.i == i && (multiset(e.ips) != multiset(LatestIPs(r, m, i)) || TokenSince(r, m, i)) then
              |l'.pushed| == |l.pushed| + 1 && l.pushed <= l'.pushed && Carries(l'.pushed[|l.pushed|], e.ips, p)
            else l'.pushed == l.pushed
  {
    hide Step, LatestIPs, TokenSince, Denotes, ParseTarget;
    var s, e := r.states[m], r.events[m];
    assert Enabled(s, e) && r.states[m + 1] == Step(s, e);
    TargetParses(s.loops[i].target, h, p);
    ForceIff(r, m, i);
    PushStep(s, e, i, p);
    if e.LookupOk? {
      ChangeIff(r, m, i, h, p, e.ips);
    }
  }

  // ----- the pace of the lookups -----

  ghost predicate Occurs(r: Run, e: Event, from: nat, end: nat)
    requires end <= |r.events|
  {
    exists m :: from <= m < end && r.events[m] == e
  }

  /** After a failed lookup the loop sleeps until it wakes up. */
  lemma {:induction false} BackoffHeld(r: Run, m: nat, k: nat, i: nat)
    requires IsRun(r) && m < k <= |r.events| && r.events[m] == LookupFailed(i) && !Occurs(r, WakeUp(i), m + 1, k)
    ensures i < |r.states[k].loops| && r.states[k].loops[i].phase == InBackoff
  {
    var s, e := r.states[k - 1], r.events[k - 1];
    assert Enabled(s, e) && r.states[k] == Step(s, e);
    if k > m + 1 {
      BackoffHeld(r, m, k - 1, i);
      if !e.By(i) {
        OtherStepKeeps(s, e, i);
      }
    }
  }

  /** After a lookup the loop needs a timer or a token for the next one. */
  lemma {:induction false} NoLookupUnpolled(r: Run, m: nat, k: nat, i: nat)
    requires IsRun(r) && m < k <= |r.events| && EndsLookup(r.events[m], i)
    requires !Occurs(r, Timer(i), m + 1, k) && !Occurs(r, Receive(i), m + 1, k)
    ensures i < |r.states[k].loops| && r.states[k].loops[i].phase != InLookup && !r.states[k].loops[i].firstTime
  {
    var s, e := r.states[k - 1], r.events[k - 1];
    assert Enabled(s, e) && r.states[k] == Step(s, e);
    RunInv(r, k - 1);
    if k > m + 1 {
      NoLookupUnpolled(r, m, k - 1, i);
      if !e.By(i) {
        OtherStepKeeps(s, e, i);
      }
    }
  }

  predicate EndsLookup(e: Event, i: nat) {
    (e.LookupOk? || e.LookupFailed?) && e.i == i
  }

  lemma NeedsPhase(r: Run, m: nat)
    requires IsRun(r) && m < |r.events|
    ensures var s, e := r.states[m], r.events[m];
            e.ByLoop() ==>
              && e.i < |s.loops|
              && (EndsLookup(e, e.i) ==> s.loops[e.i].phase == InLookup)
              && (e.Timer? || e.Receive? ==> s.loops[e.i].phase.InSelect?)
  {
    assert Enabled(r.states[m], r.events[m]);
  }

  /**
   Between any two lookups a loop completes, its timer fired or it received a token; and after a failed
   lookup, the loop has slept through its backoff before that.
   */
  lemma LookupsArePaced(r: Run, m: nat, k: nat, i: nat) returns (v: nat)
    requires IsRun(r) && m < k < |r.events| && EndsLookup(r.events[m], i) && EndsLookup(r.events[k], i)
    ensures m < v < k && (r.events[v] == Timer(i) || r.events[v] == Receive(i))
    ensures r.events[m].LookupFailed? ==> Occurs(r, WakeUp(i), m + 1, v)
  {
    hide Step, Enabled;
    NeedsPhase(r, k);
    if !Occurs(r, Timer(i), m + 1, k) && !Occurs(r, Receive(i), m + 1, k) {
      NoLookupUnpolled(r, m, k, i);
    }
    v :| m < v < k && (r.events[v] == Timer(i) || r.events[v] == Receive(i));
    NeedsPhase(r, v);
    if r.events[m].LookupFailed? && !Occurs(r, WakeUp(i), m + 1, v) {
      BackoffHeld(r, m, v, i);
    }
  }

  // ----- whose loop receives the token -----

  ghost predicate AllInv(s: System) {
    forall j :: 0 <= j < |s.loops| ==> LoopInv(s.loops[j])
  }

  /** The loop can still reach its select: it has not returned, and its target does not make it panic. */
  predicate CanReceive(l: Loop) {
    l.phase != Returned && l.phase != Panicked && (l.firstTime ==> ParseTarget(l.target).Ok?)
  }

  predicate OthersCannotReceive(s: System, i: nat) {
    forall j :: 0 <= j < |s.loops| && j != i ==> !CanReceive(s.loops[j])
  }

  ghost predicate Continues(s: System, es: seq<Event>)
    decreases |es|
  {
    es == [] || (Enabled(s, es[0]) && Continues(Step(s, es[0]), es[1..]))
  }

  predicate NoBuild(es: seq<Event>) {
    forall k :: 0 <= k < |es| ==> !es[k].Build?
  }

  predicate ReceivedBy(es: seq<Event>, i: nat) {
    forall k :: 0 <= k < |es| && es[k].Receive? ==> es[k].i == i
  }

  /** Whatever happens, as long as there is no further Build, only loop i receives tokens. */
  ghost predicate OnlyReceiver(s: System, i: nat) {
    forall es: seq<Event> :: Continues(s, es) && NoBuild(es) ==> ReceivedBy(es, i)
  }

  lemma OthersStepSilently(s: System, e: Event, i: nat)
    requires Enabled(s, e) && !e.Build? && AllInv(s) && OthersCannotReceive(s, i)
    ensures e.Receive? ==> e.i == i
    ensures AllInv(Step(s, e)) && OthersCannotReceive(Step(s, e), i)
  {
    StepKeepsInv(s, e);
    forall j | 0 <= j < |Step(s, e).loops| && j != i ensures !CanReceive(Step(s, e).loops[j]) {
      if !e.By(j) {
        OtherStepKeeps(s, e, j);
      }
    }
  }

  lemma {:induction false} OthersStaySilent(s: System, es: seq<Event>, i: nat)
    requires AllInv(s) && OthersCannotReceive(s, i) && Continues(s, es) && NoBuild(es)
    ensures ReceivedBy(es, i)
    decreases |es|
  {
    hide Step, Enabled, OthersCannotReceive, AllInv;
    if es != [] {
      OthersStepSilently(s, es[0], i);
      OthersStaySilent(Step(s, es[0]), es[1..], i);
      assert es == [es[0]] + es[1..];
    }
  }

  /** Steps of its own that a loop needs before its select. */
  function Distance(l: Loop): nat {
    match l.phase
    case AtHead => if l.firstTime then 4 else 1
    case InLookup => 3
    case InBackoff => 2
    case _ => 0
  }

  function TowardsSelect(l: Loop, j: nat): Event {
    match l.phase
    case InLookup => LookupFailed(j)
    case InBackoff => WakeUp(j)
    case _ => Proceed(j)
  }

  lemma StepTowardsSelect(s: System, j: nat)
    requires Alive(s) && AllInv(s) && j < |s.loops| && CanReceive(s.loops[j]) && !s.loops[j].phase.InSelect?
    ensures var e := TowardsSelect(s.loops[j], j);
            Enabled(s, e) && !e.Build? &&
            var s' := Step(s, e);
            Alive(s') && AllInv(s') && j < |s'.loops| && CanReceive(s'.loops[j]) &&
            Distance(s'.loops[j]) < Distance(s.loops[j])
  {
    StepKeepsInv(s, TowardsSelect(s.loops[j], j));
  }

  /** A loop that can still receive does so in some continuation. */
  lemma {:induction false} WayToToken(s: System, j: nat) returns (es: seq<Event>)
    requires Alive(s) && AllInv(s) && j < |s.loops| && CanReceive(s.loops[j])
    ensures Continues(s, es) && NoBuild(es) && es != [] && es[|es| - 1] == Receive(j)
    decreases Distance(s.loops[j])
  {
    if s.loops[j].phase.InSelect? {
      es := [ResolveNow, Receive(j)];
      assert Continues(Step(Step(s, ResolveNow), Receive(j)), []);
      assert es[1..][1..] == [] && Continues(Step(s, ResolveNow), es[1..]);
    } else {
      hide Step, Enabled, AllInv, CanReceive, Distance;
      var e := TowardsSelect(s.loops[j], j);
      StepTowardsSelect(s, j);
      var rest := WayToToken(Step(s, e), j);
      es := [e] + rest;
      assert es[1..] == rest;
    }
  }

  /**
   In every reachable state: loop i is the only one that receives tokens from here on, until another
   Build, exactly when every other loop has returned or is about to panic on its target.
   */
  lemma OnlyReceiverIff(r: Run, k: nat, i: nat)
    requires IsRun(r) && k <= |r.events|
    ensures OnlyReceiver(r.states[k], i) <==> (Alive(r.states[k]) ==> OthersCannotReceive(r.states[k], i))
  {
    var s := r.states[k];
    RunInv(r, k);
    if Alive(s) && OthersCannotReceive(s, i) {
      forall es: seq<Event> | Continues(s, es) && NoBuild(es) ensures ReceivedBy(es, i) {
        OthersStaySilent(s, es, i);
      }
    } else if Alive(s) {
      var j :| 0 <= j < |s.loops| && j != i && CanReceive(s.loops[j]);
      var es := WayToToken(s, j);
      assert !ReceivedBy(es, i);
    }
  }

  lemma {:induction false} OthersSilentInRun(r: Run, t: nat, u: nat, i: nat)
    requires IsRun(r) && t <= u <= |r.events| && OthersCannotReceive(r.states[t], i)
    requires forall m :: t <= m < u ==> !r.events[m].Build?
    ensures OthersCannotReceive(r.states[u], i)
  {
    hide Step, Enabled, OthersCannotReceive, LoopInv;
    if u > t {
      OthersSilentInRun(r, t, u - 1, i);
      RunInv(r, u - 1);
      OthersStepSilently(r.states[u - 1], r.events[u - 1], i);
    }
  }

  /**
   When no other loop can receive at the call and no Build follows it, the caller's own loop i is the
   one that wakes up: the token is pending, or loop i received it and pushes its next answer.
   */
  lemma OwnLoopWakesUp(r: Run, t: nat, u: nat, i: nat)
    requires IsRun(r) && t < u <= |r.events| && r.events[t] == ResolveNow
    requires OthersCannotReceive(r.states[t], i) && forall m :: t <= m < u ==> !r.events[m].Build?
    ensures r.states[u].token ||
            exists v :: t < v < u && r.events[v] == Receive(i) && NextAnswerIsPushed(r, i, v)
  {
    hide Step, Enabled, OthersCannotReceive, LoopInv, NextAnswerIsPushed;
    NoLostWakeUp(r, t, u);
    if !r.states[u].token {
      var v :| t < v < u && r.events[v].Receive? && NextAnswerIsPushed(r, r.events[v].i, v);
      OthersSilentInRun(r, t, v, i);
      RunInv(r, v);
      OthersStepSilently(r.states[v], r.events[v], i);
      assert r.events[v] == Receive(i);
    }
  }

  /** With a single Build there is only loop 0 to wake up. */
  lemma SingleBuildWakesUp(r: Run, t: nat, u: nat)
    requires IsRun(r) && t < u <= |r.events| && r.events[t] == ResolveNow && |r.states[u].loops| <= 1
    ensures r.states[u].token ||
            exists v :: t < v < u && r.events[v] == Receive(0) && NextAnswerIsPushed(r, 0, v)
  {
    hide Step, Enabled, NextAnswerIsPushed;
    NoLostWakeUp(r, t, u);
    if !r.states[u].token {
      var v :| t < v < u && r.events[v].Receive? && r.events[v].i < |r.states[u].loops| &&
               NextAnswerIsPushed(r, r.events[v].i, v);
      assert r.events[v] == Receive(0);
    }
  }

  // ----- token ledger -----

  /** An UpdateState that tells the ClientConn the same Addrs as the loop's previous one. */
  ghost predicate IsRedundant(s: System, e: Event) {
    e.LookupOk? && e.i < |s.loops| &&
    var l := s.loops[e.i];
    var addresses := Rendered(e.ips, Port(l.target));
    Pushes(l, addresses) && Bag(addresses) == Bag(LastOr(l.pushed, []))
  }

  function ForceCount(loops: seq<Loop>): nat {
    if loops == [] then 0
    else ForceCount(loops[..|loops| - 1]) + if loops[|loops| - 1].force then 1 else 0
  }

  lemma {:induction false} ForceCountUpdate(loops: seq<Loop>, i: nat, l: Loop)
    requires i < |loops|
    ensures ForceCount(loops[i := l]) + (if loops[i].force then 1 else 0)
         == ForceCount(loops) + (if l.force then 1 else 0)
  {
    var n := |loops| - 1;
    if i < n {
      assert loops[i := l][..n] == loops[..n][i := l];
      ForceCountUpdate(loops[..n], i, l);
    } else {
      assert loops[i := l][..n] == loops[..n];
    }
  }

  lemma ForceCountBuild(loops: seq<Loop>, l: Loop)
    ensures ForceCount(loops + [l]) == ForceCount(loops) + if l.force then 1 else 0
  {
    assert (loops + [l])[..|loops|] == loops;
  }

  /** One step's effect on the ledger: a redundant update spends a force flag, a receive buys one. */
  lemma LedgerStep(s: System, e: Event)
    requires Enabled(s, e) && forall j :: 0 <= j < |s.loops| ==> LoopInv(s.loops[j])
    ensures ForceCount(Step(s, e).loops) + (if IsRedundant(s, e) then 1 else 0)
         <= ForceCount(s.loops) + (if e.Receive? then 1 else 0)
  {
    if e.Build? {
      ForceCountBuild(s.loops, NewLoop(e.target));
    } else if e.Close? {
      var j := |s.loops| - 1;
      ForceCountUpdate(s.loops, j, s.loops[j].(cancelled := true));
    } else if e.ByLoop() {
      ForceCountUpdate(s.loops, e.i, LoopStep(s.loops[e.i], e));
    }
  }

  /**
   Over any number of loops sharing the channel: every token sent is received once or pending, at most
   one is pending, and redundant updates are paid for by received tokens, so they never outnumber calls.
   */
  lemma {:induction false} TokenLedger(r: Run, k: nat)
    requires IsRun(r) && k <= |r.events|
    ensures Tally(r, k, Sent) == Tally(r, k, Received) + (if r.states[k].token then 1 else 0)
    ensures Tally(r, k, Redundant) + ForceCount(r.states[k].loops) <= Tally(r, k, Received)
    ensures Tally(r, k, Sent) <= Tally(r, k, Calls)
    ensures Tally(r, k, Redundant) <= Tally(r, k, Calls)
  {
    hide Step, LoopInv, IsRedundant;
    if k > 0 {
      TokenLedger(r, k - 1);
      RunInv(r, k - 1);
      TokenStep(r.states[k - 1], r.events[k - 1]);
      LedgerStep(r.states[k - 1], r.events[k - 1]);
    }
  }

  /** Only a receive sets the flag, and only an answer clears it. */
  lemma ForceOrigin(s: System, e: Event, i: nat)
    requires Enabled(s, e) && i < |Step(s, e).loops| && Step(s, e).loops[i].force && e != Receive(i)
    ensures i < |s.loops| && s.loops[i].force && !(e.LookupOk? && e.i == i)
  {
    if i < |s.loops| && !e.By(i) {
      OtherStepKeeps(s, e, i);
    }
  }

  /** A set force flag points at the receive that set it, with no answer since. */
  lemma {:induction false} ForceHasReceive(r: Run, m: nat, i: nat) returns (v: nat)
    requires IsRun(r) && m <= |r.events| && i < |r.states[m].loops| && r.states[m].loops[i].force
    ensures v < m && r.events[v] == Receive(i) && !AnswersIn(r, i, v + 1, m)
  {
    hide Step;
    var s, e := r.states[m - 1], r.events[m - 1];
    assert Enabled(s, e) && r.states[m] == Step(s, e);
    if e == Receive(i) {
      v := m - 1;
    } else {
      ForceOrigin(s, e, i);
      v := ForceHasReceive(r, m - 1, i);
    }
  }

  /** The receive that pays for a redundant update: after the loop's previous answer, before this one. */
  lemma RedundantIsPaid(r: Run, u: nat) returns (v: nat)
    requires IsRun(r) && u < |r.events| && IsRedundant(r.states[u], r.events[u])
    ensures v < u && r.events[v] == Receive(r.events[u].i) && !AnswersIn(r, r.events[u].i, v + 1, u)
  {
    RunInv(r, u);
    v := ForceHasReceive(r, u, r.events[u].i);
  }

  /** No receive pays twice: two redundant updates of one loop are paid by two receives, in order. */
  lemma PaymentsAreDistinct(r: Run, u1: nat, u2: nat) returns (v1: nat, v2: nat)
    requires IsRun(r) && u1 < u2 < |r.events|
    requires IsRedundant(r.states[u1], r.events[u1]) && IsRedundant(r.states[u2], r.events[u2])
    requires r.events[u1].i == r.events[u2].i
    ensures v1 < u1 < v2 < u2
    ensures r.events[v1] == Receive(r.events[u1].i) && r.events[v2] == Receive(r.events[u2].i)
  {
    v1 := RedundantIsPaid(r, u1);
    v2 := RedundantIsPaid(r, u2);
  }

  // ----- what Close reaches -----

  /** Close reaches a loop exactly when it is called while that loop's Build is the latest. */
  lemma {:induction false} CancelledIff(r: Run, k: nat, j: nat)
    requires IsRun(r) && k <= |r.events| && j < |r.states[k].loops|
    ensures r.states[k].loops[j].cancelled <==>
            exists m :: 0 <= m < k && r.events[m] == Close && |r.states[m].loops| == j + 1
  {
    hide Step, Enabled;
    if k > 0 {
      var s, e := r.states[k - 1], r.events[k - 1];
      assert Enabled(s, e) && r.states[k] == Step(s, e);
      CancelStep(s, e, j);
      if j < |s.loops| {
        CancelledIff(r, k - 1, j);
      } else {
        LoopsOnlyGrow(r, k - 1);
      }
    }
  }

  lemma CancelStep(s: System, e: Event, j: nat)
    requires Enabled(s, e) && j < |Step(s, e).loops|
    ensures Step(s, e).loops[j].cancelled <==>
            (j < |s.loops| && s.loops[j].cancelled) || (e == Close && |s.loops| == j + 1)
  {
  }

  lemma {:induction false} LoopsOnlyGrow(r: Run, k: nat)
    requires IsRun(r) && k <= |r.events|
    ensures forall m :: 0 <= m <= k ==> |r.states[m].loops| <= |r.states[k].loops|
  {
    if k > 0 {
      LoopsOnlyGrow(r, k - 1);
      StepKeepsLoops(r.states[k - 1], r.events[k - 1]);
    }
  }

  // ----- bounded shutdown -----

  /** A fresh five-second timer is not ready in a select entered after cancellation. */
  predicate TimerFair(s: System, e: Event, i: nat) {
    e == Timer(i) && i < |s.loops| ==> s.loops[i].phase != InSelect(true)
  }

  /** Lookups a cancelled loop can still complete. */
  function Budget(s: System, i: nat): nat
    requires i < |s.loops|
  {
    var l := s.loops[i];
    var token := if s.token then 1 else 0;
    match l.phase
    case Returned => 0
    case Panicked => 0
    case InLookup => 1 + token
    case AtHead => if l.firstTime then 1 + token else token
    case InSelect(late) => if late then token else 1 + token
    case InBackoff => token
  }

  /** Steps a cancelled loop can still take: a termination measure. */
  function Rank(s: System, i: nat): nat
    requires i < |s.loops|
  {
    var l := s.loops[i];
    var token := if s.token then 4 else 0;
    match l.phase
    case Returned => 0
    case Panicked => 0
    case InLookup => 4 + token
    case AtHead => if l.firstTime then 5 + token else 2 + token
    case InSelect(late) => if late then 1 + token else 5 + token
    case InBackoff => 3 + token
  }

  lemma MeasureBounds(s: System, i: nat)
    requires i < |s.loops|
    ensures Budget(s, i) <= 2 && Rank(s, i) <= 9
  {
  }

  lemma ShutdownStep(s: System, e: Event, i: nat)
    requires Enabled(s, e) && i < |s.loops| && s.loops[i].cancelled
    requires LoopInv(s.loops[i])
    requires e != ResolveNow && TimerFair(s, e, i)
    ensures i < |Step(s, e).loops| && Step(s, e).loops[i].cancelled
    ensures Budget(Step(s, e), i) + (if Counts(Lookups(i), s, e) then 1 else 0) <= Budget(s, i)
    ensures Rank(Step(s, e), i) + (if e.By(i) then 1 else 0) <= Rank(s, i)
  {
    hide ParseTarget, Rendered, Pushes;
  }

  /** Quiet from c on: no ResolveNow, and only timers that can be ready. */
  ghost predicate Quiet(r: Run, c: nat, k: nat, i: nat)
    requires IsRun(r) && k <= |r.events|
  {
    forall m :: c <= m < k ==> r.events[m] != ResolveNow && TimerFair(r.states[m], r.events[m], i)
  }

  lemma {:induction false} StaysCancelled(r: Run, i: nat, c: nat, k: nat)
    requires IsRun(r) && c <= k <= |r.events|
    requires i < |r.states[c].loops| && r.states[c].loops[i].cancelled
    ensures i < |r.states[k].loops| && r.states[k].loops[i].cancelled
  {
    hide Step;
    if k > c {
      StaysCancelled(r, i, c, k - 1);
      var s, e := r.states[k - 1], r.events[k - 1];
      assert Enabled(s, e) && r.states[k] == Step(s, e);
      StepKeepsLoops(s, e);
      CancelStep(s, e, i);
    }
  }

  /** The step into state k, for both measures. */
  lemma ShutdownAt(r: Run, i: nat, c: nat, k: nat)
    requires IsRun(r) && c < k <= |r.events| && Quiet(r, c, k, i)
    requires i < |r.states[c].loops| && r.states[c].loops[i].cancelled
    ensures i < |r.states[k - 1].loops| && i < |r.states[k].loops|
    ensures Tally(r, k, Lookups(i)) + Budget(r.states[k], i) <= Tally(r, k - 1, Lookups(i)) + Budget(r.states[k - 1], i)
    ensures Tally(r, k, Steps(i)) + Rank(r.states[k], i) <= Tally(r, k - 1, Steps(i)) + Rank(r.states[k - 1], i)
  {
    hide Step, Enabled, LoopInv;
    StaysCancelled(r, i, c, k - 1);
    RunInv(r, k - 1);
    ShutdownStep(r.states[k - 1], r.events[k - 1], i);
    assert r.states[k] == Step(r.states[k - 1], r.events[k - 1]);
  }

  lemma {:induction false} ShutdownCount(r: Run, i: nat, c: nat, k: nat)
    requires IsRun(r) && c <= k <= |r.events| && Quiet(r, c, k, i)
    requires i < |r.states[c].loops| && r.states[c].loops[i].cancelled
    ensures i < |r.states[k].loops|
    ensures Tally(r, k, Lookups(i)) + Budget(r.states[k], i) <= Tally(r, c, Lookups(i)) + Budget(r.states[c], i)
    ensures Tally(r, k, Steps(i)) + Rank(r.states[k], i) <= Tally(r, c, Steps(i)) + Rank(r.states[c], i)
  {
    hide Step, Enabled, Budget, Rank, Counts;
    if k > c {
      ShutdownCount(r, i, c, k - 1);
      ShutdownAt(r, i, c, k);
    }
  }

  /** An event loop i can take by itself under the timer assumption. */
  ghost predicate CanMove(s: System, i: nat) {
    exists e :: Enabled(s, e) && e.By(i) && TimerFair(s, e, i)
  }

  lemma StuckMeansReturned(s: System, i: nat)
    requires i < |s.loops| && s.loops[i].cancelled && Alive(s)
    ensures CanMove(s, i) <==> s.loops[i].phase != Returned
  {
    match s.loops[i].phase
    case AtHead => assert Enabled(s, Proceed(i)) && Proceed(i).By(i);
    case InSelect(_) => assert Enabled(s, CtxDone(i)) && CtxDone(i).By(i);
    case InLookup => assert Enabled(s, LookupFailed(i)) && LookupFailed(i).By(i);
    case InBackoff => assert Enabled(s, WakeUp(i)) && WakeUp(i).By(i);
    case Returned =>
  }

  /**
   Once a loop's context is cancelled and no ResolveNow follows, it completes at most two lookups,
   counting one in flight, takes at most nine steps, and the only place it can stop is its return.
   Other loops, further Builds and further Closes may interleave.
   */
  lemma BoundedShutdown(r: Run, i: nat, c: nat, k: nat)
    requires IsRun(r) && c <= k <= |r.events| && Quiet(r, c, k, i)
    requires i < |r.states[c].loops| && r.states[c].loops[i].cancelled
    ensures Tally(r, k, Lookups(i)) <= Tally(r, c, Lookups(i)) + 2
    ensures Tally(r, k, Steps(i)) <= Tally(r, c, Steps(i)) + 9
    ensures i < |r.states[k].loops|
    ensures Alive(r.states[k]) ==> (CanMove(r.states[k], i) <==> r.states[k].loops[i].phase != Returned)
  {
    hide Step, Enabled, Counts, Budget, Rank, CanMove;
    ShutdownCount(r, i, c, k);
    StaysCancelled(r, i, c, k);
    MeasureBounds(r.states[c], i);
    if Alive(r.states[k]) {
      StuckMeansReturned(r.states[k], i);
    }
  }

  /** Only a target that does not parse can panic. */
  lemma {:induction false} PanicOnlyOnBadTarget(r: Run, k: nat, i: nat)
    requires IsRun(r) && k <= |r.events| && i < |r.states[k].loops|
    ensures r.states[k].loops[i].phase == Panicked ==> ParseTarget(r.states[k].loops[i].target).Err?
  {
    hide Step;
    if k > 0 {
      var s, e := r.states[k - 1], r.events[k - 1];
      assert Enabled(s, e) && r.states[k] == Step(s, e);
      if r.states[k].loops[i].phase == Panicked {
        PanicStep(s, e, i);
      }
      if i < |s.loops| {
        PanicOnlyOnBadTarget(r, k - 1, i);
        StepKeepsLoops(s, e);
      }
    }
  }

  lemma PanicStep(s: System, e: Event, i: nat)
    requires Enabled(s, e) && i < |Step(s, e).loops| && Step(s, e).loops[i].phase == Panicked
    ensures ParseTarget(Step(s, e).loops[i].target).Err?
  {
    if i < |s.loops| && !e.By(i) {
      OtherStepKeeps(s, e, i);
    }
  }
}
