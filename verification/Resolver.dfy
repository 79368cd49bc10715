/** The resolver's code, object by object and loop by loop, against the transition system. */
module Resolver {
  import opened Common
  import opened Addresses
  import opened Target
  import opened ResolverMachine

  /** A cancellable context. */
  class Context {
    var done: bool

    constructor ()
      ensures !done
    {
      done := false;
    }

    method Cancel()
      modifies this
      ensures done
    {
      done := true;
    }
  }

  /** The channel `rn`, of capacity one: only how many tokens it buffers matters. */
  class Channel {
    var buffered: nat

    constructor ()
      ensures buffered == 0
    {
      buffered := 0;
    }
  }

  class BetterDNS {
    const scheme: string
    const rn: Channel
    var cancelContext: Context?
    ghost var contexts: seq<Context>  // of every Build, in order

    /** This object is in the state s of the transition system. */
    ghost predicate Mirrors(s: System)
      reads this, rn, contexts
    {
      && rn.buffered == (if s.token then 1 else 0)
      && |contexts| == |s.loops|
      && (forall i, j :: 0 <= i < j < |contexts| ==> contexts[i] != contexts[j])
      && (forall j :: 0 <= j < |contexts| ==> contexts[j].done == s.loops[j].cancelled)
      && cancelContext == (if contexts == [] then null else contexts[|contexts| - 1])
    }

    constructor (scheme: string)
      ensures Mirrors(System(false, []))
      ensures this.scheme == scheme && fresh(rn)
    {
      this.scheme := scheme;
      rn := new Channel();
      cancelContext := null;
      contexts := [];
    }

    /** Overwrites the previous cancel function: only the latest loop stays reachable. */
    method Build(target: string, ghost s: System) returns (ctx: Context)
      requires Mirrors(s) && Enabled(s, ResolverMachine.Build(target))
      modifies this
      ensures Mirrors(Step(s, ResolverMachine.Build(target)))
      ensures fresh(ctx) && cancelContext == ctx
    {
      ctx := new Context();
      cancelContext := ctx;
      contexts := contexts + [ctx];
    }

    /** A non-blocking send. */
    method ResolveNow(ghost s: System)
      requires Mirrors(s) && Enabled(s, ResolverMachine.ResolveNow)
      modifies rn
      ensures Mirrors(Step(s, ResolverMachine.ResolveNow))
    {
      if rn.buffered < 1 {
        rn.buffered := rn.buffered + 1;
      }
    }

    method Close(ghost s: System)
      requires Mirrors(s) && Enabled(s, ResolverMachine.Close)
      modifies cancelContext
      ensures Mirrors(Step(s, ResolverMachine.Close))
    {
      cancelContext.Cancel();
    }

    /** What the select of loop i finds ready is what the machine enables. */
    method Poll(ghost s: System, ghost i: nat, ctx: Context) returns (done: bool, token: bool)
      requires Mirrors(s) && Alive(s) && i < |s.loops| && s.loops[i].phase.InSelect? && ctx == contexts[i]
      ensures done <==> Enabled(s, CtxDone(i))
      ensures token <==> Enabled(s, ResolverMachine.Receive(i))
    {
      done := ctx.done;
      token := rn.buffered > 0;
    }

    /** The select of loop i takes the token. */
    method Receive(ghost s: System, ghost i: nat)
      requires Mirrors(s) && Enabled(s, ResolverMachine.Receive(i))
      modifies rn
      ensures Mirrors(Step(s, ResolverMachine.Receive(i)))
    {
      rn.buffered := rn.buffered - 1;
    }

    /** The remaining steps of the loops touch neither the channel nor a context. */
    lemma OtherStepsKeepMirrors(s: System, e: Event)
      requires Mirrors(s) && Enabled(s, e)
      requires !e.Build? && !e.ResolveNow? && !e.Close? && !e.Receive?
      ensures Mirrors(Step(s, e))
    {
    }
  }

  // ----- the polling loop -----

  /** Which ready case a select takes, and how a lookup ends. */
  datatype Wake = CtxReady | TimerReady | TokenReady

  datatype Answer = Failed | Found(ips: seq<string>)

  /** The environment's choices for one turn of the loop; the first turn has no select. */
  datatype Turn = Turn(wake: Wake, answer: Answer)

  ghost function WakeEvent(wake: Wake): (e: Event)
    ensures e.ByLoop()
  {
    match wake
    case CtxReady => CtxDone(0)
    case TimerReady => Timer(0)
    case TokenReady => Receive(0)
  }

  ghost function AfterWake(l: Loop, wake: Wake): Loop {
    var l' := LoopStep(l, Proceed(0));
    if l.firstTime then l' else LoopStep(l', WakeEvent(wake))
  }

  ghost function AfterAnswer(w: Loop, answer: Answer): Loop {
    match answer
    case Failed => LoopStep(LoopStep(w, LookupFailed(0)), WakeUp(0))
    case Found(ips) => LoopStep(w, LookupOk(0, ips))
  }

  ghost function AfterTurn(l: Loop, turn: Turn): Loop {
    var w := AfterWake(l, turn.wake);
    if w.phase != InLookup then w else AfterAnswer(w, turn.answer)
  }

  /** The machine's loop steps, turn after turn until the loop leaves or the script ends. */
  ghost function Play(l: Loop, turns: seq<Turn>): Loop
    decreases |turns|
  {
    if turns == [] || l.phase != AtHead then l else Play(AfterTurn(l, turns[0]), turns[1..])
  }

  /** A turn without intermediate phases. */
  lemma TurnShape(l: Loop, turn: Turn)
    requires l.phase == AtHead
    ensures var w := l.(firstTime := false, force := l.force || (!l.firstTime && turn.wake == TokenReady));
            AfterTurn(l, turn) ==
            if !l.firstTime && turn.wake == CtxReady then l.(phase := Returned)
            else
              match ParseTarget(l.target)
              case Err(_) => w.(phase := Panicked)
              case Ok(hp) =>
                var w' := w.(lookups := l.lookups + [hp.0]);
                if turn.answer == Failed then w' else Answered(w', Rendered(turn.answer.ips, Port(l.target)))
  {
    WakeShape(l, turn.wake);
  }

  lemma WakeShape(l: Loop, wake: Wake)
    requires l.phase == AtHead
    ensures AfterWake(l, wake) ==
            if !l.firstTime && wake == CtxReady then l.(phase := Returned)
            else Iterate(l.(force := l.force || (!l.firstTime && wake == TokenReady)))
  {
  }

  /** The loop over the lookup's IPs. */
  method RenderAll(ips: seq<string>, port: string) returns (addresses: seq<Address>)
    ensures addresses == Rendered(ips, port)
  {
    addresses := [];
    for k := 0 to |ips|
      invariant addresses == Rendered(ips, port)[..k]
    {
      addresses := addresses + [Address(ips[k] + ":" + port, "")];
    }
  }

  /** manageConnections, run on the environment's choices, is the machine's loop. */
  method ManageConnections(target: string, turns: seq<Turn>)
    returns (lookups: seq<string>, pushed: seq<seq<Address>>, lastAddresses: seq<Address>, exit: Phase)
    ensures var l := Play(NewLoop(target), turns);
            lookups == l.lookups && pushed == l.pushed && lastAddresses == l.last && exit == l.phase
  {
    var firstTime := true;
    var forceUpdate := false;
    lastAddresses := [];
    lookups, pushed := [], [];
    for k := 0 to |turns|
      invariant Play(NewLoop(target), turns)
             == Play(Loop(target, false, AtHead, firstTime, lastAddresses, forceUpdate, lookups, pushed), turns[k..])
    {
      ghost var l := Loop(target, false, AtHead, firstTime, lastAddresses, forceUpdate, lookups, pushed);
      assert turns[k..][0] == turns[k] && turns[k..][1..] == turns[k + 1..];
      assert Play(l, turns[k..]) == Play(AfterTurn(l, turns[k]), turns[k + 1..]);
      TurnShape(l, turns[k]);
      if !firstTime {
        match turns[k].wake {
          case CtxReady =>
            return lookups, pushed, lastAddresses, Returned;
          case TimerReady =>
          case TokenReady =>
            forceUpdate := true;
        }
      }
      firstTime := false;

      var parsed := ParseTarget(target);
      if parsed.Err? {
        return lookups, pushed, lastAddresses, Panicked;
      }
      var host, port := parsed.value.0, parsed.value.1;

      lookups := lookups + [host];
      match turns[k].answer {
        case Failed =>
        case Found(ips) =>
          var addresses := RenderAll(ips, port);
          var same := SameAddresses(addresses, lastAddresses);
          if !same || forceUpdate {
            pushed := pushed + [addresses];
            lastAddresses := addresses;
            forceUpdate := false;
          }
      }
    }
    exit := AtHead;
  }

  // ----- what a script leads to, turn by turn -----

  /** No select before turn k, or at it, takes the context: turn k gets to its lookup. */
  predicate StillRunning(turns: seq<Turn>, k: nat)
    requires k <= |turns|
  {
    forall c :: 1 <= c < k ==> turns[c].wake != CtxReady
  }

  /** The IPs of the latest answer before turn k, none at first. */
  function PreviousIPs(turns: seq<Turn>, k: nat): seq<string>
    requires k <= |turns|
  {
    if k == 0 then []
    else if turns[k - 1].answer.Found? then turns[k - 1].answer.ips
    else PreviousIPs(turns, k - 1)
  }

  /** A select of turns 1..k took a token, and no turn before k has had an answer since. */
  ghost predicate TokenPending(turns: seq<Turn>, k: nat, answered: nat)
    requires k <= |turns| && answered <= |turns|
  {
    exists t :: 1 <= t < k && turns[t].wake == TokenReady && forall a :: t <= a < answered ==> turns[a].answer.Failed?
  }

  ghost predicate PushesAt(turns: seq<Turn>, k: nat)
    requires k < |turns|
  {
    && turns[k].answer.Found?
    && (multiset(turns[k].answer.ips) != multiset(PreviousIPs(turns, k)) || TokenPending(turns, k + 1, k))
  }

  lemma {:induction false} PlaySnoc(l: Loop, turns: seq<Turn>, turn: Turn)
    ensures var l' := Play(l, turns);
            Play(l, turns + [turn]) == if l'.phase == AtHead then AfterTurn(l', turn) else l'
    decreases |turns|
  {
    if turns == [] {
      assert Play(AfterTurn(l, turn), []) == AfterTurn(l, turn);
      assert ([] + [turn])[1..] == [];
    } else if l.phase == AtHead {
      assert (turns + [turn])[1..] == turns[1..] + [turn];
      PlaySnoc(AfterTurn(l, turns[0]), turns[1..], turn);
    }
  }

  /** Where a running loop stands at the head of turn k. */
  ghost predicate Tracks(l: Loop, target: string, p: string, turns: seq<Turn>, k: nat)
    requires k <= |turns|
  {
    && l.target == target && l.phase == AtHead
    && (l.firstTime <==> k == 0)
    && Bag(l.last) == Bag(Rendered(PreviousIPs(turns, k), p))
    && (l.force <==> TokenPending(turns, k, k))
  }

  /** The effect of turn k on a running loop. */
  ghost predicate Turned(l: Loop, l': Loop, h: string, p: string, turns: seq<Turn>, k: nat)
    requires k < |turns|
  {
    if !StillRunning(turns, k + 1) then
      l'.phase == Returned && l'.lookups == l.lookups && l'.pushed == l.pushed
    else
      && l'.phase == AtHead
      && l'.lookups == l.lookups + [h]
      && if PushesAt(turns, k) then
           |l'.pushed| == |l.pushed| + 1 && l.pushed <= l'.pushed && Carries(l'.pushed[|l.pushed|], turns[k].answer.ips, p)
         else l'.pushed == l.pushed
  }

  lemma TokenTurn(turns: seq<Turn>, k: nat)
    requires k < |turns|
    ensures TokenPending(turns, k + 1, k) <==> TokenPending(turns, k, k) || (k > 0 && turns[k].wake == TokenReady)
    ensures TokenPending(turns, k + 1, k + 1) <==> TokenPending(turns, k + 1, k) && turns[k].answer.Failed?
  {
  }

  lemma TrackedTurn(l: Loop, target: string, h: string, p: string, turns: seq<Turn>, k: nat)
    requires Denotes(target, h, p) && k < |turns|
    requires StillRunning(turns, k) && Tracks(l, target, p, turns, k)
    ensures Turned(l, AfterTurn(l, turns[k]), h, p, turns, k)
    ensures StillRunning(turns, k + 1) ==> Tracks(AfterTurn(l, turns[k]), target, p, turns, k + 1)
  {
    hide AfterTurn, ParseTarget, Denotes, TokenPending, Bag;
    TargetParses(target, h, p);
    TurnShape(l, turns[k]);
    TokenTurn(turns, k);
    if turns[k].answer.Found? {
      RenderedBag(turns[k].answer.ips, PreviousIPs(turns, k), p);
    }
  }

  lemma {:induction false} TracksAtHead(target: string, h: string, p: string, turns: seq<Turn>, k: nat)
    requires Denotes(target, h, p) && k <= |turns| && StillRunning(turns, k)
    ensures Tracks(Play(NewLoop(target), turns[..k]), target, p, turns, k)
  {
    hide AfterTurn, Denotes;
    if k == 0 {
      assert Rendered([], p) == [];
    } else {
      TracksAtHead(target, h, p, turns, k - 1);
      assert turns[..k] == turns[..k - 1] + [turns[k - 1]];
      PlaySnoc(NewLoop(target), turns[..k - 1], turns[k - 1]);
      TrackedTurn(Play(NewLoop(target), turns[..k - 1]), target, h, p, turns, k - 1);
    }
  }

  /**
   What every further turn does, on the whole script so far and nothing else: until a select takes the
   context, it looks up the host of the target, and pushes the answer on the target's port exactly when
   its IPs, counted with repetitions, differ from the previous answer's or a token came since.
   */
  lemma TurnMeaning(target: string, h: string, p: string, turns: seq<Turn>, k: nat)
    requires Denotes(target, h, p) && k < |turns|
    ensures var l, l' := Play(NewLoop(target), turns[..k]), Play(NewLoop(target), turns[..k + 1]);
            if StillRunning(turns, k) then Turned(l, l', h, p, turns, k) else l' == l && l.phase == Returned
  {
    hide Denotes, AfterTurn;
    assert turns[..k + 1] == turns[..k] + [turns[k]];
    PlaySnoc(NewLoop(target), turns[..k], turns[k]);
    if StillRunning(turns, k) {
      TracksAtHead(target, h, p, turns, k);
      TrackedTurn(Play(NewLoop(target), turns[..k]), target, h, p, turns, k);
    } else {
      StaysReturned(target, h, p, turns, k);
    }
  }

  lemma {:induction false} StaysReturned(target: string, h: string, p: string, turns: seq<Turn>, k: nat)
    requires Denotes(target, h, p) && k <= |turns| && !StillRunning(turns, k)
    ensures Play(NewLoop(target), turns[..k]).phase == Returned
  {
    hide Denotes, AfterTurn;
    assert turns[..k] == turns[..k - 1] + [turns[k - 1]];
    PlaySnoc(NewLoop(target), turns[..k - 1], turns[k - 1]);
    if StillRunning(turns, k - 1) {
      TracksAtHead(target, h, p, turns, k - 1);
      TrackedTurn(Play(NewLoop(target), turns[..k - 1]), target, h, p, turns, k - 1);
    } else {
      StaysReturned(target, h, p, turns, k - 1);
    }
  }

  /** A target that denotes nothing panics in its first turn, before any lookup. */
  lemma BadTargetPanics(target: string, turns: seq<Turn>)
    requires turns != [] && forall h, p :: !Denotes(target, h, p)
    ensures Play(NewLoop(target), turns) == NewLoop(target).(firstTime := false, phase := Panicked)
  {
    if ParseTarget(target).Ok? {
      ParseTargetIff(target, ParseTarget(target).value.0, ParseTarget(target).value.1);
    }
  }

  // ----- a loop without tokens -----

  /** Nothing pushed repeats the Addrs of the push before it, and the first push is not empty. */
  ghost predicate OnlyChanges(pushed: seq<seq<Address>>) {
    pushed == [] ||
    var before := pushed[..|pushed| - 1];
    OnlyChanges(before) && Bag(pushed[|pushed| - 1]) != Bag(LastOr(before, []))
  }

  /** A loop that never receives a token tells the ClientConn about changes only. */
  lemma {:induction false} WithoutTokensOnlyChanges(l: Loop, turns: seq<Turn>)
    requires Unforced(l)
    requires forall k :: 0 <= k < |turns| ==> turns[k].wake != TokenReady
    ensures OnlyChanges(Play(l, turns).pushed)
    decreases |turns|
  {
    if turns != [] && l.phase == AtHead {
      TurnWithoutToken(l, turns[0]);
      WithoutTokensOnlyChanges(AfterTurn(l, turns[0]), turns[1..]);
    }
  }

  /** What a loop keeps between turns as long as no token forces an update. */
  ghost predicate Unforced(l: Loop) {
    l.last == LastOr(l.pushed, []) && !l.force && OnlyChanges(l.pushed)
  }

  lemma TurnWithoutToken(l: Loop, turn: Turn)
    requires Unforced(l) && turn.wake != TokenReady
    ensures Unforced(AfterTurn(l, turn))
  {
    WakeWithoutToken(l, turn.wake);
    AnswerWithoutToken(AfterWake(l, turn.wake), turn.answer);
  }

  lemma WakeWithoutToken(l: Loop, wake: Wake)
    requires Unforced(l) && wake != TokenReady
    ensures Unforced(AfterWake(l, wake))
  {
    var w := AfterWake(l, wake);
    assert w.last == l.last && w.pushed == l.pushed && w.force == l.force;
  }

  lemma AnswerWithoutToken(w: Loop, answer: Answer)
    requires Unforced(w)
    ensures Unforced(AfterAnswer(w, answer))
  {
    if answer.Found? {
      var addresses := Rendered(answer.ips, Port(w.target));
      if Pushes(w, addresses) {
        ChangeAppended(w.pushed, addresses);
      }
    }
  }

  lemma ChangeAppended(pushed: seq<seq<Address>>, addresses: seq<Address>)
    requires OnlyChanges(pushed) && Bag(addresses) != Bag(LastOr(pushed, []))
    ensures OnlyChanges(pushed + [addresses])
  {
    assert (pushed + [addresses])[..|pushed|] == pushed;
  }
}
