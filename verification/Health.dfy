/** The two Watch streams: server/health.go and server/connectrpc/health.go. */
module Health {
  import opened Common

  datatype ServingStatus = Unknown | Serving | NotServing | ServiceUnknown

  /** What a health check returns: ready or not, or an error. */
  datatype Check = Ready(isReady: bool) | CheckFailed(error: string)

  function HealthStatus(check: Check): (r: ServingStatus)
    ensures r != Unknown
  {
    match check
    case CheckFailed(_) => ServiceUnknown
    case Ready(isReady) => if isReady then Serving else NotServing
  }

  /** The initial status the loop compares with, in the gRPC and in the Connect handler. */
  const GRPC_INITIAL := ServiceUnknown
  const CONNECT_INITIAL := Unknown

  /** One turn of the select: the stream's context is done, or the timer fired and a check ran. */
  datatype Turn = Done | Tick(check: Check, sendOk: bool)

  datatype Exit = Running | ReturnedNil | ReturnedSendError

  /** Messages delivered and how Watch ends, from status `current`. */
  function Stream(current: ServingStatus, turns: seq<Turn>): (seq<ServingStatus>, Exit)
    decreases |turns|
  {
    if turns == [] then ([], Running)
    else
      match turns[0]
      case Done => ([], ReturnedNil)
      case Tick(check, sendOk) =>
        var status := HealthStatus(check);
        if status == current then Stream(current, turns[1..])
        else if !sendOk then ([], ReturnedSendError)
        else
          var (sent, exit) := Stream(status, turns[1..]);
          ([status] + sent, exit)
  }

  /** Watch, run on the environment's choices; `waits` are the timer durations in seconds. */
  method Watch(initial: ServingStatus, turns: seq<Turn>)
    returns (sent: seq<ServingStatus>, exit: Exit, waits: seq<nat>)
    ensures (sent, exit) == Stream(initial, turns)
    ensures forall i :: 0 <= i < |waits| ==> waits[i] == if i == 0 then 0 else 5
  {
    var currentStatus := initial;
    var waitTime := 0;
    sent := [];
    waits := [];
    for k := 0 to |turns|
      invariant Stream(initial, turns).0 == sent + Stream(currentStatus, turns[k..]).0
      invariant Stream(initial, turns).1 == Stream(currentStatus, turns[k..]).1
      invariant waitTime == if waits == [] then 0 else 5
      invariant forall i :: 0 <= i < |waits| ==> waits[i] == if i == 0 then 0 else 5
    {
      assert turns[k..][0] == turns[k] && turns[k..][1..] == turns[k + 1..];
      waits := waits + [waitTime];
      match turns[k] {
        case Done =>
          assert Stream(initial, turns).0 == sent;
          exit := ReturnedNil;
          return;
        case Tick(check, sendOk) =>
          var newStatus := HealthStatus(check);
          waitTime := 5;
          if newStatus != currentStatus {
            currentStatus := newStatus;
            if !sendOk {
              assert Stream(initial, turns).0 == sent;
              exit := ReturnedSendError;
              return;
            }
            sent := sent + [currentStatus];
          }
      }
    }
    assert Stream(initial, turns).0 == sent;
    exit := Running;
  }

  // ----- what the stream means -----

  /** The statuses checked before the context is done. */
  function Statuses(turns: seq<Turn>): (r: seq<ServingStatus>)
    ensures Unknown !in r
  {
    if turns == [] || turns[0].Done? then [] else [HealthStatus(turns[0].check)] + Statuses(turns[1..])
  }

  /** Adjacent repeats removed, the first compared with `current`. */
  function Dedup(current: ServingStatus, s: seq<ServingStatus>): seq<ServingStatus>
    decreases |s|
  {
    if s == [] then []
    else if s[0] == current then Dedup(current, s[1..])
    else [s[0]] + Dedup(s[0], s[1..])
  }

  predicate SendsSucceed(turns: seq<Turn>) {
    forall k :: 0 <= k < |turns| && turns[k].Tick? ==> turns[k].sendOk
  }

  /** The stream is the de-duplicated statuses, and a send error only cuts it short. */
  lemma {:induction false} StreamIsDedup(current: ServingStatus, turns: seq<Turn>)
    ensures Stream(current, turns).0 <= Dedup(current, Statuses(turns))
    ensures Stream(current, turns).1 != ReturnedSendError ==> Stream(current, turns).0 == Dedup(current, Statuses(turns))
    ensures Stream(current, turns).1 == ReturnedSendError ==> Stream(current, turns).0 < Dedup(current, Statuses(turns))
    ensures SendsSucceed(turns) ==> Stream(current, turns).1 != ReturnedSendError
    decreases |turns|
  {
    if turns != [] && turns[0].Tick? {
      var status := HealthStatus(turns[0].check);
      assert Statuses(turns)[1..] == Statuses(turns[1..]);
      StreamIsDedup(if status == current then current else status, turns[1..]);
    }
  }

  /** No turn before k ends the stream by its context. */
  predicate NoDone(turns: seq<Turn>, k: nat)
    requires k <= |turns|
  {
    forall j :: 0 <= j < k ==> turns[j].Tick?
  }

  /** Turn k is reached by its context, changes the status, and cannot be sent. */
  predicate SendFails(current: ServingStatus, turns: seq<Turn>, k: nat)
    requires k < |turns|
  {
    NoDone(turns, k + 1) && !turns[k].sendOk && HealthStatus(turns[k].check) != LastOr(Statuses(turns[..k]), current)
  }

  /** No send fails before turn k. */
  ghost predicate NoSendFails(current: ServingStatus, turns: seq<Turn>, k: nat)
    requires k <= |turns|
  {
    forall j :: 0 <= j < k ==> !SendFails(current, turns, j)
  }

  /** How a stream ends, by the turn that ends it. */
  ghost predicate Ends(current: ServingStatus, turns: seq<Turn>, sent: seq<ServingStatus>, exit: Exit) {
    match exit
    case ReturnedSendError =>
      exists k :: 0 <= k < |turns| && SendFails(current, turns, k) && NoSendFails(current, turns, k) &&
                  sent == Dedup(current, Statuses(turns[..k]))
    case ReturnedNil =>
      exists k :: 0 <= k < |turns| && turns[k].Done? && NoDone(turns, k) && NoSendFails(current, turns, k) &&
                  sent == Dedup(current, Statuses(turns[..k]))
    case Running =>
      NoDone(turns, |turns|) && NoSendFails(current, turns, |turns|) && sent == Dedup(current, Statuses(turns))
  }

  lemma StatusesCons(turns: seq<Turn>, k: nat)
    requires 0 < k <= |turns| && turns[0].Tick?
    ensures Statuses(turns[..k]) == [HealthStatus(turns[0].check)] + Statuses(turns[1..][..k - 1])
    ensures forall c: ServingStatus ::
              LastOr(Statuses(turns[..k]), c) == LastOr(Statuses(turns[1..][..k - 1]), HealthStatus(turns[0].check))
  {
    assert turns[..k][1..] == turns[1..][..k - 1];
  }

  lemma SendFailsCons(current: ServingStatus, turns: seq<Turn>, k: nat)
    requires 0 < k < |turns| && turns[0].Tick?
    ensures SendFails(current, turns, k) <==> SendFails(HealthStatus(turns[0].check), turns[1..], k - 1)
  {
    StatusesCons(turns, k);
    NoDoneCons(turns, k + 1);
  }

  lemma NoDoneCons(turns: seq<Turn>, k: nat)
    requires 0 < k <= |turns| && turns[0].Tick?
    ensures NoDone(turns, k) <==> NoDone(turns[1..], k - 1)
  {
    if NoDone(turns[1..], k - 1) {
      forall j | 0 <= j < k ensures turns[j].Tick? {
        if j > 0 { assert turns[1..][j - 1].Tick?; }
      }
    }
  }

  lemma NoSendFailsCons(current: ServingStatus, turns: seq<Turn>, k: nat)
    requires 0 < k <= |turns| && turns[0].Tick? && !SendFails(current, turns, 0)
    requires NoSendFails(HealthStatus(turns[0].check), turns[1..], k - 1)
    ensures NoSendFails(current, turns, k)
  {
    forall j | 0 <= j < k ensures !SendFails(current, turns, j) {
      if j > 0 {
        SendFailsCons(current, turns, j);
      }
    }
  }

  lemma DedupCons(current: ServingStatus, turns: seq<Turn>, k: nat)
    requires 0 < k <= |turns| && turns[0].Tick?
    ensures var status := HealthStatus(turns[0].check);
            Dedup(current, Statuses(turns[..k]))
            == (if status == current then [] else [status]) + Dedup(status, Statuses(turns[1..][..k - 1]))
  {
    StatusesCons(turns, k);
  }

  /** What is sent and how the stream ends, for every script, by the turn that ends it. */
  lemma {:induction false} StreamEnds(current: ServingStatus, turns: seq<Turn>)
    ensures Ends(current, turns, Stream(current, turns).0, Stream(current, turns).1)
    decreases |turns|
  {
    hide SendFails, Statuses, Dedup, NoSendFails;
    FirstTurnFails(current, turns);
    assert turns[..|turns|] == turns;
    if turns != [] && turns[0].Tick? && !SendFails(current, turns, 0) {
      var status, rest := HealthStatus(turns[0].check), turns[1..];
      StreamEnds(status, rest);
      var (sent, exit) := Stream(status, rest);
      var n := |turns|;
      if exit == Running {
        n := |rest|;
        assert rest[..n] == rest;
      } else if exit == ReturnedNil {
        n :| 0 <= n < |rest| && rest[n].Done? && NoDone(rest, n) && NoSendFails(status, rest, n) &&
             sent == Dedup(status, Statuses(rest[..n]));
      } else {
        n :| 0 <= n < |rest| && SendFails(status, rest, n) && NoSendFails(status, rest, n) &&
             sent == Dedup(status, Statuses(rest[..n]));
        SendFailsCons(current, turns, n + 1);
      }
      NoDoneCons(turns, n + 1);
      NoSendFailsCons(current, turns, n + 1);
      DedupCons(current, turns, n + 1);
    }
  }

  lemma FirstTurnFails(current: ServingStatus, turns: seq<Turn>)
    ensures NoSendFails(current, turns, 0) && Dedup(current, Statuses(turns[..0])) == []
    ensures turns != [] && turns[0].Tick? ==>
              (SendFails(current, turns, 0) <==> !turns[0].sendOk && HealthStatus(turns[0].check) != current)
  {
  }

  predicate NoRepeats(s: seq<ServingStatus>) {
    forall k :: 0 <= k < |s| - 1 ==> s[k] != s[k + 1]
  }

  /** s is t with every element repeated one or more times. */
  predicate StutterOf(t: seq<ServingStatus>, s: seq<ServingStatus>) {
    if t == [] || s == [] then t == s
    else s[0] == t[0] && (StutterOf(t, s[1..]) || StutterOf(t[1..], s[1..]))
  }

  lemma {:induction false} DedupStutters(current: ServingStatus, s: seq<ServingStatus>)
    ensures NoRepeats([current] + Dedup(current, s))
    ensures StutterOf([current] + Dedup(current, s), [current] + s)
    decreases |s|
  {
    var t := Dedup(current, s);
    assert ([current] + s)[1..] == s && ([current] + t)[1..] == t;
    if s == [] {
      assert StutterOf([current], [current]);
    } else {
      assert s == [s[0]] + s[1..];
      if s[0] == current {
        DedupStutters(current, s[1..]);
      } else {
        DedupStutters(s[0], s[1..]);
        assert t == [s[0]] + Dedup(s[0], s[1..]);
      }
    }
  }

  lemma {:induction false} StutterFreeIsUnique(a: seq<ServingStatus>, b: seq<ServingStatus>, s: seq<ServingStatus>)
    requires NoRepeats(a) && NoRepeats(b) && StutterOf(a, s) && StutterOf(b, s)
    ensures a == b
  {
    if a != [] && b != [] && s != [] {
      assert a == [a[0]] + a[1..] && b == [b[0]] + b[1..];
      if StutterOf(a, s[1..]) && StutterOf(b, s[1..]) {
        StutterFreeIsUnique(a, b, s[1..]);
      } else if StutterOf(a[1..], s[1..]) && StutterOf(b[1..], s[1..]) {
        StutterFreeIsUnique(a[1..], b[1..], s[1..]);
      } else if StutterOf(a, s[1..]) {
        StutterFreeIsUnique(a, b[1..], s[1..]);
      } else {
        StutterFreeIsUnique(a[1..], b, s[1..]);
      }
    }
  }

  /** De-duplication without recursion: the only repeat-free sequence the observed statuses stutter. */
  lemma DedupIff(current: ServingStatus, s: seq<ServingStatus>, t: seq<ServingStatus>)
    ensures t == Dedup(current, s) <==> NoRepeats([current] + t) && StutterOf([current] + t, [current] + s)
  {
    DedupStutters(current, s);
    if NoRepeats([current] + t) && StutterOf([current] + t, [current] + s) {
      StutterFreeIsUnique([current] + t, [current] + Dedup(current, s), [current] + s);
      assert t == ([current] + t)[1..] && Dedup(current, s) == ([current] + Dedup(current, s))[1..];
    }
  }

  /** What is sent never depends on later checks, and the next part starts from the last status seen. */
  lemma {:induction false} DedupConcat(current: ServingStatus, a: seq<ServingStatus>, b: seq<ServingStatus>)
    ensures Dedup(current, a + b) == Dedup(current, a) + Dedup(LastOr(a, current), b)
    decreases |a|
  {
    if a == [] {
      assert a + b == b;
    } else {
      assert (a + b)[1..] == a[1..] + b;
      DedupConcat(a[0], a[1..], b);
      assert LastOr(a, current) == LastOr(a[1..], a[0]);
    }
  }

  /** A client that keeps the last message knows the last status checked, after every check. */
  lemma ClientAgrees(current: ServingStatus, s: seq<ServingStatus>, k: nat)
    requires k <= |s|
    ensures Dedup(current, s[..k]) <= Dedup(current, s)
    ensures LastOr(Dedup(current, s[..k]), current) == LastOr(s[..k], current)
  {
    assert s == s[..k] + s[k..];
    DedupConcat(current, s[..k], s[k..]);
    DedupLast(current, s[..k]);
  }

  lemma {:induction false} DedupLast(current: ServingStatus, s: seq<ServingStatus>)
    ensures LastOr(Dedup(current, s), current) == LastOr(s, current)
    decreases |s|
  {
    if s != [] {
      DedupLast(s[0], s[1..]);
    }
  }

  /**
   The two handlers agree on the same checks, except that the Connect stream opens with SERVICE_UNKNOWN
   exactly when the first check fails; the gRPC stream says nothing then.
   */
  lemma {:induction false} StreamsAgree(turns: seq<Turn>)
    requires SendsSucceed(turns)
    ensures var failsFirst := turns != [] && turns[0].Tick? && turns[0].check.CheckFailed?;
            Stream(CONNECT_INITIAL, turns).0
            == (if failsFirst then [ServiceUnknown] else []) + Stream(GRPC_INITIAL, turns).0
    ensures Stream(CONNECT_INITIAL, turns).1 == Stream(GRPC_INITIAL, turns).1
  {
    StreamIsDedup(CONNECT_INITIAL, turns);
    StreamIsDedup(GRPC_INITIAL, turns);
    ExitIgnoresStatus(CONNECT_INITIAL, GRPC_INITIAL, turns);
    var s := Statuses(turns);
    if s != [] {
      assert s == [HealthStatus(turns[0].check)] + Statuses(turns[1..]);
    }
  }

  lemma {:induction false} ExitIgnoresStatus(c1: ServingStatus, c2: ServingStatus, turns: seq<Turn>)
    requires SendsSucceed(turns)
    ensures Stream(c1, turns).1 == Stream(c2, turns).1
    decreases |turns|
  {
    if turns != [] && turns[0].Tick? {
      var status := HealthStatus(turns[0].check);
      ExitIgnoresStatus(if status == c1 then c1 else status, if status == c2 then c2 else status, turns[1..]);
    }
  }
}

/** The standard server's Watch while the server terminates: healthCheck in server/standard/server.go. */
module Termination {
  import opened Common
  import opened Health

  /** healthCheck: a terminating server is not ready, whatever the user's check would say. */
  function ServerCheck(terminating: bool, user: Option<Check>): Check {
    if terminating then Ready(false)
    else
      match user
      case None => CheckFailed("health check is not set")
      case Some(check) => check
  }

  /** A check reads the shutter when it begins; the server may start terminating before it ends. */
  datatype Phase = Waiting | Checking(sawTerminating: bool) | Ended

  datatype Watcher = Watcher(terminating: bool, phase: Phase, current: ServingStatus, sent: seq<ServingStatus>)

  datatype Event =
    | Terminate
    | Begin
    | Finish(user: Option<Check>, sendOk: bool)
    | Cancel

  predicate Enabled(w: Watcher, e: Event) {
    match e
    case Terminate => true
    case Begin => w.phase == Waiting
    case Finish(_, _) => w.phase.Checking?
    case Cancel => w.phase == Waiting
  }

  function Step(w: Watcher, e: Event): Watcher
    requires Enabled(w, e)
  {
    match e
    case Terminate => w.(terminating := true)
    case Begin => w.(phase := Checking(w.terminating))
    case Cancel => w.(phase := Ended)
    case Finish(user, sendOk) =>
      var status := HealthStatus(ServerCheck(w.phase.sawTerminating, user));
      if status == w.current then w.(phase := Waiting)
      else if !sendOk then w.(phase := Ended, current := status)
      else w.(phase := Waiting, current := status, sent := w.sent + [status])
  }

  /** Enabled steps one after another, starting in w. */
  ghost predicate Continues(w: Watcher, states: seq<Watcher>, events: seq<Event>) {
    && |states| == |events| + 1
    && states[0] == w
    && forall k {:trigger events[k]} :: 0 <= k < |events| ==>
         Enabled(states[k], events[k]) && states[k + 1] == Step(states[k], events[k])
  }

  const FRESH := Watcher(false, Waiting, GRPC_INITIAL, [])

  ghost predicate IsRun(states: seq<Watcher>, events: seq<Event>) {
    Continues(FRESH, states, events)
  }

  /** A check that began before the server started terminating is still running. */
  predicate Stale(w: Watcher) {
    w.terminating && w.phase == Checking(false)
  }

  /** What can have been sent since w, the server having been terminating all along. */
  predicate FinalWords(w: Watcher, w': Watcher) {
    && w'.terminating
    && w.sent <= w'.sent
    && var said := w'.sent[|w.sent|..];
       if !Stale(w) then
         !Stale(w') && ((said == [] && w'.current == w.current)
                        || (w'.current == NotServing && (said == [] || said == [NotServing])))
       else if Stale(w') then said == [] && w'.current == w.current
       else
         || (|said| <= 1)
         || (w'.current == NotServing && |said| == 2 && said[1] == NotServing)
  }

  lemma FinalWordsStep(w: Watcher, v: Watcher, e: Event)
    requires FinalWords(w, v) && Enabled(v, e)
    ensures FinalWords(w, Step(v, e))
  {
    var v' := Step(v, e);
    if v'.sent != v.sent {
      assert v'.sent[|w.sent|..] == v.sent[|w.sent|..] + [v'.current];
    }
  }

  lemma {:induction false} FinalWordsHold(w: Watcher, states: seq<Watcher>, events: seq<Event>, t: nat, k: nat)
    requires Continues(w, states, events) && t <= k <= |events| && states[t].terminating
    ensures FinalWords(states[t], states[k])
  {
    if t < k {
      FinalWordsHold(w, states, events, t, k - 1);
      FinalWordsStep(states[t], states[k - 1], events[k - 1]);
    }
  }

  /** Whatever happens from w on, Watch sends at most one more message, NOT_SERVING. */
  ghost predicate Absorbing(w: Watcher) {
    forall states: seq<Watcher>, events: seq<Event> | Continues(w, states, events) ::
      var w' := states[|events|];
      w.sent <= w'.sent && (w'.sent == w.sent || w'.sent == w.sent + [NotServing])
  }

  /**
   Termination is absorbing from exactly the moments at which no older check is in flight: then at most one
   message follows, NOT_SERVING, whatever the user's check returns, and otherwise the older check can speak.
   */
  lemma AbsorbingIff(w: Watcher)
    requires w.terminating
    ensures Absorbing(w) <==> !Stale(w)
  {
    if Stale(w) {
      var states, events := StaleCheckSpeaks(w);
      assert Continues(w, states, events);
      assert |states[|events|].sent| == |w.sent| + 2;
    } else {
      forall states: seq<Watcher>, events: seq<Event> | Continues(w, states, events)
        ensures var w' := states[|events|];
                w.sent <= w'.sent && (w'.sent == w.sent || w'.sent == w.sent + [NotServing])
      {
        var w' := states[|events|];
        FinalWordsHold(w, states, events, 0, |events|);
        assert w'.sent == w.sent + w'.sent[|w.sent|..];
      }
    }
  }

  /** From every moment with an older check in flight, a message of its own and then NOT_SERVING can follow. */
  lemma StaleCheckSpeaks(w: Watcher) returns (states: seq<Watcher>, events: seq<Event>)
    requires Stale(w)
    ensures Continues(w, states, events)
    ensures exists status :: status != NotServing && states[|events|].sent == w.sent + [status, NotServing]
  {
    var user := Some(if w.current == Serving then CheckFailed("") else Ready(true));
    events := [Finish(user, true), Begin, Finish(user, true)];
    var w1 := Step(w, events[0]);
    var w2 := Step(w1, events[1]);
    var w3 := Step(w2, events[2]);
    states := [w, w1, w2, w3];
    assert w3.sent == w.sent + [w1.current, NotServing];
  }

  /** In every run, after termination began: never more than the older check's message and one NOT_SERVING. */
  lemma TerminationIsAbsorbing(states: seq<Watcher>, events: seq<Event>, t: nat, k: nat)
    requires IsRun(states, events) && t <= k <= |events| && states[t].terminating
    ensures states[t].sent <= states[k].sent
    ensures var said := states[k].sent[|states[t].sent|..];
            if Stale(states[t]) then |said| <= 1 || (|said| == 2 && said[1] == NotServing)
            else said == [] || said == [NotServing]
  {
    FinalWordsHold(FRESH, states, events, t, k);
  }

  /** Such a moment is reached: a run in which SERVING is sent after termination began, then NOT_SERVING. */
  lemma StaleCheckSpeaksOnce() returns (states: seq<Watcher>, events: seq<Event>)
    ensures IsRun(states, events) && |events| == 5
    ensures Stale(states[2]) && states[2].sent == [] && states[5].sent == [Serving, NotServing]
  {
    events := [Begin, Terminate, Finish(Some(Ready(true)), true), Begin, Finish(Some(Ready(true)), true)];
    var s1 := Step(FRESH, events[0]);
    var s2 := Step(s1, events[1]);
    var s3 := Step(s2, events[2]);
    var s4 := Step(s3, events[3]);
    var s5 := Step(s4, events[4]);
    states := [FRESH, s1, s2, s3, s4, s5];
  }

  /** The check in flight before event k began at `begun`. */
  ghost predicate BegunAt(events: seq<Event>, k: nat, begun: nat)
    requires k <= |events|
  {
    && begun < k && events[begun] == Begin
    && (forall m :: begun < m < k ==> !events[m].Begin? && !events[m].Finish?)
  }

  /** A check in flight points at its begin, and saw termination exactly if that came earlier. */
  lemma {:induction false} CheckingHasBegin(states: seq<Watcher>, events: seq<Event>, k: nat) returns (begun: nat)
    requires IsRun(states, events) && k <= |events| && states[k].phase.Checking?
    ensures BegunAt(events, k, begun)
    ensures states[k].phase.sawTerminating <==> exists m :: 0 <= m < begun && events[m] == Terminate
  {
    if events[k - 1] == Begin {
      begun := k - 1;
      TerminatingIff(states, events, k - 1);
    } else {
      begun := CheckingHasBegin(states, events, k - 1);
    }
  }

  lemma {:induction false} TerminatingIff(states: seq<Watcher>, events: seq<Event>, k: nat)
    requires IsRun(states, events) && k <= |events|
    ensures states[k].terminating <==> exists m :: 0 <= m < k && events[m] == Terminate
  {
    if k > 0 {
      TerminatingIff(states, events, k - 1);
      assert Enabled(states[k - 1], events[k - 1]) && states[k] == Step(states[k - 1], events[k - 1]);
      assert states[k].terminating <==> states[k - 1].terminating || events[k - 1] == Terminate;
    }
  }

  /**
   What every finished check makes the status, in every run: NOT_SERVING when termination began before
   the check did, whatever the user's check returns; else what the user's check says, SERVICE_UNKNOWN when
   it fails or is missing.
   */
  lemma CheckedStatusIff(states: seq<Watcher>, events: seq<Event>, k: nat) returns (begun: nat)
    requires IsRun(states, events) && k < |events| && events[k].Finish?
    ensures BegunAt(events, k, begun)
    ensures var status, user := states[k + 1].current, events[k].user;
            var seen := exists m :: 0 <= m < begun && events[m] == Terminate;
            && (status == NotServing <==> seen || user == Some(Ready(false)))
            && (status == Serving <==> !seen && user == Some(Ready(true)))
            && (status == ServiceUnknown <==> !seen && (user == None || user.value.CheckFailed?))
            && states[k + 1].sent ==
               if status != states[k].current && events[k].sendOk then states[k].sent + [status] else states[k].sent
  {
    begun := CheckingHasBegin(states, events, k);
  }

  /** The stream a run sends is the de-duplication of the statuses its finished checks had. */
  function Finished(states: seq<Watcher>, events: seq<Event>): seq<ServingStatus>
    requires |states| >= |events|
  {
    if events == [] then []
    else
      var k := |events| - 1;
      Finished(states, events[..k]) +
      if events[k].Finish? && states[k].phase.Checking? then
        [FinishStatus(states[k], events[k])]
      else []
  }

  lemma {:induction false} RunIsDedup(states: seq<Watcher>, events: seq<Event>, k: nat)
    requires IsRun(states, events) && k <= |events|
    requires forall m :: 0 <= m < k && events[m].Finish? ==> events[m].sendOk
    ensures states[k].sent == Dedup(GRPC_INITIAL, Finished(states, events[..k]))
    ensures states[k].current == LastOr(Finished(states, events[..k]), GRPC_INITIAL)
  {
    if k > 0 {
      hide Step, Enabled, Dedup, HealthStatus, Finished, FinishStatus, Continues;
      RunIsDedup(states, events, k - 1);
      var before := Finished(states, events[..k - 1]);
      FinishedSnoc(states, events, k);
      FinishStep(states, events, k - 1);
      if events[k - 1].Finish? {
        var status := FinishStatus(states[k - 1], events[k - 1]);
        DedupConcat(GRPC_INITIAL, before, [status]);
        assert LastOr(before + [status], GRPC_INITIAL) == status;
      } else {
        assert before + [] == before;
      }
    } else {
      assert events[..0] == [];
    }
  }

  function FinishStatus(w: Watcher, e: Event): ServingStatus
    requires e.Finish? && w.phase.Checking?
  {
    HealthStatus(ServerCheck(w.phase.sawTerminating, e.user))
  }

  lemma FinishedSnoc(states: seq<Watcher>, events: seq<Event>, k: nat)
    requires 0 < k <= |events| <= |states|
    ensures Finished(states, events[..k])
         == Finished(states, events[..k - 1]) +
            if events[k - 1].Finish? && states[k - 1].phase.Checking? then [FinishStatus(states[k - 1], events[k - 1])]
            else []
  {
    assert events[..k][..k - 1] == events[..k - 1];
  }

  /** The turns of the Watch loop that a run's events are. */
  function TurnsOf(states: seq<Watcher>, events: seq<Event>): seq<Turn>
    requires |states| >= |events|
  {
    if events == [] then []
    else
      var k := |events| - 1;
      TurnsOf(states, events[..k]) +
      match events[k]
      case Finish(user, sendOk) =>
        if states[k].phase.Checking? then [Tick(ServerCheck(states[k].phase.sawTerminating, user), sendOk)] else []
      case Cancel => [Done]
      case _ => []
  }

  lemma {:induction false} StatusesSnoc(turns: seq<Turn>, turn: Turn)
    requires NoDone(turns, |turns|)
    ensures Statuses(turns + [turn]) == Statuses(turns) + if turn.Tick? then [HealthStatus(turn.check)] else []
  {
    if turns != [] {
      assert (turns + [turn])[1..] == turns[1..] + [turn];
      StatusesSnoc(turns[1..], turn);
    }
  }

  /** One more turn of a stream that is still running. */
  lemma {:induction false} StreamSnoc(current: ServingStatus, turns: seq<Turn>, turn: Turn)
    requires Stream(current, turns).1 == Running
    ensures var sent, status := Stream(current, turns).0, LastOr(Statuses(turns), current);
            Stream(current, turns + [turn]) ==
            match turn
            case Done => (sent, ReturnedNil)
            case Tick(check, sendOk) =>
              if HealthStatus(check) == status then (sent, Running)
              else if sendOk then (sent + [HealthStatus(check)], Running)
              else (sent, ReturnedSendError)
    decreases |turns|
  {
    if turns == [] {
      assert turns + [turn] == [turn] && [turn][1..] == [];
      assert turn.Tick? ==> [HealthStatus(turn.check)] + [] == [] + [HealthStatus(turn.check)];
    } else {
      assert (turns + [turn])[1..] == turns[1..] + [turn];
      var first, rest := HealthStatus(turns[0].check), turns[1..];
      StreamSnoc(first, rest, turn);
      assert turns[..|turns|] == turns && rest[..|rest|] == rest;
      StatusesCons(turns, |turns|);
      var sent := Stream(first, rest).0;
      assert turn.Tick? ==> [first] + sent + [HealthStatus(turn.check)] == [first] + (sent + [HealthStatus(turn.check)]);
    }
  }

  /**
   The terminating server's Watch is the loop: what it has sent and whether it has ended are what the
   loop gives on the turns so far.
   */
  lemma {:induction false} RunIsStream(states: seq<Watcher>, events: seq<Event>, k: nat)
    requires IsRun(states, events) && k <= |events|
    ensures var turns := TurnsOf(states, events[..k]);
            && states[k].sent == Stream(GRPC_INITIAL, turns).0
            && (states[k].phase != Ended <==> Stream(GRPC_INITIAL, turns).1 == Running)
            && (states[k].phase != Ended ==> states[k].current == LastOr(Statuses(turns), GRPC_INITIAL))
  {
    if k > 0 {
      hide Stream, Statuses, HealthStatus;
      RunIsStream(states, events, k - 1);
      assert events[..k][..k - 1] == events[..k - 1];
      var turns := TurnsOf(states, events[..k - 1]);
      var e := events[k - 1];
      assert Enabled(states[k - 1], e) && states[k] == Step(states[k - 1], e);
      if e.Finish? || e.Cancel? {
        var turn := if e.Cancel? then Done else Tick(ServerCheck(states[k - 1].phase.sawTerminating, e.user), e.sendOk);
        assert TurnsOf(states, events[..k]) == turns + [turn];
        StreamSnoc(GRPC_INITIAL, turns, turn);
        RunningNoDone(GRPC_INITIAL, turns);
        StatusesSnoc(turns, turn);
      } else {
        assert TurnsOf(states, events[..k]) == turns + [] == turns;
      }
    }
  }

  lemma RunningNoDone(current: ServingStatus, turns: seq<Turn>)
    requires Stream(current, turns).1 == Running
    ensures NoDone(turns, |turns|)
  {
    StreamEnds(current, turns);
  }

  /** A step of the watcher, on what it sends and the status it keeps. */
  lemma FinishStep(states: seq<Watcher>, events: seq<Event>, m: nat)
    requires IsRun(states, events) && m < |events|
    requires events[m].Finish? ==> events[m].sendOk
    ensures if events[m].Finish? then
              states[m].phase.Checking? &&
              var status := FinishStatus(states[m], events[m]);
              states[m + 1].current == status &&
              states[m + 1].sent == states[m].sent + Dedup(states[m].current, [status])
            else states[m + 1].current == states[m].current && states[m + 1].sent == states[m].sent
  {
    assert Enabled(states[m], events[m]) && states[m + 1] == Step(states[m], events[m]);
    assert forall c: ServingStatus :: Dedup(c, []) == [];
  }
}
