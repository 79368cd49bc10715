/** The round-robin connection pool with its wrapping 32-bit counter: conn.go. */
module RoundRobin {
  import opened Common
  import opened Division

  /** atomic.Uint32 counts modulo this. */
  const WRAP: nat := 0x1_0000_0000

  function Inc(idx: nat): nat { (idx + 1) % WRAP }

  class RoundRobinConnPool<Conn> {
    const conns: seq<Conn>
    var idx: nat

    ghost predicate Valid()
      reads this
    {
      idx < WRAP
    }

    constructor (conns: seq<Conn>)
      ensures Valid() && this.conns == conns && idx == 0
    {
      this.conns := conns;
      idx := 0;
    }

    /** None is the division-by-zero panic of a pool whose size is 0 in 32 bits; the counter has moved. */
    method Conn() returns (conn: Option<Conn>)
      requires Valid()
      modifies this
      ensures Valid() && idx == Inc(old(idx))
      ensures |conns| % WRAP == 0 <==> conn == None
      ensures |conns| % WRAP != 0 ==> conn == Some(conns[Inc(old(idx)) % (|conns| % WRAP)])
    {
      idx := Inc(idx);
      var n := |conns| % WRAP;
      if n == 0 {
        return None;
      }
      assert idx % n < n <= |conns|;
      conn := Some(conns[idx % n]);
    }

    /** Close of every connection, failures included; results[i] is what closing conns[i] returns. */
    method Close(results: seq<Option<string>>) returns (closed: seq<Conn>, err: Option<seq<string>>)
      requires |results| == |conns|
      ensures closed == conns
      ensures err == None <==> forall i :: 0 <= i < |results| ==> results[i] == None
      ensures err != None ==> CollectedFrom(err.value, results)
    {
      var errs: seq<string> := [];
      closed := [];
      for i := 0 to |conns|
        invariant closed == conns[..i]
        invariant errs == Failures(results[..i])
      {
        assert results[..i + 1] == results[..i] + [results[i]];
        closed := closed + [conns[i]];
        if results[i].Some? {
          errs := errs + [results[i].value];
        }
      }
      assert results[..|conns|] == results;
      FailuresIff(results, errs);
      NoFailuresIff(results);
      if errs != [] {
        return closed, Some(errs);
      }
      err := None;
    }
  }

  function Failures(results: seq<Option<string>>): seq<string> {
    if results == [] then []
    else
      var r := results[|results| - 1];
      Failures(results[..|results| - 1]) + if r.Some? then [r.value] else []
  }

  /** at lists exactly the connections whose Close failed, in order. */
  ghost predicate FailuresAt(results: seq<Option<string>>, at: seq<nat>) {
    && (forall k :: 0 <= k < |at| ==> at[k] < |results| && results[at[k]].Some?)
    && (forall j, k :: 0 <= j < k < |at| ==> at[j] < at[k])
    && (forall i :: 0 <= i < |results| && results[i].Some? ==> i in at)
  }

  /** errs are the failures at these positions. */
  ghost predicate Picked(errs: seq<string>, results: seq<Option<string>>, at: seq<nat>) {
    |errs| == |at| && forall k :: 0 <= k < |at| ==> at[k] < |results| && Some(errs[k]) == results[at[k]]
  }

  /** The errors that Close collects: those of the failing connections, each once, in their order. */
  ghost predicate CollectedFrom(errs: seq<string>, results: seq<Option<string>>) {
    exists at: seq<nat> :: FailuresAt(results, at) && Picked(errs, results, at)
  }

  lemma {:induction false} FailuresCollect(results: seq<Option<string>>) returns (at: seq<nat>)
    ensures FailuresAt(results, at) && Picked(Failures(results), results, at)
  {
    at := [];
    if results != [] {
      hide FailuresAt, Picked, Failures;
      var n := |results| - 1;
      at := FailuresCollect(results[..n]);
      assert results == results[..n] + [results[n]];
      FailuresSnoc(results[..n], at, Failures(results[..n]), results[n]);
      at := if results[n].Some? then at + [n] else at;
      FailuresStep(results[..n], results[n]);
    }
  }

  lemma FailuresStep(results: seq<Option<string>>, last: Option<string>)
    ensures Failures(results + [last]) == if last.Some? then Failures(results) + [last.value] else Failures(results)
  {
    assert (results + [last])[..|results|] == results;
    assert Failures(results) + [] == Failures(results);
  }

  lemma FailuresSnoc(results: seq<Option<string>>, at: seq<nat>, errs: seq<string>, last: Option<string>)
    requires FailuresAt(results, at) && Picked(errs, results, at)
    ensures var at' := if last.Some? then at + [|results|] else at;
            var errs' := if last.Some? then errs + [last.value] else errs;
            FailuresAt(results + [last], at') && Picked(errs', results + [last], at')
  {
    hide FailuresAt, Picked;
    FailuresAtSnoc(results, at, last);
    PickedSnoc(errs, results, at, last);
  }

  lemma FailuresAtSnoc(results: seq<Option<string>>, at: seq<nat>, last: Option<string>)
    requires FailuresAt(results, at)
    ensures FailuresAt(results + [last], if last.Some? then at + [|results|] else at)
  {
    var all, at' := results + [last], if last.Some? then at + [|results|] else at;
    forall i | 0 <= i < |all| && all[i].Some? ensures i in at' {
      if i < |results| {
        assert results[i] == all[i];
      } else {
        assert at'[|at|] == i;
      }
    }
  }

  lemma PickedSnoc(errs: seq<string>, results: seq<Option<string>>, at: seq<nat>, last: Option<string>)
    requires Picked(errs, results, at)
    ensures if last.Some? then Picked(errs + [last.value], results + [last], at + [|results|])
            else Picked(errs, results + [last], at)
  {
  }

  lemma {:induction false} FailuresAtIsUnique(results: seq<Option<string>>, a: seq<nat>, b: seq<nat>)
    requires FailuresAt(results, a) && FailuresAt(results, b)
    ensures a == b
  {
    if a != [] || b != [] {
      var last := if a != [] then a[|a| - 1] else b[|b| - 1];
      assert results[last].Some?;
      assert last in a && last in b;
      var x, y := a[|a| - 1], b[|b| - 1];
      assert x in b && y in a;
      assert x == y;
      FrontFails(results, a);
      FrontFails(results, b);
      FailuresAtIsUnique(results[..x], a[..|a| - 1], b[..|b| - 1]);
    }
  }

  lemma FrontFails(results: seq<Option<string>>, at: seq<nat>)
    requires FailuresAt(results, at) && at != []
    ensures FailuresAt(results[..at[|at| - 1]], at[..|at| - 1])
  {
    var last, front := at[|at| - 1], at[..|at| - 1];
    forall i | 0 <= i < last && results[i].Some? ensures i in front {
      var k :| 0 <= k < |at| && at[k] == i;
      assert front[k] == i;
    }
  }

  lemma CollectedIsUnique(results: seq<Option<string>>, a: seq<string>, b: seq<string>)
    requires CollectedFrom(a, results) && CollectedFrom(b, results)
    ensures a == b
  {
    hide FailuresAt;
    var p :| FailuresAt(results, p) && Picked(a, results, p);
    var q :| FailuresAt(results, q) && Picked(b, results, q);
    FailuresAtIsUnique(results, p, q);
    forall k | 0 <= k < |a| ensures a[k] == b[k] {
      assert Some(a[k]) == results[p[k]] == Some(b[k]);
    }
  }

  /** The collected errors, by position. */
  lemma FailuresIff(results: seq<Option<string>>, errs: seq<string>)
    ensures errs == Failures(results) <==> CollectedFrom(errs, results)
  {
    hide FailuresAt, Failures, Picked;
    var at := FailuresCollect(results);
    assert CollectedFrom(Failures(results), results);
    if CollectedFrom(errs, results) {
      CollectedIsUnique(results, errs, Failures(results));
    }
  }

  lemma NoFailuresIff(results: seq<Option<string>>)
    ensures Failures(results) == [] <==> forall i :: 0 <= i < |results| ==> results[i] == None
  {
    var at := FailuresCollect(results);
    assert at != [] ==> results[at[0]].Some?;
  }

  // ----- the picks of k consecutive calls -----

  /** The counter value the j-th call after counter c obtains. */
  function Ticket(c: nat, j: nat): nat { (c + 1 + j) % WRAP }

  function Picks(c: nat, k: nat, n: nat): (r: seq<nat>)
    requires n > 0
    ensures |r| == k
    ensures forall j :: 0 <= j < k ==> r[j] == Ticket(c, j) % n && r[j] < n
  {
    seq(k, j requires 0 <= j < k => Ticket(c, j) % n)
  }

  /** How often connection a is picked. */
  function Count(c: nat, k: nat, n: nat, a: nat): nat
    requires n > 0
  {
    multiset(Picks(c, k, n))[a]
  }

  /** How many of k calls from counter c wrap it to zero. */
  function Wraps(c: nat, k: nat): nat {
    if k == 0 then 0 else Wraps(c, k - 1) + if Ticket(c, k - 1) == 0 then 1 else 0
  }

  lemma {:induction false} WrapsClosed(c: nat, k: nat)
    requires c < WRAP
    ensures Wraps(c, k) == (c + k) / WRAP
  {
    if k > 0 {
      WrapsClosed(c, k - 1);
      DivModStep(c + k - 1, WRAP);
    }
  }

  /** Counter values below m that select connection a. */
  function Below(m: nat, n: nat, a: nat): nat
    requires n > 0
  {
    if m == 0 then 0 else Below(m - 1, n, a) + if (m - 1) % n == a then 1 else 0
  }

  lemma {:induction false} BelowClosed(m: nat, n: nat, a: nat)
    requires a < n
    ensures Below(m, n, a) == m / n + if a < m % n then 1 else 0
  {
    if m == 0 {
      DivModUnique(0, n, 0, 0);
    } else {
      BelowClosed(m - 1, n, a);
      DivModStep(m - 1, n);
    }
  }

  /** How many of the counter values 0..t, taken modulo the wrap, select connection a. */
  function Laps(t: nat, n: nat, a: nat): nat
    requires n > 0
  {
    (if t == 0 then 0 else Laps(t - 1, n, a)) + if t % WRAP % n == a then 1 else 0
  }

  lemma {:induction false} FirstLap(t: nat, n: nat, a: nat)
    requires n > 0 && t < WRAP
    ensures Laps(t, n, a) == Below(t + 1, n, a)
  {
    assert t % WRAP == t;
    if t > 0 {
      FirstLap(t - 1, n, a);
    }
  }

  /** Full laps of the counter, and the last partial lap. */
  lemma {:induction false} LapsClosed(t: nat, n: nat, a: nat)
    requires n > 0
    ensures Laps(t, n, a) == (t / WRAP) * Below(WRAP, n, a) + Below(t % WRAP + 1, n, a)
  {
    if t == 0 {
      FirstLap(0, n, a);
    } else {
      LapsClosed(t - 1, n, a);
      DivModStep(t - 1, WRAP);
      if t % WRAP == 0 {
        Distribute((t - 1) / WRAP, 1, Below(WRAP, n, a));
        FirstLap(0, n, a);
      }
    }
  }

  lemma CountStep(c: nat, k: nat, n: nat, a: nat)
    requires n > 0
    ensures Count(c, k + 1, n, a) == Count(c, k, n, a) + if Ticket(c, k) % n == a then 1 else 0
  {
    assert Picks(c, k + 1, n) == Picks(c, k, n) + [Ticket(c, k) % n];
  }

  /** Full laps of the counter, plus the last partial lap, minus what precedes the start. */
  lemma CountClosed(c: nat, k: nat, n: nat, a: nat)
    requires c < WRAP && n > 0
    ensures Count(c, k, n, a) + Below(c + 1, n, a)
         == ((c + k) / WRAP) * Below(WRAP, n, a) + Below((c + k) % WRAP + 1, n, a)
  {
    CountIsLaps(c, k, n, a);
    LapsClosed(c + k, n, a);
  }

  lemma {:induction false} CountIsLaps(c: nat, k: nat, n: nat, a: nat)
    requires c < WRAP && n > 0
    ensures Count(c, k, n, a) + Below(c + 1, n, a) == Laps(c + k, n, a)
  {
    if k == 0 {
      FirstLap(c, n, a);
    } else {
      CountIsLaps(c, k - 1, n, a);
      CountStep(c, k - 1, n, a);
    }
  }

  /** The lower-numbered connection of two is ahead by 0 or 1 below any counter value. */
  lemma BelowGap(m: nat, n: nat, a: nat, b: nat)
    requires a < b < n
    ensures 0 <= Below(m, n, a) - Below(m, n, b) <= 1
    ensures m % n == 0 ==> Below(m, n, a) == Below(m, n, b)
  {
    BelowClosed(m, n, a);
    BelowClosed(m, n, b);
  }

  lemma Scale(w: nat, x: nat, y: nat)
    requires 0 <= x - y <= 1
    ensures 0 <= w * x - w * y <= w
    ensures x == y ==> w * x == w * y
  {
    assert w * x - w * y == w * (x - y);
    if x != y { assert x - y == 1; }
  }

  /** Fairness: over any k calls crossing w wraps, two connections' picks differ by at most w + 1. */
  lemma Fairness(c: nat, k: nat, n: nat, a: nat, b: nat)
    requires c < WRAP && a < b < n < WRAP
    ensures -1 <= Count(c, k, n, a) - Count(c, k, n, b) <= Wraps(c, k) + 1
  {
    WrapsClosed(c, k);
    CountClosed(c, k, n, a);
    CountClosed(c, k, n, b);
    BelowGap(WRAP, n, a, b);
    BelowGap(c + 1, n, a, b);
    BelowGap((c + k) % WRAP + 1, n, a, b);
    Scale(Wraps(c, k), Below(WRAP, n, a), Below(WRAP, n, b));
  }

  /** Without a wrap every connection gets its exact share, rounded down or up. */
  lemma ExactShare(c: nat, k: nat, n: nat, a: nat)
    requires c < WRAP && a < n < WRAP && Wraps(c, k) == 0
    ensures Count(c, k, n, a) == k / n || (Count(c, k, n, a) == k / n + 1 && k % n != 0)
  {
    WrapsClosed(c, k);
    CountClosed(c, k, n, a);
    DivModUnique(c + k, WRAP, 0, c + k);
    BelowClosed(c + 1, n, a);
    BelowClosed(c + 1 + k, n, a);
    SumDivMod(c + 1, k, n);
  }

  /** No pair of connections ever differs by more than one pick, from any counter, over any number of calls. */
  ghost predicate Seamless(n: nat)
    requires n > 0
  {
    forall c: nat, k: nat, a: nat, b: nat :: c < WRAP && a < b < n ==> -1 <= Count(c, k, n, a) - Count(c, k, n, b) <= 1
  }

  /** The wrap is invisible exactly for pool sizes that divide 2^32. */
  lemma SeamlessIff(n: nat)
    requires 0 < n < WRAP
    ensures Seamless(n) <==> WRAP % n == 0
  {
    if WRAP % n == 0 {
      forall c: nat, k: nat, a: nat, b: nat | c < WRAP && a < b < n
        ensures -1 <= Count(c, k, n, a) - Count(c, k, n, b) <= 1
      {
        CountClosed(c, k, n, a);
        CountClosed(c, k, n, b);
        BelowGap(WRAP, n, a, b);
        BelowGap(c + 1, n, a, b);
        BelowGap((c + k) % WRAP + 1, n, a, b);
        Scale((c + k) / WRAP, Below(WRAP, n, a), Below(WRAP, n, b));
      }
    } else {
      TwoLapsDiffer(n);
      assert !(-1 <= Count(WRAP - 1, 2 * WRAP, n, 0) - Count(WRAP - 1, 2 * WRAP, n, n - 1) <= 1);
    }
  }

  /** Any other size: after two full laps the first connection is two picks ahead of the last. */
  lemma TwoLapsDiffer(n: nat)
    requires 0 < n < WRAP && WRAP % n != 0
    ensures n > 1 && Count(WRAP - 1, 2 * WRAP, n, 0) == Count(WRAP - 1, 2 * WRAP, n, n - 1) + 2
  {
    var c, k := WRAP - 1, 2 * WRAP;
    DivModUnique(WRAP, 1, WRAP, 0);
    CountClosed(c, k, n, 0);
    CountClosed(c, k, n, n - 1);
    DivModUnique(c + k, WRAP, 2, WRAP - 1);
    BelowClosed(WRAP, n, 0);
    BelowClosed(WRAP, n, n - 1);
  }

  // ----- concurrent callers -----

  /**
   Each call is two steps: the atomic increment, then the indexing with the value it obtained. `held`
   are the values of calls in between, `picked` the indices of finished calls.
   */
  datatype Pool = Pool(idx: nat, held: seq<nat>, picked: seq<nat>)

  datatype Action = Increment | Finish(j: nat)

  predicate Enabled(s: Pool, e: Action) {
    e.Finish? ==> e.j < |s.held|
  }

  function Act(s: Pool, e: Action, n: nat): Pool
    requires Enabled(s, e) && n > 0
  {
    match e
    case Increment => Pool(Inc(s.idx), s.held + [Inc(s.idx)], s.picked)
    case Finish(j) => Pool(s.idx, s.held[..j] + s.held[j + 1..], s.picked + [s.held[j] % n])
  }

  ghost predicate IsSchedule(states: seq<Pool>, actions: seq<Action>, c: nat, n: nat)
    requires n > 0
  {
    && |states| == |actions| + 1
    && states[0] == Pool(c, [], [])
    && forall i {:trigger actions[i]} :: 0 <= i < |actions| ==>
         Enabled(states[i], actions[i]) && states[i + 1] == Act(states[i], actions[i], n)
  }

  function Selected(held: seq<nat>, n: nat): seq<nat>
    requires n > 0
  {
    seq(|held|, i requires 0 <= i < |held| => held[i] % n)
  }

  function Increments(actions: seq<Action>): nat {
    if actions == [] then 0
    else Increments(actions[..|actions| - 1]) + if actions[|actions| - 1].Increment? then 1 else 0
  }

  ghost predicate Consistent(s: Pool, c: nat, k: nat, n: nat)
    requires n > 0
  {
    && s.idx == (c + k) % WRAP
    && multiset(s.picked) + multiset(Selected(s.held, n)) == multiset(Picks(c, k, n))
  }

  lemma IncrementKeeps(s: Pool, c: nat, k: nat, n: nat)
    requires n > 0 && Consistent(s, c, k, n)
    ensures Consistent(Act(s, Increment, n), c, k + 1, n)
  {
    var x := Ticket(c, k);
    NextTicket(c, k);
    SelectedAppend(s.held, x, n);
    assert Picks(c, k + 1, n) == Picks(c, k, n) + [x % n];
  }

  lemma NextTicket(c: nat, k: nat)
    ensures Inc((c + k) % WRAP) == Ticket(c, k) == (c + (k + 1)) % WRAP
  {
  }

  lemma SelectedAppend(held: seq<nat>, x: nat, n: nat)
    requires n > 0
    ensures Selected(held + [x], n) == Selected(held, n) + [x % n]
  {
  }

  lemma FinishKeeps(s: Pool, j: nat, c: nat, k: nat, n: nat)
    requires n > 0 && j < |s.held| && Consistent(s, c, k, n)
    ensures Consistent(Act(s, Finish(j), n), c, k, n)
  {
    var held := Selected(s.held, n);
    assert held == held[..j] + [held[j]] + held[j + 1..];
    assert Selected(s.held[..j] + s.held[j + 1..], n) == held[..j] + held[j + 1..];
  }

  /**
   However the callers interleave, finished picks and calls in flight together are the picks of the same
   number of consecutive calls; once nobody is in flight, the finished picks alone are.
   */
  lemma {:induction false} InterleavingKeepsPicks(states: seq<Pool>, actions: seq<Action>, c: nat, n: nat)
    requires n > 0 && c < WRAP && IsSchedule(states, actions, c, n)
    ensures Consistent(states[|actions|], c, Increments(actions), n)
    ensures states[|actions|].held == [] ==>
              multiset(states[|actions|].picked) == multiset(Picks(c, Increments(actions), n))
  {
    hide Consistent, IsSchedule, Act, Enabled, Picks, Selected, Increments;
    var m := |actions|;
    if m == 0 {
      ScheduleStart(states, actions, c, n);
    } else {
      IncrementsStep(actions);
      ScheduleStep(states, actions, c, n);
      InterleavingKeepsPicks(states[..m], actions[..m - 1], c, n);
      ActKeeps(states[m - 1], actions[m - 1], c, Increments(actions[..m - 1]), n);
    }
    ConsistentIdle(states[m], c, Increments(actions), n);
  }

  lemma ActKeeps(s: Pool, e: Action, c: nat, k: nat, n: nat)
    requires n > 0 && Enabled(s, e) && Consistent(s, c, k, n)
    ensures Consistent(Act(s, e, n), c, k + (if e.Increment? then 1 else 0), n)
  {
    hide Consistent, Act;
    match e
    case Increment => IncrementKeeps(s, c, k, n);
    case Finish(j) => FinishKeeps(s, j, c, k, n);
  }

  lemma ScheduleStart(states: seq<Pool>, actions: seq<Action>, c: nat, n: nat)
    requires n > 0 && c < WRAP && IsSchedule(states, actions, c, n) && actions == []
    ensures |states| == 1 && Increments(actions) == 0 && Consistent(states[0], c, 0, n)
  {
    assert Selected([], n) == [] && Picks(c, 0, n) == [];
  }

  lemma IncrementsStep(actions: seq<Action>)
    requires actions != []
    ensures Increments(actions)
         == Increments(actions[..|actions| - 1]) + if actions[|actions| - 1].Increment? then 1 else 0
  {
  }

  lemma ScheduleStep(states: seq<Pool>, actions: seq<Action>, c: nat, n: nat)
    requires n > 0 && IsSchedule(states, actions, c, n) && actions != []
    ensures var m := |actions|;
            |states| == m + 1 && IsSchedule(states[..m], actions[..m - 1], c, n) &&
            Enabled(states[m - 1], actions[m - 1]) && states[m] == Act(states[m - 1], actions[m - 1], n)
  {
  }

  lemma ConsistentIdle(s: Pool, c: nat, k: nat, n: nat)
    requires n > 0 && Consistent(s, c, k, n)
    ensures s.held == [] ==> multiset(s.picked) == multiset(Picks(c, k, n))
  {
    assert s.held == [] ==> Selected(s.held, n) == [];
  }
}
