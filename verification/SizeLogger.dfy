/** The windowed payload statistics: size_logger.go. */
module SizeLogger {
  import opened Common
  import opened Division

  /**
   One received payload with the clock readings HandleRPC takes, in order: `started` for a new window's
   start, `checked` for the wait, `received` for the receipt, `closed` at a report.
   */
  datatype Payload = Payload(
    length: nat, compressedLength: nat, wireLength: nat,
    started: int, checked: int, received: int, closed: int)

  datatype RPCStats = InPayload(payload: Payload) | Other

  /** What the log line of a full window carries. */
  datatype Report = Report(count: nat, uncompressed: nat, compressed: nat, waited: int, duration: int)

  /** The handler's accumulators; `start` only means something while a window is open. */
  datatype Totals = Totals(
    count: nat, uncompressed: nat, compressed: nat, wire: nat, start: int, lastReceived: Option<int>, waited: int)

  /** A time.Duration is a 64-bit count of nanoseconds. */
  const LONGEST := 0x7FFF_FFFF_FFFF_FFFF

  /** Adding durations wraps around. */
  function Wrap(d: int): int {
    (d + 0x8000_0000_0000_0000) % 0x1_0000_0000_0000_0000 - 0x8000_0000_0000_0000
  }

  /** Subtracting times saturates. */
  function Saturate(d: int): int {
    if d > LONGEST then LONGEST else if d < -LONGEST - 1 then -LONGEST - 1 else d
  }

  /** time.Since; the zero time, None here, lies further back than the longest duration. */
  function Since(last: Option<int>, now: int): int {
    match last
    case None => LONGEST
    case Some(t) => Saturate(now - t)
  }

  function Add(t: Totals, p: Payload): Totals {
    Totals(t.count + 1, t.uncompressed + p.length, t.compressed + p.compressedLength, t.wire + p.wireLength,
           if t.count == 0 then p.started else t.start, Some(p.received), Wrap(t.waited + Since(t.lastReceived, p.checked)))
  }

  function Reset(t: Totals, p: Payload): Totals {
    Totals(0, 0, 0, 0, p.closed, t.lastReceived, 0)
  }

  function ReportOf(t: Totals, p: Payload): Report {
    Report(t.count, t.uncompressed, t.compressed, t.waited, p.closed - t.start)
  }

  /** One payload: the report it triggers, if any, and the state after it. */
  function Handle(limit: int, t: Totals, p: Payload): (Totals, seq<Report>) {
    var t' := Add(t, p);
    if t'.count == limit then (Reset(t', p), [ReportOf(t', p)]) else (t', [])
  }

  class SizeLoggingHandler {
    const messageLimit: int
    var messageCount: nat
    var timeStart: int
    var uncompressedBytes: nat
    var compressedBytes: nat
    var wireBytes: nat
    var lastReceivedTime: Option<int>
    var waitToReceive: int
    var logged: seq<Report>

    ghost function Current(): Totals
      reads this
    {
      Totals(messageCount, uncompressedBytes, compressedBytes, wireBytes, timeStart, lastReceivedTime, waitToReceive)
    }

    constructor (messageLimit: int)
      ensures this.messageLimit == messageLimit && Current() == ZERO && logged == []
    {
      this.messageLimit := messageLimit;
      messageCount, uncompressedBytes, compressedBytes, wireBytes := 0, 0, 0, 0;
      timeStart, lastReceivedTime, waitToReceive := 0, None, 0;
      logged := [];
    }

    method HandleRPC(rs: RPCStats)
      modifies this
      ensures rs.Other? ==> Current() == old(Current()) && logged == old(logged)
      ensures rs.InPayload? ==>
                var (t, reports) := Handle(messageLimit, old(Current()), rs.payload);
                Current() == t && logged == old(logged) + reports
    {
      hide Wrap;
      if rs.InPayload? {
        var inPayload := rs.payload;
        if messageCount == 0 {
          timeStart := inPayload.started;
        }
        waitToReceive := Wrap(waitToReceive + Since(lastReceivedTime, inPayload.checked));
        lastReceivedTime := Some(inPayload.received);
        messageCount := messageCount + 1;
        uncompressedBytes := uncompressedBytes + inPayload.length;
        compressedBytes := compressedBytes + inPayload.compressedLength;
        wireBytes := wireBytes + inPayload.wireLength;
        assert Current() == Add(old(Current()), inPayload);
        if messageCount == messageLimit {
          var duration := inPayload.closed - timeStart;
          logged := logged + [Report(messageCount, uncompressedBytes, compressedBytes, waitToReceive, duration)];
          timeStart := inPayload.closed;
          messageCount := 0;
          uncompressedBytes := 0;
          compressedBytes := 0;
          wireBytes := 0;
          waitToReceive := 0;
        }
      }
    }
  }

  // ----- whole runs -----

  const ZERO := Totals(0, 0, 0, 0, 0, None, 0)

  function Process(limit: int, ps: seq<Payload>): (Totals, seq<Report>) {
    if ps == [] then (ZERO, [])
    else
      var (t, reports) := Process(limit, ps[..|ps| - 1]);
      var (t', more) := Handle(limit, t, ps[|ps| - 1]);
      (t', reports + more)
  }

  function Sum(ps: seq<Payload>, f: Payload -> nat): nat {
    if ps == [] then 0 else Sum(ps[..|ps| - 1], f) + f(ps[|ps| - 1])
  }

  function Length(p: Payload): nat { p.length }

  function Compressed(p: Payload): nat { p.compressedLength }

  function Wire(p: Payload): nat { p.wireLength }

  /** The wait for payload m runs from the receipt before, in the same window or not, and fits 64 bits. */
  function Wait(ps: seq<Payload>, m: nat): int
    requires m < |ps|
  {
    if m == 0 || ps[m].checked - ps[m - 1].received > 0x7FFF_FFFF_FFFF_FFFF then 0x7FFF_FFFF_FFFF_FFFF
    else if ps[m].checked - ps[m - 1].received < -0x8000_0000_0000_0000 then -0x8000_0000_0000_0000
    else ps[m].checked - ps[m - 1].received
  }

  /** w is the one 64-bit value that differs from d by a multiple of 2^64. */
  predicate WrapsTo(d: int, w: int) {
    -0x8000_0000_0000_0000 <= w <= 0x7FFF_FFFF_FFFF_FFFF && (d - w) % 0x1_0000_0000_0000_0000 == 0
  }

  lemma WrapIff(d: int, w: int)
    ensures Wrap(d) == w <==> WrapsTo(d, w)
  {
  }

  function SumWait(ps: seq<Payload>, from: nat, end: nat): int
    requires from <= end <= |ps|
    decreases end - from
  {
    if from == end then 0 else SumWait(ps, from, end - 1) + Wait(ps, end - 1)
  }

  /** r reports exactly payloads from..end. */
  ghost predicate Reports(r: Report, ps: seq<Payload>, from: nat, end: nat) {
    && from < end <= |ps|
    && r.count == end - from
    && r.uncompressed == Sum(ps[from..end], Length)
    && r.compressed == Sum(ps[from..end], Compressed)
    && r.duration == ps[end - 1].closed - ps[from].started
    && WrapsTo(SumWait(ps, from, end), r.waited)
  }

  /** t has accumulated exactly the payloads after `from`. */
  ghost predicate OpenWindow(t: Totals, ps: seq<Payload>, from: nat) {
    && from <= |ps|
    && t.count == |ps| - from
    && t.uncompressed == Sum(ps[from..], Length)
    && t.compressed == Sum(ps[from..], Compressed)
    && t.wire == Sum(ps[from..], Wire)
    && t.lastReceived == (if ps == [] then None else Some(ps[|ps| - 1].received))
    && (from < |ps| ==> t.start == ps[from].started)
    && WrapsTo(SumWait(ps, from, |ps|), t.waited)
  }

  lemma SumSnoc(ps: seq<Payload>, from: nat, f: Payload -> nat)
    requires from < |ps|
    ensures Sum(ps[from..], f) == Sum(ps[..|ps| - 1][from..], f) + f(ps[|ps| - 1])
  {
    assert ps[from..][..|ps| - from - 1] == ps[..|ps| - 1][from..];
  }

  lemma {:induction false} SumWaitPrefix(ps: seq<Payload>, n: nat, from: nat, end: nat)
    requires from <= end <= n <= |ps|
    ensures SumWait(ps[..n], from, end) == SumWait(ps, from, end)
    decreases end - from
  {
    if from < end {
      SumWaitPrefix(ps, n, from, end - 1);
    }
  }

  lemma ReportsPrefix(r: Report, ps: seq<Payload>, n: nat, from: nat, end: nat)
    requires n <= |ps| && Reports(r, ps[..n], from, end)
    ensures Reports(r, ps, from, end)
  {
    assert ps[..n][from..end] == ps[from..end];
    SumWaitPrefix(ps, n, from, end);
  }

  /** Adding one payload to an open window. */
  lemma AddKeepsWindow(t: Totals, ps: seq<Payload>, from: nat)
    requires ps != [] && OpenWindow(t, ps[..|ps| - 1], from)
    ensures OpenWindow(Add(t, ps[|ps| - 1]), ps, from)
  {
    hide Wrap, WrapsTo;
    SumSnoc(ps, from, Length);
    SumSnoc(ps, from, Compressed);
    SumSnoc(ps, from, Wire);
    SumWaitPrefix(ps, |ps| - 1, from, |ps| - 1);
    WrapIff(SumWait(ps, from, |ps| - 1), t.waited);
    WrapAdd(SumWait(ps, from, |ps| - 1), Wait(ps, |ps| - 1));
    WrapIff(SumWait(ps, from, |ps|), Add(t, ps[|ps| - 1]).waited);
  }

  lemma WrapAdd(x: int, y: int)
    ensures Wrap(Wrap(x) + y) == Wrap(x + y)
  {
  }

  /** Where window j starts: j times the limit, see StartIs. */
  function Start(j: nat, limit: nat): nat {
    if j == 0 then 0 else Start(j - 1, limit) + limit
  }

  lemma {:induction false} StartIs(j: nat, limit: nat)
    ensures Start(j, limit) == j * limit
  {
    if j > 0 {
      StartIs(j - 1, limit);
      assert j * limit == (j - 1) * limit + limit;
    }
  }

  lemma {:induction false} StartGrows(j: nat, limit: nat)
    ensures j > 0 ==> Start(j, limit) >= limit
  {
    if j > 0 {
      StartGrows(j - 1, limit);
    }
  }

  ghost predicate Windows(limit: nat, ps: seq<Payload>, t: Totals, reports: seq<Report>)
    requires limit >= 1
  {
    && Start(|reports|, limit) + t.count == |ps|
    && t.count < limit
    && (forall j :: 0 <= j < |reports| ==> Reports(reports[j], ps, Start(j, limit), Start(j + 1, limit)))
    && OpenWindow(t, ps, Start(|reports|, limit))
  }

  /**
   With a limit of at least one, report j holds exactly the payloads of window j, and the accumulators
   exactly those after the last full window.
   */
  lemma {:induction false} WindowsAreExact(limit: nat, ps: seq<Payload>)
    requires limit >= 1
    ensures Windows(limit, ps, Process(limit, ps).0, Process(limit, ps).1)
  {
    if ps != [] {
      hide Windows, Wrap, Reset, ReportOf;
      var front := ps[..|ps| - 1];
      WindowsAreExact(limit, front);
      var (t, reports) := Process(limit, front);
      if t.count + 1 == limit {
        WindowCloses(limit, ps, t, reports);
      } else {
        WindowStaysOpen(limit, ps, t, reports);
        assert reports + [] == reports;
      }
    }
  }

  lemma WindowStaysOpen(limit: nat, ps: seq<Payload>, t: Totals, reports: seq<Report>)
    requires limit >= 1 && ps != [] && Windows(limit, ps[..|ps| - 1], t, reports) && t.count + 1 != limit
    ensures Windows(limit, ps, Add(t, ps[|ps| - 1]), reports)
  {
    hide Wrap, WrapsTo, Reports, SumWait, Sum;
    EarlierReports(limit, ps, t, reports);
    AddKeepsWindow(t, ps, Start(|reports|, limit));
  }

  lemma WindowCloses(limit: nat, ps: seq<Payload>, t: Totals, reports: seq<Report>)
    requires limit >= 1 && ps != [] && Windows(limit, ps[..|ps| - 1], t, reports) && t.count + 1 == limit
    ensures var p := ps[|ps| - 1];
            Windows(limit, ps, Reset(Add(t, p), p), reports + [ReportOf(Add(t, p), p)])
  {
    hide Wrap, WrapsTo, Reports, SumWait, Sum;
    var n, t' := |reports|, Add(t, ps[|ps| - 1]);
    EarlierReports(limit, ps, t, reports);
    AddKeepsWindow(t, ps, Start(n, limit));
    ClosedWindow(t', ps, Start(n, limit));
  }

  lemma ClosedWindow(t: Totals, ps: seq<Payload>, from: nat)
    requires from < |ps| && OpenWindow(t, ps, from)
    ensures Reports(ReportOf(t, ps[|ps| - 1]), ps, from, |ps|)
    ensures OpenWindow(Reset(t, ps[|ps| - 1]), ps, |ps|)
  {
    assert ps[from..|ps|] == ps[from..] && ps[|ps|..] == [];
  }

  lemma EarlierReports(limit: nat, ps: seq<Payload>, t: Totals, reports: seq<Report>)
    requires limit >= 1 && ps != [] && Windows(limit, ps[..|ps| - 1], t, reports)
    ensures forall j :: 0 <= j < |reports| ==> Reports(reports[j], ps, Start(j, limit), Start(j + 1, limit))
  {
    forall j | 0 <= j < |reports| ensures Reports(reports[j], ps, Start(j, limit), Start(j + 1, limit)) {
      ReportsPrefix(reports[j], ps, |ps| - 1, Start(j, limit), Start(j + 1, limit));
    }
  }

  /** The counts: floor(k / limit) reports and k mod limit payloads pending after k payloads. */
  lemma WindowCounts(limit: nat, ps: seq<Payload>)
    requires limit >= 1
    ensures |Process(limit, ps).1| == |ps| / limit && Process(limit, ps).0.count == |ps| % limit
  {
    WindowsAreExact(limit, ps);
    StartIs(|Process(limit, ps).1|, limit);
    DivModUnique(|ps|, limit, |Process(limit, ps).1|, Process(limit, ps).0.count);
  }

  function SumReports(reports: seq<Report>, f: Report -> nat): nat {
    if reports == [] then 0 else SumReports(reports[..|reports| - 1], f) + f(reports[|reports| - 1])
  }

  /** Conservation for every limit: what was reported plus what is accumulated is what was received. */
  lemma {:induction false} Conservation(limit: int, ps: seq<Payload>)
    ensures var (t, reports) := Process(limit, ps);
            && SumReports(reports, (r: Report) => r.count) + t.count == |ps|
            && SumReports(reports, (r: Report) => r.uncompressed) + t.uncompressed == Sum(ps, Length)
            && SumReports(reports, (r: Report) => r.compressed) + t.compressed == Sum(ps, Compressed)
  {
    if ps != [] {
      Conservation(limit, ps[..|ps| - 1]);
      var (t, reports) := Process(limit, ps[..|ps| - 1]);
      var more := Handle(limit, t, ps[|ps| - 1]).1;
      if more != [] {
        assert (reports + more)[..|reports|] == reports;
      } else {
        assert reports + more == reports;
      }
    }
  }

  /** Something is reported exactly when the limit is positive and reached. */
  lemma {:induction false} ReportsIff(limit: int, ps: seq<Payload>)
    ensures Process(limit, ps).1 != [] <==> 1 <= limit <= |ps|
    ensures limit < 1 ==> Process(limit, ps).0.count == |ps|
  {
    if limit >= 1 {
      WindowsAreExact(limit, ps);
      var reports := Process(limit, ps).1;
      if reports != [] {
        assert Reports(reports[0], ps, Start(0, limit), Start(1, limit));
      }
    } else if ps != [] {
      ReportsIff(limit, ps[..|ps| - 1]);
    }
  }

  /** The clock does not run backwards between the readings. */
  ghost predicate ClockForward(ps: seq<Payload>) {
    && (forall k :: 0 <= k < |ps| ==> ps[k].checked <= ps[k].received)
    && (forall k :: 0 < k < |ps| ==> ps[k - 1].received <= ps[k].checked)
  }

  lemma WrapShrinks(d: int)
    requires 0 <= d
    ensures Wrap(d) <= d && (d <= LONGEST ==> Wrap(d) == d)
  {
  }

  lemma {:induction false} WaitTelescopes(ps: seq<Payload>, from: nat, end: nat)
    requires ClockForward(ps) && 0 < from <= end <= |ps|
    ensures 0 <= SumWait(ps, from, end) <= ps[end - 1].received - ps[from - 1].received
    decreases end - from
  {
    if from < end {
      WaitTelescopes(ps, from, end - 1);
    }
  }

  /** The time between consecutive receipts: from one receipt to the next payload's wait check. */
  function SumGaps(ps: seq<Payload>, from: nat, end: nat): int
    requires 0 < from <= end <= |ps|
    decreases end - from
  {
    if from == end then 0 else SumGaps(ps, from, end - 1) + (ps[end - 1].checked - ps[end - 2].received)
  }

  /** The same, a gap beyond 64 bits counting as the longest duration only. */
  function SumCappedGaps(ps: seq<Payload>, from: nat, end: nat): int
    requires 0 < from <= end <= |ps|
    decreases end - from
  {
    if from == end then 0
    else
      var gap := ps[end - 1].checked - ps[end - 2].received;
      SumCappedGaps(ps, from, end - 1) + if gap > 0x7FFF_FFFF_FFFF_FFFF then 0x7FFF_FFFF_FFFF_FFFF else gap
  }

  lemma {:induction false} WaitIsCappedGaps(ps: seq<Payload>, from: nat, end: nat)
    requires ClockForward(ps) && 0 < from <= end <= |ps|
    ensures SumWait(ps, from, end) == SumCappedGaps(ps, from, end)
    decreases end - from
  {
    if from < end {
      WaitIsCappedGaps(ps, from, end - 1);
    }
  }

  /** Short enough a span has no gap to cap. */
  lemma {:induction false} GapsUncapped(ps: seq<Payload>, from: nat, end: nat)
    requires ClockForward(ps) && 0 < from <= end <= |ps|
    ensures 0 <= SumGaps(ps, from, end) <= ps[end - 1].received - ps[from - 1].received
    ensures ps[end - 1].received - ps[from - 1].received <= LONGEST ==>
              SumCappedGaps(ps, from, end) == SumGaps(ps, from, end)
    decreases end - from
  {
    if from < end {
      GapsUncapped(ps, from, end - 1);
      ReceiptsForward(ps, from - 1, end - 2);
    }
  }

  lemma {:induction false} ReceiptsForward(ps: seq<Payload>, a: nat, b: nat)
    requires ClockForward(ps) && a <= b < |ps|
    ensures ps[a].received <= ps[b].received
  {
    if a < b {
      ReceiptsForward(ps, a, b - 1);
    }
  }

  /**
   The wait reported from the second window on is the sum over the window's payloads of the time since the
   receipt before, when the window's span fits 64 bits; beyond that a long gap counts as the longest
   duration, and the sum wraps around.
   */
  lemma WaitIsExact(limit: nat, ps: seq<Payload>, j: nat)
    requires limit >= 1 && ClockForward(ps) && 0 < j < |Process(limit, ps).1|
    ensures 0 < Start(j, limit) && Start(j + 1, limit) <= |ps|
    ensures var from, end, waited := Start(j, limit), Start(j + 1, limit), Process(limit, ps).1[j].waited;
            && (ps[end - 1].received - ps[from - 1].received <= 0x7FFF_FFFF_FFFF_FFFF ==> waited == SumGaps(ps, from, end))
            && WrapsTo(SumCappedGaps(ps, from, end), waited)
  {
    hide Wrap, WrapsTo, Sum, Process;
    WindowsAreExact(limit, ps);
    StartGrows(j, limit);
    var from, end := Start(j, limit), Start(j + 1, limit);
    assert Reports(Process(limit, ps).1[j], ps, from, end);
    WaitIsCappedGaps(ps, from, end);
    GapsUncapped(ps, from, end);
    WrapIff(SumCappedGaps(ps, from, end), Process(limit, ps).1[j].waited);
    if ps[end - 1].received - ps[from - 1].received <= LONGEST {
      WrapShrinks(SumGaps(ps, from, end));
    }
  }

  /**
   From the second window on, the wait is at most the time between the last receipts of the two windows,
   and not negative unless that time exceeds the longest duration.
   */
  lemma WaitBound(limit: nat, ps: seq<Payload>, j: nat)
    requires limit >= 1 && ClockForward(ps) && 0 < j < |Process(limit, ps).1|
    ensures 0 < Start(j, limit) && Start(j + 1, limit) <= |ps|
    ensures var from, end, waited := Start(j, limit), Start(j + 1, limit), Process(limit, ps).1[j].waited;
            var span := ps[end - 1].received - ps[from - 1].received;
            waited <= span && (span <= LONGEST ==> 0 <= waited == SumGaps(ps, from, end))
  {
    hide Process;
    WaitIsExact(limit, ps, j);
    StartGrows(j, limit);
    GapsUncapped(ps, Start(j, limit), Start(j + 1, limit));
  }

  /** Summing is additive, and a single payload's sum is its own size. */
  lemma {:induction false} SumIsAdditive(a: seq<Payload>, b: seq<Payload>, f: Payload -> nat)
    ensures Sum(a + b, f) == Sum(a, f) + Sum(b, f)
    ensures |b| == 1 ==> Sum(b, f) == f(b[0])
  {
    if b == [] {
      assert a + b == a;
    } else {
      assert (a + b)[..|a + b| - 1] == a + b[..|b| - 1];
      SumIsAdditive(a, b[..|b| - 1], f);
    }
  }

  lemma {:induction false} SumWaitFirst(ps: seq<Payload>, end: nat)
    requires 1 <= end <= |ps|
    ensures SumWait(ps, 0, end) == LONGEST + SumWait(ps, 1, end)
  {
    if end > 1 {
      SumWaitFirst(ps, end - 1);
    }
  }

  /**
   The first window's wait is wrong: with no wait after its first payload it is the longest duration, and
   with any it has wrapped to a negative one.
   */
  lemma FirstWindowWait(limit: nat, ps: seq<Payload>)
    requires 1 <= limit <= |ps| && ClockForward(ps) && ps[limit - 1].received - ps[0].received <= LONGEST
    ensures Process(limit, ps).1 != []
    ensures var later := SumWait(ps, 1, limit);
            Process(limit, ps).1[0].waited == (if later == 0 then LONGEST else later - LONGEST - 2) &&
            (later > 0 ==> Process(limit, ps).1[0].waited < 0)
  {
    hide Wrap, WrapsTo, Sum, Process;
    ReportsIff(limit, ps);
    WindowsAreExact(limit, ps);
    assert Reports(Process(limit, ps).1[0], ps, Start(0, limit), Start(1, limit));
    SumWaitFirst(ps, limit);
    WaitTelescopes(ps, 1, limit);
    WrapPastLongest(SumWait(ps, 1, limit));
    WrapIff(SumWait(ps, 0, limit), Process(limit, ps).1[0].waited);
  }

  lemma WrapPastLongest(d: int)
    requires 0 <= d <= LONGEST
    ensures Wrap(LONGEST + d) == if d == 0 then LONGEST else d - LONGEST - 2
  {
  }
}
