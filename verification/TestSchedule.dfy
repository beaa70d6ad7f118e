/**
  When the sessions of a network test run.

  Time passes only while a test sleeps; starting a session takes no time and may fail.  A session
  that starts at s is live during [s, s + timeSec).
 */
module TestSchedule {
  datatype Direction = BidirectionalParallel | BidirectionalSequential

  // reverse tells which end of the asset sends
  datatype Request = Request(asset: nat, reverse: bool)

  datatype Session = Session(request: Request, start: int)

  // A row of the results table: RUNNING if the session started, FAILED if not
  datatype Row = Row(request: Request, running: bool)

  predicate Live(s: Session, timeSec: nat, t: int) {
    s.start <= t < s.start + timeSec
  }

  predicate NeverBothLive(a: Session, b: Session, timeSec: nat) {
    a.start + timeSec <= b.start || b.start + timeSec <= a.start
  }

  // Number of waves that one asset, or a whole parallel test, goes through
  function Waves(direction: Direction): nat {
    match direction
    case BidirectionalSequential => 2
    case BidirectionalParallel => 1
  }

  function EstimateSequential(assets: nat, timeSec: nat, direction: Direction): nat {
    assets * timeSec * Waves(direction)
  }

  function EstimateParallel(timeSec: nat, direction: Direction): nat {
    timeSec * Waves(direction)
  }

  lemma NoSharedMoment(a: Session, b: Session, timeSec: nat)
    requires timeSec > 0
    ensures NeverBothLive(a, b, timeSec) <==> forall t :: !(Live(a, timeSec, t) && Live(b, timeSec, t))
  {
    if !NeverBothLive(a, b, timeSec) {
      var t := if a.start < b.start then b.start else a.start;
      assert Live(a, timeSec, t) && Live(b, timeSec, t);
    }
  }

  // requests[from::2]
  function EveryOther(requests: seq<Request>, from: nat): seq<Request>
    decreases |requests| - from
  {
    if from >= |requests| then [] else [requests[from]] + EveryOther(requests, from + 2)
  }

  // Both directions of every asset, in the order of the loop
  function AllRequests(assets: nat): seq<Request> {
    if assets == 0 then []
    else AllRequests(assets - 1) + [Request(assets - 1, false), Request(assets - 1, true)]
  }

  // The requests that the network accepts
  function Accepted(requests: seq<Request>, accepts: Request -> bool): seq<Request> {
    if requests == [] then []
    else
      Accepted(requests[..|requests| - 1], accepts)
      + if accepts(requests[|requests| - 1]) then [requests[|requests| - 1]] else []
  }

  function RowsFor(requests: seq<Request>, accepts: Request -> bool): seq<Row> {
    seq(|requests|, i requires 0 <= i < |requests| => Row(requests[i], accepts(requests[i])))
  }

  function StartedAt(requests: seq<Request>, time: int): seq<Session> {
    seq(|requests|, i requires 0 <= i < |requests| => Session(requests[i], time))
  }

  // The second wave starts when the sessions of the first have ended, or at once if there are none
  function SecondWave(forth: seq<Request>, accepts: Request -> bool, time: int, timeSec: nat): int {
    if Accepted(forth, accepts) == [] then time else time + timeSec
  }

  // The sessions of a parallel test
  function ParallelSessions(requests: seq<Request>, accepts: Request -> bool, time: int, timeSec: nat,
                            direction: Direction): seq<Session> {
    match direction
    case BidirectionalParallel => StartedAt(Accepted(requests, accepts), time)
    case BidirectionalSequential =>
      var forth, back := EveryOther(requests, 0), EveryOther(requests, 1);
      StartedAt(Accepted(forth, accepts), time)
      + StartedAt(Accepted(back, accepts), SecondWave(forth, accepts, time, timeSec))
  }

  function RequestsOf(sessions: seq<Session>): seq<Request> {
    seq(|sessions|, i requires 0 <= i < |sessions| => sessions[i].request)
  }

  lemma {:induction false} AcceptedConcat(a: seq<Request>, b: seq<Request>, accepts: Request -> bool)
    ensures Accepted(a + b, accepts) == Accepted(a, accepts) + Accepted(b, accepts)
  {
    if b == [] {
      assert a + b == a;
    } else {
      assert (a + b)[..|a + b| - 1] == a + b[..|b| - 1];
      AcceptedConcat(a, b[..|b| - 1], accepts);
    }
  }

  lemma RequestsOfStarted(sessions: seq<Session>, requests: seq<Request>, time: int)
    ensures RequestsOf(sessions + StartedAt(requests, time)) == RequestsOf(sessions) + requests
  {
  }

  lemma RowsConcat(a: seq<Request>, b: seq<Request>, accepts: Request -> bool)
    ensures RowsFor(a + b, accepts) == RowsFor(a, accepts) + RowsFor(b, accepts)
  {
  }

  lemma {:induction false} AcceptedExact(requests: seq<Request>, accepts: Request -> bool)
    ensures forall r :: r in Accepted(requests, accepts) <==> r in requests && accepts(r)
    ensures (forall r :: r in requests ==> accepts(r)) ==> Accepted(requests, accepts) == requests
  {
    if requests != [] {
      var front, last := requests[..|requests| - 1], requests[|requests| - 1];
      assert requests == front + [last];
      AcceptedExact(front, accepts);
    }
  }

  // The loop of a sequential test never lets two assets overlap (or, with sequential directions, two
  // sessions), and stays within the first n assets' share of the estimate
  ghost predicate Orderly(sessions: seq<Session>, direction: Direction, timeSec: nat) {
    forall i, j :: 0 <= i < j < |sessions| ==>
      sessions[i].request.asset != sessions[j].request.asset || direction == BidirectionalSequential ==>
        NeverBothLive(sessions[i], sessions[j], timeSec)
  }

  ghost predicate Within(sessions: seq<Session>, from: int, till: int, timeSec: nat) {
    forall i :: 0 <= i < |sessions| ==> from <= sessions[i].start && sessions[i].start + timeSec <= till
  }

  // Sessions that start together after all earlier ones have ended
  lemma OrderlyAppend(sessions: seq<Session>, requests: seq<Request>, time: int, direction: Direction, timeSec: nat)
    requires Orderly(sessions, direction, timeSec) && forall s :: s in sessions ==> s.start + timeSec <= time
    requires forall r, q :: r in requests && q in requests ==> r.asset == q.asset
    requires direction == BidirectionalSequential ==> |requests| <= 1
    ensures Orderly(sessions + StartedAt(requests, time), direction, timeSec)
  {
    var after := sessions + StartedAt(requests, time);
    assert forall k :: |sessions| <= k < |after| ==> after[k].request in requests;
    forall i, j | 0 <= i < j < |after|
        && (after[i].request.asset != after[j].request.asset || direction == BidirectionalSequential)
      ensures NeverBothLive(after[i], after[j], timeSec)
    {
      if i < |sessions| {
        assert sessions[i] in sessions;
      }
    }
  }

  lemma AcceptedSingle(r: Request, accepts: Request -> bool)
    ensures Accepted([r], accepts) == if accepts(r) then [r] else []
  {
    assert [r][..0] == [];
  }

  lemma {:induction false} AcceptedLength(requests: seq<Request>, accepts: Request -> bool)
    ensures |Accepted(requests, accepts)| <= |requests|
  {
    if requests != [] {
      AcceptedLength(requests[..|requests| - 1], accepts);
    }
  }

  class NetworkTest {
    const assets: nat
    const direction: Direction
    const timeSec: nat
    var clock: int
    var sessions: seq<Session>
    var rows: seq<Row>

    constructor (assets: nat, direction: Direction, timeSec: nat, now: int)
      ensures this.assets == assets && this.direction == direction && this.timeSec == timeSec
      ensures clock == now && sessions == [] && rows == []
    {
      this.assets, this.direction, this.timeSec := assets, direction, timeSec;
      clock, sessions, rows := now, [], [];
    }

    // True if any session started
    method Save(requests: seq<Request>, accepts: Request -> bool) returns (any: bool)
      modifies this
      ensures clock == old(clock)
      ensures sessions == old(sessions) + StartedAt(Accepted(requests, accepts), clock)
      ensures rows == old(rows) + RowsFor(requests, accepts)
      ensures any <==> Accepted(requests, accepts) != []
    {
      any := false;
      for i := 0 to |requests|
        invariant clock == old(clock)
        invariant sessions == old(sessions) + StartedAt(Accepted(requests[..i], accepts), clock)
        invariant rows == old(rows) + RowsFor(requests[..i], accepts)
        invariant any <==> Accepted(requests[..i], accepts) != []
      {
        assert requests[..i + 1][..i] == requests[..i];
        rows := rows + [Row(requests[i], accepts(requests[i]))];
        if accepts(requests[i]) {
          sessions := sessions + [Session(requests[i], clock)];
          any := true;
        }
      }
      assert requests[..|requests|] == requests;
    }

    // Start a batch and sleep through it if anything started
    method Wave(requests: seq<Request>, accepts: Request -> bool)
      requires forall s :: s in sessions ==> s.start + timeSec <= clock
      modifies this
      ensures old(clock) <= clock <= old(clock) + timeSec
      ensures clock == SecondWave(requests, accepts, old(clock), timeSec)
      ensures sessions == old(sessions) + StartedAt(Accepted(requests, accepts), old(clock))
      ensures rows == old(rows) + RowsFor(requests, accepts)
      ensures forall s :: s in sessions ==> s.start + timeSec <= clock
      ensures forall s :: s in sessions ==> s in old(sessions) || (s.request in requests && s.start == old(clock))
      ensures (forall r, q :: r in requests && q in requests ==> r.asset == q.asset)
              && (direction == BidirectionalSequential ==> |requests| <= 1)
              && Orderly(old(sessions), direction, timeSec)
              ==> Orderly(sessions, direction, timeSec)
    {
      AcceptedExact(requests, accepts);
      AcceptedLength(requests, accepts);
      if (forall r, q :: r in requests && q in requests ==> r.asset == q.asset)
         && (direction == BidirectionalSequential ==> |requests| <= 1)
         && Orderly(sessions, direction, timeSec) {
        OrderlyAppend(sessions, Accepted(requests, accepts), clock, direction, timeSec);
      }
      var any := Save(requests, accepts);
      if any {
        clock := clock + timeSec;
      } else {
        assert sessions == old(sessions);
      }
    }

    method StartSequential(accepts: Request -> bool)
      requires sessions == [] && rows == []
      modifies this
      ensures RequestsOf(sessions) == Accepted(AllRequests(assets), accepts)
      ensures rows == RowsFor(AllRequests(assets), accepts)
      ensures Orderly(sessions, direction, timeSec)
      ensures Within(sessions, old(clock), old(clock) + EstimateSequential(assets, timeSec, direction), timeSec)
      ensures (forall r :: accepts(r)) ==> clock == old(clock) + EstimateSequential(assets, timeSec, direction)
    {
      ghost var began := clock;
      for i := 0 to assets
        invariant began <= clock <= began + EstimateSequential(i, timeSec, direction)
        invariant (forall r :: accepts(r)) ==> clock == began + EstimateSequential(i, timeSec, direction)
        invariant RequestsOf(sessions) == Accepted(AllRequests(i), accepts)
        invariant rows == RowsFor(AllRequests(i), accepts)
        invariant Orderly(sessions, direction, timeSec)
        invariant Within(sessions, began, clock, timeSec)
        invariant forall s :: s in sessions ==> s.request.asset < i
      {
        EstimateStep(i, timeSec, direction);
        RunAsset(i, accepts);
        AcceptedConcat(AllRequests(i), [Request(i, false), Request(i, true)], accepts);
        RowsConcat(AllRequests(i), [Request(i, false), Request(i, true)], accepts);
      }
    }

    method RunAsset(i: nat, accepts: Request -> bool)
      requires Orderly(sessions, direction, timeSec) && forall s :: s in sessions ==> s.start + timeSec <= clock
      requires forall s :: s in sessions ==> s.request.asset < i
      modifies this
      ensures old(clock) <= clock <= old(clock) + timeSec * Waves(direction)
      ensures accepts(Request(i, false)) && accepts(Request(i, true)) ==>
                clock == old(clock) + timeSec * Waves(direction)
      ensures RequestsOf(sessions)
              == RequestsOf(old(sessions)) + Accepted([Request(i, false), Request(i, true)], accepts)
      ensures rows == old(rows) + RowsFor([Request(i, false), Request(i, true)], accepts)
      ensures Orderly(sessions, direction, timeSec)
      ensures forall s :: s in sessions ==> s.start + timeSec <= clock && (s in old(sessions) || s.start >= old(clock))
      ensures forall s :: s in sessions ==> s.request.asset < i + 1
    {
      var requests := [Request(i, false), Request(i, true)];
      match direction
      case BidirectionalParallel =>
        Wave(requests, accepts);
      case BidirectionalSequential =>
        AcceptedConcat([requests[0]], [requests[1]], accepts);
        RowsConcat([requests[0]], [requests[1]], accepts);
        OneThenOther(requests, accepts);
    }

    method OneThenOther(requests: seq<Request>, accepts: Request -> bool)
      requires |requests| == 2 && forall s :: s in sessions ==> s.start + timeSec <= clock
      modifies this
      ensures old(clock) <= clock <= old(clock) + timeSec + timeSec
      ensures accepts(requests[0]) && accepts(requests[1]) ==> clock == old(clock) + timeSec + timeSec
      ensures RequestsOf(sessions)
              == RequestsOf(old(sessions)) + Accepted([requests[0]], accepts) + Accepted([requests[1]], accepts)
      ensures rows == old(rows) + RowsFor([requests[0]], accepts) + RowsFor([requests[1]], accepts)
      ensures Orderly(old(sessions), direction, timeSec) ==> Orderly(sessions, direction, timeSec)
      ensures forall s :: s in sessions ==> s.start + timeSec <= clock
      ensures forall s :: s in sessions ==>
                s in old(sessions) || (s.request in requests && s.start >= old(clock))
    {
      AcceptedSingle(requests[0], accepts);
      AcceptedSingle(requests[1], accepts);
      assert EveryOther(requests, 2) == [] && EveryOther(requests, 3) == [];
      assert EveryOther(requests, 0) == [requests[0]] && EveryOther(requests, 1) == [requests[1]];
      RequestsOfStarted(sessions, Accepted([requests[0]], accepts), clock);
      Wave(EveryOther(requests, 0), accepts);
      RequestsOfStarted(sessions, Accepted([requests[1]], accepts), clock);
      Wave(EveryOther(requests, 1), accepts);
    }

    method StartParallel(accepts: Request -> bool)
      requires sessions == [] && rows == []
      modifies this
      ensures rows == match direction
                case BidirectionalParallel => RowsFor(AllRequests(assets), accepts)
                case BidirectionalSequential =>
                  RowsFor(EveryOther(AllRequests(assets), 0), accepts)
                  + RowsFor(EveryOther(AllRequests(assets), 1), accepts)
      ensures var all := AllRequests(assets);
              RequestsOf(sessions) == match direction
                case BidirectionalParallel => Accepted(all, accepts)
                case BidirectionalSequential =>
                  Accepted(EveryOther(all, 0), accepts) + Accepted(EveryOther(all, 1), accepts)
      ensures sessions == ParallelSessions(AllRequests(assets), accepts, old(clock), timeSec, direction)
      ensures Within(sessions, old(clock), old(clock) + EstimateParallel(timeSec, direction), timeSec)
      ensures direction == BidirectionalSequential ==>
                forall s, r :: s in sessions && r in sessions && s.request.reverse != r.request.reverse ==>
                  NeverBothLive(s, r, timeSec)
    {
      var requests := AllRequests(assets);
      ghost var began := clock;
      match direction
      case BidirectionalParallel =>
        var any := Save(requests, accepts);
      case BidirectionalSequential =>
        TwoWaves(EveryOther(requests, 0), EveryOther(requests, 1), accepts);
        WavesApart(assets, accepts, began, timeSec);
    }

    method TwoWaves(forth: seq<Request>, back: seq<Request>, accepts: Request -> bool)
      requires sessions == [] && rows == []
      modifies this
      ensures rows == RowsFor(forth, accepts) + RowsFor(back, accepts)
      ensures sessions == StartedAt(Accepted(forth, accepts), old(clock))
                          + StartedAt(Accepted(back, accepts), SecondWave(forth, accepts, old(clock), timeSec))
    {
      Wave(forth, accepts);
      var any := Save(back, accepts);
    }
  }

  lemma WavesApart(assets: nat, accepts: Request -> bool, time: int, timeSec: nat)
    ensures var all := AllRequests(assets);
            var sessions := ParallelSessions(all, accepts, time, timeSec, BidirectionalSequential);
            && RequestsOf(sessions) == Accepted(EveryOther(all, 0), accepts) + Accepted(EveryOther(all, 1), accepts)
            && Within(sessions, time, time + timeSec + timeSec, timeSec)
            && forall s, r :: s in sessions && r in sessions && s.request.reverse != r.request.reverse ==>
                 NeverBothLive(s, r, timeSec)
  {
    var all := AllRequests(assets);
    AlternateDirections(assets);
    AcceptedExact(EveryOther(all, 0), accepts);
    AcceptedExact(EveryOther(all, 1), accepts);
    BatchesApart(Accepted(EveryOther(all, 0), accepts), Accepted(EveryOther(all, 1), accepts), time,
                 SecondWave(EveryOther(all, 0), accepts, time, timeSec), timeSec);
  }

  lemma BatchesApart(forth: seq<Request>, back: seq<Request>, time: int, second: int, timeSec: nat)
    requires (forall r :: r in forth ==> !r.reverse) && (forall r :: r in back ==> r.reverse)
    requires time <= second <= time + timeSec && (forth != [] ==> second == time + timeSec)
    ensures var sessions := StartedAt(forth, time) + StartedAt(back, second);
            && RequestsOf(sessions) == forth + back && Within(sessions, time, time + timeSec + timeSec, timeSec)
            && forall s, r :: s in sessions && r in sessions && s.request.reverse != r.request.reverse ==>
                 NeverBothLive(s, r, timeSec)
  {
    var sessions := StartedAt(forth, time) + StartedAt(back, second);
    StartedTogether(forth, time);
    StartedTogether(back, second);
    forall s | s in sessions ensures s.start == if s.request.reverse then second else time {
      assert s in StartedAt(forth, time) || s in StartedAt(back, second);
    }
    forall s | s in sessions && !s.request.reverse ensures forth != [] {
      assert s in StartedAt(forth, time);
    }
  }

  lemma StartedTogether(requests: seq<Request>, time: int)
    ensures forall s :: s in StartedAt(requests, time) ==> s.request in requests && s.start == time
  {
  }

  // If every request is accepted, the last session ends exactly when the estimate says
  lemma ParallelEstimateIsTight(assets: nat, accepts: Request -> bool, time: int, timeSec: nat, direction: Direction)
    requires assets > 0 && forall r :: accepts(r)
    ensures var sessions := ParallelSessions(AllRequests(assets), accepts, time, timeSec, direction);
            && sessions != []
            && sessions[|sessions| - 1].start + timeSec == time + EstimateParallel(timeSec, direction)
  {
    var all := AllRequests(assets);
    AllRequestsAre(assets);
    AcceptedExact(all, accepts);
    AcceptedExact(EveryOther(all, 0), accepts);
    AcceptedExact(EveryOther(all, 1), accepts);
    assert EveryOther(all, 0) != [] && EveryOther(all, 1) != [];
  }

  lemma EstimateStep(i: nat, timeSec: nat, direction: Direction)
    ensures EstimateSequential(i + 1, timeSec, direction)
            == EstimateSequential(i, timeSec, direction) + timeSec * Waves(direction)
  {
    assert (i + 1) * timeSec == i * timeSec + timeSec;
  }

  lemma {:induction false} AllRequestsAt(assets: nat, k: nat)
    requires k < |AllRequests(assets)|
    ensures AllRequests(assets)[k].reverse <==> k % 2 == 1
    ensures |AllRequests(assets)| == 2 * assets
  {
    if assets > 0 {
      if k < |AllRequests(assets - 1)| {
        AllRequestsAt(assets - 1, k);
      } else if assets > 1 {
        AllRequestsAt(assets - 1, 0);
      }
    }
  }

  // Both directions of one asset after those of the other
  lemma {:induction false} AllRequestsAre(assets: nat)
    ensures |AllRequests(assets)| == 2 * assets
    ensures forall i :: 0 <= i < assets ==> AllRequests(assets)[2 * i] == Request(i, false)
    ensures forall i :: 0 <= i < assets ==> AllRequests(assets)[2 * i + 1] == Request(i, true)
  {
    if assets > 0 {
      AllRequestsAre(assets - 1);
    }
  }

  lemma {:induction false} EveryOtherFrom(requests: seq<Request>, from: nat, r: Request)
    requires r in EveryOther(requests, from)
    ensures exists k :: from <= k < |requests| && k % 2 == from % 2 && requests[k] == r
    decreases |requests| - from
  {
    if r != requests[from] {
      EveryOtherFrom(requests, from + 2, r);
    }
  }

  // Every other request goes the same way
  lemma AlternateDirections(assets: nat)
    ensures forall r :: r in EveryOther(AllRequests(assets), 0) ==> !r.reverse
    ensures forall r :: r in EveryOther(AllRequests(assets), 1) ==> r.reverse
  {
    var all := AllRequests(assets);
    forall r | r in EveryOther(all, 0) ensures !r.reverse {
      EveryOtherFrom(all, 0, r);
      var k :| 0 <= k < |all| && k % 2 == 0 && all[k] == r;
      AllRequestsAt(assets, k);
    }
    forall r | r in EveryOther(all, 1) ensures r.reverse {
      EveryOtherFrom(all, 1, r);
      var k :| 1 <= k < |all| && k % 2 == 1 && all[k] == r;
      AllRequestsAt(assets, k);
    }
  }
}
