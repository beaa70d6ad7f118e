/**
  The link_event table of one link and direction, and the updater that runs against it.

  Row k of the table has id k + 1.  A run reads a row with the latest end, derives events from the
  samples in memory and writes them back one statement at a time; any single write may be lost,
  because database errors are logged and ignored.
 */
module LinkEventTable {
  import opened Options
  import opened LinkTimeline

  // ---------- the table ----------

  // No second belongs to both events
  predicate Apart(a: Event, b: Event) {
    || a.startTime >= a.endTime
    || b.startTime >= b.endTime
    || a.endTime <= b.startTime
    || b.endTime <= a.startTime
  }

  lemma ApartMeansNoSharedSecond(a: Event, b: Event)
    ensures Apart(a, b) <==> !exists t :: Covers(a, t) && Covers(b, t)
  {
    if !Apart(a, b) {
      assert Covers(a, Max(a.startTime, b.startTime)) && Covers(b, Max(a.startTime, b.startTime));
    }
  }

  predicate Timeline(rows: seq<Event>) {
    && (forall i :: 0 <= i < |rows| ==> rows[i].dbId == i + 1 && rows[i].startTime <= rows[i].endTime)
    && (forall i, j :: 0 <= i < j < |rows| ==> Apart(rows[i], rows[j]))
  }

  predicate Newest(rows: seq<Event>, k: nat) {
    k < |rows| && forall i :: 0 <= i < |rows| ==> rows[i].endTime <= rows[k].endTime
  }

  // The row that refreshLatestLinkState reports; several rows can share the latest end, and the
  // query does not say which of them comes last
  function LatestRow(rows: seq<Event>, pick: nat): Option<Event> {
    if pick < |rows| then Some(rows[pick]) else None
  }

  predicate PicksNewest(rows: seq<Event>, pick: nat) {
    rows == [] || Newest(rows, pick)
  }

  function WriteOne(rows: seq<Event>, event: Event): seq<Event> {
    if event.dbId == 0 then rows + [event.(dbId := |rows| + 1)]
    else if event.dbId <= |rows| then rows[event.dbId - 1 := rows[event.dbId - 1].(endTime := event.endTime)]
    else rows
  }

  // landed[i] tells whether the i-th statement reached the database
  function WriteAll(rows: seq<Event>, events: seq<Event>, landed: seq<bool>): seq<Event>
    decreases events
  {
    if events == [] || landed == [] then rows
    else WriteAll(if landed[0] then WriteOne(rows, events[0]) else rows, events[1..], landed[1..])
  }

  // ---------- the samples in memory ----------

  function Updated(dp: DataPoint, metric: Metric, value: real): DataPoint {
    match metric
    case FwUptime => dp.(fwUptime := value)
    case LinkAvail => dp.(linkAvail := value)
  }

  // linkStats[ts].metric = value, creating the time stamp if it is new
  function Record(stats: seq<DataPoint>, ts: int, metric: Metric, value: real): seq<DataPoint> {
    if stats == [] || ts < stats[0].ts then [Updated(DataPoint(ts, MISSING, MISSING), metric, value)] + stats
    else if ts == stats[0].ts then [Updated(stats[0], metric, value)] + stats[1..]
    else [stats[0]] + Record(stats[1..], ts, metric, value)
  }

  function Sample(stats: seq<DataPoint>, ts: int): DataPoint {
    if stats == [] then DataPoint(ts, MISSING, MISSING)
    else if stats[0].ts == ts then stats[0]
    else Sample(stats[1..], ts)
  }

  lemma {:induction false} RecordIs(stats: seq<DataPoint>, ts: int, metric: Metric, value: real)
    requires Sorted(stats)
    ensures var after := Record(stats, ts, metric, value);
            && Sorted(after)
            && forall dp :: dp in after <==>
                 (dp in stats && dp.ts != ts) || dp == Updated(Sample(stats, ts), metric, value)
  {
    var after := Record(stats, ts, metric, value);
    if stats == [] {
    } else {
      var rest, updated := stats[1..], Updated(Sample(stats, ts), metric, value);
      assert stats == [stats[0]] + rest;
      if ts < stats[0].ts {
        SampleOfNew(stats, ts);
        Prepend(updated, stats);
      } else if ts == stats[0].ts {
        Prepend(updated, rest);
      } else {
        RecordIs(rest, ts, metric, value);
        SampleTs(rest, ts);
        Prepend(stats[0], Record(rest, ts, metric, value));
      }
    }
  }

  // A counter that arrives is the only one to change: the other one of its sample stays, or is missing
  // (-1) if this is the first of the two
  lemma CounterArrives(stats: seq<DataPoint>, ts: int, metric: Metric, value: real) returns (dp: DataPoint)
    requires Sorted(stats)
    ensures var after := Record(stats, ts, metric, value);
            && dp in after && dp.ts == ts && (forall x :: x in after && x.ts == ts ==> x == dp)
            && forall x: DataPoint :: x.ts != ts ==> (x in after <==> x in stats)
    ensures metric == FwUptime ==>
              && dp.fwUptime == value && (forall x :: x in stats && x.ts == ts ==> dp.linkAvail == x.linkAvail)
              && ((forall x :: x in stats ==> x.ts != ts) ==> dp.linkAvail == -1.0)
    ensures metric == LinkAvail ==>
              && dp.linkAvail == value && (forall x :: x in stats && x.ts == ts ==> dp.fwUptime == x.fwUptime)
              && ((forall x :: x in stats ==> x.ts != ts) ==> dp.fwUptime == -1.0)
  {
    RecordIs(stats, ts, metric, value);
    SampleTs(stats, ts);
    dp := Updated(Sample(stats, ts), metric, value);
    if x: DataPoint :| x in stats && x.ts == ts {
      SampleFound(stats, x);
    } else {
      SampleOfNew(stats, ts);
    }
  }

  lemma {:induction false} SampleFound(stats: seq<DataPoint>, x: DataPoint)
    requires Sorted(stats) && x in stats
    ensures Sample(stats, x.ts) == x
    ensures forall y :: y in stats && y.ts == x.ts ==> y == x
  {
    if stats[0] != x {
      assert x in stats[1..];
      SampleFound(stats[1..], x);
    }
  }

  lemma Prepend(dp: DataPoint, stats: seq<DataPoint>)
    requires Sorted(stats) && forall later :: later in stats ==> dp.ts < later.ts
    ensures Sorted([dp] + stats)
    ensures forall x :: x in [dp] + stats <==> x == dp || x in stats
  {
  }

  lemma {:induction false} SampleTs(stats: seq<DataPoint>, ts: int)
    ensures Sample(stats, ts).ts == ts
  {
    if stats != [] && stats[0].ts != ts {
      SampleTs(stats[1..], ts);
    }
  }

  lemma {:induction false} SampleOfNew(stats: seq<DataPoint>, ts: int)
    requires forall dp :: dp in stats ==> dp.ts != ts
    ensures Sample(stats, ts) == DataPoint(ts, MISSING, MISSING)
  {
    if stats != [] {
      SampleOfNew(stats[1..], ts);
    }
  }

  // The last n samples
  predicate Tail(part: seq<DataPoint>, stats: seq<DataPoint>) {
    |part| <= |stats| && part == stats[|stats| - |part|..]
  }

  // Exactly the last n of the samples are from the given time on
  predicate SplitsAt(stats: seq<DataPoint>, n: nat, from: int) {
    && n <= |stats|
    && (forall i :: 0 <= i < |stats| - n ==> stats[i].ts < from)
    && (forall i :: |stats| - n <= i < |stats| ==> stats[i].ts >= from)
  }

  lemma {:induction false} NotOlderIsSuffix(stats: seq<DataPoint>, from: int)
    requires Sorted(stats)
    ensures Tail(NotOlder(stats, from), stats) && SplitsAt(stats, |NotOlder(stats, from)|, from)
  {
    if stats != [] {
      if stats[0].ts < from {
        NotOlderIsSuffix(stats[1..], from);
        forall i | 1 <= i < |stats| ensures stats[i] == stats[1..][i - 1] {
        }
      } else {
        AllNotOlder(stats, from);
      }
    }
  }

  lemma {:induction false} AllNotOlder(stats: seq<DataPoint>, from: int)
    requires forall i :: 0 <= i < |stats| ==> stats[i].ts >= from
    ensures NotOlder(stats, from) == stats
  {
    if stats != [] {
      AllNotOlder(stats[1..], from);
    }
  }

  // A run with two valid samples keeps the newest samples: all from the last valid one on, or 480 of them
  lemma KeptIsNewest(lastEvent: Option<Event>, stats: seq<DataPoint>) returns (n: nat)
    requires Sorted(stats) && |ValidSeries(lastEvent, stats)| >= 2
    ensures Tail(Kept(lastEvent, stats), stats) && |Kept(lastEvent, stats)| == if n < 480 then n else 480
    ensures var valid := ValidSeries(lastEvent, stats); SplitsAt(stats, n, valid[|valid| - 1].ts)
  {
    var valid := ValidSeries(lastEvent, stats);
    var latest := valid[|valid| - 1].ts;
    n := |NotOlder(stats, latest)|;
    NotOlderIsSuffix(stats, latest);
    CapIsTail(stats, NotOlder(stats, latest));
    assert Kept(lastEvent, stats) == Cap(NotOlder(stats, latest));
  }

  lemma CapIsTail(stats: seq<DataPoint>, part: seq<DataPoint>)
    requires Tail(part, stats)
    ensures Tail(Cap(part), stats) && |Cap(part)| == if |part| < 480 then |part| else 480
  {
    assert MAX_DPS == 480;
  }

  lemma KeptSorted(lastEvent: Option<Event>, stats: seq<DataPoint>)
    requires Sorted(stats)
    ensures Sorted(Kept(lastEvent, stats))
  {
    if |ValidSeries(lastEvent, stats)| >= 2 {
      var n := KeptIsNewest(lastEvent, stats);
      SuffixSorted(stats, |stats| - |Kept(lastEvent, stats)|);
    }
  }

  lemma SuffixSorted(stats: seq<DataPoint>, n: nat)
    requires Sorted(stats) && n <= |stats|
    ensures Sorted(stats[n..])
  {
  }

  // ---------- one run of the updater ----------

  datatype Link = Link(stats: seq<DataPoint>, rows: seq<Event>)

  function Update(link: Link, pick: nat, landed: seq<bool>): Link {
    if link.stats == [] then link
    else
      var lastEvent := LatestRow(link.rows, pick);
      Link(Kept(lastEvent, link.stats), WriteAll(link.rows, Events(lastEvent, link.stats), landed))
  }

  // Rows are never removed or restarted, and no end moves back
  predicate RowsPersist(before: seq<Event>, after: seq<Event>) {
    && |before| <= |after|
    && forall i :: 0 <= i < |before| ==>
         after[i] == before[i].(endTime := after[i].endTime) && before[i].endTime <= after[i].endTime
  }

  // Of the old rows only row k may have changed, and whatever is new starts where it ended or later
  predicate OnlyExtends(before: seq<Event>, after: seq<Event>, k: nat) {
    && |before| <= |after|
    && (forall i :: 0 <= i < |before| && i != k ==> after[i] == before[i])
    && (k < |before| ==> forall i :: |before| <= i < |after| ==> before[k].endTime <= after[i].startTime)
  }

  // A row that another row outlasts has its final contents
  predicate OlderRowsStay(before: seq<Event>, after: seq<Event>) {
    && |before| <= |after|
    && forall i, j :: 0 <= i < |before| && 0 <= j < |before| && before[i].endTime < before[j].endTime ==>
         after[i] == before[i]
  }

  // Writing a chain of new events that start at or after every end in the table
  lemma {:induction false} WriteNew(rows: seq<Event>, events: seq<Event>, landed: seq<bool>, from: int)
    requires Timeline(rows) && Chained(events)
    requires forall e :: e in events ==> e.dbId == 0 && from <= e.startTime
    requires forall r, e :: r in rows && e in events ==> r.endTime <= e.startTime
    ensures var after := WriteAll(rows, events, landed);
            && Timeline(after)
            && rows <= after
            && forall i :: |rows| <= i < |after| ==> from <= after[i].startTime
    decreases events
  {
    if events != [] && landed != [] {
      var next := if landed[0] then WriteOne(rows, events[0]) else rows;
      assert events[0] in events;
      WriteOneNew(rows, events[0]);
      RestChained(events);
      forall r, e | r in next && e in events[1..]
        ensures r.endTime <= e.startTime
      {
        assert e in events;
      }
      WriteNew(next, events[1..], landed[1..], from);
    }
  }

  lemma WriteOneNew(rows: seq<Event>, event: Event)
    requires Timeline(rows) && event.dbId == 0 && event.startTime <= event.endTime
    requires forall r :: r in rows ==> r.endTime <= event.startTime
    ensures Timeline(WriteOne(rows, event))
  {
    var after := WriteOne(rows, event);
    forall i, j | 0 <= i < j < |after|
      ensures Apart(after[i], after[j])
    {
      if j == |rows| {
        assert rows[i] in rows;
      }
    }
  }

  lemma RestChained(events: seq<Event>)
    requires Chained(events) && events != []
    ensures Chained(events[1..])
    ensures forall e :: e in events[1..] ==> e in events && events[0].endTime <= e.startTime
  {
  }

  lemma ExtendNewest(rows: seq<Event>, k: nat, end: int)
    requires Timeline(rows) && Newest(rows, k) && rows[k].endTime <= end
    ensures Timeline(rows[k := rows[k].(endTime := end)])
    ensures forall r :: r in rows || r in rows[k := rows[k].(endTime := end)] ==> r.endTime <= end
  {
    var after := rows[k := rows[k].(endTime := end)];
    forall i, j | 0 <= i < j < |rows|
      ensures Apart(after[i], after[j])
    {
      assert Apart(rows[i], rows[j]);
    }
  }

  // Writing the events of a run that continues row k
  lemma WriteContinuation(rows: seq<Event>, k: nat, events: seq<Event>, landed: seq<bool>)
    requires Timeline(rows) && Newest(rows, k)
    requires Chained(events) && Grows([rows[k]], events)
    ensures var after := WriteAll(rows, events, landed);
            Timeline(after) && RowsPersist(rows, after) && OnlyExtends(rows, after, k)
  {
    if landed != [] {
      var end := events[0].endTime;
      ContinuesRow(rows[k], events);
      ExtendNewest(rows, k, end);
      assert WriteOne(rows, events[0]) == rows[k := rows[k].(endTime := end)];
      var next := if landed[0] then WriteOne(rows, events[0]) else rows;
      WriteNew(next, events[1..], landed[1..], rows[k].endTime);
      ExtendedThenMore(rows, k, if landed[0] then end else rows[k].endTime, WriteAll(rows, events, landed));
    }
  }

  // The first event is the row itself, ending later; the others come after it
  lemma ContinuesRow(row: Event, events: seq<Event>)
    requires Chained(events) && Grows([row], events)
    ensures events[0] == row.(endTime := events[0].endTime) && row.endTime <= events[0].endTime
    ensures Chained(events[1..])
    ensures forall e :: e in events[1..] ==> e.dbId == 0 && row.endTime <= events[0].endTime <= e.startTime
  {
    RestChained(events);
    forall e | e in events[1..] ensures e.dbId == 0 {
      var i :| 0 <= i < |events[1..]| && events[1..][i] == e;
      assert events[i + 1] == e;
    }
  }

  lemma ExtendedThenMore(rows: seq<Event>, k: nat, end: int, after: seq<Event>)
    requires k < |rows| && rows[k].endTime <= end && rows[k := rows[k].(endTime := end)] <= after
    requires forall i :: |rows| <= i < |after| ==> rows[k].endTime <= after[i].startTime
    ensures RowsPersist(rows, after) && OnlyExtends(rows, after, k)
  {
    forall i | 0 <= i < |rows|
      ensures after[i] == if i == k then rows[k].(endTime := end) else rows[i]
    {
      assert rows[k := rows[k].(endTime := end)][i] == after[i];
    }
  }

  lemma UpdateKeepsTimeline(link: Link, pick: nat, landed: seq<bool>)
    requires Sorted(link.stats) && Timeline(link.rows) && PicksNewest(link.rows, pick)
    requires ConsistentSeries(ValidSeries(LatestRow(link.rows, pick), link.stats))
    ensures var after := Update(link, pick, landed);
            && Sorted(after.stats)
            && Timeline(after.rows)
            && RowsPersist(link.rows, after.rows)
            && OnlyExtends(link.rows, after.rows, pick)
  {
    var rows, lastEvent := link.rows, LatestRow(link.rows, pick);
    var valid := ValidSeries(lastEvent, link.stats);
    ValidSeriesIs(lastEvent, link.stats);
    EventsTimeline(lastEvent, valid, |valid|);
    KeptSorted(lastEvent, link.stats);
    var events := Events(lastEvent, link.stats);
    if rows == [] {
      WriteNew(rows, events, landed, if events == [] then 0 else events[0].startTime);
    } else {
      WriteContinuation(rows, pick, events, landed);
    }
  }

  // ---------- what a run without lost writes stores ----------

  lemma {:induction false} NewEventsStored(rows: seq<Event>, events: seq<Event>, landed: seq<bool>,
                                           state: LinkState, t: int)
    requires |landed| >= |events| && forall i :: 0 <= i < |events| ==> landed[i] && events[i].dbId == 0
    ensures StateAt(WriteAll(rows, events, landed), state, t) <==> StateAt(rows, state, t) || StateAt(events, state, t)
    decreases events
  {
    if events != [] {
      var next := WriteOne(rows, events[0]);
      NewEventsStored(next, events[1..], landed[1..], state, t);
      AppendStateAt(rows, events[0].(dbId := |rows| + 1), state, t);
      FirstStateAt(events, state, t);
    }
  }

  lemma FirstStateAt(events: seq<Event>, state: LinkState, t: int)
    requires events != []
    ensures StateAt(events, state, t)
            <==> (events[0].linkState == state && Covers(events[0], t)) || StateAt(events[1..], state, t)
  {
    if i :| 0 <= i < |events| && events[i].linkState == state && Covers(events[i], t) {
      assert i > 0 ==> events[1..][i - 1] == events[i];
    }
    if i :| 0 <= i < |events[1..]| && events[1..][i].linkState == state && Covers(events[1..][i], t) {
      assert events[i + 1] == events[1..][i];
    }
  }

  lemma RowExtended(rows: seq<Event>, k: nat, end: int, state: LinkState, t: int)
    requires k < |rows| && rows[k].endTime <= end
    ensures var longer := rows[k].(endTime := end);
            StateAt(rows[k := longer], state, t)
            <==> StateAt(rows, state, t) || (longer.linkState == state && Covers(longer, t))
  {
    var after := rows[k := rows[k].(endTime := end)];
    if i :| 0 <= i < |rows| && rows[i].linkState == state && Covers(rows[i], t) {
      assert after[i].linkState == state && Covers(after[i], t);
    }
    if i :| 0 <= i < |after| && after[i].linkState == state && Covers(after[i], t) {
      assert i != k ==> rows[i] == after[i];
    }
    assert after[k] == rows[k].(endTime := end);
  }

  // A run whose writes all land adds to the table exactly the seconds that its events cover
  lemma EventsStored(rows: seq<Event>, pick: nat, events: seq<Event>, landed: seq<bool>, state: LinkState, t: int)
    requires Timeline(rows) && PicksNewest(rows, pick) && Grows(Initial(LatestRow(rows, pick)), events)
    requires |landed| >= |events| && forall i :: 0 <= i < |events| ==> landed[i]
    ensures StateAt(WriteAll(rows, events, landed), state, t) <==> StateAt(rows, state, t) || StateAt(events, state, t)
  {
    if rows == [] {
      NewEventsStored(rows, events, landed, state, t);
    } else {
      assert events[0] == rows[pick].(endTime := events[0].endTime) && rows[pick].endTime <= events[0].endTime;
      ContinuationStored(rows, pick, events, landed, state, t);
    }
  }

  lemma ContinuationStored(rows: seq<Event>, k: nat, events: seq<Event>, landed: seq<bool>, state: LinkState, t: int)
    requires k < |rows| && rows[k].dbId == k + 1 && events != []
    requires events[0] == rows[k].(endTime := events[0].endTime) && rows[k].endTime <= events[0].endTime
    requires |landed| >= |events| && landed[0] && forall i :: 0 < i < |events| ==> landed[i] && events[i].dbId == 0
    ensures StateAt(WriteAll(rows, events, landed), state, t) <==> StateAt(rows, state, t) || StateAt(events, state, t)
  {
    var next, rest := rows[k := events[0]], events[1..];
    assert WriteOne(rows, events[0]) == next;
    assert WriteAll(rows, events, landed) == WriteAll(next, rest, landed[1..]);
    NewEventsStored(next, rest, landed[1..], state, t);
    RowExtended(rows, k, events[0].endTime, state, t);
    FirstStateAt(events, state, t);
  }

  // After a run without lost writes the table says of every second what it said before, or what the
  // counters of the new samples say
  lemma UpdateStoresPainted(link: Link, pick: nat, landed: seq<bool>, state: LinkState, t: int)
    requires Sorted(link.stats) && Timeline(link.rows) && PicksNewest(link.rows, pick)
    requires var valid := ValidSeries(LatestRow(link.rows, pick), link.stats);
             && ConsistentSeries(valid)
             && |landed| >= |Events(LatestRow(link.rows, pick), link.stats)|
             && forall i :: 0 <= i < |landed| ==> landed[i]
    ensures var lastEvent := LatestRow(link.rows, pick);
            var valid := ValidSeries(lastEvent, link.stats);
            StateAt(Update(link, pick, landed).rows, state, t)
            <==> StateAt(link.rows, state, t) || PaintedBefore(lastEvent, valid, |valid|, state, t)
  {
    var lastEvent := LatestRow(link.rows, pick);
    var valid := ValidSeries(lastEvent, link.stats);
    ValidSeriesIs(lastEvent, link.stats);
    EventsTimeline(lastEvent, valid, |valid|);
    RunPaints(lastEvent, valid, |valid|, state, t);
    if link.stats != [] {
      EventsStored(link.rows, pick, Events(lastEvent, link.stats), landed, state, t);
      LatestIsStored(link.rows, pick, state, t);
    }
  }

  lemma LatestIsStored(rows: seq<Event>, pick: nat, state: LinkState, t: int)
    ensures StateAt(Initial(LatestRow(rows, pick)), state, t) ==> StateAt(rows, state, t)
  {
  }

  // ---------- every run ----------

  datatype Input =
    | Arrives(ts: int, metric: Metric, value: real)
    | UpdaterRun(pick: nat, landed: seq<bool>)

  function Next(link: Link, input: Input): Link {
    match input
    case Arrives(ts, metric, value) => link.(stats := Record(link.stats, ts, metric, value))
    case UpdaterRun(pick, landed) => Update(link, pick, landed)
  }

  function Execute(link: Link, inputs: seq<Input>): Link
    decreases inputs
  {
    if inputs == [] then link else Execute(Next(link, inputs[0]), inputs[1..])
  }

  predicate Admissible(link: Link, input: Input) {
    match input
    case Arrives(_, _, _) => true
    case UpdaterRun(pick, _) =>
      PicksNewest(link.rows, pick) && ConsistentSeries(ValidSeries(LatestRow(link.rows, pick), link.stats))
  }

  predicate AllAdmissible(link: Link, inputs: seq<Input>)
    decreases inputs
  {
    inputs == [] || (Admissible(link, inputs[0]) && AllAdmissible(Next(link, inputs[0]), inputs[1..]))
  }

  // Whatever arrives, in whatever order, and whichever writes get lost
  lemma {:induction false} TimelineAlways(link: Link, inputs: seq<Input>)
    requires Sorted(link.stats) && Timeline(link.rows) && AllAdmissible(link, inputs)
    ensures var after := Execute(link, inputs);
            && Sorted(after.stats) && Timeline(after.rows)
            && RowsPersist(link.rows, after.rows) && OlderRowsStay(link.rows, after.rows)
    decreases inputs
  {
    if inputs != [] {
      match inputs[0] {
        case Arrives(ts, metric, value) =>
          RecordIs(link.stats, ts, metric, value);
        case UpdaterRun(pick, landed) =>
          UpdateKeepsTimeline(link, pick, landed);
      }
      var next := Next(link, inputs[0]);
      TimelineAlways(next, inputs[1..]);
      OlderRowsStayOn(link.rows, next.rows, Execute(link, inputs).rows);
    }
  }

  lemma OlderRowsStayOn(a: seq<Event>, b: seq<Event>, c: seq<Event>)
    requires RowsPersist(a, b) && OlderRowsStay(a, b) && OlderRowsStay(b, c)
    ensures OlderRowsStay(a, c)
  {
    forall i, j | 0 <= i < |a| && 0 <= j < |a| && a[i].endTime < a[j].endTime
      ensures c[i] == a[i]
    {
      assert b[i] == a[i] && a[j].endTime <= b[j].endTime;
    }
  }

  // No second is ever reported both with and without data
  lemma NeverBothStates(link: Link, inputs: seq<Input>, t: int)
    requires link == Link([], []) && AllAdmissible(link, inputs)
    ensures var rows := Execute(link, inputs).rows;
            !(StateAt(rows, LinkUp, t) && StateAt(rows, LinkUpDataDown, t))
  {
    TimelineAlways(link, inputs);
  }

  // ---------- the service itself ----------

  class NetworkHealthService {
    var linkHealthStats: seq<DataPoint>
    var linkEvents: seq<Event>

    function State(): Link
      reads this
    {
      Link(linkHealthStats, linkEvents)
    }

    constructor ()
      ensures State() == Link([], [])
    {
      linkHealthStats, linkEvents := [], [];
    }

    method Consume(ts: int, metric: Metric, value: real)
      modifies this
      ensures State() == Next(old(State()), Arrives(ts, metric, value))
    {
      linkHealthStats := Record(linkHealthStats, ts, metric, value);
    }

    method LinkHealthUpdater(pick: nat, landed: seq<bool>)
      modifies this
      ensures State() == Next(old(State()), UpdaterRun(pick, landed))
    {
      if linkHealthStats == [] {
        return;
      }
      var lastEvent := LatestRow(linkEvents, pick);
      var eventList;
      eventList, linkHealthStats := ProcessLinkStats(lastEvent, linkHealthStats);
      UpdateLinkEventRecords(eventList, landed);
    }

    method UpdateLinkEventRecords(eventList: seq<Event>, landed: seq<bool>)
      modifies this`linkEvents
      ensures linkEvents == WriteAll(old(linkEvents), eventList, landed)
    {
      var i := 0;
      while i < |eventList| && i < |landed|
        invariant i <= |eventList| && i <= |landed|
        invariant WriteAll(linkEvents, eventList[i..], landed[i..]) == WriteAll(old(linkEvents), eventList, landed)
      {
        assert eventList[i..][1..] == eventList[i + 1..] && landed[i..][1..] == landed[i + 1..];
        if landed[i] {
          linkEvents := WriteOne(linkEvents, eventList[i]);
        }
        i := i + 1;
      }
    }
  }
}
