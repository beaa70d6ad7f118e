/**
  The link-event timeline of the query service.

  Firmware counters of one link (fw_uptime and link_avail, sampled together) are turned into
  LINK_UP and LINK_UP_DATADOWN intervals.  The intervals are stored as rows of the link_event
  table; a later run of the updater may extend the newest row and append further ones.
  All intervals are half open: an event covers the seconds t with startTime <= t < endTime.
 */
module LinkTimeline {
  import opened Options

  datatype LinkState = LinkUp | LinkUpDataDown

  // dbId 0 marks an event that has no row yet
  datatype Event = Event(dbId: nat, startTime: int, endTime: int, linkState: LinkState)

  // One time stamp of the std::map of samples; MISSING marks a counter that has not arrived
  datatype DataPoint = DataPoint(ts: int, fwUptime: real, linkAvail: real)

  datatype Metric = FwUptime | LinkAvail

  const MISSING: real := -1.0
  const MAX_DPS: nat := 4 * 60 * (60 / 30)

  // ---------- arithmetic of the counters: 1000 / 25.6 == 625 / 16 counts a second ----------

  function Seconds(counts: real): real {
    counts * 16.0 / 625.0
  }

  // conversion of a double to time_t drops the fraction, toward zero
  function Truncate(x: real): int {
    if x >= 0.0 then x.Floor else -((-x).Floor)
  }

  function Ceil(x: real): int {
    -((-x).Floor)
  }

  function Max(a: int, b: int): int {
    if a < b then b else a
  }

  // ---------- one interval between two adjacent valid samples ----------

  predicate RolledOver(prev: DataPoint, cur: DataPoint) {
    cur.fwUptime < prev.fwUptime
  }

  function UptimeDelta(prev: DataPoint, cur: DataPoint): real {
    if RolledOver(prev, cur) then cur.fwUptime else cur.fwUptime - prev.fwUptime
  }

  function AvailDelta(prev: DataPoint, cur: DataPoint): real {
    if RolledOver(prev, cur) then cur.linkAvail else cur.linkAvail - prev.linkAvail
  }

  // The second at which the firmware came up, according to the counter
  function UpSince(cur: DataPoint): int {
    Truncate(cur.ts as real - Seconds(cur.fwUptime))
  }

  function DataDownSeconds(prev: DataPoint, cur: DataPoint): int {
    Ceil(Seconds(UptimeDelta(prev, cur) - AvailDelta(prev, cur)))
  }

  // What two adjacent samples of a healthy counter pair look like: counters never run faster than
  // the slope, and data availability never grows faster than uptime
  predicate Consistent(prev: DataPoint, cur: DataPoint) {
    && 0 <= prev.ts < cur.ts
    && 0.0 <= prev.fwUptime
    && 0.0 <= AvailDelta(prev, cur) <= UptimeDelta(prev, cur)
    && Seconds(UptimeDelta(prev, cur)) <= (cur.ts - prev.ts) as real
  }

  // An event that came up by the end of the last one continues it
  predicate JoinsFrom(events: seq<Event>, up: int, state: LinkState) {
    events != [] && up <= Last(events).endTime && Last(events).linkState == state
  }

  predicate Joins(events: seq<Event>, cur: DataPoint, state: LinkState) {
    JoinsFrom(events, UpSince(cur), state)
  }

  function Last(events: seq<Event>): Event
    requires events != []
  {
    events[|events| - 1]
  }

  function ExtendLast(events: seq<Event>, end: int): seq<Event>
    requires events != []
  {
    events[|events| - 1 := Last(events).(endTime := end)]
  }

  function UpStep(events: seq<Event>, up: int, now: int): seq<Event> {
    if JoinsFrom(events, up, LinkUp) then
      ExtendLast(events, now)
    else
      var start := if events != [] then Max(up, Last(events).endTime) else up;
      events + [Event(0, start, now, LinkUp)]
  }

  function DownStep(events: seq<Event>, up: int, avail: real, transition: int, now: int): seq<Event> {
    if JoinsFrom(events, up, LinkUp) then
      ExtendLast(events, transition) + [Event(0, transition, now, LinkUpDataDown)]
    else if avail > 0.0 then
      var start := Max(up, if events != [] then Last(events).endTime else 0);
      var end := if start == transition then transition + 1 else transition;
      events + [Event(0, start, end, LinkUp), Event(0, end, now, LinkUpDataDown)]
    else if avail == 0.0 && JoinsFrom(events, up, LinkUpDataDown) then
      ExtendLast(events, now)
    else
      events + [Event(0, transition, now, LinkUpDataDown)]
  }

  // The body of the loop over valid samples
  function Step(events: seq<Event>, prev: DataPoint, cur: DataPoint): seq<Event> {
    var uptime, avail := UptimeDelta(prev, cur), AvailDelta(prev, cur);
    if cur.fwUptime == 0.0 then events
    else if uptime == avail then UpStep(events, UpSince(cur), cur.ts)
    else DownStep(events, UpSince(cur), avail, cur.ts - DataDownSeconds(prev, cur), cur.ts)
  }

  // ---------- a whole run over the samples of one link ----------

  predicate Usable(lastEvent: Option<Event>, dp: DataPoint) {
    && dp.fwUptime != MISSING && dp.linkAvail != MISSING
    && !(lastEvent.Some? && lastEvent.value.endTime >= dp.ts)
  }

  function ValidSeries(lastEvent: Option<Event>, stats: seq<DataPoint>): seq<DataPoint> {
    if stats == [] then []
    else if Usable(lastEvent, stats[0]) then [stats[0]] + ValidSeries(lastEvent, stats[1..])
    else ValidSeries(lastEvent, stats[1..])
  }

  // std::map iterates its time stamps in increasing order
  predicate Sorted(stats: seq<DataPoint>) {
    forall i, j :: 0 <= i < j < |stats| ==> stats[i].ts < stats[j].ts
  }

  predicate ConsistentSeries(valid: seq<DataPoint>) {
    forall i :: 0 < i < |valid| ==> Consistent(valid[i - 1], valid[i])
  }

  function Initial(lastEvent: Option<Event>): seq<Event> {
    if lastEvent.Some? then [lastEvent.value] else []
  }

  // The events after the samples valid[..n] have been looked at
  function EventsAfter(lastEvent: Option<Event>, valid: seq<DataPoint>, n: nat): seq<Event>
    requires n <= |valid|
  {
    if n <= 1 then Initial(lastEvent)
    else Step(EventsAfter(lastEvent, valid, n - 1), valid[n - 2], valid[n - 1])
  }

  function Events(lastEvent: Option<Event>, stats: seq<DataPoint>): seq<Event> {
    var valid := ValidSeries(lastEvent, stats);
    EventsAfter(lastEvent, valid, |valid|)
  }

  function NotOlder(stats: seq<DataPoint>, ts: int): seq<DataPoint> {
    if stats == [] then []
    else if stats[0].ts < ts then NotOlder(stats[1..], ts)
    else [stats[0]] + NotOlder(stats[1..], ts)
  }

  function Cap(stats: seq<DataPoint>): seq<DataPoint> {
    if |stats| > MAX_DPS then stats[|stats| - MAX_DPS..] else stats
  }

  // The samples that stay in memory for the next run
  function Kept(lastEvent: Option<Event>, stats: seq<DataPoint>): seq<DataPoint> {
    var valid := ValidSeries(lastEvent, stats);
    if |valid| < 2 then stats else Cap(NotOlder(stats, valid[|valid| - 1].ts))
  }

  method ProcessLinkStats(lastEvent: Option<Event>, linkStats: seq<DataPoint>)
    returns (eventList: seq<Event>, kept: seq<DataPoint>)
    ensures eventList == Events(lastEvent, linkStats)
    ensures kept == Kept(lastEvent, linkStats)
  {
    eventList, kept := [], linkStats;
    if lastEvent.Some? {
      eventList := eventList + [lastEvent.value];
    }
    var valid := FindValid(lastEvent, linkStats);
    if |valid| < 2 {
      return;
    }
    for i := 1 to |valid|
      invariant eventList == EventsAfter(lastEvent, valid, i)
    {
      eventList := AddInterval(eventList, valid[i - 1], valid[i]);
    }
    kept := DropOld(linkStats, valid[|valid| - 1].ts);
  }

  // The samples with both counters present that are newer than the last event
  method FindValid(lastEvent: Option<Event>, linkStats: seq<DataPoint>) returns (valid: seq<DataPoint>)
    ensures valid == ValidSeries(lastEvent, linkStats)
  {
    valid := [];
    for idx := 0 to |linkStats|
      invariant valid + ValidSeries(lastEvent, linkStats[idx..]) == ValidSeries(lastEvent, linkStats)
    {
      assert linkStats[idx..][1..] == linkStats[idx + 1..];
      if Usable(lastEvent, linkStats[idx]) {
        valid := valid + [linkStats[idx]];
      }
    }
  }

  lemma {:induction false} ValidSeriesIs(lastEvent: Option<Event>, stats: seq<DataPoint>)
    requires Sorted(stats)
    ensures Sorted(ValidSeries(lastEvent, stats))
    ensures forall dp :: dp in ValidSeries(lastEvent, stats)
                         <==> && dp in stats && dp.fwUptime != -1.0 && dp.linkAvail != -1.0
                              && (lastEvent.Some? ==> lastEvent.value.endTime < dp.ts)
  {
    if stats != [] {
      ValidSeriesIs(lastEvent, stats[1..]);
      assert stats == [stats[0]] + stats[1..];
      forall dp | dp in ValidSeries(lastEvent, stats[1..])
        ensures stats[0].ts < dp.ts
      {
        assert dp in stats[1..];
      }
    }
  }

  // One pass through the loop over valid samples, rewriting the last event in place
  method AddInterval(events: seq<Event>, prev: DataPoint, cur: DataPoint) returns (eventList: seq<Event>)
    ensures eventList == Step(events, prev, cur)
  {
    eventList := events;
    var fwUptimeDelta := cur.fwUptime - prev.fwUptime;
    var linkAvailDelta := cur.linkAvail - prev.linkAvail;
    if fwUptimeDelta < 0.0 {
      fwUptimeDelta, linkAvailDelta := cur.fwUptime, cur.linkAvail;
    }
    if cur.fwUptime == 0.0 {
      return;
    }
    var startTs := Truncate(cur.ts as real - Seconds(cur.fwUptime));
    var last := |eventList| - 1;
    if fwUptimeDelta == linkAvailDelta {
      if last >= 0 && startTs <= eventList[last].endTime && eventList[last].linkState == LinkUp {
        eventList := eventList[last := eventList[last].(endTime := cur.ts)];
      } else {
        var start := if last >= 0 then Max(startTs, eventList[last].endTime) else startTs;
        eventList := eventList + [Event(0, start, cur.ts, LinkUp)];
      }
    } else {
      var needsNewLinkUpDataDown := true;
      var dataDownTimeSec := Ceil(Seconds(fwUptimeDelta - linkAvailDelta));
      var eventTransitionTime := cur.ts - dataDownTimeSec;
      var lastEventEndTime := if last >= 0 then eventList[last].endTime else 0;
      if last >= 0 && startTs <= eventList[last].endTime && eventList[last].linkState == LinkUp {
        eventList := eventList[last := eventList[last].(endTime := eventTransitionTime)];
      } else if linkAvailDelta > 0.0 {
        var start := Max(startTs, lastEventEndTime);
        if start == eventTransitionTime {
          eventTransitionTime := eventTransitionTime + 1;
        }
        eventList := eventList + [Event(0, start, eventTransitionTime, LinkUp)];
      } else if linkAvailDelta == 0.0 && last >= 0 && startTs <= eventList[last].endTime
                && eventList[last].linkState == LinkUpDataDown {
        eventList := eventList[last := eventList[last].(endTime := cur.ts)];
        needsNewLinkUpDataDown := false;
      }
      if needsNewLinkUpDataDown {
        eventList := eventList + [Event(0, eventTransitionTime, cur.ts, LinkUpDataDown)];
      }
    }
  }

  // Erase what is older than the latest valid sample, then the oldest samples beyond the limit
  method DropOld(linkStats: seq<DataPoint>, latestValid: int) returns (kept: seq<DataPoint>)
    ensures kept == Cap(NotOlder(linkStats, latestValid))
  {
    kept := EraseOlder(linkStats, latestValid);
    kept := DropOldest(kept);
  }

  method EraseOlder(linkStats: seq<DataPoint>, latestValid: int) returns (kept: seq<DataPoint>)
    ensures kept == NotOlder(linkStats, latestValid)
  {
    kept := [];
    for idx := 0 to |linkStats|
      invariant kept + NotOlder(linkStats[idx..], latestValid) == NotOlder(linkStats, latestValid)
    {
      assert linkStats[idx..][1..] == linkStats[idx + 1..];
      if linkStats[idx].ts >= latestValid {
        kept := kept + [linkStats[idx]];
      }
    }
  }

  method DropOldest(stats: seq<DataPoint>) returns (kept: seq<DataPoint>)
    ensures kept == Cap(stats)
  {
    kept := stats;
    while |kept| > MAX_DPS
      invariant |kept| <= |stats| && kept == stats[|stats| - |kept|..]
      invariant |kept| >= MAX_DPS || kept == stats
    {
      kept := kept[1..];
    }
  }

  // ---------- what one interval does to the timeline ----------

  predicate Covers(e: Event, t: int) {
    e.startTime <= t < e.endTime
  }

  ghost predicate StateAt(events: seq<Event>, state: LinkState, t: int) {
    exists i :: 0 <= i < |events| && events[i].linkState == state && Covers(events[i], t)
  }

  // Events in order of time, none starting before its predecessor ended
  predicate Chained(events: seq<Event>) {
    && (forall i :: 0 <= i < |events| ==> events[i].startTime <= events[i].endTime)
    && (forall i, j :: 0 <= i < j < |events| ==> events[i].endTime <= events[j].startTime)
  }

  predicate EndsBy(events: seq<Event>, t: int) {
    events == [] || Last(events).endTime <= t
  }

  // The later list keeps every event of the earlier one, except that its last event may end later;
  // anything new has no row yet
  predicate Grows(before: seq<Event>, after: seq<Event>) {
    && |before| <= |after|
    && (forall i :: 0 <= i < |before| - 1 ==> after[i] == before[i])
    && (before != [] ==>
          var was, now := Last(before), after[|before| - 1];
          now == was.(endTime := now.endTime) && was.endTime <= now.endTime)
    && (forall i :: |before| <= i < |after| ==> after[i].dbId == 0)
  }

  lemma TransitionBounds(prev: DataPoint, cur: DataPoint)
    requires Consistent(prev, cur) && cur.fwUptime > 0.0
    ensures UpSince(cur) < cur.ts
    ensures UptimeDelta(prev, cur) != AvailDelta(prev, cur) ==>
              var transition := cur.ts - DataDownSeconds(prev, cur);
              prev.ts <= transition < cur.ts && UpSince(cur) <= transition
  {
  }

  lemma AppendTimeline(events: seq<Event>, start: int, end: int, state: LinkState)
    requires Chained(events) && EndsBy(events, start) && start <= end
    ensures var after := events + [Event(0, start, end, state)];
            Chained(after) && Grows(events, after)
  {
  }

  lemma ExtendTimeline(events: seq<Event>, end: int)
    requires Chained(events) && events != [] && Last(events).endTime <= end
    ensures Chained(ExtendLast(events, end)) && Grows(events, ExtendLast(events, end))
  {
  }

  lemma AppendTwo(events: seq<Event>, start: int, middle: int, end: int)
    requires Chained(events) && EndsBy(events, start) && start <= middle <= end
    ensures var after := events + [Event(0, start, middle, LinkUp), Event(0, middle, end, LinkUpDataDown)];
            Chained(after) && Grows(events, after)
  {
    var one := events + [Event(0, start, middle, LinkUp)];
    AppendTimeline(events, start, middle, LinkUp);
    AppendTimeline(one, middle, end, LinkUpDataDown);
    assert events + [Event(0, start, middle, LinkUp), Event(0, middle, end, LinkUpDataDown)]
        == one + [Event(0, middle, end, LinkUpDataDown)];
  }

  lemma UpStepTimeline(events: seq<Event>, up: int, now: int)
    requires Chained(events) && EndsBy(events, now) && up < now
    ensures var after := UpStep(events, up, now);
            Chained(after) && EndsBy(after, now) && Grows(events, after)
  {
    if JoinsFrom(events, up, LinkUp) {
      ExtendTimeline(events, now);
    } else {
      AppendTimeline(events, if events != [] then Max(up, Last(events).endTime) else up, now, LinkUp);
    }
  }

  lemma DownStepTimeline(events: seq<Event>, up: int, avail: real, transition: int, now: int)
    requires Chained(events) && EndsBy(events, transition) && up <= transition < now && 0 <= transition
    ensures var after := DownStep(events, up, avail, transition, now);
            Chained(after) && EndsBy(after, now) && Grows(events, after)
  {
    if JoinsFrom(events, up, LinkUp) {
      ExtendTimeline(events, transition);
      AppendTimeline(ExtendLast(events, transition), transition, now, LinkUpDataDown);
      GrowsByOne(events, ExtendLast(events, transition), Event(0, transition, now, LinkUpDataDown));
    } else if avail > 0.0 {
      var start := Max(up, if events != [] then Last(events).endTime else 0);
      AppendTwo(events, start, if start == transition then transition + 1 else transition, now);
    } else if avail == 0.0 && JoinsFrom(events, up, LinkUpDataDown) {
      ExtendTimeline(events, now);
    } else {
      AppendTimeline(events, transition, now, LinkUpDataDown);
    }
  }

  lemma GrowsByOne(events: seq<Event>, longer: seq<Event>, e: Event)
    requires Grows(events, longer) && e.dbId == 0
    ensures Grows(events, longer + [e])
  {
  }

  lemma TransitionInOrder(prev: DataPoint, cur: DataPoint)
    requires Consistent(prev, cur)
    ensures cur.fwUptime >= 0.0 && 0 <= prev.ts < cur.ts
    ensures cur.fwUptime != 0.0 ==> UpSince(cur) < cur.ts
    ensures cur.fwUptime != 0.0 && UptimeDelta(prev, cur) != AvailDelta(prev, cur) ==>
              var transition := cur.ts - DataDownSeconds(prev, cur);
              prev.ts <= transition < cur.ts && UpSince(cur) <= transition
  {
    if cur.fwUptime != 0.0 {
      TransitionBounds(prev, cur);
    }
  }

  // What the code asserts about the counter and about a new up event
  lemma AssertionsHold(events: seq<Event>, prev: DataPoint, cur: DataPoint)
    requires Chained(events) && EndsBy(events, prev.ts) && Consistent(prev, cur) && cur.fwUptime != 0.0
    ensures cur.fwUptime >= 0.0
    ensures UptimeDelta(prev, cur) != AvailDelta(prev, cur) && !Joins(events, cur, LinkUp)
            && AvailDelta(prev, cur) > 0.0 ==>
              var after := Step(events, prev, cur);
              var up := after[|events|];
              |after| == |events| + 2 && up.startTime < up.endTime <= cur.ts
  {
    TransitionInOrder(prev, cur);
  }

  lemma StepTimeline(events: seq<Event>, prev: DataPoint, cur: DataPoint)
    requires Chained(events) && EndsBy(events, prev.ts) && Consistent(prev, cur)
    ensures var after := Step(events, prev, cur);
            Chained(after) && EndsBy(after, cur.ts) && Grows(events, after)
  {
    var up, now, transition := UpSince(cur), cur.ts, cur.ts - DataDownSeconds(prev, cur);
    TransitionInOrder(prev, cur);
    if cur.fwUptime == 0.0 {
      assert Step(events, prev, cur) == events;
    } else if UptimeDelta(prev, cur) == AvailDelta(prev, cur) {
      UpStepTimeline(events, up, now);
      assert Step(events, prev, cur) == UpStep(events, up, now);
    } else {
      DownStepTimeline(events, up, AvailDelta(prev, cur), transition, now);
      assert Step(events, prev, cur) == DownStep(events, up, AvailDelta(prev, cur), transition, now);
    }
  }

  // ---------- which seconds one interval paints, and in which state ----------

  function FreshFrom(events: seq<Event>, prev: DataPoint, cur: DataPoint): int {
    if events != [] then Max(UpSince(cur), Last(events).endTime)
    else if UptimeDelta(prev, cur) == AvailDelta(prev, cur) then UpSince(cur)
    else Max(UpSince(cur), 0)
  }

  // Data is down from here to the end of the interval
  function DownFrom(events: seq<Event>, prev: DataPoint, cur: DataPoint): int {
    var uptime, avail := UptimeDelta(prev, cur), AvailDelta(prev, cur);
    var transition := cur.ts - DataDownSeconds(prev, cur);
    if uptime == avail then cur.ts
    else if avail == 0.0 && Joins(events, cur, LinkUpDataDown) then Last(events).endTime
    else if avail > 0.0 && !Joins(events, cur, LinkUp) && FreshFrom(events, prev, cur) == transition then transition + 1
    else transition
  }

  // The link is up from here until data goes down.  An interval that is data-down throughout adds
  // no up time unless an up event is already running; stalled counters count as up.
  function UpFrom(events: seq<Event>, prev: DataPoint, cur: DataPoint): int {
    var uptime, avail := UptimeDelta(prev, cur), AvailDelta(prev, cur);
    if uptime == avail || avail > 0.0 || Joins(events, cur, LinkUp) then FreshFrom(events, prev, cur)
    else DownFrom(events, prev, cur)
  }

  predicate Painted(events: seq<Event>, prev: DataPoint, cur: DataPoint, state: LinkState, t: int) {
    match state
    case LinkUp => UpFrom(events, prev, cur) <= t < DownFrom(events, prev, cur)
    case LinkUpDataDown => DownFrom(events, prev, cur) <= t < cur.ts
  }

  lemma AppendStateAt(events: seq<Event>, e: Event, state: LinkState, t: int)
    ensures StateAt(events + [e], state, t) <==> StateAt(events, state, t) || (e.linkState == state && Covers(e, t))
  {
    var all := events + [e];
    if StateAt(events, state, t) {
      var i :| 0 <= i < |events| && events[i].linkState == state && Covers(events[i], t);
      assert all[i] == events[i];
    }
    if e.linkState == state && Covers(e, t) {
      assert all[|events|] == e;
    }
  }

  lemma ExtendStateAt(events: seq<Event>, end: int, state: LinkState, t: int)
    requires events != [] && Last(events).startTime <= Last(events).endTime <= end
    ensures StateAt(ExtendLast(events, end), state, t) <==>
            StateAt(events, state, t) || (Last(events).linkState == state && Last(events).endTime <= t < end)
  {
    var front := events[..|events| - 1];
    assert events == front + [Last(events)];
    assert ExtendLast(events, end) == front + [Last(events).(endTime := end)];
    AppendStateAt(front, Last(events), state, t);
    AppendStateAt(front, Last(events).(endTime := end), state, t);
  }

  // Exactly the painted seconds are added, whichever of the six branches was taken
  lemma StepPaints(events: seq<Event>, prev: DataPoint, cur: DataPoint, state: LinkState, t: int)
    requires Chained(events) && EndsBy(events, prev.ts) && Consistent(prev, cur) && cur.fwUptime > 0.0
    ensures StateAt(Step(events, prev, cur), state, t) <==>
            StateAt(events, state, t) || Painted(events, prev, cur, state, t)
  {
    TransitionBounds(prev, cur);
    var after := Step(events, prev, cur);
    var transition := cur.ts - DataDownSeconds(prev, cur);
    if UptimeDelta(prev, cur) == AvailDelta(prev, cur) {
      if Joins(events, cur, LinkUp) {
        ExtendStateAt(events, cur.ts, state, t);
      } else {
        AppendStateAt(events, Last(after), state, t);
      }
    } else if Joins(events, cur, LinkUp) {
      ExtendStateAt(events, transition, state, t);
      AppendStateAt(ExtendLast(events, transition), Last(after), state, t);
    } else if AvailDelta(prev, cur) > 0.0 {
      var up := after[|events|];
      assert after == (events + [up]) + [Last(after)];
      AppendStateAt(events, up, state, t);
      AppendStateAt(events + [up], Last(after), state, t);
    } else if Joins(events, cur, LinkUpDataDown) {
      ExtendStateAt(events, cur.ts, state, t);
    } else {
      AppendStateAt(events, Last(after), state, t);
    }
  }

  // The painted data-down time is the counters' shortfall to within a second, except exactly when a
  // running data-down event that ended before the transition is stretched over the gap
  lemma DataDownAccuracy(events: seq<Event>, prev: DataPoint, cur: DataPoint)
    requires Chained(events) && EndsBy(events, prev.ts) && Consistent(prev, cur) && cur.fwUptime > 0.0
    ensures var down := (cur.ts - DownFrom(events, prev, cur)) as real;
            var shortfall := Seconds(UptimeDelta(prev, cur) - AvailDelta(prev, cur));
            && shortfall - 1.0 <= down
            && (UptimeDelta(prev, cur) != AvailDelta(prev, cur) ==>
                  (down < shortfall + 1.0
                   <==> || AvailDelta(prev, cur) > 0.0 || !Joins(events, cur, LinkUpDataDown)
                        || Last(events).endTime == cur.ts - DataDownSeconds(prev, cur)))
            && (UptimeDelta(prev, cur) == AvailDelta(prev, cur) ==> down == shortfall == 0.0)
  {
    TransitionBounds(prev, cur);
  }

  // ---------- a whole run ----------

  lemma GrowsTransitively(a: seq<Event>, b: seq<Event>, c: seq<Event>)
    requires Grows(a, b) && Grows(b, c)
    requires forall i :: |a| <= i < |b| ==> b[i].dbId == 0
    ensures Grows(a, c)
  {
  }

  lemma {:induction false} EventsTimeline(lastEvent: Option<Event>, valid: seq<DataPoint>, n: nat)
    requires n <= |valid| && ConsistentSeries(valid)
    requires forall dp :: dp in valid ==> Usable(lastEvent, dp)
    requires Chained(Initial(lastEvent))
    ensures var events := EventsAfter(lastEvent, valid, n);
            && Chained(events)
            && Grows(Initial(lastEvent), events)
            && (n > 0 ==> EndsBy(events, valid[n - 1].ts))
  {
    if n == 1 {
      assert valid[0] in valid;
    } else if n > 1 {
      EventsTimeline(lastEvent, valid, n - 1);
      var before := EventsAfter(lastEvent, valid, n - 1);
      StepTimeline(before, valid[n - 2], valid[n - 1]);
      GrowsTransitively(Initial(lastEvent), before, EventsAfter(lastEvent, valid, n));
    }
  }

  // The i-th interval of the run paints second t
  predicate PaintedAt(lastEvent: Option<Event>, valid: seq<DataPoint>, i: nat, state: LinkState, t: int)
    requires 0 < i < |valid|
  {
    valid[i].fwUptime > 0.0 && Painted(EventsAfter(lastEvent, valid, i), valid[i - 1], valid[i], state, t)
  }

  // One of the first intervals of the run paints second t
  ghost predicate PaintedBefore(lastEvent: Option<Event>, valid: seq<DataPoint>, n: nat, state: LinkState, t: int)
    requires n <= |valid|
  {
    exists i :: 0 < i < n && PaintedAt(lastEvent, valid, i, state, t)
  }

  // A run adds exactly what its intervals paint
  lemma {:induction false} RunPaints(lastEvent: Option<Event>, valid: seq<DataPoint>, n: nat, state: LinkState, t: int)
    requires n <= |valid| && ConsistentSeries(valid) && Chained(Initial(lastEvent))
    requires forall dp :: dp in valid ==> Usable(lastEvent, dp)
    ensures StateAt(EventsAfter(lastEvent, valid, n), state, t)
            <==> StateAt(Initial(lastEvent), state, t) || PaintedBefore(lastEvent, valid, n, state, t)
  {
    if n > 1 {
      RunPaints(lastEvent, valid, n - 1, state, t);
      IntervalPaints(lastEvent, valid, n - 1, state, t);
      PaintedOneMore(lastEvent, valid, n - 1, state, t);
    }
  }

  lemma PaintedOneMore(lastEvent: Option<Event>, valid: seq<DataPoint>, k: nat, state: LinkState, t: int)
    requires 0 < k < |valid|
    ensures PaintedBefore(lastEvent, valid, k + 1, state, t)
            <==> PaintedBefore(lastEvent, valid, k, state, t) || PaintedAt(lastEvent, valid, k, state, t)
  {
  }

  lemma IntervalPaints(lastEvent: Option<Event>, valid: seq<DataPoint>, k: nat, state: LinkState, t: int)
    requires 0 < k < |valid| && ConsistentSeries(valid) && Chained(Initial(lastEvent))
    requires forall dp :: dp in valid ==> Usable(lastEvent, dp)
    ensures StateAt(EventsAfter(lastEvent, valid, k + 1), state, t)
            <==> StateAt(EventsAfter(lastEvent, valid, k), state, t) || PaintedAt(lastEvent, valid, k, state, t)
  {
    EventsTimeline(lastEvent, valid, k);
    assert Consistent(valid[k - 1], valid[k]);
    if valid[k].fwUptime > 0.0 {
      StepPaints(EventsAfter(lastEvent, valid, k), valid[k - 1], valid[k], state, t);
    } else {
      TransitionInOrder(valid[k - 1], valid[k]);
    }
  }

  // Memory stays within the limit exactly when it was already, or the run found two valid samples
  lemma MemoryBound(lastEvent: Option<Event>, stats: seq<DataPoint>)
    ensures |Kept(lastEvent, stats)| <= 480 <==> |stats| <= 480 || |ValidSeries(lastEvent, stats)| >= 2
  {
  }
}
