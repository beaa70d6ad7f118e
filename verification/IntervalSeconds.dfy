/**
  One interval of the link-event timeline in plain numbers.

  The firmware counts 625 times in 16 seconds.  What two adjacent samples add to a timeline is stated
  here by these two numbers alone.
 */
module IntervalSeconds {
  import opened LinkTimeline
  import opened Options

  // What the counters counted in the interval; they start from zero when the uptime has gone back
  predicate Counted(prev: DataPoint, cur: DataPoint, uptime: real, avail: real) {
    if cur.fwUptime < prev.fwUptime then uptime == cur.fwUptime && avail == cur.linkAvail
    else uptime == cur.fwUptime - prev.fwUptime && avail == cur.linkAvail - prev.linkAvail
  }

  // The second in which the link came up: as many seconds ago as the uptime counter says, without the
  // fraction (which is dropped toward zero, also before the epoch)
  predicate CameUpIn(cur: DataPoint, s: int) {
    if 16.0 * cur.fwUptime <= 625.0 * cur.ts as real
    then 16.0 * cur.fwUptime <= 625.0 * (cur.ts - s) as real < 16.0 * cur.fwUptime + 625.0
    else 16.0 * cur.fwUptime - 625.0 < 625.0 * (cur.ts - s) as real <= 16.0 * cur.fwUptime
  }

  // The seconds that this many counts take, a fraction counting in full
  predicate Takes(counts: real, seconds: int) {
    625.0 * (seconds - 1) as real < 16.0 * counts <= 625.0 * seconds as real
  }

  // Counters that never run faster than the clock, and data that is never available without the link
  predicate Healthy(prev: DataPoint, cur: DataPoint, uptime: real, avail: real) {
    && 0 <= prev.ts < cur.ts && 0.0 <= prev.fwUptime && 0.0 < cur.fwUptime
    && Counted(prev, cur, uptime, avail) && 0.0 <= avail <= uptime
    && 16.0 * uptime <= 625.0 * (cur.ts - prev.ts) as real
  }

  lemma SecondsAre(prev: DataPoint, cur: DataPoint, uptime: real, avail: real, s: int, down: int)
    requires Healthy(prev, cur, uptime, avail) && CameUpIn(cur, s) && Takes(uptime - avail, down)
    ensures Consistent(prev, cur) && uptime == UptimeDelta(prev, cur) && avail == AvailDelta(prev, cur)
    ensures s == UpSince(cur) && down == DataDownSeconds(prev, cur)
  {
  }

  // The last event is of this state and had not ended before second s
  predicate RunsInto(events: seq<Event>, s: int, state: LinkState) {
    events != [] && events[|events| - 1].linkState == state && s <= events[|events| - 1].endTime
  }

  // A new up event starts in the second in which the link came up, or at the end of the last event
  // if that is later; an up event that has not ended before that second is continued instead
  lemma UpEventStarts(events: seq<Event>, prev: DataPoint, cur: DataPoint, uptime: real, avail: real, s: int, down: int)
    requires Chained(events) && (events != [] ==> events[|events| - 1].endTime <= prev.ts)
    requires Healthy(prev, cur, uptime, avail) && CameUpIn(cur, s) && Takes(uptime - avail, down)
    requires avail > 0.0 || uptime == avail
    ensures var after := Step(events, prev, cur);
            if RunsInto(events, s, LinkUp)
            then && |after| == |events| + (if uptime == avail then 0 else 1)
                 && after[|events| - 1] == events[|events| - 1].(endTime := cur.ts - down)
            else && |after| == |events| + (if uptime == avail then 1 else 2)
                 && after[|events|].linkState == LinkUp
                 && after[|events|].startTime
                    == (if events != [] && s <= events[|events| - 1].endTime then events[|events| - 1].endTime
                        else if events == [] && uptime != avail && s < 0 then 0 else s)
  {
    SecondsAre(prev, cur, uptime, avail, s, down);
    TransitionBounds(prev, cur);
  }

  // The whole step, also for counters that are not healthy: a later end for the last event, new events,
  // or both
  lemma StepIs(events: seq<Event>, prev: DataPoint, cur: DataPoint, uptime: real, avail: real, s: int, down: int)
    requires cur.fwUptime != 0.0 && Counted(prev, cur, uptime, avail) && CameUpIn(cur, s) && Takes(uptime - avail, down)
    ensures var after, turn, n := Step(events, prev, cur), cur.ts - down, |events|;
            var end := if events == [] then 0 else events[n - 1].endTime;
            if uptime == avail then
              if RunsInto(events, s, LinkUp) then after == events[n - 1 := events[n - 1].(endTime := cur.ts)]
              else after == events + [Event(0, if events != [] && s < end then end else s, cur.ts, LinkUp)]
            else if RunsInto(events, s, LinkUp) then
              after == events[n - 1 := events[n - 1].(endTime := turn)] + [Event(0, turn, cur.ts, LinkUpDataDown)]
            else if avail > 0.0 then
              var start := if s < end then end else s;
              var turn' := if start == turn then turn + 1 else turn;
              after == events + [Event(0, start, turn', LinkUp), Event(0, turn', cur.ts, LinkUpDataDown)]
            else if avail == 0.0 && RunsInto(events, s, LinkUpDataDown) then
              after == events[n - 1 := events[n - 1].(endTime := cur.ts)]
            else
              after == events + [Event(0, turn, cur.ts, LinkUpDataDown)]
  {
    assert s == UpSince(cur) && down == DataDownSeconds(prev, cur);
  }

  // From here on an interval adds seconds
  function AddsFrom(events: seq<Event>, s: int): int {
    if events != [] && s <= events[|events| - 1].endTime then events[|events| - 1].endTime else s
  }

  // An interval in which data was always available adds up time until now, and no data-down time
  lemma AvailableThroughout(events: seq<Event>, prev: DataPoint, cur: DataPoint, counts: real, s: int, t: int)
    requires Chained(events) && (events != [] ==> events[|events| - 1].endTime <= prev.ts)
    requires Healthy(prev, cur, counts, counts) && CameUpIn(cur, s)
    ensures StateAt(Step(events, prev, cur), LinkUp, t)
            <==> StateAt(events, LinkUp, t) || AddsFrom(events, s) <= t < cur.ts
    ensures StateAt(Step(events, prev, cur), LinkUpDataDown, t) <==> StateAt(events, LinkUpDataDown, t)
  {
    SecondsAre(prev, cur, counts, counts, s, 0);
    StepPaints(events, prev, cur, LinkUp, t);
    StepPaints(events, prev, cur, LinkUpDataDown, t);
  }

  // One in which data was available for a part adds up time (from the epoch on, if there is no event),
  // then as many data-down seconds as are missing; up time of no second is made to last one
  lemma AvailableInPart(events: seq<Event>, prev: DataPoint, cur: DataPoint, uptime: real, avail: real,
                        s: int, down: int, t: int)
    requires Chained(events) && (events != [] ==> events[|events| - 1].endTime <= prev.ts)
    requires Healthy(prev, cur, uptime, avail) && CameUpIn(cur, s) && Takes(uptime - avail, down)
    requires 0.0 < avail < uptime
    ensures var from := if events == [] && s < 0 then 0 else AddsFrom(events, s);
            var padded := !RunsInto(events, s, LinkUp) && from == cur.ts - down;
            var turn := cur.ts - down + if padded then 1 else 0;
            && (StateAt(Step(events, prev, cur), LinkUp, t) <==> StateAt(events, LinkUp, t) || from <= t < turn)
            && (StateAt(Step(events, prev, cur), LinkUpDataDown, t)
                <==> StateAt(events, LinkUpDataDown, t) || turn <= t < cur.ts)
  {
    SecondsAre(prev, cur, uptime, avail, s, down);
    StepPaints(events, prev, cur, LinkUp, t);
    StepPaints(events, prev, cur, LinkUpDataDown, t);
  }

  // One in which data was never available adds data-down seconds, as many as it took, or all since the
  // last event if that was one without data which the link has not left since.  An up event that it
  // runs into lasts until then.
  lemma NeverAvailable(events: seq<Event>, prev: DataPoint, cur: DataPoint, uptime: real, s: int, down: int, t: int)
    requires Chained(events) && (events != [] ==> events[|events| - 1].endTime <= prev.ts)
    requires Healthy(prev, cur, uptime, 0.0) && uptime > 0.0 && CameUpIn(cur, s) && Takes(uptime, down)
    ensures var turn := if RunsInto(events, s, LinkUpDataDown) then AddsFrom(events, s) else cur.ts - down;
            && (StateAt(Step(events, prev, cur), LinkUp, t)
                <==> StateAt(events, LinkUp, t)
                     || (RunsInto(events, s, LinkUp) && AddsFrom(events, s) <= t < turn))
            && (StateAt(Step(events, prev, cur), LinkUpDataDown, t)
                <==> StateAt(events, LinkUpDataDown, t) || turn <= t < cur.ts)
  {
    SecondsAre(prev, cur, uptime, 0.0, s, down);
    StepPaints(events, prev, cur, LinkUp, t);
    StepPaints(events, prev, cur, LinkUpDataDown, t);
  }

  // A counter at zero adds nothing
  lemma LinkNotUp(events: seq<Event>, prev: DataPoint, cur: DataPoint)
    requires cur.fwUptime == 0.0
    ensures Step(events, prev, cur) == events
  {
  }

  // A hundred seconds of uptime at second 1000: the link came up in second 900
  lemma HundredSeconds()
    ensures var prev, cur := DataPoint(970, 2734.375, 2734.375), DataPoint(1000, 3906.25, 3906.25);
            && Healthy(prev, cur, 1171.875, 1171.875)
            && Step([], prev, cur) == [Event(0, 900, 1000, LinkUp)]
            && Step([Event(1, 0, 850, LinkUp)], prev, cur)
               == [Event(1, 0, 850, LinkUp), Event(0, 900, 1000, LinkUp)]
  {
    var prev, cur := DataPoint(970, 2734.375, 2734.375), DataPoint(1000, 3906.25, 3906.25);
    SecondsAre(prev, cur, 1171.875, 1171.875, 900, 0);
  }
}
