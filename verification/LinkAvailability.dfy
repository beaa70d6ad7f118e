/**
  Availability percentages of a link, read back from its stored events.

  The rows arrive in whatever order the database returns them; the first one is taken to be the
  most recent and may be extended to the current time.
 */
module LinkAvailability {
  import opened LinkTimeline
  import opened LinkEventTable
  import opened Options

  // ---------- the computation ----------

  predicate ExtendsFront(events: seq<Event>, curTs: int, allowedDelay: int) {
    events != [] && events[0].linkState == LinkUp && events[0].endTime >= curTs - allowedDelay
  }

  function Extended(events: seq<Event>, curTs: int, allowedDelay: int): seq<Event> {
    if ExtendsFront(events, curTs, allowedDelay) then events[0 := events[0].(endTime := curTs)] else events
  }

  function Clip(e: Event, minStart: int, curTs: int): Event {
    e.(startTime := if e.startTime < minStart then minStart else e.startTime,
       endTime := if e.endTime > curTs then curTs else e.endTime)
  }

  function Length(e: Event): int {
    e.endTime - e.startTime
  }

  function OnlineSeconds(events: seq<Event>, minStart: int, curTs: int): int {
    if events == [] then 0
    else Length(Clip(events[0], minStart, curTs)) + OnlineSeconds(events[1..], minStart, curTs)
  }

  function DataDownTotal(events: seq<Event>, minStart: int, curTs: int): int {
    if events == [] then 0
    else (if events[0].linkState == LinkUpDataDown then Length(Clip(events[0], minStart, curTs)) else 0)
         + DataDownTotal(events[1..], minStart, curTs)
  }

  function Percentage(seconds: int, windowSeconds: int): real
    requires windowSeconds != 0
  {
    seconds as real / windowSeconds as real * 100.0
  }

  // ---------- counting seconds one by one ----------

  // Clipping leaves exactly the event's seconds inside the window
  lemma ClippedSeconds(e: Event, minStart: int, curTs: int, t: int)
    ensures Covers(Clip(e, minStart, curTs), t) <==> Covers(e, t) && minStart <= t < curTs
    ensures Clip(e, minStart, curTs).linkState == e.linkState && Clip(e, minStart, curTs).dbId == e.dbId
  {
  }

  // How many of the events cover second t
  function Depth(events: seq<Event>, t: int): nat {
    if events == [] then 0
    else (if Covers(events[0], t) then 1 else 0) + Depth(events[1..], t)
  }

  function DepthTotal(events: seq<Event>, lo: int, hi: int): nat
    decreases hi - lo
  {
    if hi <= lo then 0 else Depth(events, hi - 1) + DepthTotal(events, lo, hi - 1)
  }

  // The seconds in [lo, hi) that at least one event covers
  function CoveredSeconds(events: seq<Event>, lo: int, hi: int): nat
    decreases hi - lo
  {
    if hi <= lo then 0 else (if Depth(events, hi - 1) > 0 then 1 else 0) + CoveredSeconds(events, lo, hi - 1)
  }

  predicate OnceAtMost(events: seq<Event>, lo: int, hi: int) {
    forall t :: lo <= t < hi ==> Depth(events, t) <= 1
  }

  // What the query promises of a row when it is evaluated at the current time
  predicate MeetsWindow(e: Event, minStart: int, curTs: int) {
    e.startTime <= e.endTime && minStart <= e.endTime && e.startTime <= curTs
  }

  lemma {:induction false} CoveredBounds(events: seq<Event>, lo: int, hi: int)
    ensures CoveredSeconds(events, lo, hi) <= DepthTotal(events, lo, hi)
    ensures lo <= hi ==> CoveredSeconds(events, lo, hi) <= hi - lo
    ensures CoveredSeconds(events, lo, hi) == DepthTotal(events, lo, hi) <==> OnceAtMost(events, lo, hi)
    decreases hi - lo
  {
    if lo < hi {
      CoveredBounds(events, lo, hi - 1);
      assert OnceAtMost(events, lo, hi) <==> OnceAtMost(events, lo, hi - 1) && Depth(events, hi - 1) <= 1;
    }
  }

  lemma {:induction false} DepthTotalSplits(events: seq<Event>, lo: int, hi: int)
    requires events != []
    ensures DepthTotal(events, lo, hi) == DepthTotal([events[0]], lo, hi) + DepthTotal(events[1..], lo, hi)
    decreases hi - lo
  {
    if lo < hi {
      DepthTotalSplits(events, lo, hi - 1);
      SingleDepth(events[0], hi - 1);
    }
  }

  lemma SingleDepth(e: Event, t: int)
    ensures Depth([e], t) == if Covers(e, t) then 1 else 0
  {
    assert Depth([e][1..], t) == 0;
  }

  lemma {:induction false} SingleTotal(e: Event, lo: int, hi: int)
    requires lo <= hi && MeetsWindow(e, lo, hi)
    ensures DepthTotal([e], lo, hi) == Length(Clip(e, lo, hi))
    decreases hi - lo
  {
    if lo < hi {
      SingleDepth(e, hi - 1);
      if e.startTime < hi {
        SingleTotal(e, lo, hi - 1);
      } else {
        NothingBefore(e, lo, hi);
      }
    }
  }

  lemma {:induction false} NothingBefore(e: Event, lo: int, hi: int)
    requires hi <= e.startTime
    ensures DepthTotal([e], lo, hi) == 0
    decreases hi - lo
  {
    if lo < hi {
      SingleDepth(e, hi - 1);
      NothingBefore(e, lo, hi - 1);
    }
  }

  // The sum of the clipped lengths counts every second as often as events cover it
  lemma {:induction false} OnlineIsDepthTotal(events: seq<Event>, lo: int, hi: int)
    requires lo <= hi && forall e :: e in events ==> MeetsWindow(e, lo, hi)
    ensures OnlineSeconds(events, lo, hi) == DepthTotal(events, lo, hi)
  {
    if events == [] {
      EmptyTotal(lo, hi);
    } else {
      OnlineIsDepthTotal(events[1..], lo, hi);
      DepthTotalSplits(events, lo, hi);
      SingleTotal(events[0], lo, hi);
    }
  }

  lemma {:induction false} EmptyTotal(lo: int, hi: int)
    ensures DepthTotal([], lo, hi) == 0
    decreases hi - lo
  {
    if lo < hi {
      EmptyTotal(lo, hi - 1);
    }
  }

  lemma {:induction false} DataDownWithinOnline(events: seq<Event>, lo: int, hi: int)
    requires lo <= hi && forall e :: e in events ==> MeetsWindow(e, lo, hi)
    ensures 0 <= DataDownTotal(events, lo, hi) <= OnlineSeconds(events, lo, hi)
  {
    if events != [] {
      DataDownWithinOnline(events[1..], lo, hi);
      assert events[0] in events;
    }
  }

  // The events of one state
  function Of(events: seq<Event>, state: LinkState): seq<Event> {
    if events == [] then []
    else (if events[0].linkState == state then [events[0]] else []) + Of(events[1..], state)
  }

  lemma {:induction false} OfDepth(events: seq<Event>, state: LinkState, t: int)
    ensures Depth(Of(events, state), t) <= Depth(events, t)
    ensures Depth(Of(events, state), t) > 0 <==> StateAt(events, state, t)
  {
    if events != [] {
      OfDepth(events[1..], state, t);
      var first, rest := events[0], Of(events[1..], state);
      assert ([first] + rest)[1..] == rest && [] + rest == rest;
      FirstOrRest(events, state, t);
    }
  }

  lemma FirstOrRest(events: seq<Event>, state: LinkState, t: int)
    requires events != []
    ensures StateAt(events, state, t)
            <==> (events[0].linkState == state && Covers(events[0], t)) || StateAt(events[1..], state, t)
  {
    if i :| 0 <= i < |events[1..]| && events[1..][i].linkState == state && Covers(events[1..][i], t) {
      assert events[i + 1] == events[1..][i];
    }
    if i :| 0 <= i < |events| && events[i].linkState == state && Covers(events[i], t) {
      assert i > 0 ==> events[1..][i - 1] == events[i];
    }
  }

  lemma {:induction false} SumsByState(events: seq<Event>, lo: int, hi: int)
    ensures DataDownTotal(events, lo, hi) == OnlineSeconds(Of(events, LinkUpDataDown), lo, hi)
    ensures OnlineSeconds(events, lo, hi) - DataDownTotal(events, lo, hi) == OnlineSeconds(Of(events, LinkUp), lo, hi)
  {
    if events != [] {
      SumsByState(events[1..], lo, hi);
      var first := events[0];
      forall state ensures ([first] + Of(events[1..], state))[1..] == Of(events[1..], state) {
      }
      assert [] + Of(events[1..], LinkUp) == Of(events[1..], LinkUp);
      assert [] + Of(events[1..], LinkUpDataDown) == Of(events[1..], LinkUpDataDown);
    }
  }

  ghost function SecondsIn(events: seq<Event>, state: LinkState): iset<int> {
    iset t | StateAt(events, state, t)
  }

  // How many seconds in [lo, hi) are in the set
  ghost function HowMany(seconds: iset<int>, lo: int, hi: int): nat
    decreases hi - lo
  {
    if hi <= lo then 0 else (if hi - 1 in seconds then 1 else 0) + HowMany(seconds, lo, hi - 1)
  }

  lemma {:induction false} OnceIsHowMany(events: seq<Event>, seconds: iset<int>, lo: int, hi: int)
    requires forall t :: lo <= t < hi ==> Depth(events, t) == if t in seconds then 1 else 0
    ensures DepthTotal(events, lo, hi) == HowMany(seconds, lo, hi)
    decreases hi - lo
  {
    if lo < hi {
      OnceIsHowMany(events, seconds, lo, hi - 1);
    }
  }

  lemma {:induction false} OfMember(events: seq<Event>, state: LinkState, e: Event)
    requires e in Of(events, state)
    ensures e in events && e.linkState == state
  {
    if e in Of(events[1..], state) {
      OfMember(events[1..], state, e);
    }
  }

  // Where no second is covered twice, the sums count the seconds of each state
  lemma SecondsOfState(events: seq<Event>, state: LinkState, lo: int, hi: int)
    requires lo <= hi && OnceAtMost(events, lo, hi) && forall e :: e in events ==> MeetsWindow(e, lo, hi)
    ensures OnlineSeconds(Of(events, state), lo, hi) == HowMany(SecondsIn(events, state), lo, hi)
  {
    var part := Of(events, state);
    forall e | e in part ensures MeetsWindow(e, lo, hi) {
      OfMember(events, state, e);
    }
    OnlineIsDepthTotal(part, lo, hi);
    forall t | lo <= t < hi
      ensures Depth(part, t) == if t in SecondsIn(events, state) then 1 else 0
    {
      OfDepth(events, state, t);
    }
    OnceIsHowMany(part, SecondsIn(events, state), lo, hi);
  }

  // ---------- when the extension is harmless ----------

  predicate PairwiseApart(events: seq<Event>) {
    forall i, j :: 0 <= i < j < |events| ==> Apart(events[i], events[j])
  }

  lemma {:induction false} DepthOfMember(events: seq<Event>, k: nat, t: int)
    requires k < |events| && Covers(events[k], t)
    ensures Depth(events, t) >= 1
  {
    if k > 0 {
      DepthOfMember(events[1..], k - 1, t);
    }
  }

  lemma {:induction false} DepthWitness(events: seq<Event>, t: int) returns (k: nat)
    requires Depth(events, t) >= 1
    ensures k < |events| && Covers(events[k], t)
  {
    if Covers(events[0], t) {
      k := 0;
    } else {
      var j := DepthWitness(events[1..], t);
      k := j + 1;
    }
  }

  lemma {:induction false} ApartDepth(events: seq<Event>, t: int)
    requires PairwiseApart(events)
    ensures Depth(events, t) <= 1
  {
    if events != [] {
      ApartDepth(events[1..], t);
      if Covers(events[0], t) && Depth(events[1..], t) >= 1 {
        var k := DepthWitness(events[1..], t);
        assert false;
      }
    }
  }

  // No other row reaches into the stretch that the first row is extended over
  predicate RoomToExtend(events: seq<Event>, minStart: int, curTs: int, allowedDelay: int) {
    ExtendsFront(events, curTs, allowedDelay) && events[0].endTime < curTs ==>
      forall i :: 0 < i < |events| ==>
        var e := events[i];
        || e.startTime >= e.endTime
        || e.endTime <= events[0].endTime || e.endTime <= minStart
        || curTs <= e.startTime
  }

  lemma ExtensionOverlap(events: seq<Event>, minStart: int, curTs: int, allowedDelay: int)
    requires minStart <= curTs && PairwiseApart(events)
    requires forall e :: e in events ==> MeetsWindow(e, minStart, curTs)
    ensures OnceAtMost(Extended(events, curTs, allowedDelay), minStart, curTs)
            <==> RoomToExtend(events, minStart, curTs, allowedDelay)
  {
    var after := Extended(events, curTs, allowedDelay);
    if !ExtendsFront(events, curTs, allowedDelay) {
      forall t | minStart <= t < curTs ensures Depth(after, t) <= 1 {
        ApartDepth(events, t);
      }
    } else {
      var rest := events[1..];
      assert after[1..] == rest && PairwiseApart(rest);
      if RoomToExtend(events, minStart, curTs, allowedDelay) {
        forall t | minStart <= t < curTs ensures Depth(after, t) <= 1 {
          ApartDepth(events, t);
          ApartDepth(rest, t);
          if Covers(after[0], t) && !Covers(events[0], t) && Depth(rest, t) >= 1 {
            var k := DepthWitness(rest, t);
            assert false;
          }
        }
      } else {
        assert events[0].endTime < curTs;
        var i :| 0 < i < |events| && events[i].startTime < events[i].endTime
                 && events[i].endTime > events[0].endTime && events[i].endTime > minStart
                 && events[i].startTime < curTs;
        var t := if events[i].endTime <= curTs then events[i].endTime - 1 else curTs - 1;
        assert Apart(events[0], events[i]) && events[0] in events && events[i] in events;
        assert rest[i - 1] == events[i];
        DepthOfMember(rest, i - 1, t);
        assert Covers(after[0], t);
        assert Depth(after, t) >= 2;
      }
    }
  }

  // The reported online time counts every covered second exactly once, just when the first row has
  // room to be extended
  lemma OnlineExact(events: seq<Event>, minStart: int, curTs: int, allowedDelay: int)
    requires minStart <= curTs && PairwiseApart(events)
    requires forall e :: e in events ==> MeetsWindow(e, minStart, curTs)
    ensures var after := Extended(events, curTs, allowedDelay);
            OnlineSeconds(after, minStart, curTs) == CoveredSeconds(after, minStart, curTs)
            <==> RoomToExtend(events, minStart, curTs, allowedDelay)
  {
    var after := Extended(events, curTs, allowedDelay);
    if events != [] {
      assert events[0] in events;
    }
    ExtensionOverlap(events, minStart, curTs, allowedDelay);
    CoveredBounds(after, minStart, curTs);
    forall e | e in after ensures MeetsWindow(e, minStart, curTs) {
    }
    OnlineIsDepthTotal(after, minStart, curTs);
  }

  // Rows that arrive newest first always leave room
  lemma NewestFirstHasRoom(events: seq<Event>, minStart: int, curTs: int, allowedDelay: int)
    requires forall i :: 0 < i < |events| ==> events[i].endTime <= events[0].endTime
    ensures RoomToExtend(events, minStart, curTs, allowedDelay)
  {
  }

  lemma PercentagesInOrder(events: seq<Event>, minStart: int, curTs: int, allowedDelay: int)
    requires minStart < curTs && PairwiseApart(events) && RoomToExtend(events, minStart, curTs, allowedDelay)
    requires forall e :: e in events ==> MeetsWindow(e, minStart, curTs)
    ensures var after := Extended(events, curTs, allowedDelay);
            var online, down := OnlineSeconds(after, minStart, curTs), DataDownTotal(after, minStart, curTs);
            0.0 <= Percentage(online - down, curTs - minStart) <= Percentage(online, curTs - minStart) <= 100.0
  {
    var after := Extended(events, curTs, allowedDelay);
    if events != [] {
      assert events[0] in events;
    }
    forall e | e in after ensures MeetsWindow(e, minStart, curTs) {
    }
    OnlineExact(events, minStart, curTs, allowedDelay);
    CoveredBounds(after, minStart, curTs);
    DataDownWithinOnline(after, minStart, curTs);
    var online, down := OnlineSeconds(after, minStart, curTs), DataDownTotal(after, minStart, curTs);
    PercentageMonotone(0, online - down, curTs - minStart);
    PercentageMonotone(online - down, online, curTs - minStart);
    PercentageMonotone(online, curTs - minStart, curTs - minStart);
  }

  lemma PercentageMonotone(a: int, b: int, w: int)
    requires a <= b && w > 0
    ensures Percentage(a, w) <= Percentage(b, w)
    ensures Percentage(0, w) == 0.0 && Percentage(w, w) == 100.0
  {
    QuotientsInOrder(a as real, b as real, w as real);
    WholeQuotient(w as real);
  }

  lemma QuotientsInOrder(x: real, y: real, z: real)
    requires x <= y && z > 0.0
    ensures x / z <= y / z
  {
    assert x / z * z == x && y / z * z == y;
  }

  lemma WholeQuotient(z: real)
    requires z > 0.0
    ensures z / z == 1.0 && 0.0 / z == 0.0
  {
  }

  // Oldest first, the very same rows can report more than the whole window of one hour
  lemma OldestFirstOvershoots()
    ensures var events, hour := [Event(1, 0, 3500, LinkUp), Event(2, 3500, 3600, LinkUpDataDown)], 60 * 60 * 1;
            && PairwiseApart(events)
            && (forall e :: e in events ==> MeetsWindow(e, hour - 60 * 60 * 1, hour))
            && OnlineSeconds(Extended(events, hour, 200), 0, hour) == hour + 100
            && OnlineSeconds(Extended([events[1], events[0]], hour, 200), 0, hour) == hour
  {
    var events := [Event(1, 0, 3500, LinkUp), Event(2, 3500, 3600, LinkUpDataDown)];
    var after := [events[0].(endTime := 3600), events[1]];
    assert Extended(events, 3600, 200) == after;
    assert OnlineSeconds(after[1..], 0, 3600) == 100;
    assert OnlineSeconds([events[0]], 0, 3600) == 3500;
    assert [events[1], events[0]][1..] == [events[0]];
  }

  // ---------- percentages as shares of the window ----------

  // A second counts as up with data if a row says so, or if the first row is an up event that ended no
  // longer ago than the allowed delay, and the second is not before that end
  ghost predicate ReadAsUp(rows: seq<Event>, curTs: int, allowedDelay: int, t: int) {
    || StateAt(rows, LinkUp, t)
    || (rows != [] && rows[0].linkState == LinkUp && curTs - allowedDelay <= rows[0].endTime <= t)
  }

  ghost function SecondsReadAsUp(rows: seq<Event>, curTs: int, allowedDelay: int): iset<int> {
    iset t | ReadAsUp(rows, curTs, allowedDelay, t)
  }

  lemma ExtendedAt(rows: seq<Event>, curTs: int, allowedDelay: int, t: int)
    requires t < curTs && (rows != [] ==> rows[0].startTime <= rows[0].endTime)
    ensures StateAt(Extended(rows, curTs, allowedDelay), LinkUp, t) <==> ReadAsUp(rows, curTs, allowedDelay, t)
    ensures StateAt(Extended(rows, curTs, allowedDelay), LinkUpDataDown, t) <==> StateAt(rows, LinkUpDataDown, t)
  {
    var after := Extended(rows, curTs, allowedDelay);
    if rows != [] {
      assert after[1..] == rows[1..];
      FirstOrRest(rows, LinkUp, t);
      FirstOrRest(after, LinkUp, t);
      FirstOrRest(rows, LinkUpDataDown, t);
      FirstOrRest(after, LinkUpDataDown, t);
    }
  }

  ghost predicate IsShare(percentage: real, seconds: nat, windowSeconds: int) {
    percentage * windowSeconds as real == 100.0 * seconds as real
  }

  lemma PercentageIsShare(seconds: nat, windowSeconds: int)
    requires windowSeconds != 0
    ensures IsShare(Percentage(seconds, windowSeconds), seconds, windowSeconds)
  {
    var x, y := seconds as real, windowSeconds as real;
    assert x / y * y == x;
    assert x / y * 100.0 * y == 100.0 * (x / y * y);
  }

  // With room for the first row, linkAvailForData is the share of seconds that are up with data, and
  // linkAlive the share of those that are up at all
  lemma PercentagesAreShares(rows: seq<Event>, minStart: int, curTs: int, allowedDelay: int)
    requires minStart < curTs && PairwiseApart(rows) && RoomToExtend(rows, minStart, curTs, allowedDelay)
    requires forall e :: e in rows ==> MeetsWindow(e, minStart, curTs)
    ensures var after := Extended(rows, curTs, allowedDelay);
            var online, down := OnlineSeconds(after, minStart, curTs), DataDownTotal(after, minStart, curTs);
            var up := SecondsReadAsUp(rows, curTs, allowedDelay);
            var dataDown := SecondsIn(rows, LinkUpDataDown);
            && down == HowMany(dataDown, minStart, curTs)
            && IsShare(Percentage(online - down, curTs - minStart), HowMany(up, minStart, curTs), curTs - minStart)
            && IsShare(Percentage(online, curTs - minStart), HowMany(up + dataDown, minStart, curTs), curTs - minStart)
  {
    var after := Extended(rows, curTs, allowedDelay);
    var up, dataDown := SecondsReadAsUp(rows, curTs, allowedDelay), SecondsIn(rows, LinkUpDataDown);
    if rows != [] {
      assert rows[0] in rows;
    }
    forall e | e in after ensures MeetsWindow(e, minStart, curTs) {
    }
    ExtensionOverlap(rows, minStart, curTs, allowedDelay);
    SumsByState(after, minStart, curTs);
    SecondsOfState(after, LinkUp, minStart, curTs);
    SecondsOfState(after, LinkUpDataDown, minStart, curTs);
    forall t | minStart <= t < curTs
      ensures t in up <==> StateAt(after, LinkUp, t)
      ensures t in dataDown <==> StateAt(after, LinkUpDataDown, t)
      ensures !(t in up && t in dataDown)
    {
      ExtendedAt(rows, curTs, allowedDelay, t);
      OneStateAt(after, minStart, curTs, t);
    }
    SameMany(up, SecondsIn(after, LinkUp), minStart, curTs);
    SameMany(dataDown, SecondsIn(after, LinkUpDataDown), minStart, curTs);
    ManyOfBoth(up, dataDown, minStart, curTs);
    PercentageIsShare(HowMany(up, minStart, curTs), curTs - minStart);
    PercentageIsShare(HowMany(up + dataDown, minStart, curTs), curTs - minStart);
  }

  lemma OneStateAt(events: seq<Event>, lo: int, hi: int, t: int)
    requires OnceAtMost(events, lo, hi) && lo <= t < hi
    ensures !(StateAt(events, LinkUp, t) && StateAt(events, LinkUpDataDown, t))
  {
    OfDepth(events, LinkUp, t);
    OfDepth(events, LinkUpDataDown, t);
    DepthOfBoth(events, t);
  }

  lemma {:induction false} DepthOfBoth(events: seq<Event>, t: int)
    ensures Depth(events, t) == Depth(Of(events, LinkUp), t) + Depth(Of(events, LinkUpDataDown), t)
  {
    if events != [] {
      DepthOfBoth(events[1..], t);
      var first := events[0];
      forall state ensures ([first] + Of(events[1..], state))[1..] == Of(events[1..], state) {
      }
      assert [] + Of(events[1..], LinkUp) == Of(events[1..], LinkUp);
      assert [] + Of(events[1..], LinkUpDataDown) == Of(events[1..], LinkUpDataDown);
    }
  }

  lemma {:induction false} SameMany(a: iset<int>, b: iset<int>, lo: int, hi: int)
    requires forall t :: lo <= t < hi ==> (t in a <==> t in b)
    ensures HowMany(a, lo, hi) == HowMany(b, lo, hi)
    decreases hi - lo
  {
    if lo < hi {
      SameMany(a, b, lo, hi - 1);
    }
  }

  lemma {:induction false} ManyOfBoth(a: iset<int>, b: iset<int>, lo: int, hi: int)
    requires forall t :: lo <= t < hi ==> !(t in a && t in b)
    ensures HowMany(a + b, lo, hi) == HowMany(a, lo, hi) + HowMany(b, lo, hi)
    decreases hi - lo
  {
    if lo < hi {
      ManyOfBoth(a, b, lo, hi - 1);
    }
  }

  // ---------- the loop over the rows of one link ----------

  // The two percentages are linkAlive and linkAvailForData; None stands for the quotient by an empty window
  method GetLinkEvents(rows: seq<Event>, curTs: int, hoursAgo: int, allowedDelay: int)
    returns (events: seq<Event>, percentages: Option<(real, real)>)
    ensures var minStart, after := curTs - 60 * 60 * hoursAgo, Extended(rows, curTs, allowedDelay);
            && events == seq(|rows|, i requires 0 <= i < |rows| => Clip(after[i], minStart, curTs))
            && (percentages.None? <==> hoursAgo == 0)
            && (hoursAgo != 0 ==>
                  var online, down := OnlineSeconds(after, minStart, curTs), DataDownTotal(after, minStart, curTs);
                  percentages == Some((Percentage(online, curTs - minStart),
                                       Percentage(online - down, curTs - minStart))))
  {
    var windowSeconds := 60 * 60 * hoursAgo;
    var onlineSeconds, dataDownSeconds;
    events, onlineSeconds, dataDownSeconds := ClipAndAdd(rows, curTs, curTs - windowSeconds, allowedDelay);
    if hoursAgo == 0 {
      return events, None;
    }
    percentages := Some((Percentage(onlineSeconds, windowSeconds),
                         Percentage(onlineSeconds - dataDownSeconds, windowSeconds)));
  }

  method ClipAndAdd(rows: seq<Event>, curTs: int, minStart: int, allowedDelay: int)
    returns (events: seq<Event>, onlineSeconds: int, dataDownSeconds: int)
    ensures var after := Extended(rows, curTs, allowedDelay);
            && events == seq(|rows|, i requires 0 <= i < |rows| => Clip(after[i], minStart, curTs))
            && onlineSeconds == OnlineSeconds(after, minStart, curTs)
            && dataDownSeconds == DataDownTotal(after, minStart, curTs)
  {
    events := rows;
    if |events| > 0 && events[0].linkState == LinkUp && events[0].endTime >= curTs - allowedDelay {
      events := events[0 := events[0].(endTime := curTs)];
    }
    ghost var after := events;
    onlineSeconds, dataDownSeconds := 0, 0;
    for i := 0 to |events|
      invariant |events| == |after| && events[i..] == after[i..]
      invariant forall j :: 0 <= j < i ==> events[j] == Clip(after[j], minStart, curTs)
      invariant onlineSeconds + OnlineSeconds(after[i..], minStart, curTs) == OnlineSeconds(after, minStart, curTs)
      invariant dataDownSeconds + DataDownTotal(after[i..], minStart, curTs) == DataDownTotal(after, minStart, curTs)
    {
      assert after[i..][1..] == after[i + 1..] && after[i..][0] == after[i] == events[i];
      var e := Clip(events[i], minStart, curTs);
      assert events[i + 1..] == after[i + 1..];
      events := events[i := e];
      onlineSeconds := onlineSeconds + Length(e);
      if e.linkState == LinkUpDataDown {
        dataDownSeconds := dataDownSeconds + Length(e);
      }
    }
  }

  // ---------- from the samples to the percentages ----------

  predicate Selects(order: seq<nat>, count: nat) {
    && (forall i :: 0 <= i < |order| ==> order[i] < count)
    && (forall i, j :: 0 <= i < j < |order| ==> order[i] != order[j])
  }

  function Selected(rows: seq<Event>, order: seq<nat>): seq<Event>
    requires Selects(order, |rows|)
  {
    seq(|order|, i requires 0 <= i < |order| => rows[order[i]])
  }

  lemma SelectedApart(rows: seq<Event>, order: seq<nat>)
    requires Timeline(rows) && Selects(order, |rows|)
    ensures PairwiseApart(Selected(rows, order))
  {
    forall i, j | 0 <= i < j < |order|
      ensures Apart(rows[order[i]], rows[order[j]])
    {
      assert order[i] != order[j];
    }
  }

  lemma StoredRowsFit(inputs: seq<Input>, order: seq<nat>, minStart: int, curTs: int, allowedDelay: int)
    requires AllAdmissible(Link([], []), inputs)
    requires var rows := Execute(Link([], []), inputs).rows;
             && Selects(order, |rows|)
             && (forall i :: 0 < i < |order| ==> rows[order[i]].endTime <= rows[order[0]].endTime)
    ensures var events := Selected(Execute(Link([], []), inputs).rows, order);
            PairwiseApart(events) && RoomToExtend(events, minStart, curTs, allowedDelay)
  {
    TimelineAlways(Link([], []), inputs);
    var events := Selected(Execute(Link([], []), inputs).rows, order);
    SelectedApart(Execute(Link([], []), inputs).rows, order);
    NewestFirstHasRoom(events, minStart, curTs, allowedDelay);
  }

  // Whatever the service has been through, any of its rows that meet the window, read newest first,
  // give percentages in order, and they are the shares of the seconds that are stored as up
  lemma StoredRowsGivePercentages(inputs: seq<Input>, order: seq<nat>, minStart: int, curTs: int, allowedDelay: int)
    requires AllAdmissible(Link([], []), inputs) && minStart < curTs
    requires var rows := Execute(Link([], []), inputs).rows;
             && Selects(order, |rows|)
             && (forall i :: 0 <= i < |order| ==> MeetsWindow(rows[order[i]], minStart, curTs))
             && (forall i :: 0 < i < |order| ==> rows[order[i]].endTime <= rows[order[0]].endTime)
    ensures var after := Extended(Selected(Execute(Link([], []), inputs).rows, order), curTs, allowedDelay);
            var online, down := OnlineSeconds(after, minStart, curTs), DataDownTotal(after, minStart, curTs);
            0.0 <= Percentage(online - down, curTs - minStart) <= Percentage(online, curTs - minStart) <= 100.0
    ensures var events := Selected(Execute(Link([], []), inputs).rows, order);
            var up := SecondsReadAsUp(events, curTs, allowedDelay);
            var after := Extended(events, curTs, allowedDelay);
            var online, down := OnlineSeconds(after, minStart, curTs), DataDownTotal(after, minStart, curTs);
            && IsShare(Percentage(online - down, curTs - minStart), HowMany(up, minStart, curTs), curTs - minStart)
            && IsShare(Percentage(online, curTs - minStart),
                       HowMany(up + SecondsIn(events, LinkUpDataDown), minStart, curTs), curTs - minStart)
  {
    var events := Selected(Execute(Link([], []), inputs).rows, order);
    StoredRowsFit(inputs, order, minStart, curTs, allowedDelay);
    PercentagesInOrder(events, minStart, curTs, allowedDelay);
    PercentagesAreShares(events, minStart, curTs, allowedDelay);
  }
}
