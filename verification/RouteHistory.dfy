/**
  The default-route history: a change log that is written by comparing snapshots with the newest row
  of every node.

  A snapshot maps network and node to the routes and the hop count found there.
 */
module RouteHistory {
  import opened Options
  import opened RouteUtilization
  import opened RouteOrder

  datatype Key = Key(networkName: string, nodeName: string)

  datatype HistoryRow = HistoryRow(key: Key, lastUpdated: int, routes: Routes, maxHopCount: nat)

  datatype Found = Found(routes: Routes, maxHopCount: nat)

  type Snapshot = map<Key, Found>

  // ---------- the log of one node ----------

  function RowsOf(rows: seq<HistoryRow>, key: Key): seq<HistoryRow> {
    if rows == [] then []
    else RowsOf(rows[..|rows| - 1], key) + if rows[|rows| - 1].key == key then [rows[|rows| - 1]] else []
  }

  function NewRow(key: Key, found: Found, time: int): HistoryRow {
    HistoryRow(key, time, Sort(found.routes), found.maxHopCount)
  }

  // A snapshot is a change for a node that has no row yet or whose newest row has other routes
  predicate IsChange(own: seq<HistoryRow>, found: Found) {
    own == [] || own[|own| - 1].routes != Sort(found.routes)
  }

  // What one save does to the rows of one node
  function Logged(own: seq<HistoryRow>, snapshot: Snapshot, key: Key, time: int): seq<HistoryRow> {
    if key in snapshot && IsChange(own, snapshot[key]) then own + [NewRow(key, snapshot[key], time)] else own
  }

  ghost predicate Saves(before: seq<HistoryRow>, snapshot: Snapshot, time: int, after: seq<HistoryRow>) {
    before <= after && forall key :: RowsOf(after, key) == Logged(RowsOf(before, key), snapshot, key, time)
  }

  // ---------- the save ----------

  lemma {:induction false} RowsOfConcat(a: seq<HistoryRow>, b: seq<HistoryRow>, key: Key)
    ensures RowsOf(a + b, key) == RowsOf(a, key) + RowsOf(b, key)
  {
    if b == [] {
      assert a + b == a;
    } else {
      RowsOfConcat(a, b[..|b| - 1], key);
      assert (a + b)[..|a + b| - 1] == a + b[..|b| - 1];
    }
  }

  lemma RowsOfAppend(rows: seq<HistoryRow>, row: HistoryRow, key: Key)
    ensures RowsOf(rows + [row], key) == RowsOf(rows, key) + if row.key == key then [row] else []
  {
    assert (rows + [row])[..|rows|] == rows;
  }

  predicate IsNewest(rows: seq<HistoryRow>, i: nat) {
    i < |rows| && forall j :: i < j < |rows| ==> rows[j].key != rows[i].key
  }

  lemma {:induction false} NewestIsLast(rows: seq<HistoryRow>, i: nat)
    requires IsNewest(rows, i)
    ensures var own := RowsOf(rows, rows[i].key); own != [] && own[|own| - 1] == rows[i]
  {
    if i < |rows| - 1 {
      NewestIsLast(rows[..|rows| - 1], i);
    }
  }

  lemma {:induction false} HasNewest(rows: seq<HistoryRow>, key: Key)
    requires RowsOf(rows, key) != []
    ensures exists i :: 0 <= i < |rows| && rows[i].key == key && IsNewest(rows, i)
  {
    var n := |rows| - 1;
    if rows[n].key == key {
      assert IsNewest(rows, n);
    } else {
      HasNewest(rows[..n], key);
      var i :| 0 <= i < n && rows[..n][i].key == key && IsNewest(rows[..n], i);
      assert forall j :: i < j < n ==> rows[..n][j] == rows[j];
      assert IsNewest(rows, i);
    }
  }

  // The keys whose newest row is among the first n rows
  ghost predicate Visited(rows: seq<HistoryRow>, n: nat, key: Key) {
    exists i :: 0 <= i < n && i < |rows| && rows[i].key == key && IsNewest(rows, i)
  }

  predicate Replaced(rows: seq<HistoryRow>, snapshot: Snapshot, key: Key)
    requires key in snapshot
  {
    RowsOf(rows, key) != [] && IsChange(RowsOf(rows, key), snapshot[key])
  }

  function Expected(rows: seq<HistoryRow>, snapshot: Snapshot, time: int, left: set<Key>, key: Key): seq<HistoryRow> {
    if key in snapshot && key !in left && IsChange(RowsOf(rows, key), snapshot[key])
    then [NewRow(key, snapshot[key], time)] else []
  }

  // Everything but the nodes in left has been dealt with
  ghost predicate Progress(rows: seq<HistoryRow>, snapshot: Snapshot, time: int, left: set<Key>,
                           values: seq<HistoryRow>, changes: map<Key, bool>) {
    && (forall key :: RowsOf(values, key) == Expected(rows, snapshot, time, left, key))
    && changes.Keys == snapshot.Keys - left
    && forall key :: key in changes ==> key in snapshot && (changes[key] <==> Replaced(rows, snapshot, key))
  }

  function Addition(rows: seq<HistoryRow>, snapshot: Snapshot, time: int, key: Key): seq<HistoryRow>
    requires key in snapshot
  {
    if IsChange(RowsOf(rows, key), snapshot[key]) then [NewRow(key, snapshot[key], time)] else []
  }

  lemma ValuesAfter(rows: seq<HistoryRow>, snapshot: Snapshot, time: int, left: set<Key>,
                    values: seq<HistoryRow>, key: Key, k: Key)
    requires key in left && left <= snapshot.Keys
    requires RowsOf(values, k) == Expected(rows, snapshot, time, left, k)
    ensures RowsOf(values + Addition(rows, snapshot, time, key), k) == Expected(rows, snapshot, time, left - {key}, k)
  {
    if IsChange(RowsOf(rows, key), snapshot[key]) {
      RowsOfAppend(values, NewRow(key, snapshot[key], time), k);
    } else {
      assert values + [] == values;
    }
  }

  lemma NodeHandled(rows: seq<HistoryRow>, snapshot: Snapshot, time: int, left: set<Key>,
                    values: seq<HistoryRow>, changes: map<Key, bool>, key: Key)
    requires Progress(rows, snapshot, time, left, values, changes) && key in left && left <= snapshot.Keys
    ensures Progress(rows, snapshot, time, left - {key}, values + Addition(rows, snapshot, time, key),
                     changes[key := Replaced(rows, snapshot, key)])
  {
    forall k
      ensures RowsOf(values + Addition(rows, snapshot, time, key), k) == Expected(rows, snapshot, time, left - {key}, k)
    {
      ValuesAfter(rows, snapshot, time, left, values, key, k);
    }
  }

  lemma VisitedStep(rows: seq<HistoryRow>, n: nat, key: Key)
    requires n < |rows|
    ensures Visited(rows, n + 1, key) <==> Visited(rows, n, key) || (IsNewest(rows, n) && rows[n].key == key)
  {
    if i :| 0 <= i < n + 1 && rows[i].key == key && IsNewest(rows, i) {
      assert i < n || i == n;
    }
  }

  lemma AllVisited(rows: seq<HistoryRow>, key: Key)
    ensures Visited(rows, |rows|, key) <==> RowsOf(rows, key) != []
  {
    if RowsOf(rows, key) != [] {
      HasNewest(rows, key);
    } else if i :| 0 <= i < |rows| && rows[i].key == key && IsNewest(rows, i) {
      NewestIsLast(rows, i);
    }
  }

  class DefaultRoutesHistory {
    var rows: seq<HistoryRow>

    constructor ()
      ensures rows == []
    {
      rows := [];
    }

    // routesChanges tells for every node of the snapshot whether known routes were replaced
    method SaveDefaultRoutes(time: int, snapshot: Snapshot) returns (routesChanges: map<Key, bool>)
      modifies this
      ensures Saves(old(rows), snapshot, time, rows)
      ensures routesChanges.Keys == snapshot.Keys
      ensures forall key :: key in snapshot ==> (routesChanges[key] <==> Replaced(old(rows), snapshot, key))
    {
      var values, left;
      values, left, routesChanges := CompareNewest(time, snapshot);
      values, routesChanges := AddNewNodes(time, snapshot, left, values, routesChanges);
      forall key ensures RowsOf(rows + values, key) == Logged(RowsOf(rows, key), snapshot, key, time) {
        RowsOfConcat(rows, values, key);
      }
      if values != [] {
        rows := rows + values;
      } else {
        assert rows + values == rows;
      }
    }

    // The loop over the newest rows: nodes that are known already
    method CompareNewest(time: int, snapshot: Snapshot)
      returns (values: seq<HistoryRow>, left: Snapshot, changes: map<Key, bool>)
      ensures left == map key | key in snapshot && RowsOf(rows, key) == [] :: snapshot[key]
      ensures Progress(rows, snapshot, time, left.Keys, values, changes)
    {
      values, left, changes := [], snapshot, map[];
      for i := 0 to |rows|
        invariant left.Keys <= snapshot.Keys && forall key :: key in left ==> left[key] == snapshot[key]
        invariant forall key :: key in snapshot ==> (key in left <==> !Visited(rows, i, key))
        invariant Progress(rows, snapshot, time, left.Keys, values, changes)
      {
        if IsNewest(rows, i) {
          var row := rows[i];
          NewestIsLast(rows, i);
          if row.key in left {
            NodeHandled(rows, snapshot, time, left.Keys, values, changes, row.key);
            var found := left[row.key];
            var routes := Sort(found.routes);
            if routes != row.routes {
              values := values + [HistoryRow(row.key, time, routes, found.maxHopCount)];
            } else {
              assert values + [] == values;
            }
            changes := changes[row.key := routes != row.routes];
            ghost var keys := left.Keys;
            left := left - {row.key};
            assert left.Keys == keys - {row.key};
          }
        }
        forall key
          ensures Visited(rows, i + 1, key) <==> Visited(rows, i, key) || (IsNewest(rows, i) && rows[i].key == key)
        {
          VisitedStep(rows, i, key);
        }
      }
      forall key ensures Visited(rows, |rows|, key) <==> RowsOf(rows, key) != [] {
        AllVisited(rows, key);
      }
    }

    // Nodes without a row
    method AddNewNodes(time: int, snapshot: Snapshot, left: Snapshot, known: seq<HistoryRow>,
                       knownChanges: map<Key, bool>)
      returns (values: seq<HistoryRow>, changes: map<Key, bool>)
      requires left == map key | key in snapshot && RowsOf(rows, key) == [] :: snapshot[key]
      requires Progress(rows, snapshot, time, left.Keys, known, knownChanges)
      ensures Progress(rows, snapshot, time, {}, values, changes)
    {
      values, changes := known, knownChanges;
      var todo := left.Keys;
      while todo != {}
        invariant todo <= left.Keys
        invariant Progress(rows, snapshot, time, todo, values, changes)
        decreases |todo|
      {
        var key :| key in todo;
        NodeHandled(rows, snapshot, time, todo, values, changes, key);
        values := values + [HistoryRow(key, time, Sort(left[key].routes), left[key].maxHopCount)];
        changes := changes[key := false];
        todo := todo - {key};
      }
    }
  }

  // ---------- many saves ----------

  datatype Taken = Taken(time: int, snapshot: Snapshot)

  ghost predicate SavedRun(states: seq<seq<HistoryRow>>, history: seq<Taken>) {
    && |states| == |history| + 1 && states[0] == []
    && forall i :: 0 <= i < |history| ==> Saves(states[i], history[i].snapshot, history[i].time, states[i + 1])
  }

  function LogOf(history: seq<Taken>, key: Key): seq<HistoryRow> {
    if history == [] then []
    else
      var last := history[|history| - 1];
      Logged(LogOf(history[..|history| - 1], key), last.snapshot, key, last.time)
  }

  lemma {:induction false} RunIsLog(states: seq<seq<HistoryRow>>, history: seq<Taken>, key: Key)
    requires SavedRun(states, history)
    ensures RowsOf(states[|history|], key) == LogOf(history, key)
  {
    if history != [] {
      var n := |history| - 1;
      assert SavedRun(states[..n + 1], history[..n]) by {
        assert forall i :: 0 <= i <= n ==> states[..n + 1][i] == states[i];
        assert forall i :: 0 <= i < n ==> history[..n][i] == history[i];
      }
      RunIsLog(states[..n + 1], history[..n], key);
      assert Saves(states[n], history[n].snapshot, history[n].time, states[n + 1]);
    }
  }

  predicate Increasing(history: seq<Taken>) {
    forall i, j :: 0 <= i < j < |history| ==> history[i].time < history[j].time
  }

  function Changes(log: seq<HistoryRow>): seq<Change> {
    seq(|log|, i requires 0 <= i < |log| => Change(log[i].routes, log[i].lastUpdated))
  }

  // The routes in the latest snapshot up to time t that has the node
  function SeenAt(history: seq<Taken>, key: Key, t: int): Option<Routes> {
    if history == [] then None
    else
      var last := history[|history| - 1];
      if last.time <= t && key in last.snapshot then Some(Sort(last.snapshot[key].routes))
      else SeenAt(history[..|history| - 1], key, t)
  }

  lemma {:induction false} LogTimes(history: seq<Taken>, key: Key, till: int)
    requires Increasing(history) && forall i :: 0 <= i < |history| ==> history[i].time < till
    ensures forall i :: 0 <= i < |LogOf(history, key)| ==> LogOf(history, key)[i].lastUpdated < till
  {
    if history != [] {
      LogTimes(history[..|history| - 1], key, till);
    }
  }

  // Rows of a node follow one another in time and always differ from the one before
  lemma {:induction false} LogIsChangeLog(history: seq<Taken>, key: Key)
    requires Increasing(history)
    ensures ChangeLog(Changes(LogOf(history, key)))
  {
    if history != [] {
      var front, last := history[..|history| - 1], history[|history| - 1];
      LogIsChangeLog(front, key);
      LogTimes(front, key, last.time);
      var own := LogOf(front, key);
      assert forall i :: 0 <= i < |own| ==> Changes(LogOf(history, key))[i] == Changes(own)[i];
    }
  }

  // After a save the newest row of every node in the snapshot is what the snapshot says
  lemma NewestMatchesSnapshot(history: seq<Taken>, key: Key)
    requires history != [] && key in history[|history| - 1].snapshot
    ensures var log := LogOf(history, key);
            log != [] && log[|log| - 1].routes == Sort(history[|history| - 1].snapshot[key].routes)
  {
  }

  // The routes that the node reported last
  function LastReported(history: seq<Taken>, key: Key): Option<Routes> {
    if history == [] then None
    else
      var last := history[|history| - 1];
      if key in last.snapshot then Some(last.snapshot[key].routes) else LastReported(history[..|history| - 1], key)
  }

  lemma {:induction false} LogEndsWithReport(history: seq<Taken>, key: Key)
    ensures var log, reported := LogOf(history, key), LastReported(history, key);
            && (log == [] <==> reported == None)
            && (log != [] ==> log[|log| - 1].routes == Sort(reported.value))
  {
    if history != [] {
      LogEndsWithReport(history[..|history| - 1], key);
    }
  }

  // A change is reported for exactly the nodes that were known and whose routes differ from those they
  // reported last, in whatever order
  lemma FlagExact(rows: seq<HistoryRow>, history: seq<Taken>, snapshot: Snapshot, key: Key)
    requires key in snapshot && RowsOf(rows, key) == LogOf(history, key)
    ensures Replaced(rows, snapshot, key)
            <==> var reported := LastReported(history, key);
                 reported.Some? && multiset(reported.value) != multiset(snapshot[key].routes)
  {
    LogEndsWithReport(history, key);
    var reported := LastReported(history, key);
    if reported.Some? {
      SortCanonical(reported.value, snapshot[key].routes);
    }
  }

  // Every row is that of a snapshot: its time, its routes (sorted) and its hop count
  lemma {:induction false} RowsAreReports(history: seq<Taken>, key: Key, row: HistoryRow)
    requires row in LogOf(history, key)
    ensures exists i :: 0 <= i < |history| && row.lastUpdated == history[i].time && row.key == key
                        && key in history[i].snapshot && row.routes == Sort(history[i].snapshot[key].routes)
                        && row.maxHopCount == history[i].snapshot[key].maxHopCount
  {
    var n := |history| - 1;
    if row in LogOf(history[..n], key) {
      RowsAreReports(history[..n], key, row);
      var i :| 0 <= i < n && row.lastUpdated == history[..n][i].time && row.key == key
               && key in history[..n][i].snapshot && row.routes == Sort(history[..n][i].snapshot[key].routes)
               && row.maxHopCount == history[..n][i].snapshot[key].maxHopCount;
      assert history[..n][i] == history[i];
    } else {
      assert row == NewRow(key, history[n].snapshot[key], history[n].time);
    }
  }

  // The log answers for every moment what the snapshots would have answered
  lemma {:induction false} LogIsFaithful(history: seq<Taken>, key: Key, t: int)
    requires Increasing(history)
    ensures RoutesAt(Changes(LogOf(history, key)), t) == SeenAt(history, key, t)
  {
    if history != [] {
      var front, last := history[..|history| - 1], history[|history| - 1];
      var own, log := LogOf(front, key), LogOf(history, key);
      LogIsFaithful(front, key, t);
      LogTimes(front, key, last.time);
      if log != own {
        assert Changes(log)[..|own|] == Changes(own);
      }
    }
  }

  // Reporting the same routes in another order leaves no trace in the table
  lemma {:induction false} OrderLeavesNoTrace(a: seq<Taken>, b: seq<Taken>, key: Key)
    requires |a| == |b|
    requires forall i :: 0 <= i < |a| ==>
               && a[i].time == b[i].time
               && (key in a[i].snapshot <==> key in b[i].snapshot)
               && (key in a[i].snapshot ==>
                     var x, y := a[i].snapshot[key], b[i].snapshot[key];
                     multiset(x.routes) == multiset(y.routes) && x.maxHopCount == y.maxHopCount)
    ensures LogOf(a, key) == LogOf(b, key)
  {
    if a != [] {
      var n := |a| - 1;
      OrderLeavesNoTrace(a[..n], b[..n], key);
      if key in a[n].snapshot {
        SortCanonical(a[n].snapshot[key].routes, b[n].snapshot[key].routes);
      }
    }
  }

  // ---------- utilization of what was observed ----------

  // The time in [lo, hi) during which the latest snapshot of the node had the given routes
  function TimeSeen(history: seq<Taken>, key: Key, lo: int, hi: int, routes: Option<Routes>): nat
    decreases hi - lo
  {
    if hi <= lo then 0
    else TimeSeen(history, key, lo, hi - 1, routes) + if SeenAt(history, key, hi - 1) == routes then 1 else 0
  }

  lemma {:induction false} TimeOnIsTimeSeen(history: seq<Taken>, key: Key, lo: int, hi: int, routes: Option<Routes>)
    requires Increasing(history)
    ensures TimeOn(Changes(LogOf(history, key)), lo, hi, routes) == TimeSeen(history, key, lo, hi, routes)
    decreases hi - lo
  {
    if lo < hi {
      TimeOnIsTimeSeen(history, key, lo, hi - 1, routes);
      LogIsFaithful(history, key, hi - 1);
    }
  }

  // ---------- what the history handler reads of a log ----------

  // The newest row before the window, if there is one
  function NewestBefore(changes: seq<Change>, start: int): seq<Change> {
    if changes == [] then []
    else
      var last := changes[|changes| - 1];
      if last.lastUpdated < start then [last] else NewestBefore(changes[..|changes| - 1], start)
  }

  function InWindow(changes: seq<Change>, start: int, end: int): seq<Change> {
    if changes == [] then []
    else
      var last := changes[|changes| - 1];
      InWindow(changes[..|changes| - 1], start, end) + if start <= last.lastUpdated <= end then [last] else []
  }

  function Selected(changes: seq<Change>, start: int, end: int): seq<Change> {
    NewestBefore(changes, start) + InWindow(changes, start, end)
  }

  lemma {:induction false} InWindowIs(changes: seq<Change>, start: int, end: int)
    requires LaterAndLater(changes)
    ensures LaterAndLater(InWindow(changes, start, end))
    ensures forall c :: c in InWindow(changes, start, end) <==> c in changes && start <= c.lastUpdated <= end
  {
    if changes != [] {
      var front, last := changes[..|changes| - 1], changes[|changes| - 1];
      assert changes == front + [last];
      InWindowIs(front, start, end);
      forall c | c in front ensures c.lastUpdated < last.lastUpdated {
      }
    }
  }

  lemma {:induction false} NewestBeforeIs(changes: seq<Change>, start: int)
    requires LaterAndLater(changes)
    ensures |NewestBefore(changes, start)| <= 1
    ensures forall c :: c in NewestBefore(changes, start) ==>
              c in changes && c.lastUpdated < start
              && forall d :: d in changes && d.lastUpdated < start ==> d.lastUpdated <= c.lastUpdated
    ensures NewestBefore(changes, start) == [] ==> forall c :: c in changes ==> start <= c.lastUpdated
  {
    if changes != [] {
      var front, last := changes[..|changes| - 1], changes[|changes| - 1];
      assert changes == front + [last];
      NewestBeforeIs(front, start);
      forall c | c in front ensures c.lastUpdated < last.lastUpdated {
      }
    }
  }

  // The selection is what the computation asks for: in order, nothing after the window, and at most
  // its first row before it
  lemma SelectedMeets(changes: seq<Change>, start: int, end: int)
    requires LaterAndLater(changes) && start <= end && Selected(changes, start, end) != []
    ensures var s := Selected(changes, start, end);
            Ordered(s) && s[|s| - 1].lastUpdated <= end && StartsInOrder(s, start)
  {
    InWindowIs(changes, start, end);
    NewestBeforeIs(changes, start);
    EarlyThenLater(NewestBefore(changes, start), InWindow(changes, start, end), start, end);
  }

  lemma EarlyThenLater(early: seq<Change>, later: seq<Change>, start: int, end: int)
    requires |early| <= 1 && LaterAndLater(later) && early + later != [] && start <= end
    requires forall c :: c in early ==> c.lastUpdated < start
    requires forall c :: c in later ==> start <= c.lastUpdated <= end
    ensures var s := early + later;
            Ordered(s) && s[|s| - 1].lastUpdated <= end && StartsInOrder(s, start)
  {
    assert forall k :: 0 <= k < |early| ==> early[k] in early;
    assert forall k :: 0 <= k < |later| ==> later[k] in later;
  }

  // Throughout the window it answers what the whole log answers
  lemma {:induction false} SelectedAt(changes: seq<Change>, start: int, end: int, t: int)
    requires LaterAndLater(changes) && start <= t <= end
    ensures RoutesAt(Selected(changes, start, end), t) == RoutesAt(changes, t)
  {
    if changes != [] {
      var front, last := changes[..|changes| - 1], changes[|changes| - 1];
      SelectedAt(front, start, end, t);
      var before := Selected(front, start, end);
      if last.lastUpdated < start {
        NothingInWindow(front, start, end);
        assert Selected(changes, start, end) == [last];
      } else if last.lastUpdated <= end {
        assert Selected(changes, start, end) == before + [last];
        assert (before + [last])[..|before|] == before;
      } else {
        assert Selected(changes, start, end) == before;
      }
    }
  }

  lemma {:induction false} NothingInWindow(changes: seq<Change>, start: int, end: int)
    requires forall i :: 0 <= i < |changes| ==> changes[i].lastUpdated < start
    ensures InWindow(changes, start, end) == []
  {
    if changes != [] {
      NothingInWindow(changes[..|changes| - 1], start, end);
    }
  }

  // For every window, utilization of what the handler reads of the log is utilization of the snapshots
  lemma UtilizationOfSnapshots(history: seq<Taken>, key: Key, start: int, end: int, routes: Option<Routes>)
    requires Increasing(history) && start <= end && Selected(Changes(LogOf(history, key)), start, end) != []
    ensures Duration(Selected(Changes(LogOf(history, key)), start, end), start, end, routes)
            == TimeSeen(history, key, start, end, routes)
  {
    var changes := Changes(LogOf(history, key));
    LogIsChangeLog(history, key);
    SelectedMeets(changes, start, end);
    DurationExact(Selected(changes, start, end), start, end, routes);
    forall t | start <= t < end ensures RoutesAt(Selected(changes, start, end), t) == RoutesAt(changes, t) {
      SelectedAt(changes, start, end, t);
    }
    TimeOnSame(Selected(changes, start, end), changes, start, end, routes);
    TimeOnIsTimeSeen(history, key, start, end, routes);
  }

  // ---------- the query against the whole table ----------

  // MAX(last_updated) before the window over all rows of the node's name, in whatever network
  function NewestTime(rows: seq<HistoryRow>, nodeName: string, start: int): Option<int> {
    if rows == [] then None
    else
      var before, last := NewestTime(rows[..|rows| - 1], nodeName, start), rows[|rows| - 1];
      if last.key.nodeName != nodeName || last.lastUpdated >= start then before
      else if before.Some? && before.value >= last.lastUpdated then before
      else Some(last.lastUpdated)
  }

  function AtTime(changes: seq<Change>, time: Option<int>): seq<Change> {
    if changes == [] then []
    else
      var last := changes[|changes| - 1];
      AtTime(changes[..|changes| - 1], time) + if Some(last.lastUpdated) == time then [last] else []
  }

  // The rows of one node that the handler's two queries return, the earlier one first
  function HandlerRows(rows: seq<HistoryRow>, key: Key, start: int, end: int): seq<Change> {
    var own := Changes(RowsOf(rows, key));
    AtTime(own, NewestTime(rows, key.nodeName, start)) + InWindow(own, start, end)
  }

  lemma {:induction false} NewestTimeIs(rows: seq<HistoryRow>, nodeName: string, start: int)
    ensures var newest := NewestTime(rows, nodeName, start);
            && (newest.Some? ==>
                  exists r :: r in rows && r.key.nodeName == nodeName && r.lastUpdated == newest.value < start)
            && forall r :: r in rows && r.key.nodeName == nodeName && r.lastUpdated < start ==>
                 newest.Some? && r.lastUpdated <= newest.value
  {
    if rows != [] {
      var front, last := rows[..|rows| - 1], rows[|rows| - 1];
      assert rows == front + [last];
      NewestTimeIs(front, nodeName, start);
    }
  }

  lemma {:induction false} AtTimeIs(changes: seq<Change>, time: Option<int>)
    requires LaterAndLater(changes)
    ensures |AtTime(changes, time)| <= 1
    ensures forall c :: c in AtTime(changes, time) <==> c in changes && Some(c.lastUpdated) == time
  {
    if changes != [] {
      var front, last := changes[..|changes| - 1], changes[|changes| - 1];
      assert changes == front + [last];
      AtTimeIs(front, time);
      forall c | c in front ensures c.lastUpdated < last.lastUpdated {
      }
      assert |AtTime(front, time)| > 0 ==> AtTime(front, time)[0] in AtTime(front, time);
    }
  }

  lemma {:induction false} OwnRows(rows: seq<HistoryRow>, key: Key, c: Change)
    requires c in Changes(RowsOf(rows, key))
    ensures exists r :: r in rows && r.key == key && r.lastUpdated == c.lastUpdated
  {
    var own := RowsOf(rows, key);
    var i :| 0 <= i < |own| && Changes(own)[i] == c;
    RowsOfMember(rows, key, i);
  }

  lemma {:induction false} RowsOfMember(rows: seq<HistoryRow>, key: Key, i: nat)
    requires i < |RowsOf(rows, key)|
    ensures RowsOf(rows, key)[i] in rows && RowsOf(rows, key)[i].key == key
  {
    var front := rows[..|rows| - 1];
    assert rows == front + [rows[|rows| - 1]];
    if i < |RowsOf(front, key)| {
      RowsOfMember(front, key, i);
    }
  }

  // A node of the same name in another network has no row between the node's own newest row and the window
  predicate NoLaterNamesake(rows: seq<HistoryRow>, key: Key, time: int, start: int) {
    forall r :: r in rows && r.key.nodeName == key.nodeName && r.lastUpdated < start ==> r.lastUpdated <= time
  }

  // The query selects the right rows exactly when no namesake hides the node's newest earlier row
  lemma HandlerSelectsExact(rows: seq<HistoryRow>, key: Key, start: int, end: int)
    requires LaterAndLater(Changes(RowsOf(rows, key)))
    ensures var own := Changes(RowsOf(rows, key));
            HandlerRows(rows, key, start, end) == Selected(own, start, end)
            <==> forall c :: c in NewestBefore(own, start) ==> NoLaterNamesake(rows, key, c.lastUpdated, start)
  {
    var own, newest := Changes(RowsOf(rows, key)), NewestTime(rows, key.nodeName, start);
    var early, found := NewestBefore(own, start), AtTime(own, newest);
    NewestTimeIs(rows, key.nodeName, start);
    NewestBeforeIs(own, start);
    AtTimeIs(own, newest);
    assert |found| > 0 ==> found[0] in found;
    if early == [] {
      assert found == early;
    } else {
      var c := early[0];
      assert c in early;
      OwnRows(rows, key, c);
      assert early == [c];
      if newest == Some(c.lastUpdated) {
        assert c in found;
        assert found == early;
      } else {
        assert found == [];
        assert |HandlerRows(rows, key, start, end)| < |Selected(own, start, end)|;
        var r :| r in rows && r.key.nodeName == key.nodeName && r.lastUpdated == newest.value < start;
        assert !NoLaterNamesake(rows, key, c.lastUpdated, start);
      }
    }
  }

  lemma Hidden(rows: seq<HistoryRow>, key: Key, own: seq<Change>, c: Change, r: HistoryRow, start: int, end: int)
    requires own == Changes(RowsOf(rows, key)) && LaterAndLater(own) && c in NewestBefore(own, start)
    requires r in rows && r.key.nodeName == key.nodeName && c.lastUpdated < r.lastUpdated < start
    ensures HandlerRows(rows, key, start, end) != Selected(own, start, end)
  {
    assert !NoLaterNamesake(rows, key, c.lastUpdated, start);
    HandlerSelectsExact(rows, key, start, end);
  }

  lemma OwnRowOnly(first: HistoryRow, second: HistoryRow)
    requires first.key != second.key
    ensures Changes(RowsOf([first, second], first.key)) == [Change(first.routes, first.lastUpdated)]
  {
    RowsOfAppend([], first, first.key);
    RowsOfAppend([first], second, first.key);
    assert [] + [first] == [first] && [first] + [second] == [first, second];
  }

  // A node of the same name in another network hides the routes in force when the window opens
  lemma NamesakeHides(routes: Routes, hops: nat)
    ensures var key := Key("A", "node");
            var rows := [HistoryRow(key, 0, routes, hops), HistoryRow(Key("B", "node"), 5, routes, hops)];
            && Changes(RowsOf(rows, key)) == [Change(routes, 0)]
            && HandlerRows(rows, key, 10, 20) != Selected(Changes(RowsOf(rows, key)), 10, 20)
  {
    var key, other := Key("A", "node"), Key("B", "node");
    assert "A"[0] != "B"[0];
    var first, second := HistoryRow(key, 0, routes, hops), HistoryRow(other, 5, routes, hops);
    OwnRowOnly(first, second);
    var own := [Change(routes, 0)];
    assert own[0] in NewestBefore(own, 10) && second in [first, second];
    Hidden([first, second], key, own, own[0], second, 10, 20);
  }
}
