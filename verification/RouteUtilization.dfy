/**
  How long each set of default routes was in use.

  A node's history lists changes; the routes of a row hold from its time until the next row.  Times
  are integers (datetime counts microseconds).  Durations are credited to the previous routes row by
  row, which for a first row before the window starts with a negative amount.
 */
module RouteUtilization {
  import opened Options
  import opened Sums

  type Routes = seq<seq<string>>

  datatype Change = Change(routes: Routes, lastUpdated: int)

  // ---------- what utilization means ----------

  // The routes of the latest row at time t; None before any row
  function RoutesAt(changes: seq<Change>, t: int): Option<Routes> {
    if changes == [] then None
    else if changes[|changes| - 1].lastUpdated <= t then Some(changes[|changes| - 1].routes)
    else RoutesAt(changes[..|changes| - 1], t)
  }

  // The time in [lo, hi) during which the latest row carried the given routes
  function TimeOn(changes: seq<Change>, lo: int, hi: int, routes: Option<Routes>): nat
    decreases hi - lo
  {
    if hi <= lo then 0
    else TimeOn(changes, lo, hi - 1, routes) + if RoutesAt(changes, hi - 1) == routes then 1 else 0
  }

  predicate Ordered(changes: seq<Change>) {
    forall i, j :: 0 <= i < j < |changes| ==> changes[i].lastUpdated <= changes[j].lastUpdated
  }

  // ---------- what the code computes ----------

  function RoutesBefore(changes: seq<Change>, start: int, i: nat): Option<Routes>
    requires i <= |changes| && changes != []
  {
    if i > 0 then Some(changes[i - 1].routes)
    else if changes[0].lastUpdated < start then Some(changes[0].routes) else None
  }

  function TimeBefore(changes: seq<Change>, start: int, i: nat): int
    requires i <= |changes|
  {
    if i > 0 then changes[i - 1].lastUpdated else start
  }

  // What the first n rows credit to the given routes
  function Credited(changes: seq<Change>, start: int, n: nat, routes: Option<Routes>): int
    requires n <= |changes| && changes != []
  {
    if n == 0 then 0
    else
      Credited(changes, start, n - 1, routes)
      + if RoutesBefore(changes, start, n - 1) == routes
        then changes[n - 1].lastUpdated - TimeBefore(changes, start, n - 1) else 0
  }

  function Duration(changes: seq<Change>, start: int, end: int, routes: Option<Routes>): int
    requires changes != []
  {
    Credited(changes, start, |changes|, routes)
    + if RoutesBefore(changes, start, |changes|) == routes then end - TimeBefore(changes, start, |changes|) else 0
  }

  // The routes that get an entry: those of every row, and those in force when the window opens
  function RoutesSeen(changes: seq<Change>, start: int): set<Option<Routes>>
    requires changes != []
  {
    set i | 0 <= i <= |changes| :: RoutesBefore(changes, start, i)
  }

  function Entry<K(==)>(m: map<K, int>, k: K): int {
    if k in m then m[k] else 0
  }

  method AddTo(durations: map<Option<Routes>, int>, routes: Option<Routes>, amount: int)
    returns (after: map<Option<Routes>, int>)
    ensures forall r :: Entry(after, r) == Entry(durations, r) + if r == routes then amount else 0
    ensures after.Keys == durations.Keys + {routes}
    ensures Total(after) == Total(durations) + amount
  {
    after := durations[routes := (if routes in durations then durations[routes] else 0) + amount];
    TotalAfterUpdate(durations, routes, amount);
  }

  ghost function Total(m: map<Option<Routes>, int>): int {
    SumOver(m.Keys, (k: Option<Routes>) => Entry(m, k))
  }

  lemma TotalAfterUpdate(m: map<Option<Routes>, int>, k: Option<Routes>, amount: int)
    ensures Total(m[k := Entry(m, k) + amount]) == Total(m) + amount
  {
    var after := m[k := Entry(m, k) + amount];
    var f, g := (x: Option<Routes>) => Entry(m, x), (x: Option<Routes>) => Entry(after, x);
    SumTake(after.Keys, g, k);
    SumSame(after.Keys - {k}, f, g);
    if k in m {
      assert after.Keys == m.Keys;
      SumTake(m.Keys, f, k);
    } else {
      assert after.Keys - {k} == m.Keys;
    }
  }

  // The per-node part: durations of all routes that the loop has met
  method RoutesDuration(changes: seq<Change>, start: int, end: int) returns (durations: map<Option<Routes>, int>)
    requires changes != []
    ensures forall r :: Entry(durations, r) == Duration(changes, start, end, r)
    ensures durations.Keys == RoutesSeen(changes, start)
    ensures Total(durations) == end - start
  {
    durations := map[];
    var prevRoutes := if changes[0].lastUpdated < start then Some(changes[0].routes) else None;
    var prevLastUpdated := start;
    for n := 0 to |changes|
      invariant prevRoutes == RoutesBefore(changes, start, n) && prevLastUpdated == TimeBefore(changes, start, n)
      invariant forall r :: Entry(durations, r) == Credited(changes, start, n, r)
      invariant durations.Keys == set i | 0 <= i < n :: RoutesBefore(changes, start, i)
      invariant Total(durations) == prevLastUpdated - start
    {
      durations := AddTo(durations, prevRoutes, changes[n].lastUpdated - prevLastUpdated);
      prevRoutes, prevLastUpdated := Some(changes[n].routes), changes[n].lastUpdated;
    }
    durations := AddTo(durations, prevRoutes, end - prevLastUpdated);
  }

  // ---------- measuring time ----------

  lemma {:induction false} TimeOnSplit(changes: seq<Change>, lo: int, mid: int, hi: int, r: Option<Routes>)
    requires lo <= mid <= hi
    ensures TimeOn(changes, lo, hi, r) == TimeOn(changes, lo, mid, r) + TimeOn(changes, mid, hi, r)
    decreases hi - mid
  {
    if mid < hi {
      TimeOnSplit(changes, lo, mid, hi - 1, r);
    }
  }

  lemma {:induction false} TimeOnConstant(changes: seq<Change>, lo: int, hi: int,
                                          current: Option<Routes>, r: Option<Routes>)
    requires lo <= hi && forall t :: lo <= t < hi ==> RoutesAt(changes, t) == current
    ensures TimeOn(changes, lo, hi, r) == if current == r then hi - lo else 0
    decreases hi - lo
  {
    if lo < hi {
      TimeOnConstant(changes, lo, hi - 1, current, r);
    }
  }

  lemma {:induction false} TimeOnSame(a: seq<Change>, b: seq<Change>, lo: int, hi: int, r: Option<Routes>)
    requires forall t :: lo <= t < hi ==> RoutesAt(a, t) == RoutesAt(b, t)
    ensures TimeOn(a, lo, hi, r) == TimeOn(b, lo, hi, r)
    decreases hi - lo
  {
    if lo < hi {
      TimeOnSame(a, b, lo, hi - 1, r);
    }
  }

  lemma {:induction false} TimeOnAtMost(changes: seq<Change>, lo: int, hi: int, r: Option<Routes>)
    requires lo <= hi
    ensures TimeOn(changes, lo, hi, r) <= hi - lo
    decreases hi - lo
  {
    if lo < hi {
      TimeOnAtMost(changes, lo, hi - 1, r);
    }
  }

  // A new last row changes nothing before its time and everything after it
  lemma TimeOnNewRow(changes: seq<Change>, n: nat, lo: int, hi: int, r: Option<Routes>)
    requires n < |changes| && lo <= changes[n].lastUpdated <= hi
    ensures TimeOn(changes[..n + 1], lo, hi, r)
            == TimeOn(changes[..n], lo, changes[n].lastUpdated, r)
               + if Some(changes[n].routes) == r then hi - changes[n].lastUpdated else 0
  {
    var u, more := changes[n].lastUpdated, changes[..n + 1];
    assert more[..n] == changes[..n] && more[n] == changes[n];
    TimeOnSplit(more, lo, u, hi, r);
    TimeOnSame(more, changes[..n], lo, u, r);
    TimeOnConstant(more, u, hi, Some(changes[n].routes), r);
  }

  // ---------- exactness ----------

  // From the second row on every step is exact; whatever the first two rows left is carried along
  lemma {:induction false} CreditedFrom(changes: seq<Change>, start: int, m: nat, n: nat, till: int, r: Option<Routes>)
    requires Ordered(changes) && 1 <= m <= n <= |changes|
    requires changes[n - 1].lastUpdated <= till
    ensures var base := changes[m - 1].lastUpdated;
            Credited(changes, start, n, r)
            + (if Some(changes[n - 1].routes) == r then till - changes[n - 1].lastUpdated else 0)
            == Credited(changes, start, m, r) + TimeOn(changes[..n], base, till, r)
  {
    var base, u := changes[m - 1].lastUpdated, changes[n - 1].lastUpdated;
    assert changes[..n][n - 1] == changes[n - 1];
    if n == m {
      TimeOnConstant(changes[..n], base, till, Some(changes[n - 1].routes), r);
    } else {
      CreditedFrom(changes, start, m, n - 1, u, r);
      TimeOnNewRow(changes, n - 1, base, till, r);
    }
  }

  // One row at most lies before the window
  predicate StartsInOrder(changes: seq<Change>, start: int) {
    |changes| < 2 || start <= changes[1].lastUpdated
  }

  lemma DurationExact(changes: seq<Change>, start: int, end: int, r: Option<Routes>)
    requires changes != [] && Ordered(changes) && start <= end
    requires changes[|changes| - 1].lastUpdated <= end && StartsInOrder(changes, start)
    ensures Duration(changes, start, end, r) == TimeOn(changes, start, end, r)
  {
    var n, u := |changes|, changes[0].lastUpdated;
    assert changes[..n] == changes;
    CreditedFrom(changes, start, 1, n, end, r);
    if u < start {
      TimeOnSplit(changes, u, start, end, r);
      forall t | u <= t < start
        ensures RoutesAt(changes, t) == Some(changes[0].routes)
      {
        OnlyFirstRow(changes, t);
      }
      TimeOnConstant(changes, u, start, Some(changes[0].routes), r);
    } else {
      TimeOnSplit(changes, start, u, end, r);
      forall t | start <= t < u
        ensures RoutesAt(changes, t) == None
      {
        NoRowYet(changes, t);
      }
      TimeOnConstant(changes, start, u, None, r);
    }
  }

  lemma {:induction false} NoRowYet(changes: seq<Change>, t: int)
    requires forall i :: 0 <= i < |changes| ==> t < changes[i].lastUpdated
    ensures RoutesAt(changes, t) == None
  {
    if changes != [] {
      NoRowYet(changes[..|changes| - 1], t);
    }
  }

  lemma {:induction false} OnlyFirstRow(changes: seq<Change>, t: int)
    requires changes != [] && changes[0].lastUpdated <= t
    requires forall i :: 1 <= i < |changes| ==> t < changes[i].lastUpdated
    ensures RoutesAt(changes, t) == Some(changes[0].routes)
  {
    if |changes| > 1 {
      OnlyFirstRow(changes[..|changes| - 1], t);
    }
  }

  predicate LaterAndLater(changes: seq<Change>) {
    forall i, j :: 0 <= i < j < |changes| ==> changes[i].lastUpdated < changes[j].lastUpdated
  }

  lemma {:induction false} AtRowTime(changes: seq<Change>, k: nat)
    requires k < |changes| && LaterAndLater(changes)
    ensures RoutesAt(changes, changes[k].lastUpdated) == Some(changes[k].routes)
  {
    if k < |changes| - 1 {
      AtRowTime(changes[..|changes| - 1], k);
    }
  }

  // Rows as a change log writes them: later and different
  predicate ChangeLog(changes: seq<Change>) {
    && LaterAndLater(changes)
    && (forall i :: 0 < i < |changes| ==> changes[i - 1].routes != changes[i].routes)
  }

  // With two rows before the window the first routes are credited too little
  lemma TwoRowsBeforeFail(changes: seq<Change>, start: int, end: int)
    requires ChangeLog(changes) && |changes| >= 2 && changes[1].lastUpdated < start <= end
    requires changes[|changes| - 1].lastUpdated <= end
    ensures var r := Some(changes[0].routes);
            Duration(changes, start, end, r) < TimeOn(changes, start, end, r)
  {
    var n, base, r := |changes|, changes[1].lastUpdated, Some(changes[0].routes);
    assert changes[..n] == changes;
    CreditedFrom(changes, start, 2, n, end, r);
    assert Credited(changes, start, 1, r) == changes[0].lastUpdated - start;
    assert Credited(changes, start, 2, r) == base - start;
    TimeOnSplit(changes, base, start, end, r);
    TimeOnSplit(changes, base, base + 1, start, r);
    AtRowTime(changes, 1);
    assert changes[0].routes != changes[1].routes;
    TimeOnConstant(changes, base, base + 1, Some(changes[1].routes), r);
    TimeOnAtMost(changes, base + 1, start, r);
  }

  // For change logs: every duration is right exactly when at most one row lies before the window
  lemma DurationsExactIff(changes: seq<Change>, start: int, end: int)
    requires changes != [] && ChangeLog(changes) && start <= end && changes[|changes| - 1].lastUpdated <= end
    ensures (forall r :: Duration(changes, start, end, r) == TimeOn(changes, start, end, r))
            <==> StartsInOrder(changes, start)
  {
    if StartsInOrder(changes, start) {
      forall r ensures Duration(changes, start, end, r) == TimeOn(changes, start, end, r) {
        DurationExact(changes, start, end, r);
      }
    } else {
      TwoRowsBeforeFail(changes, start, end);
    }
  }

  // ---------- all nodes ----------

  datatype Row = Row(nodeName: string, change: Change)

  function ChangesOf(rows: seq<Row>, node: string): seq<Change> {
    if rows == [] then []
    else ChangesOf(rows[..|rows| - 1], node)
         + var last := rows[|rows| - 1]; if last.nodeName == node then [last.change] else []
  }

  method GroupByNode(rows: seq<Row>) returns (groups: map<string, seq<Change>>)
    ensures forall node :: node in groups <==> ChangesOf(rows, node) != []
    ensures forall node :: node in groups ==> groups[node] == ChangesOf(rows, node)
  {
    groups := map[];
    for i := 0 to |rows|
      invariant forall node :: node in groups <==> ChangesOf(rows[..i], node) != []
      invariant forall node :: node in groups ==> groups[node] == ChangesOf(rows[..i], node)
    {
      assert rows[..i + 1][..i] == rows[..i];
      var node := rows[i].nodeName;
      groups := groups[node := (if node in groups then groups[node] else []) + [rows[i].change]];
    }
    assert rows[..|rows|] == rows;
  }

  // The rows of a node, in their order
  lemma {:induction false} ChangesOfExact(rows: seq<Row>, node: string)
    ensures forall c :: c in ChangesOf(rows, node) <==> Row(node, c) in rows
    ensures (forall i, j :: 0 <= i < j < |rows| ==> rows[i].change.lastUpdated <= rows[j].change.lastUpdated) ==>
              Ordered(ChangesOf(rows, node))
  {
    if rows != [] {
      var front, last := rows[..|rows| - 1], rows[|rows| - 1];
      assert rows == front + [last];
      ChangesOfExact(front, node);
      if forall i, j :: 0 <= i < j < |rows| ==> rows[i].change.lastUpdated <= rows[j].change.lastUpdated {
        forall c | c in ChangesOf(front, node) ensures c.lastUpdated <= last.change.lastUpdated {
          var k :| 0 <= k < |front| && front[k] == Row(node, c);
          assert rows[k] == front[k];
        }
      }
    }
  }

  // An entry for the routes of every row, and one for the time before the first row, if there is such
  lemma RoutesSeenExact(changes: seq<Change>, start: int, r: Option<Routes>)
    requires changes != []
    ensures r in RoutesSeen(changes, start)
            <==> (exists c :: c in changes && r == Some(c.routes)) || (r == None && start <= changes[0].lastUpdated)
  {
    if c :| c in changes && r == Some(c.routes) {
      var i :| 0 <= i < |changes| && changes[i] == c;
      assert RoutesBefore(changes, start, i + 1) == r;
    }
    if r == None && start <= changes[0].lastUpdated {
      assert RoutesBefore(changes, start, 0) == None;
    }
    if r in RoutesSeen(changes, start) {
      var i :| 0 <= i <= |changes| && RoutesBefore(changes, start, i) == r;
      assert changes[0] in changes && (i > 0 ==> changes[i - 1] in changes);
    }
  }

  // One entry for each of the node's routes, with its share of the window
  ghost predicate PercentagesOf(percentages: map<Option<Routes>, real>, changes: seq<Change>, start: int, end: int)
  {
    && changes != [] && start != end && percentages.Keys == RoutesSeen(changes, start)
    && forall r :: r in percentages ==>
         percentages[r] == Duration(changes, start, end, r) as real / (end - start) as real * 100.0
  }

  // The percentage of some routes is the share of seconds during which they were in force
  lemma PercentagesExact(percentages: map<Option<Routes>, real>, changes: seq<Change>, start: int, end: int,
                         r: Option<Routes>)
    requires PercentagesOf(percentages, changes, start, end) && r in percentages && start < end
    requires Ordered(changes) && changes[|changes| - 1].lastUpdated <= end && StartsInOrder(changes, start)
    ensures IsShare(percentages[r], TimeOn(changes, start, end, r), end - start)
  {
    DurationExact(changes, start, end, r);
    PercentageIsShare(percentages[r], Duration(changes, start, end, r), end - start);
  }

  predicate IsShare(percentage: real, seconds: int, windowSeconds: int) {
    percentage * windowSeconds as real == 100.0 * seconds as real
  }

  lemma PercentageIsShare(percentage: real, seconds: int, windowSeconds: int)
    requires windowSeconds > 0 && percentage == seconds as real / windowSeconds as real * 100.0
    ensures IsShare(percentage, seconds, windowSeconds)
  {
    var x, y := seconds as real, windowSeconds as real;
    assert x / y * y == x;
    assert x / y * 100.0 * y == 100.0 * (x / y * y);
  }

  method NodePercentages(changes: seq<Change>, start: int, end: int) returns (percentages: map<Option<Routes>, real>)
    requires changes != [] && start != end
    ensures PercentagesOf(percentages, changes, start, end)
  {
    var durations := RoutesDuration(changes, start, end);
    percentages := map r | r in durations :: durations[r] as real / (end - start) as real * 100.0;
    assert forall r :: r in durations ==> Entry(durations, r) == durations[r];
  }

  // Percentages before rounding; None stands for the ZeroDivisionError of an empty window
  method ComputeRoutesUtilization(rows: seq<Row>, start: int, end: int)
    returns (utilization: Option<map<string, map<Option<Routes>, real>>>)
    ensures utilization.None? <==> rows != [] && start == end
    ensures utilization.Some? ==>
              forall node :: node in utilization.value <==> ChangesOf(rows, node) != []
    ensures utilization.Some? ==>
              forall node :: node in utilization.value ==>
                PercentagesOf(utilization.value[node], ChangesOf(rows, node), start, end)
  {
    var groups := GroupByNode(rows);
    if start == end {
      if rows == [] {
        return Some(map[]);
      }
      return None;
    }
    var result: map<string, map<Option<Routes>, real>> := map[];
    var rest := groups.Keys;
    while rest != {}
      invariant rest <= groups.Keys && result.Keys == groups.Keys - rest
      invariant forall node :: node in result ==> PercentagesOf(result[node], ChangesOf(rows, node), start, end)
      decreases |rest|
    {
      var node :| node in rest;
      var percentages := NodePercentages(groups[node], start, end);
      result := result[node := percentages];
      rest := rest - {node};
    }
    utilization := Some(result);
  }
}
