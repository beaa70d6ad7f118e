/**
  The capacity estimate in plain sums over links.

  A value can be reported exactly if some flow along the links delivers it: wired links carry up to
  their capacity, the wireless links of a node share one wireless capacity, and what enters a node
  leaves it, except at the source and at the CNs whose net flow is free.
 */
module Airtime {
  import opened Connectivity
  import opened FlowModel
  import opened MaxMinFlow
  import opened Options
  import opened Sets

  type Flow = string -> real

  // ---------- the edges of the network ----------

  ghost predicate AlongLink(e: FlowEdge, attrs: map<Edge, LinkAttr>) {
    {e.inNode, e.outNode} in attrs
  }

  predicate OnWireless(e: FlowEdge, attrs: map<Edge, LinkAttr>) {
    {e.inNode, e.outNode} in attrs && attrs[{e.inNode, e.outNode}].wireless
  }

  // Name, capacity and time sharing are those of the link
  lemma EdgeOfLink(edges: seq<FlowEdge>, attrs: map<Edge, LinkAttr>, wireless: real, wired: real, e: FlowEdge)
    requires AllHops(edges, attrs, wireless, wired) && e in edges
    ensures AlongLink(e, attrs)
    ensures var link := attrs[{e.inNode, e.outNode}];
            && e.name == (match link.name case Some(name) => name case None => e.inNode + "-" + e.outNode)
            && (e.shareTime <==> link.wireless)
            && (link.wireless ==> e.capacity == wireless) && (!link.wireless ==> e.capacity == wired)
  {
  }

  // ---------- what a node lists ----------

  function EndsAt(e: FlowEdge, x: Node): nat {
    (if e.inNode == x then 1 else 0) + (if e.outNode == x then 1 else 0)
  }

  lemma {:induction false} TimesListed(edges: seq<FlowEdge>, x: Node, e: FlowEdge)
    requires DistinctEdges(edges) && e in edges
    ensures HowOften(TimesFor(edges, x), e.name) == if e.shareTime then EndsAt(e, x) else 0
  {
    var n := |edges| - 1;
    var front, last := edges[..n], edges[n];
    Together(TimesFor(front, x), OwnTimes(last, x), e.name);
    OwnTimesListed(last, x, e.name);
    if e == last {
      forall d | d in front ensures d.name != e.name {
        var i :| 0 <= i < n && front[i] == d;
        assert edges[i].name != edges[n].name;
      }
      NameNotListed(front, x, e.name);
    } else {
      var i :| 0 <= i < |edges| && edges[i] == e;
      assert front[i] == e && edges[i].name != edges[n].name;
      TimesListed(front, x, e);
    }
  }

  function HowOften(names: seq<string>, name: string): nat {
    multiset(names)[name]
  }

  lemma Together(a: seq<string>, b: seq<string>, name: string)
    ensures HowOften(a + b, name) == HowOften(a, name) + HowOften(b, name)
  {
    assert multiset(a + b) == multiset(a) + multiset(b);
  }

  lemma OwnTimesListed(e: FlowEdge, x: Node, name: string)
    ensures HowOften(OwnTimes(e, x), name) == if e.shareTime && e.name == name then EndsAt(e, x) else 0
  {
  }

  lemma {:induction false} NameNotListed(edges: seq<FlowEdge>, x: Node, name: string)
    requires forall e :: e in edges ==> e.name != name
    ensures HowOften(TimesFor(edges, x), name) == 0
  {
    if edges != [] {
      var front, last := edges[..|edges| - 1], edges[|edges| - 1];
      assert edges == front + [last] && last in edges;
      Together(TimesFor(front, x), OwnTimes(last, x), name);
      OwnTimesListed(last, x, name);
      NameNotListed(front, x, name);
    }
  }

  lemma {:induction false} ListedTouches(edges: seq<FlowEdge>, x: Node, name: string)
    requires name in TimesFor(edges, x)
    ensures exists e :: e in edges && e.name == name && e.shareTime && EndsAt(e, x) > 0
  {
    var front, last := edges[..|edges| - 1], edges[|edges| - 1];
    assert edges == front + [last];
    if name in TimesFor(front, x) {
      ListedTouches(front, x, name);
    } else {
      assert last in edges;
    }
  }

  // A node lists the time of every wireless edge once for each of its ends there, and no other times
  lemma NodeListsWirelessEnds(nodes: seq<FlowNode>, edges: seq<FlowEdge>, n: FlowNode)
    requires Wired(nodes, edges) && n in nodes
    ensures forall e :: e in edges ==> HowOften(n.edgeTimes, e.name) == if e.shareTime then EndsAt(e, n.id) else 0
    ensures forall name :: name in n.edgeTimes ==>
              exists e :: e in edges && e.name == name && e.shareTime && EndsAt(e, n.id) > 0
  {
    forall e | e in edges ensures HowOften(n.edgeTimes, e.name) == if e.shareTime then EndsAt(e, n.id) else 0 {
      TimesListed(edges, n.id, e);
    }
    forall name | name in n.edgeTimes
      ensures exists e :: e in edges && e.name == name && e.shareTime && EndsAt(e, n.id) > 0
    {
      ListedTouches(edges, n.id, name);
    }
  }

  // ---------- sums over the edges of a node ----------

  function Into(edges: seq<FlowEdge>, x: Node, f: Flow): real {
    if edges == [] then 0.0
    else
      var e := edges[|edges| - 1];
      Into(edges[..|edges| - 1], x, f) + if e.outNode == x then f(e.name) else 0.0
  }

  function OutOf(edges: seq<FlowEdge>, x: Node, f: Flow): real {
    if edges == [] then 0.0
    else
      var e := edges[|edges| - 1];
      OutOf(edges[..|edges| - 1], x, f) + if e.inNode == x then f(e.name) else 0.0
  }

  function Size(x: real): real {
    if x < 0.0 then -x else x
  }

  // What the wireless edges of a node carry, in either direction
  function OnAir(edges: seq<FlowEdge>, attrs: map<Edge, LinkAttr>, x: Node, f: Flow): real {
    if edges == [] then 0.0
    else
      var e := edges[|edges| - 1];
      OnAir(edges[..|edges| - 1], attrs, x, f) + OwnAir(e, attrs, x, f)
  }

  function OwnAir(e: FlowEdge, attrs: map<Edge, LinkAttr>, x: Node, f: Flow): real {
    if OnWireless(e, attrs) then AtEnds(e, x, Size(f(e.name))) else 0.0
  }

  // Once for every end of the edge at the node
  function AtEnds(e: FlowEdge, x: Node, amount: real): real {
    (if e.inNode == x then amount else 0.0) + (if e.outNode == x then amount else 0.0)
  }

  lemma {:induction false} FlowSumIs(edges: seq<FlowEdge>, x: Node, a: Assignment)
    ensures FlowSum(TermsFor(edges, x), a) == Into(edges, x, a.flow) - OutOf(edges, x, a.flow)
  {
    if edges != [] {
      var front, e := edges[..|edges| - 1], edges[|edges| - 1];
      FlowSumIs(front, x, a);
      FlowSumAppend(TermsFor(front, x), OwnTerms(e, x), a);
      OwnTermsSum(e, x, a);
    }
  }

  lemma {:induction false} TimeSumAppend(times: seq<string>, more: seq<string>, a: Assignment)
    ensures TimeSum(times + more, a) == TimeSum(times, a) + TimeSum(more, a)
  {
    if more == [] {
      assert times + more == times;
    } else {
      var n := |more| - 1;
      assert (times + more)[..|times| + n] == times + more[..n];
      TimeSumAppend(times, more[..n], a);
    }
  }

  lemma TimesAtEnds(e: FlowEdge, x: Node, a: Assignment)
    ensures TimeSum(OwnTimes(e, x), a) == if e.shareTime then AtEnds(e, x, a.time(e.name)) else 0.0
  {
    var own := [e.name];
    assert own[..0] == [] && TimeSum(own, a) == a.time(e.name);
    TimeSumAppend(own, own, a);
    TimeSumAppend([], own, a);
    assert [] + own == own && own + [] == own;
  }

  ghost predicate EnoughTime(air: real, time: real, capacity: real) {
    air <= time * capacity
  }

  // The edge has the time it needs, and shares it as its link does
  ghost predicate Timed(e: FlowEdge, attrs: map<Edge, LinkAttr>, wireless: real, a: Assignment) {
    EdgeHolds(e, a) && (e.shareTime <==> OnWireless(e, attrs)) && (e.shareTime ==> e.capacity == wireless)
  }

  // The time that a node's edges take, as long as every flow has the time it needs
  lemma {:induction false} AirNeedsTime(edges: seq<FlowEdge>, attrs: map<Edge, LinkAttr>, wireless: real,
                                        x: Node, a: Assignment)
    requires forall i :: 0 <= i < |edges| ==> Timed(edges[i], attrs, wireless, a)
    ensures EnoughTime(OnAir(edges, attrs, x, a.flow), TimeSum(TimesFor(edges, x), a), wireless)
  {
    if edges != [] {
      var front, e := edges[..|edges| - 1], edges[|edges| - 1];
      AirNeedsTime(front, attrs, wireless, x, a);
      TimeSumAppend(TimesFor(front, x), OwnTimes(e, x), a);
      OwnAirNeedsTime(e, attrs, wireless, x, a);
      SumsWithin(OnAir(front, attrs, x, a.flow), TimeSum(TimesFor(front, x), a),
                 OwnAir(e, attrs, x, a.flow), TimeSum(OwnTimes(e, x), a), wireless);
    }
  }

  lemma OwnAirNeedsTime(e: FlowEdge, attrs: map<Edge, LinkAttr>, wireless: real, x: Node, a: Assignment)
    requires Timed(e, attrs, wireless, a)
    ensures EnoughTime(OwnAir(e, attrs, x, a.flow), TimeSum(OwnTimes(e, x), a), wireless)
  {
    TimesAtEnds(e, x, a);
    if e.shareTime {
      HasItsTime(e, a);
      EndsNeedTime(e, x, Size(a.flow(e.name)), a.time(e.name), wireless);
    } else {
      NoTimeNeeded(wireless);
    }
  }

  lemma HasItsTime(e: FlowEdge, a: Assignment)
    requires e.shareTime && EdgeHolds(e, a)
    ensures EnoughTime(Size(a.flow(e.name)), a.time(e.name), e.capacity)
  {
  }

  lemma NoTimeNeeded(capacity: real)
    ensures EnoughTime(0.0, 0.0, capacity)
  {
  }

  lemma EndsNeedTime(e: FlowEdge, x: Node, flow: real, time: real, capacity: real)
    requires EnoughTime(flow, time, capacity)
    ensures EnoughTime(AtEnds(e, x, flow), AtEnds(e, x, time), capacity)
  {
    NoTimeNeeded(capacity);
    SumsWithin(flow, time, flow, time, capacity);
  }

  lemma SumsWithin(x: real, s: real, y: real, t: real, capacity: real)
    requires EnoughTime(x, s, capacity) && EnoughTime(y, t, capacity)
    ensures EnoughTime(x + y, s + t, capacity)
  {
    assert (s + t) * capacity == s * capacity + t * capacity;
  }

  ghost predicate JustInTime(e: FlowEdge, attrs: map<Edge, LinkAttr>, wireless: real, a: Assignment) {
    && (e.shareTime <==> OnWireless(e, attrs)) && wireless > 0.0
    && a.time(e.name) == Size(a.flow(e.name)) / wireless
  }

  // Given just the time it needs, the wireless edges of a node take their share of the air
  lemma {:induction false} TimeOfAir(edges: seq<FlowEdge>, attrs: map<Edge, LinkAttr>, wireless: real,
                                     x: Node, a: Assignment)
    requires wireless > 0.0 && forall i :: 0 <= i < |edges| ==> JustInTime(edges[i], attrs, wireless, a)
    ensures TimeSum(TimesFor(edges, x), a) == OnAir(edges, attrs, x, a.flow) / wireless
  {
    if edges == [] {
      SumOfShares(0.0, 0.0, wireless);
    } else {
      var front, e := edges[..|edges| - 1], edges[|edges| - 1];
      TimeOfAir(front, attrs, wireless, x, a);
      TimeSumAppend(TimesFor(front, x), OwnTimes(e, x), a);
      OwnTimeOfAir(e, attrs, wireless, x, a);
      SumOfShares(OnAir(front, attrs, x, a.flow), OwnAir(e, attrs, x, a.flow), wireless);
    }
  }

  lemma OwnTimeOfAir(e: FlowEdge, attrs: map<Edge, LinkAttr>, wireless: real, x: Node, a: Assignment)
    requires JustInTime(e, attrs, wireless, a)
    ensures TimeSum(OwnTimes(e, x), a) == OwnAir(e, attrs, x, a.flow) / wireless
  {
    TimesAtEnds(e, x, a);
    EndsShare(e, x, Size(a.flow(e.name)), wireless);
    SumOfShares(0.0, 0.0, wireless);
  }

  lemma EndsShare(e: FlowEdge, x: Node, flow: real, capacity: real)
    requires capacity > 0.0
    ensures AtEnds(e, x, flow / capacity) == AtEnds(e, x, flow) / capacity
  {
    SumOfShares(flow, flow, capacity);
  }

  lemma SumOfShares(x: real, y: real, capacity: real)
    requires capacity > 0.0
    ensures (x + y) / capacity == x / capacity + y / capacity
    ensures 0.0 / capacity == 0.0
  {
  }

  lemma {:induction false} NothingTouches(edges: seq<FlowEdge>, attrs: map<Edge, LinkAttr>, x: Node, f: Flow)
    requires forall e :: e in edges ==> e.inNode != x && e.outNode != x
    ensures Into(edges, x, f) == OutOf(edges, x, f) == OnAir(edges, attrs, x, f) == 0.0
  {
    if edges != [] {
      var front, e := edges[..|edges| - 1], edges[|edges| - 1];
      assert edges == front + [e] && e in edges;
      NothingTouches(front, attrs, x, f);
    }
  }

  // ---------- what can be reported ----------

  // Wired links carry up to their capacity, and the wireless links of a node share one
  ghost predicate Carries(edges: seq<FlowEdge>, attrs: map<Edge, LinkAttr>, wireless: real, wired: real, f: Flow) {
    && (forall e :: e in edges && !OnWireless(e, attrs) ==> -wired <= f(e.name) <= wired)
    && (forall x :: OnAir(edges, attrs, x, f) <= wireless)
  }

  // A CN that no earlier path passes takes what it likes
  predicate Takes(paths: map<Node, seq<Node>>, cns: seq<Node>, x: Node) {
    exists k :: 0 <= k < |cns| && cns[k] == x && x in paths && !OnPathOf(paths, cns[..k], x)
  }

  // Every CN that has a path gets at least m, and whatever is neither the source nor free to take is
  // left with nothing.  The flow is counted toward the source.
  ghost predicate Delivers(edges: seq<FlowEdge>, paths: map<Node, seq<Node>>, cns: seq<Node>, f: Flow, m: real) {
    && (forall x :: x in cns && x in paths ==> OutOf(edges, x, f) - Into(edges, x, f) >= m)
    && (forall x :: x != SOURCE && !Takes(paths, cns, x) ==> Into(edges, x, f) == OutOf(edges, x, f))
  }

  lemma VariableIs(nodes: seq<FlowNode>, paths: map<Node, seq<Node>>, cns: seq<Node>, n: FlowNode)
    requires DistinctIds(nodes) && NetIds(nodes) == Variable(paths, cns) && n in nodes
    requires Distinct(cns) && SOURCE !in cns
    ensures n.hasNetFlow <==> n.id == SOURCE || Takes(paths, cns, n.id)
  {
    NetIdsAre(nodes);
    SourceIsVariable(paths, cns);
    VariableWithin(paths, cns);
    if k :| 0 <= k < |cns| && cns[k] == n.id && cns[k] in paths {
      VariableExact(paths, cns, k);
      assert RelaysEarlier(paths, cns, k) <==> OnPathOf(paths, cns[..k], n.id);
    }
    if n.id in NetIds(nodes) {
      var other :| other in nodes && other.id == n.id && other.hasNetFlow;
      assert other == n;
    }
  }

  lemma ReportedIsDelivered(nodes: seq<FlowNode>, edges: seq<FlowEdge>, attrs: map<Edge, LinkAttr>,
                            paths: map<Node, seq<Node>>, cns: seq<Node>, wireless: real, wired: real,
                            a: Assignment, m: real)
    requires Built(nodes, edges, attrs, paths, cns, wireless, wired) && PathsFit(paths, attrs)
    requires Distinct(cns) && SOURCE !in cns && wireless > 0.0
    requires Feasible(nodes, edges, a) && Achieves(nodes, Sinks(paths, cns), a, m)
    ensures Carries(edges, attrs, wireless, wired, a.flow) && Delivers(edges, paths, cns, a.flow, m)
  {
    IdsAre(nodes);
    SourceCovered(paths, cns);
    forall x ensures OnAir(edges, attrs, x, a.flow) <= wireless {
      NodeWithinAir(nodes, edges, attrs, wireless, wired, a, x);
    }
    forall e | e in edges && !OnWireless(e, attrs) ensures -wired <= a.flow(e.name) <= wired {
      EdgeOfLink(edges, attrs, wireless, wired, e);
      assert EdgeHolds(e, a);
    }
    forall x | x in cns && x in paths ensures OutOf(edges, x, a.flow) - Into(edges, x, a.flow) >= m {
      assert x in Sinks(paths, cns);
      var n :| n in nodes && n.id == x;
      FlowSumIs(edges, x, a);
    }
    forall x | x != SOURCE && !Takes(paths, cns, x) ensures Into(edges, x, a.flow) == OutOf(edges, x, a.flow) {
      if n :| n in nodes && n.id == x {
        VariableIs(nodes, paths, cns, n);
        FlowSumIs(edges, x, a);
      } else {
        NothingTouches(edges, attrs, x, a.flow);
      }
    }
  }

  lemma NodeWithinAir(nodes: seq<FlowNode>, edges: seq<FlowEdge>, attrs: map<Edge, LinkAttr>,
                      wireless: real, wired: real, a: Assignment, x: Node)
    requires Wired(nodes, edges) && AllHops(edges, attrs, wireless, wired) && wireless > 0.0
    requires Feasible(nodes, edges, a)
    ensures OnAir(edges, attrs, x, a.flow) <= wireless
  {
    if n :| n in nodes && n.id == x {
      forall i | 0 <= i < |edges| ensures Timed(edges[i], attrs, wireless, a) {
        EdgeOfLink(edges, attrs, wireless, wired, edges[i]);
      }
      AirNeedsTime(edges, attrs, wireless, x, a);
      TimesAtMostOne(n, a);
      WithinWhole(OnAir(edges, attrs, x, a.flow), TimeSum(TimesFor(edges, x), a), wireless);
    } else {
      IdsAre(nodes);
      NothingTouches(edges, attrs, x, a.flow);
    }
  }

  lemma TimesAtMostOne(n: FlowNode, a: Assignment)
    requires NodeHolds(n, a) && (n.shareTime <==> n.edgeTimes != [])
    ensures TimeSum(n.edgeTimes, a) <= 1.0
  {
  }

  lemma WithinWhole(x: real, t: real, capacity: real)
    requires EnoughTime(x, t, capacity) && t <= 1.0 && capacity > 0.0
    ensures x <= capacity
  {
    assert (1.0 - t) * capacity >= 0.0;
  }

  ghost function Moving(edges: seq<FlowEdge>, wireless: real, f: Flow): Assignment
    requires wireless > 0.0
  {
    Assignment(f, (name: string) => Size(f(name)) / wireless, (x: Node) => Into(edges, x, f) - OutOf(edges, x, f))
  }

  lemma DeliveredIsReported(nodes: seq<FlowNode>, edges: seq<FlowEdge>, attrs: map<Edge, LinkAttr>,
                            paths: map<Node, seq<Node>>, cns: seq<Node>, wireless: real, wired: real,
                            f: Flow, m: real)
    requires Built(nodes, edges, attrs, paths, cns, wireless, wired)
    requires Distinct(cns) && SOURCE !in cns && wireless > 0.0
    requires Carries(edges, attrs, wireless, wired, f) && Delivers(edges, paths, cns, f, m)
    ensures Reportable(nodes, edges, Sinks(paths, cns), m)
  {
    var a := Moving(edges, wireless, f);
    forall e | e in edges ensures EdgeHolds(e, a) {
      MovingFits(edges, attrs, wireless, wired, f, e);
    }
    forall n | n in nodes ensures NodeHolds(n, a) {
      MovingBalances(nodes, edges, attrs, paths, cns, wireless, wired, f, m, n);
    }
    forall n | n in nodes && n.id in Sinks(paths, cns) ensures m <= -NetFlow(n, a) {
      MovingAchieves(nodes, edges, paths, cns, wireless, f, m, n);
    }
    assert Feasible(nodes, edges, a) && Achieves(nodes, Sinks(paths, cns), a, m);
  }

  lemma MovingFits(edges: seq<FlowEdge>, attrs: map<Edge, LinkAttr>, wireless: real, wired: real, f: Flow, e: FlowEdge)
    requires AllHops(edges, attrs, wireless, wired) && Carries(edges, attrs, wireless, wired, f)
    requires wireless > 0.0 && e in edges
    ensures EdgeHolds(e, Moving(edges, wireless, f))
  {
    EdgeOfLink(edges, attrs, wireless, wired, e);
    TimeEnough(Size(f(e.name)), wireless);
  }

  lemma MovingAchieves(nodes: seq<FlowNode>, edges: seq<FlowEdge>, paths: map<Node, seq<Node>>, cns: seq<Node>,
                       wireless: real, f: Flow, m: real, n: FlowNode)
    requires DistinctIds(nodes) && NetIds(nodes) == Variable(paths, cns) && n in nodes && n.id in Sinks(paths, cns)
    requires Distinct(cns) && SOURCE !in cns && wireless > 0.0 && Delivers(edges, paths, cns, f, m)
    ensures m <= -NetFlow(n, Moving(edges, wireless, f))
  {
    VariableIs(nodes, paths, cns, n);
    assert n.id in cns && n.id in paths;
  }

  lemma MovingBalances(nodes: seq<FlowNode>, edges: seq<FlowEdge>, attrs: map<Edge, LinkAttr>,
                       paths: map<Node, seq<Node>>, cns: seq<Node>, wireless: real, wired: real,
                       f: Flow, m: real, n: FlowNode)
    requires Wired(nodes, edges) && NetIds(nodes) == Variable(paths, cns) && AllHops(edges, attrs, wireless, wired)
    requires Distinct(cns) && SOURCE !in cns && wireless > 0.0 && n in nodes
    requires Carries(edges, attrs, wireless, wired, f) && Delivers(edges, paths, cns, f, m)
    ensures NodeHolds(n, Moving(edges, wireless, f))
  {
    var a := Moving(edges, wireless, f);
    VariableIs(nodes, paths, cns, n);
    FlowSumIs(edges, n.id, a);
    forall i | 0 <= i < |edges| ensures JustInTime(edges[i], attrs, wireless, a) {
      EdgeOfLink(edges, attrs, wireless, wired, edges[i]);
    }
    TimeOfAir(edges, attrs, wireless, n.id, a);
    AtMostAll(OnAir(edges, attrs, n.id, f), wireless);
  }

  lemma TimeEnough(x: real, capacity: real)
    requires capacity > 0.0 && x >= 0.0
    ensures x <= x / capacity * capacity && x / capacity >= 0.0
  {
    assert x / capacity * capacity == x;
  }

  lemma AtMostAll(x: real, capacity: real)
    requires capacity > 0.0 && x <= capacity
    ensures x / capacity <= 1.0
  {
    assert x / capacity * capacity == x;
  }

  // The solver's problem over flows and times is one over flows alone
  lemma ReportableExact(nodes: seq<FlowNode>, edges: seq<FlowEdge>, attrs: map<Edge, LinkAttr>,
                        paths: map<Node, seq<Node>>, cns: seq<Node>, wireless: real, wired: real, m: real)
    requires Built(nodes, edges, attrs, paths, cns, wireless, wired) && PathsFit(paths, attrs)
    requires Distinct(cns) && SOURCE !in cns && wireless > 0.0
    ensures Reportable(nodes, edges, Sinks(paths, cns), m)
            <==> exists f :: Carries(edges, attrs, wireless, wired, f) && Delivers(edges, paths, cns, f, m)
  {
    if Reportable(nodes, edges, Sinks(paths, cns), m) {
      var a :| Feasible(nodes, edges, a) && Achieves(nodes, Sinks(paths, cns), a, m);
      ReportedIsDelivered(nodes, edges, attrs, paths, cns, wireless, wired, a, m);
    }
    if f :| Carries(edges, attrs, wireless, wired, f) && Delivers(edges, paths, cns, f, m) {
      DeliveredIsReported(nodes, edges, attrs, paths, cns, wireless, wired, f, m);
    }
  }
}
