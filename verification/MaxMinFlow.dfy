/**
  When the capacity estimate can report a positive value.

  The witness sends the same small amount along the path of every sink and adds the flows up.
 */
module MaxMinFlow {
  import opened Connectivity
  import opened FlowModel
  import opened Options
  import opened Sets

  // An amount sent over the edge of that name, in the direction of the edge
  datatype Push = Push(name: string, amount: real)

  function FlowOf(pushes: seq<Push>, name: string): real {
    if pushes == [] then 0.0
    else
      var last := pushes[|pushes| - 1];
      FlowOf(pushes[..|pushes| - 1], name) + if last.name == name then last.amount else 0.0
  }

  function EdgeBalance(e: FlowEdge, x: Node, flow: real): real {
    (if e.outNode == x then flow else 0.0) - (if e.inNode == x then flow else 0.0)
  }

  // Inflow minus outflow of a node
  function Balance(edges: seq<FlowEdge>, x: Node, pushes: seq<Push>): real {
    if edges == [] then 0.0
    else
      var e := edges[|edges| - 1];
      Balance(edges[..|edges| - 1], x, pushes) + EdgeBalance(e, x, FlowOf(pushes, e.name))
  }

  lemma {:induction false} BalanceIs(edges: seq<FlowEdge>, x: Node, pushes: seq<Push>, a: Assignment)
    requires forall name :: a.flow(name) == FlowOf(pushes, name)
    ensures FlowSum(TermsFor(edges, x), a) == Balance(edges, x, pushes)
  {
    if edges != [] {
      var front, e := edges[..|edges| - 1], edges[|edges| - 1];
      BalanceIs(front, x, pushes, a);
      FlowSumAppend(TermsFor(front, x), OwnTerms(e, x), a);
      OwnTermsSum(e, x, a);
    }
  }

  // ---------- one more push ----------

  lemma FlowOfAppend(pushes: seq<Push>, p: Push, name: string)
    ensures FlowOf(pushes + [p], name) == FlowOf(pushes, name) + if p.name == name then p.amount else 0.0
  {
    assert (pushes + [p])[..|pushes|] == pushes;
  }

  lemma {:induction false} BalanceUntouched(edges: seq<FlowEdge>, x: Node, pushes: seq<Push>, p: Push)
    requires forall e :: e in edges ==> e.name != p.name
    ensures Balance(edges, x, pushes + [p]) == Balance(edges, x, pushes)
  {
    if edges != [] {
      var front, e := edges[..|edges| - 1], edges[|edges| - 1];
      assert e in edges;
      BalanceUntouched(front, x, pushes, p);
      FlowOfAppend(pushes, p, e.name);
    }
  }

  lemma {:induction false} BalancePush(edges: seq<FlowEdge>, x: Node, pushes: seq<Push>, p: Push, e: FlowEdge)
    requires DistinctEdges(edges) && e in edges && e.name == p.name
    ensures Balance(edges, x, pushes + [p]) == Balance(edges, x, pushes) + EdgeBalance(e, x, p.amount)
  {
    var front, last := edges[..|edges| - 1], edges[|edges| - 1];
    FlowOfAppend(pushes, p, last.name);
    if last.name == p.name {
      OnlyEdge(edges, |edges| - 1, e);
      forall f | f in front ensures f.name != p.name {
      }
      BalanceUntouched(front, x, pushes, p);
    } else {
      BalancePush(front, x, pushes, p, e);
    }
  }

  lemma OnlyEdge(edges: seq<FlowEdge>, i: nat, e: FlowEdge)
    requires DistinctEdges(edges) && i < |edges| && e in edges && e.name == edges[i].name
    ensures edges[i] == e
  {
    var j :| 0 <= j < |edges| && edges[j] == e;
    assert j == i;
  }

  // ---------- one hop, one path, all paths ----------

  predicate HopName(attrs: map<Edge, LinkAttr>, a: Node, b: Node, name: string) {
    {a, b} in attrs && EdgeName(attrs[{a, b}].name, a, b) == name
  }

  // Names tell links apart
  ghost predicate NamesApart(attrs: map<Edge, LinkAttr>) {
    forall a, b, c, d, name :: HopName(attrs, a, b, name) && HopName(attrs, c, d, name) ==> {a, b} == {c, d}
  }

  predicate StartsAt(edges: seq<FlowEdge>, name: string, tx: Node) {
    exists e :: e in edges && e.name == name && e.inNode == tx
  }

  // The amount from tx to rx, whichever way round their edge was added
  function HopPush(edges: seq<FlowEdge>, attrs: map<Edge, LinkAttr>, tx: Node, rx: Node, amount: real): Push
    requires {tx, rx} in attrs
  {
    var name := EdgeName(attrs[{tx, rx}].name, tx, rx);
    Push(name, if StartsAt(edges, name, tx) then amount else -amount)
  }

  function Gain(x: Node, from: Node, to: Node, amount: real): real {
    (if to == x then amount else 0.0) - (if from == x then amount else 0.0)
  }

  lemma EdgeOfHop(edges: seq<FlowEdge>, attrs: map<Edge, LinkAttr>, wireless: real, wired: real, tx: Node, rx: Node)
    returns (e: FlowEdge)
    requires DistinctEdges(edges) && AllHops(edges, attrs, wireless, wired) && NamesApart(attrs)
    requires {tx, rx} in attrs && EdgeName(attrs[{tx, rx}].name, tx, rx) in Names(edges)
    ensures e in edges && e.name == EdgeName(attrs[{tx, rx}].name, tx, rx)
    ensures (e.inNode == tx && e.outNode == rx) || (e.inNode == rx && e.outNode == tx)
    ensures StartsAt(edges, e.name, tx) <==> e.inNode == tx
  {
    var name := EdgeName(attrs[{tx, rx}].name, tx, rx);
    e :| e in edges && e.name == name;
    assert HopName(attrs, tx, rx, name) && HopName(attrs, e.inNode, e.outNode, name);
    SamePair(e.inNode, e.outNode, tx, rx);
    if f :| f in edges && f.name == name && f.inNode == tx {
      var i :| 0 <= i < |edges| && edges[i] == e;
      OnlyEdge(edges, i, f);
    }
  }

  lemma SamePair(a: Node, b: Node, c: Node, d: Node)
    requires {a, b} == {c, d}
    ensures (a == c && b == d) || (a == d && b == c)
  {
    assert a in {c, d} && b in {c, d} && c in {a, b} && d in {a, b};
  }

  lemma HopBalance(edges: seq<FlowEdge>, attrs: map<Edge, LinkAttr>, wireless: real, wired: real,
                   x: Node, pushes: seq<Push>, tx: Node, rx: Node, amount: real)
    requires DistinctEdges(edges) && AllHops(edges, attrs, wireless, wired) && NamesApart(attrs)
    requires {tx, rx} in attrs && EdgeName(attrs[{tx, rx}].name, tx, rx) in Names(edges)
    ensures Balance(edges, x, pushes + [HopPush(edges, attrs, tx, rx, amount)])
            == Balance(edges, x, pushes) + Gain(x, tx, rx, amount)
  {
    var e := EdgeOfHop(edges, attrs, wireless, wired, tx, rx);
    BalancePush(edges, x, pushes, HopPush(edges, attrs, tx, rx, amount), e);
  }

  predicate Along(attrs: map<Edge, LinkAttr>, path: seq<Node>) {
    forall i :: 0 <= i < |path| - 1 ==> {path[i], path[i + 1]} in attrs
  }

  function PathPushes(edges: seq<FlowEdge>, attrs: map<Edge, LinkAttr>, path: seq<Node>, amount: real): seq<Push>
    requires Along(attrs, path)
  {
    if |path| < 2 then []
    else
      var n := |path| - 1;
      PathPushes(edges, attrs, path[..n], amount) + [HopPush(edges, attrs, path[n - 1], path[n], amount)]
  }

  // Along a path everything cancels but the two ends
  lemma {:induction false} PathBalance(edges: seq<FlowEdge>, attrs: map<Edge, LinkAttr>, wireless: real, wired: real,
                                       x: Node, pushes: seq<Push>, path: seq<Node>, amount: real)
    requires DistinctEdges(edges) && AllHops(edges, attrs, wireless, wired) && NamesApart(attrs)
    requires path != [] && PathKnown(edges, attrs, path)
    ensures Balance(edges, x, pushes + PathPushes(edges, attrs, path, amount))
            == Balance(edges, x, pushes) + Gain(x, path[0], path[|path| - 1], amount)
  {
    if |path| < 2 {
      assert pushes + PathPushes(edges, attrs, path, amount) == pushes;
    } else {
      KnownPrefix(edges, attrs, path);
      PathBalance(edges, attrs, wireless, wired, x, pushes, path[..|path| - 1], amount);
      LastHopBalance(edges, attrs, wireless, wired, x, pushes, path, amount);
    }
  }

  lemma LastHopBalance(edges: seq<FlowEdge>, attrs: map<Edge, LinkAttr>, wireless: real, wired: real,
                       x: Node, pushes: seq<Push>, path: seq<Node>, amount: real)
    requires DistinctEdges(edges) && AllHops(edges, attrs, wireless, wired) && NamesApart(attrs)
    requires |path| >= 2 && Along(attrs, path) && Along(attrs, path[..|path| - 1])
    requires var n := |path| - 1; EdgeName(attrs[{path[n - 1], path[n]}].name, path[n - 1], path[n]) in Names(edges)
    ensures var n := |path| - 1;
            Balance(edges, x, pushes + PathPushes(edges, attrs, path, amount))
            == Balance(edges, x, pushes + PathPushes(edges, attrs, path[..n], amount))
               + Gain(x, path[n - 1], path[n], amount)
  {
    var n := |path| - 1;
    var before, hop := PathPushes(edges, attrs, path[..n], amount), HopPush(edges, attrs, path[n - 1], path[n], amount);
    assert pushes + PathPushes(edges, attrs, path, amount) == (pushes + before) + [hop];
    HopBalance(edges, attrs, wireless, wired, x, pushes + before, path[n - 1], path[n], amount);
  }

  lemma KnownPrefix(edges: seq<FlowEdge>, attrs: map<Edge, LinkAttr>, path: seq<Node>)
    requires |path| >= 2 && PathKnown(edges, attrs, path)
    ensures PathKnown(edges, attrs, path[..|path| - 1]) && Along(attrs, path) && Along(attrs, path[..|path| - 1])
  {
    var front := path[..|path| - 1];
    forall i | 0 <= i < |front| - 1
      ensures {front[i], front[i + 1]} in attrs
      ensures EdgeName(attrs[{front[i], front[i + 1]}].name, front[i], front[i + 1]) in Names(edges)
    {
      assert front[i] == path[i] && front[i + 1] == path[i + 1];
    }
  }

  ghost predicate AllAlong(attrs: map<Edge, LinkAttr>, paths: map<Node, seq<Node>>) {
    forall cn :: cn in paths ==> Along(attrs, paths[cn])
  }

  ghost function AllPushes(edges: seq<FlowEdge>, attrs: map<Edge, LinkAttr>, paths: map<Node, seq<Node>>,
                           cns: seq<Node>, amount: real): seq<Push>
    requires AllAlong(attrs, paths)
  {
    if cns == [] then []
    else
      var cn := cns[|cns| - 1];
      AllPushes(edges, attrs, paths, cns[..|cns| - 1], amount)
      + if cn in paths then PathPushes(edges, attrs, paths[cn], amount) else []
  }

  // Every sink gets the amount, and everything else but the source is balanced
  lemma {:induction false} AllBalance(edges: seq<FlowEdge>, attrs: map<Edge, LinkAttr>, wireless: real, wired: real,
                                      paths: map<Node, seq<Node>>, cns: seq<Node>, amount: real, x: Node)
    requires DistinctEdges(edges) && AllHops(edges, attrs, wireless, wired) && NamesApart(attrs)
    requires PathsFit(paths, attrs) && AllAlong(attrs, paths) && Distinct(cns) && x != SOURCE
    requires forall cn :: cn in Sinks(paths, cns) ==> PathKnown(edges, attrs, paths[cn])
    ensures Balance(edges, x, AllPushes(edges, attrs, paths, cns, amount))
            == if x in cns && x in paths then amount else 0.0
  {
    if cns == [] {
      NothingPushed(edges, x);
    } else {
      var front, cn := cns[..|cns| - 1], cns[|cns| - 1];
      assert cns == front + [cn];
      assert cn !in front;
      AllBalance(edges, attrs, wireless, wired, paths, front, amount, x);
      var before := AllPushes(edges, attrs, paths, front, amount);
      if cn in paths {
        assert cn in Sinks(paths, cns);
        OneMoreSink(edges, attrs, wireless, wired, paths, cn, before, amount, x);
      } else {
        assert before + [] == before;
      }
    }
  }

  lemma OneMoreSink(edges: seq<FlowEdge>, attrs: map<Edge, LinkAttr>, wireless: real, wired: real,
                    paths: map<Node, seq<Node>>, cn: Node, before: seq<Push>, amount: real, x: Node)
    requires DistinctEdges(edges) && AllHops(edges, attrs, wireless, wired) && NamesApart(attrs)
    requires PathsFit(paths, attrs) && cn in paths && PathKnown(edges, attrs, paths[cn]) && x != SOURCE
    ensures Balance(edges, x, before + PathPushes(edges, attrs, paths[cn], amount))
            == Balance(edges, x, before) + if x == cn then amount else 0.0
  {
    SinkPath(paths, attrs, cn);
    PathBalance(edges, attrs, wireless, wired, x, before, paths[cn], amount);
  }

  lemma {:induction false} NothingPushed(edges: seq<FlowEdge>, x: Node)
    ensures Balance(edges, x, []) == 0.0
  {
    if edges != [] {
      NothingPushed(edges[..|edges| - 1], x);
    }
  }

  // ---------- small enough for every capacity ----------

  ghost predicate AmountsWithin(pushes: seq<Push>, amount: real) {
    forall p :: p in pushes ==> -amount <= p.amount <= amount
  }

  lemma {:induction false} FlowOfBound(pushes: seq<Push>, amount: real, name: string)
    requires amount >= 0.0 && AmountsWithin(pushes, amount)
    ensures -Times(amount, |pushes|) <= FlowOf(pushes, name) <= Times(amount, |pushes|)
  {
    if pushes != [] {
      assert pushes[|pushes| - 1] in pushes;
      FlowOfBound(pushes[..|pushes| - 1], amount, name);
    }
  }

  lemma {:induction false} PathAmounts(edges: seq<FlowEdge>, attrs: map<Edge, LinkAttr>, path: seq<Node>, amount: real)
    requires Along(attrs, path) && amount >= 0.0
    ensures AmountsWithin(PathPushes(edges, attrs, path, -amount), amount)
    ensures |PathPushes(edges, attrs, path, -amount)| <= |path|
  {
    if |path| >= 2 {
      PathAmounts(edges, attrs, path[..|path| - 1], amount);
    }
  }

  function TotalLength(paths: map<Node, seq<Node>>, cns: seq<Node>): nat {
    if cns == [] then 0
    else
      var cn := cns[|cns| - 1];
      TotalLength(paths, cns[..|cns| - 1]) + if cn in paths then |paths[cn]| else 0
  }

  lemma {:induction false} AllAmounts(edges: seq<FlowEdge>, attrs: map<Edge, LinkAttr>, paths: map<Node, seq<Node>>,
                                      cns: seq<Node>, amount: real)
    requires AllAlong(attrs, paths) && amount >= 0.0
    ensures var pushes := AllPushes(edges, attrs, paths, cns, -amount);
            AmountsWithin(pushes, amount) && |pushes| <= TotalLength(paths, cns)
  {
    if cns != [] {
      AllAmounts(edges, attrs, paths, cns[..|cns| - 1], amount);
      var cn := cns[|cns| - 1];
      if cn in paths {
        PathAmounts(edges, attrs, paths[cn], amount);
      }
    }
  }

  lemma {:induction false} TimesMonotone(x: real, k: nat, n: nat)
    requires x >= 0.0 && k <= n
    ensures 0.0 <= Times(x, k) <= Times(x, n)
    decreases n
  {
    if k < n {
      TimesMonotone(x, k, n - 1);
    } else if k > 0 {
      TimesMonotone(x, k - 1, k - 1);
    }
  }

  lemma Share(c: real, k: nat) returns (x: real)
    requires c > 0.0
    ensures x > 0.0 && Times(x, k) <= c
  {
    var n := (k + 1) as real;
    x := c / n;
    assert x * n == c;
    TimesIsProduct(x, k + 1);
  }

  lemma {:induction false} TimeSumIs(times: seq<string>, a: Assignment, t: real)
    requires forall name :: a.time(name) == t
    ensures TimeSum(times, a) == Times(t, |times|)
  {
    if times != [] {
      TimeSumIs(times[..|times| - 1], a, t);
    }
  }

  lemma {:induction false} FewTimes(edges: seq<FlowEdge>, id: Node)
    ensures |TimesFor(edges, id)| <= 2 * |edges|
  {
    if edges != [] {
      FewTimes(edges[..|edges| - 1], id);
    }
  }

  // ---------- the assignment ----------

  ghost function Sending(edges: seq<FlowEdge>, pushes: seq<Push>, t: real): Assignment {
    Assignment((name: string) => FlowOf(pushes, name), (name: string) => t, (x: Node) => Balance(edges, x, pushes))
  }

  predicate NoneRelays(paths: map<Node, seq<Node>>, cns: seq<Node>) {
    forall k :: 0 <= k < |cns| && cns[k] in paths ==> !RelaysEarlier(paths, cns, k)
  }

  // A value that the solver may report
  ghost predicate Reportable(nodes: seq<FlowNode>, edges: seq<FlowEdge>, sinks: set<Node>, m: real) {
    exists a :: Feasible(nodes, edges, a) && Achieves(nodes, sinks, a, m)
  }

  lemma {:induction false} SourceIsVariable(paths: map<Node, seq<Node>>, cns: seq<Node>)
    ensures SOURCE in Variable(paths, cns)
  {
    if cns != [] {
      SourceIsVariable(paths, cns[..|cns| - 1]);
    }
  }

  // Nodes without a net-flow variable are neither the source nor a sink
  lemma ConstantNodes(nodes: seq<FlowNode>, paths: map<Node, seq<Node>>, cns: seq<Node>, n: FlowNode)
    requires DistinctIds(nodes) && NetIds(nodes) == Variable(paths, cns) && n in nodes
    requires Distinct(cns) && SOURCE !in cns && NoneRelays(paths, cns)
    ensures n.id in Sinks(paths, cns) || n.id == SOURCE ==> n.hasNetFlow
  {
    NetIdsAre(nodes);
    SourceIsVariable(paths, cns);
    if n.id in Sinks(paths, cns) {
      var k :| 0 <= k < |cns| && cns[k] == n.id;
      VariableExact(paths, cns, k);
    }
    if n.id in NetIds(nodes) {
      var other :| other in nodes && other.id == n.id && other.hasNetFlow;
      assert other == n;
    }
  }

  lemma TimesFit(n: FlowNode, edges: seq<FlowEdge>, a: Assignment, t: real)
    requires n.edgeTimes == TimesFor(edges, n.id) && forall name :: a.time(name) == t
    requires t >= 0.0 && Times(t, 2 * |edges|) <= 1.0
    ensures TimeSum(n.edgeTimes, a) <= 1.0
  {
    TimeSumIs(n.edgeTimes, a, t);
    FewTimes(edges, n.id);
    TimesMonotone(t, |n.edgeTimes|, 2 * |edges|);
  }

  lemma SinksGet(nodes: seq<FlowNode>, edges: seq<FlowEdge>, attrs: map<Edge, LinkAttr>,
                 paths: map<Node, seq<Node>>, cns: seq<Node>, wireless: real, wired: real, amount: real, x: Node)
    requires Built(nodes, edges, attrs, paths, cns, wireless, wired) && PathsFit(paths, attrs) && AllAlong(attrs, paths)
    requires Distinct(cns) && NamesApart(attrs) && x != SOURCE
    ensures Balance(edges, x, AllPushes(edges, attrs, paths, cns, amount))
            == if x in Sinks(paths, cns) then amount else 0.0
  {
    AllBalance(edges, attrs, wireless, wired, paths, cns, amount, x);
  }

  lemma SendingBalances(nodes: seq<FlowNode>, edges: seq<FlowEdge>, attrs: map<Edge, LinkAttr>,
                        paths: map<Node, seq<Node>>, cns: seq<Node>, wireless: real, wired: real,
                        d: real, t: real, n: FlowNode)
    requires Built(nodes, edges, attrs, paths, cns, wireless, wired) && PathsFit(paths, attrs) && AllAlong(attrs, paths)
    requires Distinct(cns) && SOURCE !in cns && NoneRelays(paths, cns) && NamesApart(attrs)
    requires n in nodes && t >= 0.0 && Times(t, 2 * |edges|) <= 1.0
    ensures var a := Sending(edges, AllPushes(edges, attrs, paths, cns, -d), t);
            NodeHolds(n, a) && (n.id in Sinks(paths, cns) ==> NetFlow(n, a) == -d)
  {
    var pushes := AllPushes(edges, attrs, paths, cns, -d);
    var a := Sending(edges, pushes, t);
    ConstantNodes(nodes, paths, cns, n);
    if n.id != SOURCE {
      SinksGet(nodes, edges, attrs, paths, cns, wireless, wired, -d, n.id);
    }
    assert n.edgeFlows == TermsFor(edges, n.id) && n.edgeTimes == TimesFor(edges, n.id);
    NodeBalanced(n, edges, pushes, t, n.id in Sinks(paths, cns), d);
  }

  lemma NodeBalanced(n: FlowNode, edges: seq<FlowEdge>, pushes: seq<Push>, t: real, sink: bool, d: real)
    requires n.edgeFlows == TermsFor(edges, n.id) && n.edgeTimes == TimesFor(edges, n.id)
    requires sink || n.id == SOURCE ==> n.hasNetFlow
    requires n.id != SOURCE ==> Balance(edges, n.id, pushes) == if sink then -d else 0.0
    requires sink ==> n.id != SOURCE
    requires t >= 0.0 && Times(t, 2 * |edges|) <= 1.0
    ensures NodeHolds(n, Sending(edges, pushes, t)) && (sink ==> NetFlow(n, Sending(edges, pushes, t)) == -d)
  {
    BalanceIs(edges, n.id, pushes, Sending(edges, pushes, t));
    TimesFit(n, edges, Sending(edges, pushes, t), t);
  }

  lemma SendingFits(edges: seq<FlowEdge>, attrs: map<Edge, LinkAttr>, wireless: real, wired: real,
                    pushes: seq<Push>, d: real, t: real, c: real, e: FlowEdge)
    requires AllHops(edges, attrs, wireless, wired) && e in edges && d >= 0.0 && t >= 0.0
    requires AmountsWithin(pushes, d) && Times(d, |pushes|) <= c && c <= wired && c <= t * wireless
    ensures EdgeHolds(e, Sending(edges, pushes, t))
  {
    FlowOfBound(pushes, d, e.name);
    SmallFits(e, FlowOf(pushes, e.name), t, c, if e.shareTime then wireless else wired);
  }

  lemma SmallFits(e: FlowEdge, flow: real, t: real, c: real, capacity: real)
    requires -c <= flow <= c && t >= 0.0 && e.capacity == capacity
    requires c <= if e.shareTime then t * capacity else capacity
    ensures Fits(e, flow, t)
  {
  }

  lemma Sendable(nodes: seq<FlowNode>, edges: seq<FlowEdge>, attrs: map<Edge, LinkAttr>,
                 paths: map<Node, seq<Node>>, cns: seq<Node>, wireless: real, wired: real) returns (d: real)
    requires Built(nodes, edges, attrs, paths, cns, wireless, wired) && PathsFit(paths, attrs) && NamesApart(attrs)
    requires Distinct(cns) && SOURCE !in cns && NoneRelays(paths, cns) && wireless > 0.0 && wired > 0.0
    ensures d > 0.0 && Reportable(nodes, edges, Sinks(paths, cns), d)
  {
    AllPathsAlong(paths, attrs);
    var t := Share(1.0, 2 * |edges|);
    var c := CommonCapacity(t, wireless, wired);
    d := Share(c, TotalLength(paths, cns));
    var pushes := AllPushes(edges, attrs, paths, cns, -d);
    var a := Sending(edges, pushes, t);
    AllAmounts(edges, attrs, paths, cns, d);
    TimesMonotone(d, |pushes|, TotalLength(paths, cns));
    forall n | n in nodes
      ensures NodeHolds(n, a) && (n.id in Sinks(paths, cns) ==> NetFlow(n, a) == -d)
    {
      SendingBalances(nodes, edges, attrs, paths, cns, wireless, wired, d, t, n);
    }
    forall e | e in edges ensures EdgeHolds(e, a) {
      SendingFits(edges, attrs, wireless, wired, pushes, d, t, c, e);
    }
    assert Feasible(nodes, edges, a) && Achieves(nodes, Sinks(paths, cns), a, d);
  }

  lemma AllPathsAlong(paths: map<Node, seq<Node>>, attrs: map<Edge, LinkAttr>)
    requires PathsFit(paths, attrs)
    ensures AllAlong(attrs, paths)
  {
    forall cn, i | cn in paths && 0 <= i < |paths[cn]| - 1
      ensures {paths[cn][i], paths[cn][i + 1]} in attrs
    {
      assert Adjacent(attrs.Keys, paths[cn][i], paths[cn][i + 1]);
    }
  }

  lemma CommonCapacity(t: real, wireless: real, wired: real) returns (c: real)
    requires t > 0.0 && wireless > 0.0 && wired > 0.0
    ensures 0.0 < c <= wired && c <= t * wireless
  {
    var shared := t * wireless;
    assert shared > 0.0;
    c := if shared < wired then shared else wired;
  }

  // With positive capacities and names that tell links apart, a positive value can be reported exactly
  // if no CN relays for one visited before it
  lemma PositiveExact(nodes: seq<FlowNode>, edges: seq<FlowEdge>, attrs: map<Edge, LinkAttr>,
                      paths: map<Node, seq<Node>>, cns: seq<Node>, wireless: real, wired: real)
    requires Built(nodes, edges, attrs, paths, cns, wireless, wired) && PathsFit(paths, attrs) && NamesApart(attrs)
    requires Distinct(cns) && SOURCE !in cns && wireless > 0.0 && wired > 0.0
    ensures (exists m :: m > 0.0 && Reportable(nodes, edges, Sinks(paths, cns), m)) <==> NoneRelays(paths, cns)
  {
    if NoneRelays(paths, cns) {
      var d := Sendable(nodes, edges, attrs, paths, cns, wireless, wired);
    } else {
      var k :| 0 <= k < |cns| && cns[k] in paths && RelaysEarlier(paths, cns, k);
      forall m | Reportable(nodes, edges, Sinks(paths, cns), m) ensures m <= 0.0 {
        var a :| Feasible(nodes, edges, a) && Achieves(nodes, Sinks(paths, cns), a, m);
        RelayForcesZero(nodes, edges, paths, cns, k, a, m);
      }
    }
  }

  // ---------- one network, two visiting orders ----------

  // A PoP, a CN next to it, and a CN behind that one
  function TwoCnAttrs(): map<Edge, LinkAttr> {
    map[{SOURCE, "p"} := LinkAttr(Some("link-source-p"), false),
        {"p", "a"} := LinkAttr(Some("link-p-a"), true),
        {"a", "b"} := LinkAttr(Some("link-a-b"), true)]
  }

  function TwoCnPaths(): map<Node, seq<Node>> {
    map["a" := [SOURCE, "p", "a"], "b" := [SOURCE, "p", "a", "b"]]
  }

  lemma TwoCnNames()
    ensures NamesApart(TwoCnAttrs())
    ensures PathsFit(TwoCnPaths(), TwoCnAttrs())
  {
    var p: Node, a: Node, b: Node := "p", "a", "b";
    assert p[0] == 'p' && a[0] == 'a' && b[0] == 'b' && SOURCE[0] == 's';
    assert SOURCE in {SOURCE, p} && SOURCE !in {p, a} && SOURCE !in {a, b} && p in {p, a} && p !in {a, b};
    var attrs := TwoCnAttrs();
    assert "link-source-p"[5] == 's' && "link-p-a"[5] == 'p' && "link-a-b"[5] == 'a';
    assert attrs[{SOURCE, p}].name == Some("link-source-p") && attrs[{p, a}].name == Some("link-p-a");
    assert attrs[{a, b}].name == Some("link-a-b");
    forall u, v, x, y, name | HopName(attrs, u, v, name) && HopName(attrs, x, y, name) ensures {u, v} == {x, y} {
      assert {u, v} in attrs && {x, y} in attrs;
    }
    var paths := TwoCnPaths();
    assert paths[a] == [SOURCE, p, a] && paths[b] == [SOURCE, p, a, b];
  }

  lemma NearOneRelays()
    ensures !NoneRelays(TwoCnPaths(), ["b", "a"])
  {
    var a: Node, b: Node := "a", "b";
    var paths := TwoCnPaths();
    assert a[0] == 'a' && b[0] == 'b' && paths[b][2] == a && [b, a][..1] == [b];
    assert [b][0] == b && b in paths && a in paths[b];
    assert OnPathOf(paths, [b], a);
    assert RelaysEarlier(paths, [b, a], 1);
  }

  lemma FarOneRelaysNot()
    ensures NoneRelays(TwoCnPaths(), ["a", "b"])
  {
    var a: Node, b: Node, p: Node := "a", "b", "p";
    var paths := TwoCnPaths();
    assert a[0] == 'a' && b[0] == 'b' && p[0] == 'p' && SOURCE[0] == 's';
    assert paths[a] == [SOURCE, p, a] && b !in paths[a];
    assert [a, b][..1] == [a] && [a, b][..0] == [];
  }

  lemma TwoCnExact(nodes: seq<FlowNode>, edges: seq<FlowEdge>, cns: seq<Node>, wireless: real, wired: real)
    requires Built(nodes, edges, TwoCnAttrs(), TwoCnPaths(), cns, wireless, wired)
    requires wireless > 0.0 && wired > 0.0 && (cns == ["a", "b"] || cns == ["b", "a"])
    ensures (exists m :: m > 0.0 && Reportable(nodes, edges, Sinks(TwoCnPaths(), cns), m))
            <==> NoneRelays(TwoCnPaths(), cns)
  {
    assert "a"[0] != "b"[0] && "a"[0] != SOURCE[0] && "b"[0] != SOURCE[0];
    TwoCnNames();
    PositiveExact(nodes, edges, TwoCnAttrs(), TwoCnPaths(), cns, wireless, wired);
  }

  // Visiting the far CN first makes the near one a relay, and nothing above 0 can be reported
  lemma FarFirstGivesNothing(nodes: seq<FlowNode>, edges: seq<FlowEdge>, wireless: real, wired: real)
    requires Built(nodes, edges, TwoCnAttrs(), TwoCnPaths(), ["b", "a"], wireless, wired)
    requires wireless > 0.0 && wired > 0.0
    ensures !exists m :: m > 0.0 && Reportable(nodes, edges, Sinks(TwoCnPaths(), ["b", "a"]), m)
  {
    NearOneRelays();
    TwoCnExact(nodes, edges, ["b", "a"], wireless, wired);
  }

  // The other order is fine.  The code visits a Python set, so either may happen.
  lemma NearFirstGivesSomething(nodes: seq<FlowNode>, edges: seq<FlowEdge>, wireless: real, wired: real)
    requires Built(nodes, edges, TwoCnAttrs(), TwoCnPaths(), ["a", "b"], wireless, wired)
    requires wireless > 0.0 && wired > 0.0
    ensures exists m :: m > 0.0 && Reportable(nodes, edges, Sinks(TwoCnPaths(), ["a", "b"]), m)
  {
    FarOneRelaysNot();
    TwoCnExact(nodes, edges, ["a", "b"], wireless, wired);
  }
}
