/**
  The flow network behind the capacity estimate.

  Nodes and edges carry the variables of a linear program: one flow (and, for wireless edges, one
  share of air time) per edge, one net flow for the source and for each sink.  The solver itself is
  not modelled; everything here holds for any assignment that meets the constraints.  Dictionaries
  are sequences in insertion order.
 */
module FlowModel {
  import opened Connectivity
  import opened Options
  import opened Sets

  // An edge variable with its sign in a node's balance
  datatype Term = Inflow(edge: string) | Outflow(edge: string)

  datatype FlowNode = FlowNode(
    id: Node, hasNetFlow: bool, shareTime: bool, edgeFlows: seq<Term>, edgeTimes: seq<string>)

  datatype FlowEdge = FlowEdge(name: string, capacity: real, inNode: Node, outNode: Node, shareTime: bool)

  datatype Assignment = Assignment(flow: string -> real, time: string -> real, net: Node -> real)

  // ---------- the constraints ----------

  function Value(t: Term, a: Assignment): real {
    match t
    case Inflow(e) => a.flow(e)
    case Outflow(e) => -a.flow(e)
  }

  function FlowSum(terms: seq<Term>, a: Assignment): real {
    if terms == [] then 0.0 else FlowSum(terms[..|terms| - 1], a) + Value(terms[|terms| - 1], a)
  }

  function TimeSum(times: seq<string>, a: Assignment): real {
    if times == [] then 0.0 else TimeSum(times[..|times| - 1], a) + a.time(times[|times| - 1])
  }

  // A node without a net-flow variable has the constant 0
  function NetFlow(n: FlowNode, a: Assignment): real {
    if n.hasNetFlow then a.net(n.id) else 0.0
  }

  function Abs(x: real): real {
    if x < 0.0 then -x else x
  }

  predicate NodeHolds(n: FlowNode, a: Assignment) {
    && FlowSum(n.edgeFlows, a) == NetFlow(n, a)
    && (n.shareTime ==> TimeSum(n.edgeTimes, a) <= 1.0)
  }

  predicate Fits(e: FlowEdge, flow: real, time: real) {
    if e.shareTime then Abs(flow) <= time * e.capacity && time >= 0.0 else Abs(flow) <= e.capacity
  }

  predicate EdgeHolds(e: FlowEdge, a: Assignment) {
    Fits(e, a.flow(e.name), a.time(e.name))
  }

  predicate Balanced(nodes: seq<FlowNode>, a: Assignment) {
    forall n :: n in nodes ==> NodeHolds(n, a)
  }

  predicate Feasible(nodes: seq<FlowNode>, edges: seq<FlowEdge>, a: Assignment) {
    && Balanced(nodes, a)
    && (forall e :: e in edges ==> EdgeHolds(e, a))
  }

  // ---------- how nodes and edges belong together ----------

  function Ids(nodes: seq<FlowNode>): set<Node> {
    if nodes == [] then {} else Ids(nodes[..|nodes| - 1]) + {nodes[|nodes| - 1].id}
  }

  lemma {:induction false} IdsAre(nodes: seq<FlowNode>)
    ensures forall x :: x in Ids(nodes) <==> exists n :: n in nodes && n.id == x
  {
    if nodes != [] {
      var front, last := nodes[..|nodes| - 1], nodes[|nodes| - 1];
      IdsAre(front);
      assert nodes == front + [last];
    }
  }

  function TermsFor(edges: seq<FlowEdge>, id: Node): seq<Term> {
    if edges == [] then []
    else TermsFor(edges[..|edges| - 1], id) + OwnTerms(edges[|edges| - 1], id)
  }

  function OwnTerms(e: FlowEdge, id: Node): seq<Term> {
    (if e.inNode == id then [Outflow(e.name)] else []) + (if e.outNode == id then [Inflow(e.name)] else [])
  }

  function TimesFor(edges: seq<FlowEdge>, id: Node): seq<string> {
    if edges == [] then []
    else TimesFor(edges[..|edges| - 1], id) + OwnTimes(edges[|edges| - 1], id)
  }

  function OwnTimes(e: FlowEdge, id: Node): seq<string> {
    if !e.shareTime then []
    else (if e.inNode == id then [e.name] else []) + (if e.outNode == id then [e.name] else [])
  }

  predicate DistinctIds(nodes: seq<FlowNode>) {
    forall i, j :: 0 <= i < j < |nodes| ==> nodes[i].id != nodes[j].id
  }

  predicate DistinctEdges(edges: seq<FlowEdge>) {
    forall i, j :: 0 <= i < j < |edges| ==> edges[i].name != edges[j].name
  }

  // Every node lists exactly the edges that touch it
  predicate Wired(nodes: seq<FlowNode>, edges: seq<FlowEdge>) {
    && DistinctIds(nodes) && DistinctEdges(edges)
    && (forall e :: e in edges ==> e.inNode in Ids(nodes) && e.outNode in Ids(nodes))
    && (forall n :: n in nodes ==>
          && n.edgeFlows == TermsFor(edges, n.id)
          && n.edgeTimes == TimesFor(edges, n.id)
          && (n.shareTime <==> n.edgeTimes != []))
  }

  // ---------- conservation ----------

  function NetTotal(nodes: seq<FlowNode>, a: Assignment): real {
    if nodes == [] then 0.0 else NetFlow(nodes[0], a) + NetTotal(nodes[1..], a)
  }

  function BalanceTotal(nodes: seq<FlowNode>, edges: seq<FlowEdge>, a: Assignment): real {
    if nodes == [] then 0.0 else FlowSum(TermsFor(edges, nodes[0].id), a) + BalanceTotal(nodes[1..], edges, a)
  }

  lemma FlowSumAppend(terms: seq<Term>, more: seq<Term>, a: Assignment)
    requires |more| <= 2
    ensures FlowSum(terms + more, a) == FlowSum(terms, a) + FlowSum(more, a)
  {
    if |more| == 0 {
      assert terms + more == terms;
    } else if |more| == 1 {
      assert (terms + more)[..|terms|] == terms && more[..0] == [];
    } else {
      assert (terms + more)[..|terms| + 1] == terms + more[..1];
      assert (terms + more[..1])[..|terms|] == terms && more[..1][..0] == [];
    }
  }

  lemma {:induction false} BalanceOfNewEdge(nodes: seq<FlowNode>, edges: seq<FlowEdge>, e: FlowEdge, a: Assignment)
    requires DistinctIds(nodes)
    ensures BalanceTotal(nodes, edges + [e], a)
            == BalanceTotal(nodes, edges, a)
               - (if e.inNode in Ids(nodes) then a.flow(e.name) else 0.0)
               + (if e.outNode in Ids(nodes) then a.flow(e.name) else 0.0)
  {
    if nodes != [] {
      var n, rest := nodes[0], nodes[1..];
      IdsOfRest(nodes);
      BalanceOfNewEdge(rest, edges, e, a);
      assert (edges + [e])[..|edges|] == edges;
      FlowSumAppend(TermsFor(edges, n.id), OwnTerms(e, n.id), a);
      OwnTermsSum(e, n.id, a);
    }
  }

  lemma OwnTermsSum(e: FlowEdge, id: Node, a: Assignment)
    ensures FlowSum(OwnTerms(e, id), a)
            == (if e.outNode == id then a.flow(e.name) else 0.0) - (if e.inNode == id then a.flow(e.name) else 0.0)
  {
    if e.inNode == id && e.outNode == id {
      assert OwnTerms(e, id)[..1] == [Outflow(e.name)];
    }
    assert FlowSum([Outflow(e.name)][..0], a) == 0.0;
  }

  lemma {:induction false} BalanceIsZero(nodes: seq<FlowNode>, edges: seq<FlowEdge>, a: Assignment)
    requires DistinctIds(nodes)
    requires forall e :: e in edges ==> e.inNode in Ids(nodes) && e.outNode in Ids(nodes)
    ensures BalanceTotal(nodes, edges, a) == 0.0
  {
    if edges == [] {
      NoEdgesNoBalance(nodes, a);
    } else {
      var front, e := edges[..|edges| - 1], edges[|edges| - 1];
      assert edges == front + [e];
      BalanceIsZero(nodes, front, a);
      BalanceOfNewEdge(nodes, front, e, a);
    }
  }

  lemma {:induction false} NoEdgesNoBalance(nodes: seq<FlowNode>, a: Assignment)
    ensures BalanceTotal(nodes, [], a) == 0.0
  {
    if nodes != [] {
      NoEdgesNoBalance(nodes[1..], a);
    }
  }

  lemma {:induction false} NetIsBalance(nodes: seq<FlowNode>, edges: seq<FlowEdge>, a: Assignment)
    requires forall n :: n in nodes ==> NodeHolds(n, a) && n.edgeFlows == TermsFor(edges, n.id)
    ensures NetTotal(nodes, a) == BalanceTotal(nodes, edges, a)
  {
    if nodes != [] {
      assert nodes[0] in nodes;
      NetIsBalance(nodes[1..], edges, a);
    }
  }

  // Whatever flows in at the source flows out at the sinks
  lemma Conservation(nodes: seq<FlowNode>, edges: seq<FlowEdge>, a: Assignment)
    requires Wired(nodes, edges) && Balanced(nodes, a)
    ensures NetTotal(nodes, a) == 0.0
  {
    NetIsBalance(nodes, edges, a);
    BalanceIsZero(nodes, edges, a);
  }

  // ---------- the max-min objective ----------

  // m is a value the solver may report: no sink receives less
  predicate Achieves(nodes: seq<FlowNode>, sinks: set<Node>, a: Assignment, m: real) {
    forall n :: n in nodes && n.id in sinks ==> m <= -NetFlow(n, a)
  }

  function SourceShare(nodes: seq<FlowNode>, source: Node, a: Assignment): real {
    if nodes == [] then 0.0
    else if nodes[0].id == source then NetFlow(nodes[0], a)
    else SourceShare(nodes[1..], source, a)
  }

  // m, k times over
  function Times(m: real, k: nat): real {
    if k == 0 then 0.0 else Times(m, k - 1) + m
  }

  lemma {:induction false} TimesIsProduct(m: real, k: nat)
    ensures Times(m, k) == m * k as real
  {
    if k > 0 {
      TimesIsProduct(m, k - 1);
      assert m * (k - 1) as real + m == m * k as real;
    }
  }

  predicate PaysFor(x: real, m: real, k: nat) {
    x >= m * k as real
  }

  lemma AsProduct(x: real, m: real, k: nat)
    requires x >= Times(m, k)
    ensures PaysFor(x, m, k)
  {
    TimesIsProduct(m, k);
  }

  function SinkCount(nodes: seq<FlowNode>, sinks: set<Node>): nat {
    if nodes == [] then 0 else (if nodes[0].id in sinks then 1 else 0) + SinkCount(nodes[1..], sinks)
  }

  lemma {:induction false} SinkCountIs(nodes: seq<FlowNode>, sinks: set<Node>)
    requires DistinctIds(nodes)
    ensures SinkCount(nodes, sinks) == |sinks * Ids(nodes)|
  {
    if nodes == [] {
      assert sinks * Ids(nodes) == {};
    } else {
      var n, rest := nodes[0], nodes[1..];
      SinkCountIs(rest, sinks);
      IdsOfRest(nodes);
      if n.id in sinks {
        assert sinks * Ids(nodes) == sinks * Ids(rest) + {n.id};
      } else {
        assert sinks * Ids(nodes) == sinks * Ids(rest);
      }
    }
  }

  lemma IdsOfRest(nodes: seq<FlowNode>)
    requires nodes != []
    ensures Ids(nodes) == {nodes[0].id} + Ids(nodes[1..])
    ensures DistinctIds(nodes) ==> nodes[0].id !in Ids(nodes[1..]) && DistinctIds(nodes[1..])
  {
    IdsAre(nodes);
    IdsAre(nodes[1..]);
    assert forall n :: n in nodes <==> n == nodes[0] || n in nodes[1..];
  }

  lemma {:induction false} NetTotalBound(nodes: seq<FlowNode>, source: Node, sinks: set<Node>, a: Assignment, m: real)
    requires DistinctIds(nodes) && source !in sinks && Achieves(nodes, sinks, a, m)
    requires forall n :: n in nodes && n.hasNetFlow ==> n.id == source || n.id in sinks
    ensures NetTotal(nodes, a) <= SourceShare(nodes, source, a) - Times(m, SinkCount(nodes, sinks))
  {
    if nodes != [] {
      var n, rest := nodes[0], nodes[1..];
      NetTotalBound(rest, source, sinks, a, m);
      IdsOfRest(nodes);
      assert n in nodes;
      if n.id == source {
        NoSource(rest, source, a);
      }
    }
  }

  lemma {:induction false} NoSource(nodes: seq<FlowNode>, source: Node, a: Assignment)
    requires source !in Ids(nodes)
    ensures SourceShare(nodes, source, a) == 0.0
  {
    if nodes != [] {
      IdsOfRest(nodes);
      NoSource(nodes[1..], source, a);
    }
  }

  lemma {:induction false} SourceShareIs(nodes: seq<FlowNode>, n: FlowNode, a: Assignment)
    requires DistinctIds(nodes) && n in nodes
    ensures SourceShare(nodes, n.id, a) == NetFlow(n, a)
  {
    if nodes[0] != n {
      SourceShareIs(nodes[1..], n, a);
    }
  }

  lemma BalancedSourceFeeds(nodes: seq<FlowNode>, source: FlowNode, sinks: set<Node>, a: Assignment, m: real)
    requires DistinctIds(nodes) && NetTotal(nodes, a) == 0.0 && Achieves(nodes, sinks, a, m)
    requires source in nodes && sinks <= Ids(nodes) && source.id !in sinks
    requires forall n :: n in nodes && n.hasNetFlow ==> n.id == source.id || n.id in sinks
    ensures NetFlow(source, a) >= Times(m, |sinks|)
  {
    NetTotalBound(nodes, source.id, sinks, a, m);
    SourceShareIs(nodes, source, a);
    SinkCountIs(nodes, sinks);
    assert sinks * Ids(nodes) == sinks;
  }

  // To give every sink m, the source must inject m for each of them
  lemma SourceFeedsAllSinks(nodes: seq<FlowNode>, edges: seq<FlowEdge>, source: FlowNode, sinks: set<Node>,
                            a: Assignment, m: real)
    requires Wired(nodes, edges) && Balanced(nodes, a) && Achieves(nodes, sinks, a, m)
    requires source in nodes && sinks <= Ids(nodes) && source.id !in sinks
    requires forall n :: n in nodes && n.hasNetFlow ==> n.id == source.id || n.id in sinks
    ensures PaysFor(NetFlow(source, a), m, |sinks|)
  {
    Conservation(nodes, edges, a);
    BalancedSourceFeeds(nodes, source, sinks, a, m);
    AsProduct(NetFlow(source, a), m, |sinks|);
  }

  // ---------- building the network ----------

  datatype LinkAttr = LinkAttr(name: Option<string>, wireless: bool)

  function NetIds(nodes: seq<FlowNode>): set<Node> {
    if nodes == [] then {}
    else NetIds(nodes[..|nodes| - 1]) + if nodes[|nodes| - 1].hasNetFlow then {nodes[|nodes| - 1].id} else {}
  }

  lemma {:induction false} NetIdsAre(nodes: seq<FlowNode>)
    ensures forall x :: x in NetIds(nodes) <==> exists n :: n in nodes && n.id == x && n.hasNetFlow
  {
    if nodes != [] {
      var front, last := nodes[..|nodes| - 1], nodes[|nodes| - 1];
      NetIdsAre(front);
      assert nodes == front + [last];
    }
  }

  function Names(edges: seq<FlowEdge>): set<string> {
    set e | e in edges :: e.name
  }

  function EdgeName(name: Option<string>, inNode: Node, outNode: Node): string {
    if name.Some? then name.value else inNode + "-" + outNode
  }

  // The edge of a hop: only wireless edges share time, and they have a capacity of their own
  function HopEdge(attr: LinkAttr, tx: Node, rx: Node, wirelessCapacity: real, wiredCapacity: real): FlowEdge {
    FlowEdge(EdgeName(attr.name, tx, rx), if attr.wireless then wirelessCapacity else wiredCapacity,
             tx, rx, attr.wireless)
  }

  // Every edge is that of a hop along a link
  predicate AllHops(edges: seq<FlowEdge>, attrs: map<Edge, LinkAttr>, wirelessCapacity: real, wiredCapacity: real) {
    forall e :: e in edges ==>
      {e.inNode, e.outNode} in attrs
      && e == HopEdge(attrs[{e.inNode, e.outNode}], e.inNode, e.outNode, wirelessCapacity, wiredCapacity)
  }

  // Every hop of a path has an edge of its name
  predicate PathKnown(edges: seq<FlowEdge>, attrs: map<Edge, LinkAttr>, path: seq<Node>) {
    forall i :: 0 <= i < |path| - 1 ==>
      {path[i], path[i + 1]} in attrs
      && EdgeName(attrs[{path[i], path[i + 1]}].name, path[i], path[i + 1]) in Names(edges)
  }

  lemma PathStaysKnown(edges: seq<FlowEdge>, more: seq<FlowEdge>, attrs: map<Edge, LinkAttr>, path: seq<Node>)
    requires edges <= more && PathKnown(edges, attrs, path)
    ensures PathKnown(more, attrs, path)
  {
    assert Names(edges) <= Names(more);
  }

  function Attach(n: FlowNode, e: FlowEdge): FlowNode {
    n.(edgeFlows := n.edgeFlows + OwnTerms(e, n.id),
       edgeTimes := n.edgeTimes + OwnTimes(e, n.id),
       shareTime := n.shareTime || OwnTimes(e, n.id) != [])
  }

  function AttachAll(nodes: seq<FlowNode>, e: FlowEdge): seq<FlowNode> {
    seq(|nodes|, i requires 0 <= i < |nodes| => Attach(nodes[i], e))
  }

  lemma {:induction false} UntouchedHasNoTerms(edges: seq<FlowEdge>, id: Node)
    requires forall e :: e in edges ==> e.inNode != id && e.outNode != id
    ensures TermsFor(edges, id) == [] && TimesFor(edges, id) == []
  {
    if edges != [] {
      UntouchedHasNoTerms(edges[..|edges| - 1], id);
      assert edges[|edges| - 1] in edges;
    }
  }

  lemma IdsOfAppend(nodes: seq<FlowNode>, n: FlowNode)
    ensures Ids(nodes + [n]) == Ids(nodes) + {n.id}
    ensures NetIds(nodes + [n]) == NetIds(nodes) + if n.hasNetFlow then {n.id} else {}
  {
    assert (nodes + [n])[..|nodes|] == nodes;
  }

  lemma NewNodeWired(nodes: seq<FlowNode>, edges: seq<FlowEdge>, id: Node, netFlow: bool)
    requires Wired(nodes, edges) && id !in Ids(nodes)
    ensures Wired(nodes + [FlowNode(id, netFlow, false, [], [])], edges)
  {
    var n := FlowNode(id, netFlow, false, [], []);
    IdsOfAppend(nodes, n);
    forall e | e in edges ensures e.inNode != id && e.outNode != id {
    }
    UntouchedHasNoTerms(edges, id);
    IdsAre(nodes);
  }

  lemma {:induction false} AttachKeepsIds(nodes: seq<FlowNode>, e: FlowEdge)
    ensures Ids(AttachAll(nodes, e)) == Ids(nodes) && NetIds(AttachAll(nodes, e)) == NetIds(nodes)
  {
    if nodes != [] {
      var front := nodes[..|nodes| - 1];
      AttachKeepsIds(front, e);
      assert AttachAll(nodes, e)[..|nodes| - 1] == AttachAll(front, e);
    }
  }

  lemma AttachWired(n: FlowNode, edges: seq<FlowEdge>, e: FlowEdge)
    requires n.edgeFlows == TermsFor(edges, n.id) && n.edgeTimes == TimesFor(edges, n.id)
    requires n.shareTime <==> n.edgeTimes != []
    ensures var after := Attach(n, e);
            && after.edgeFlows == TermsFor(edges + [e], n.id) && after.edgeTimes == TimesFor(edges + [e], n.id)
            && (after.shareTime <==> after.edgeTimes != [])
  {
    assert (edges + [e])[..|edges|] == edges;
  }

  lemma NewNameDiffers(edges: seq<FlowEdge>, e: FlowEdge)
    requires DistinctEdges(edges) && e.name !in Names(edges)
    ensures DistinctEdges(edges + [e])
  {
    forall i | 0 <= i < |edges| ensures edges[i].name != e.name {
      assert edges[i] in edges;
    }
  }

  lemma NewEdgeWired(nodes: seq<FlowNode>, edges: seq<FlowEdge>, e: FlowEdge)
    requires Wired(nodes, edges) && e.inNode in Ids(nodes) && e.outNode in Ids(nodes) && e.name !in Names(edges)
    ensures Wired(AttachAll(nodes, e), edges + [e])
  {
    NewNameDiffers(edges, e);
    AttachKeepsIds(nodes, e);
    var after := AttachAll(nodes, e);
    forall n | n in after
      ensures n.edgeFlows == TermsFor(edges + [e], n.id) && n.edgeTimes == TimesFor(edges + [e], n.id)
      ensures n.shareTime <==> n.edgeTimes != []
    {
      var i :| 0 <= i < |after| && after[i] == n;
      assert nodes[i] in nodes;
      AttachWired(nodes[i], edges, e);
    }
  }

  class FlowGraph {
    var nodes: seq<FlowNode>
    var edges: seq<FlowEdge>

    ghost predicate Valid()
      reads this
    {
      Wired(nodes, edges)
    }

    constructor ()
      ensures Valid() && nodes == [] && edges == []
    {
      nodes, edges := [], [];
    }

    // A node that is there already keeps whatever kind of net flow it has
    method AddNode(id: Node, netFlow: bool)
      requires Valid()
      modifies this
      ensures Valid() && edges == old(edges)
      ensures nodes == if id in Ids(old(nodes)) then old(nodes) else old(nodes) + [FlowNode(id, netFlow, false, [], [])]
      ensures Ids(nodes) == Ids(old(nodes)) + {id}
      ensures NetIds(nodes) == NetIds(old(nodes)) + if netFlow && id !in Ids(old(nodes)) then {id} else {}
    {
      if id !in Ids(nodes) {
        NewNodeWired(nodes, edges, id, netFlow);
        IdsOfAppend(nodes, FlowNode(id, netFlow, false, [], []));
        nodes := nodes + [FlowNode(id, netFlow, false, [], [])];
      }
    }

    method AddEdge(capacity: real, inNode: Node, outNode: Node, name: Option<string>, shareTime: bool)
      requires Valid()
      modifies this
      ensures Valid() && NetIds(nodes) == NetIds(old(nodes))
      ensures var key := EdgeName(name, inNode, outNode);
              if key in Names(old(edges)) then edges == old(edges) && nodes == old(nodes)
              else edges == old(edges) + [FlowEdge(key, capacity, inNode, outNode, shareTime)]
                   && Ids(nodes) == Ids(old(nodes)) + {inNode, outNode}
    {
      var key := EdgeName(name, inNode, outNode);
      if key !in Names(edges) {
        AddNode(inNode, false);
        AddNode(outNode, false);
        var edge := FlowEdge(key, capacity, inNode, outNode, shareTime);
        ghost var ids := Ids(nodes);
        assert inNode in ids && outNode in ids;
        NewEdgeWired(nodes, edges, edge);
        AttachKeepsIds(nodes, edge);
        nodes, edges := AttachAll(nodes, edge), edges + [edge];
        assert Ids(nodes) == ids;
      }
    }
  }

  // ---------- the estimate ----------

  // nx.shortest_path from the source, over edges that the graph has
  predicate PathsFit(paths: map<Node, seq<Node>>, attrs: map<Edge, LinkAttr>) {
    forall cn :: cn in paths ==>
      && paths[cn] != [] && paths[cn][0] == SOURCE && paths[cn][|paths[cn]| - 1] == cn
      && forall i :: 0 <= i < |paths[cn]| - 1 ==> Adjacent(attrs.Keys, paths[cn][i], paths[cn][i + 1])
  }

  function OnPath(p: seq<Node>): set<Node> {
    set x | x in p
  }

  // The nodes of the network once the CNs visited so far have been handled
  function Covered(paths: map<Node, seq<Node>>, visited: seq<Node>): set<Node> {
    if visited == [] then {SOURCE}
    else
      var cn := visited[|visited| - 1];
      Covered(paths, visited[..|visited| - 1]) + if cn in paths then OnPath(paths[cn]) else {}
  }

  function Sinks(paths: map<Node, seq<Node>>, visited: seq<Node>): set<Node> {
    set cn | cn in visited && cn in paths
  }

  // The nodes whose net flow is a variable: the source, and each sink that no path of an earlier
  // sink runs through
  function Variable(paths: map<Node, seq<Node>>, visited: seq<Node>): set<Node> {
    if visited == [] then {SOURCE}
    else
      var cn, before := visited[|visited| - 1], visited[..|visited| - 1];
      Variable(paths, before) + if cn in paths && cn !in Covered(paths, before) then {cn} else {}
  }

  // The network for the CNs visited: its nodes, its variables and its edges
  ghost predicate Built(nodes: seq<FlowNode>, edges: seq<FlowEdge>, attrs: map<Edge, LinkAttr>,
                        paths: map<Node, seq<Node>>, cns: seq<Node>, wirelessCapacity: real, wiredCapacity: real) {
    && Wired(nodes, edges) && Ids(nodes) == Covered(paths, cns) && NetIds(nodes) == Variable(paths, cns)
    && AllHops(edges, attrs, wirelessCapacity, wiredCapacity)
    && (forall cn :: cn in Sinks(paths, cns) ==> PathKnown(edges, attrs, paths[cn]))
    && OnPaths(edges, paths, Sinks(paths, cns))
  }

  predicate IsHopOf(e: FlowEdge, path: seq<Node>) {
    exists i :: 0 <= i < |path| - 1 && path[i] == e.inNode && path[i + 1] == e.outNode
  }

  // No edge is there but the hops of the paths to the sinks
  ghost predicate OnPaths(edges: seq<FlowEdge>, paths: map<Node, seq<Node>>, sinks: set<Node>) {
    forall e :: e in edges ==> exists cn :: cn in sinks && cn in paths && IsHopOf(e, paths[cn])
  }

  lemma OnMorePaths(before: seq<FlowEdge>, after: seq<FlowEdge>, paths: map<Node, seq<Node>>, sinks: set<Node>,
                    cn: Node)
    requires OnPaths(before, paths, sinks) && cn in paths
    requires forall e :: e in after && e !in before ==> IsHopOf(e, paths[cn])
    ensures OnPaths(after, paths, sinks + {cn})
  {
    forall e | e in after ensures exists c :: c in sinks + {cn} && c in paths && IsHopOf(e, paths[c]) {
      if e in before {
        var c :| c in sinks && c in paths && IsHopOf(e, paths[c]);
        assert c in sinks + {cn};
      } else {
        assert cn in sinks + {cn};
      }
    }
  }

  method EstimateCapacity(attrs: map<Edge, LinkAttr>, paths: map<Node, seq<Node>>, cns: seq<Node>,
                          wirelessCapacity: real, wiredCapacity: real)
    returns (flowGraph: FlowGraph, sinks: set<Node>)
    requires PathsFit(paths, attrs)
    ensures fresh(flowGraph) && sinks == Sinks(paths, cns)
    ensures Built(flowGraph.nodes, flowGraph.edges, attrs, paths, cns, wirelessCapacity, wiredCapacity)
  {
    flowGraph := new FlowGraph();
    sinks := {};
    flowGraph.AddNode(SOURCE, true);
    for k := 0 to |cns|
      invariant fresh(flowGraph) && flowGraph.Valid()
      invariant sinks == Sinks(paths, cns[..k])
      invariant Ids(flowGraph.nodes) == Covered(paths, cns[..k])
      invariant NetIds(flowGraph.nodes) == Variable(paths, cns[..k])
      invariant AllHops(flowGraph.edges, attrs, wirelessCapacity, wiredCapacity)
      invariant forall cn :: cn in sinks ==> cn in paths && PathKnown(flowGraph.edges, attrs, paths[cn])
      invariant OnPaths(flowGraph.edges, paths, sinks)
    {
      SinksStep(paths, cns, k);
      VisitStep(paths, cns, k);
      if cns[k] in paths {
        sinks := sinks + {cns[k]};
        SourceCovered(paths, cns[..k]);
        SinkPath(paths, attrs, cns[k]);
        ghost var before := flowGraph.edges;
        AddSink(flowGraph, attrs, cns[k], paths[cns[k]], wirelessCapacity, wiredCapacity);
        PathsStayKnown(before, flowGraph.edges, attrs, paths, Sinks(paths, cns[..k]));
        OnMorePaths(before, flowGraph.edges, paths, Sinks(paths, cns[..k]), cns[k]);
      }
    }
    assert cns[..|cns|] == cns;
  }

  lemma PathsStayKnown(edges: seq<FlowEdge>, more: seq<FlowEdge>, attrs: map<Edge, LinkAttr>,
                       paths: map<Node, seq<Node>>, sinks: set<Node>)
    requires edges <= more && forall cn :: cn in sinks ==> cn in paths && PathKnown(edges, attrs, paths[cn])
    ensures forall cn :: cn in sinks ==> cn in paths && PathKnown(more, attrs, paths[cn])
  {
    forall cn | cn in sinks ensures PathKnown(more, attrs, paths[cn]) {
      PathStaysKnown(edges, more, attrs, paths[cn]);
    }
  }

  lemma SinksStep(paths: map<Node, seq<Node>>, cns: seq<Node>, k: nat)
    requires k < |cns|
    ensures Sinks(paths, cns[..k + 1]) == Sinks(paths, cns[..k]) + if cns[k] in paths then {cns[k]} else {}
  {
    assert cns[..k + 1] == cns[..k] + [cns[k]];
  }

  lemma VisitStep(paths: map<Node, seq<Node>>, cns: seq<Node>, k: nat)
    requires k < |cns|
    ensures var cn, before, after := cns[k], cns[..k], cns[..k + 1];
            && Covered(paths, after) == Covered(paths, before) + (if cn in paths then OnPath(paths[cn]) else {})
            && Variable(paths, after)
               == Variable(paths, before) + if cn in paths && cn !in Covered(paths, before) then {cn} else {}
  {
    assert cns[..k + 1][..k] == cns[..k];
  }

  // What PathsFit says of one path
  lemma SinkPath(paths: map<Node, seq<Node>>, attrs: map<Edge, LinkAttr>, cn: Node)
    requires PathsFit(paths, attrs) && cn in paths
    ensures paths[cn] != [] && paths[cn][0] == SOURCE && paths[cn][|paths[cn]| - 1] == cn
    ensures forall i :: 0 <= i < |paths[cn]| - 1 ==> Adjacent(attrs.Keys, paths[cn][i], paths[cn][i + 1])
  {
  }

  // One CN with its path
  method AddSink(flowGraph: FlowGraph, attrs: map<Edge, LinkAttr>, cn: Node, path: seq<Node>,
                 wirelessCapacity: real, wiredCapacity: real)
    requires flowGraph.Valid() && AllHops(flowGraph.edges, attrs, wirelessCapacity, wiredCapacity)
    requires path != [] && path[|path| - 1] == cn
    requires path[0] in Ids(flowGraph.nodes)
    requires forall i :: 0 <= i < |path| - 1 ==> Adjacent(attrs.Keys, path[i], path[i + 1])
    modifies flowGraph
    ensures flowGraph.Valid()
    ensures Ids(flowGraph.nodes) == Ids(old(flowGraph.nodes)) + OnPath(path)
    ensures NetIds(flowGraph.nodes)
            == NetIds(old(flowGraph.nodes)) + if cn !in Ids(old(flowGraph.nodes)) then {cn} else {}
    ensures old(flowGraph.edges) <= flowGraph.edges && PathKnown(flowGraph.edges, attrs, path)
    ensures AllHops(flowGraph.edges, attrs, wirelessCapacity, wiredCapacity)
    ensures forall e :: e in flowGraph.edges && e !in old(flowGraph.edges) ==> IsHopOf(e, path)
  {
    flowGraph.AddNode(cn, true);
    assert cn in OnPath(path);
    AddHops(flowGraph, attrs, path, wirelessCapacity, wiredCapacity);
  }

  method AddHops(flowGraph: FlowGraph, attrs: map<Edge, LinkAttr>, path: seq<Node>,
                 wirelessCapacity: real, wiredCapacity: real)
    requires flowGraph.Valid() && AllHops(flowGraph.edges, attrs, wirelessCapacity, wiredCapacity) && path != []
    requires path[0] in Ids(flowGraph.nodes)
    requires forall i :: 0 <= i < |path| - 1 ==> Adjacent(attrs.Keys, path[i], path[i + 1])
    modifies flowGraph
    ensures flowGraph.Valid()
    ensures Ids(flowGraph.nodes) == Ids(old(flowGraph.nodes)) + OnPath(path)
    ensures NetIds(flowGraph.nodes) == NetIds(old(flowGraph.nodes))
    ensures old(flowGraph.edges) <= flowGraph.edges && PathKnown(flowGraph.edges, attrs, path)
    ensures AllHops(flowGraph.edges, attrs, wirelessCapacity, wiredCapacity)
    ensures forall e :: e in flowGraph.edges && e !in old(flowGraph.edges) ==> IsHopOf(e, path)
  {
    ghost var ids, netIds := Ids(flowGraph.nodes), NetIds(flowGraph.nodes);
    assert ids == ids + OnPath(path[..1]);
    for i := 0 to |path| - 1
      invariant flowGraph.Valid()
      invariant Ids(flowGraph.nodes) == ids + OnPath(path[..i + 1])
      invariant NetIds(flowGraph.nodes) == netIds
      invariant old(flowGraph.edges) <= flowGraph.edges && PathKnown(flowGraph.edges, attrs, path[..i + 1])
      invariant AllHops(flowGraph.edges, attrs, wirelessCapacity, wiredCapacity)
      invariant forall e :: e in flowGraph.edges && e !in old(flowGraph.edges) ==> IsHopOf(e, path)
    {
      OnPathStep(path, i);
      assert Adjacent(attrs.Keys, path[i], path[i + 1]);
      AddPathHop(flowGraph, attrs, path, i, wirelessCapacity, wiredCapacity);
    }
    assert path[..|path|] == path;
  }

  // The i-th hop of a path whose earlier hops are there
  method AddPathHop(flowGraph: FlowGraph, attrs: map<Edge, LinkAttr>, path: seq<Node>, i: nat,
                    wirelessCapacity: real, wiredCapacity: real)
    requires flowGraph.Valid() && i + 1 < |path| && {path[i], path[i + 1]} in attrs
    requires AllHops(flowGraph.edges, attrs, wirelessCapacity, wiredCapacity)
    requires PathKnown(flowGraph.edges, attrs, path[..i + 1])
    modifies flowGraph
    ensures flowGraph.Valid()
    ensures Ids(flowGraph.nodes) == Ids(old(flowGraph.nodes)) + {path[i], path[i + 1]}
    ensures NetIds(flowGraph.nodes) == NetIds(old(flowGraph.nodes))
    ensures old(flowGraph.edges) <= flowGraph.edges && PathKnown(flowGraph.edges, attrs, path[..i + 2])
    ensures AllHops(flowGraph.edges, attrs, wirelessCapacity, wiredCapacity)
    ensures forall e :: e in flowGraph.edges && e !in old(flowGraph.edges) ==> IsHopOf(e, path)
  {
    ghost var before := flowGraph.edges;
    AddHop(flowGraph, attrs[{path[i], path[i + 1]}], path[i], path[i + 1], wirelessCapacity, wiredCapacity);
    HopAdded(before, flowGraph.edges, attrs, path, i, wirelessCapacity, wiredCapacity);
  }

  lemma HopAdded(before: seq<FlowEdge>, after: seq<FlowEdge>, attrs: map<Edge, LinkAttr>, path: seq<Node>, i: nat,
                 wirelessCapacity: real, wiredCapacity: real)
    requires i + 1 < |path| && {path[i], path[i + 1]} in attrs && PathKnown(before, attrs, path[..i + 1])
    requires AllHops(before, attrs, wirelessCapacity, wiredCapacity)
    requires var e := HopEdge(attrs[{path[i], path[i + 1]}], path[i], path[i + 1], wirelessCapacity, wiredCapacity);
             after == if e.name in Names(before) then before else before + [e]
    ensures before <= after && PathKnown(after, attrs, path[..i + 2])
    ensures AllHops(after, attrs, wirelessCapacity, wiredCapacity)
    ensures forall e :: e in after && e !in before ==> IsHopOf(e, path)
  {
    var e := HopEdge(attrs[{path[i], path[i + 1]}], path[i], path[i + 1], wirelessCapacity, wiredCapacity);
    PathStaysKnown(before, after, attrs, path[..i + 1]);
    assert e.name in Names(before) || e in after;
    forall j | 0 <= j < i + 1
      ensures {path[j], path[j + 1]} in attrs
      ensures EdgeName(attrs[{path[j], path[j + 1]}].name, path[j], path[j + 1]) in Names(after)
    {
      if j < i {
        assert path[..i + 1][j] == path[j] && path[..i + 1][j + 1] == path[j + 1];
      }
    }
  }

  lemma OnPathStep(path: seq<Node>, i: nat)
    requires i + 1 < |path|
    ensures OnPath(path[..i + 2]) == OnPath(path[..i + 1]) + {path[i], path[i + 1]}
  {
    assert path[..i + 2] == path[..i + 1] + [path[i + 1]];
    assert path[i] in path[..i + 1];
  }

  method AddRelay(flowGraph: FlowGraph, id: Node)
    requires flowGraph.Valid()
    modifies flowGraph
    ensures flowGraph.Valid() && flowGraph.edges == old(flowGraph.edges)
    ensures Ids(flowGraph.nodes) == Ids(old(flowGraph.nodes)) + {id}
    ensures NetIds(flowGraph.nodes) == NetIds(old(flowGraph.nodes))
  {
    flowGraph.AddNode(id, false);
  }

  method AddHop(flowGraph: FlowGraph, linkAttr: LinkAttr, txNode: Node, rxNode: Node,
                wirelessCapacity: real, wiredCapacity: real)
    requires flowGraph.Valid()
    modifies flowGraph
    ensures flowGraph.Valid()
    ensures Ids(flowGraph.nodes) == Ids(old(flowGraph.nodes)) + {txNode, rxNode}
    ensures NetIds(flowGraph.nodes) == NetIds(old(flowGraph.nodes))
    ensures var e := HopEdge(linkAttr, txNode, rxNode, wirelessCapacity, wiredCapacity);
            flowGraph.edges == if e.name in Names(old(flowGraph.edges)) then old(flowGraph.edges)
                               else old(flowGraph.edges) + [e]
  {
    ghost var ids := Ids(flowGraph.nodes);
    AddRelay(flowGraph, txNode);
    AddRelay(flowGraph, rxNode);
    assert Ids(flowGraph.nodes) == ids + {txNode, rxNode};
    flowGraph.AddEdge(if linkAttr.wireless then wirelessCapacity else wiredCapacity,
                      txNode, rxNode, linkAttr.name, linkAttr.wireless);
  }

  // ---------- what the estimate can be ----------

  predicate OnPathOf(paths: map<Node, seq<Node>>, visited: seq<Node>, x: Node) {
    exists j :: 0 <= j < |visited| && visited[j] in paths && x in paths[visited[j]]
  }

  predicate RelaysEarlier(paths: map<Node, seq<Node>>, cns: seq<Node>, k: nat)
    requires k < |cns|
  {
    OnPathOf(paths, cns[..k], cns[k])
  }

  // A sink has a net-flow variable exactly when it relays for no CN visited before it
  lemma {:induction false} VariableExact(paths: map<Node, seq<Node>>, cns: seq<Node>, k: nat)
    requires Distinct(cns) && SOURCE !in cns && k < |cns| && cns[k] in paths
    ensures cns[k] in Variable(paths, cns) <==> !RelaysEarlier(paths, cns, k)
  {
    var before := cns[..|cns| - 1];
    if k == |cns| - 1 {
      CoveredIs(paths, before, cns[k]);
      VariableWithin(paths, before);
    } else {
      VariableExact(paths, before, k);
      assert before[..k] == cns[..k];
    }
  }

  lemma {:induction false} CoveredIs(paths: map<Node, seq<Node>>, visited: seq<Node>, x: Node)
    ensures x in Covered(paths, visited)
            <==> x == SOURCE || OnPathOf(paths, visited, x)
  {
    if visited != [] {
      var before := visited[..|visited| - 1];
      CoveredIs(paths, before, x);
      var cn := visited[|visited| - 1];
      if cn in paths && x in paths[cn] {
        assert 0 <= |visited| - 1 < |visited| && visited[|visited| - 1] in paths;
      }
      if j :| 0 <= j < |visited| && visited[j] in paths && x in paths[visited[j]] {
        assert j < |before| ==> before[j] == visited[j];
      }
      if j :| 0 <= j < |before| && before[j] in paths && x in paths[before[j]] {
        assert visited[j] == before[j];
      }
    }
  }

  lemma {:induction false} VariableWithin(paths: map<Node, seq<Node>>, visited: seq<Node>)
    ensures Variable(paths, visited) <= {SOURCE} + Sinks(paths, visited)
  {
    if visited != [] {
      var before := visited[..|visited| - 1];
      VariableWithin(paths, before);
      assert Sinks(paths, before) <= Sinks(paths, visited);
    }
  }

  // If one does, nothing above zero can be reported, whatever the capacities are
  lemma RelayForcesZero(nodes: seq<FlowNode>, edges: seq<FlowEdge>, paths: map<Node, seq<Node>>, cns: seq<Node>,
                        k: nat, a: Assignment, m: real)
    requires Distinct(cns) && SOURCE !in cns && k < |cns| && cns[k] in paths && RelaysEarlier(paths, cns, k)
    requires Ids(nodes) == Covered(paths, cns) && NetIds(nodes) == Variable(paths, cns)
    requires Feasible(nodes, edges, a) && Achieves(nodes, Sinks(paths, cns), a, m)
    ensures m <= 0.0
  {
    CoveredIs(paths, cns, cns[k]);
    VariableExact(paths, cns, k);
    IdsAre(nodes);
    NetIdsAre(nodes);
    var n :| n in nodes && n.id == cns[k];
    assert n.id in Sinks(paths, cns);
    assert !n.hasNetFlow;
  }

  // Any value the estimate reports is paid for by the source
  lemma EstimateBoundedBySource(nodes: seq<FlowNode>, edges: seq<FlowEdge>, paths: map<Node, seq<Node>>,
                                cns: seq<Node>, a: Assignment, m: real)
    requires SOURCE !in cns && forall cn :: cn in paths ==> paths[cn] != [] && paths[cn][|paths[cn]| - 1] == cn
    requires Wired(nodes, edges) && Ids(nodes) == Covered(paths, cns) && NetIds(nodes) == Variable(paths, cns)
    requires Balanced(nodes, a) && Achieves(nodes, Sinks(paths, cns), a, m)
    ensures exists source :: source in nodes && source.id == SOURCE
                             && PaysFor(NetFlow(source, a), m, |Sinks(paths, cns)|)
  {
    SourceCovered(paths, cns);
    IdsAre(nodes);
    NetIdsAre(nodes);
    var source :| source in nodes && source.id == SOURCE;
    VariableWithin(paths, cns);
    forall n | n in nodes && n.hasNetFlow
      ensures n.id == SOURCE || n.id in Sinks(paths, cns)
    {
      assert n.id in NetIds(nodes);
    }
    SourceFeedsAllSinks(nodes, edges, source, Sinks(paths, cns), a, m);
  }

  lemma {:induction false} SourceCovered(paths: map<Node, seq<Node>>, visited: seq<Node>)
    requires forall cn :: cn in paths ==> paths[cn] != [] && paths[cn][|paths[cn]| - 1] == cn
    ensures SOURCE in Covered(paths, visited) && Sinks(paths, visited) <= Covered(paths, visited)
  {
    if visited != [] {
      var before, cn := visited[..|visited| - 1], visited[|visited| - 1];
      SourceCovered(paths, before);
      assert visited == before + [cn];
    }
  }
}
