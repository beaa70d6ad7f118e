/**
  Analysis of edges whose loss cuts client nodes (CNs) off from the points of presence (PoPs).

  The topology graph joins every primary PoP node to a common "source" node.  networkx's
  connected_components is a parameter, described by its definition, and the list of bridges is
  fixed before the loop over it starts.
 */
module CutEdges {
  import opened Connectivity
  import opened Options

  datatype LinkType = Wireless | Ethernet

  datatype TopologyNode = TopologyNode(name: Node, popNode: bool, isPrimary: bool, isCn: bool)
  datatype TopologyLink = TopologyLink(aNode: Node, zNode: Node, linkType: LinkType)

  // The link_type attribute of every edge, if it has one
  type TypedEdges = map<Edge, Option<LinkType>>

  type ComponentFinder = (set<Node>, set<Edge>) -> seq<set<Node>>

  ghost predicate FindsComponents(finder: ComponentFinder) {
    forall nodes, edges :: IsComponentList(nodes, edges, finder(nodes, edges))
  }

  ghost predicate ReachesPop(edges: set<Edge>, pops: set<Node>, c: Node) {
    exists p :: p in pops && Connected(edges, c, p)
  }

  // What the search over components looks for once the edge is gone
  predicate IsolatedCnComponent(c: set<Node>, cns: set<Node>, pops: set<Node>, known: seq<set<Node>>) {
    c !in known && c * pops == {} && c * cns != {}
  }

  class Graph {
    var nodes: set<Node>
    var edges: TypedEdges

    ghost predicate Valid()
      reads this
    {
      WellFormed(nodes, edges.Keys)
    }

    function Pops(): set<Node>
      reads this
    {
      set n | n in nodes && Adjacent(edges.Keys, SOURCE, n)
    }

    constructor ()
      ensures nodes == {} && edges == map[]
    {
      nodes, edges := {}, map[];
    }

    method AddEdge(a: Node, z: Node, linkType: Option<LinkType>)
      modifies this
      ensures nodes == old(nodes) + {a, z}
      ensures edges == old(edges)[{a, z} := linkType]
      ensures old(Valid()) ==> Valid()
    {
      nodes := nodes + {a, z};
      edges := edges[{a, z} := linkType];
      forall x, y | Adjacent(edges.Keys, x, y)
        ensures old(Valid()) ==> x in nodes && y in nodes
      {
        assert x in {x, y} && y in {x, y};
        assert {x, y} == {a, z} || Adjacent(old(edges.Keys), x, y);
      }
    }

    method IsCnCutEdge(a: Node, z: Node, cns: set<Node>, pops: set<Node>,
                       topologyComponents: seq<set<Node>>, finder: ComponentFinder) returns (cut: bool)
      requires Valid() && {a, z} in edges
      modifies this
      ensures Valid() && nodes == old(nodes) && edges.Keys == old(edges.Keys)
      ensures forall e :: e in edges && e != {a, z} ==> edges[e] == old(edges[e])
      ensures cut <==> a in cns || z in cns
                       || exists c :: c in finder(nodes, Without(edges.Keys, a, z))
                                      && IsolatedCnComponent(c, cns, pops, topologyComponents)
    {
      assert a in {a, z} && z in {a, z};
      if {a, z} * cns != {} {
        assert a in cns || z in cns;
        return true;
      }
      assert a !in {a, z} * cns && z !in {a, z} * cns;
      edges := edges - {{a, z}};
      var connectedComponents := finder(nodes, edges.Keys);
      assert edges.Keys == Without(old(edges.Keys), a, z);
      for i := 0 to |connectedComponents|
        invariant edges == old(edges) - {{a, z}}
        invariant forall j :: 0 <= j < i ==> !IsolatedCnComponent(connectedComponents[j], cns, pops, topologyComponents)
      {
        var component := connectedComponents[i];
        if component !in topologyComponents && component * pops == {} && component * cns != {} {
          AddEdge(a, z, None);
          assert edges.Keys == old(edges.Keys) && nodes == old(nodes);
          assert component in connectedComponents;
          return true;
        }
      }
      AddEdge(a, z, None);
      assert edges.Keys == old(edges.Keys) && nodes == old(nodes);
      cut := false;
    }

    // None stands for the KeyError raised when no node is joined to the source
    method FindCnCutEdges(cns: set<Node>, bridges: seq<(Node, Node)>, finder: ComponentFinder)
      returns (cutEdges: Option<set<(Node, Node)>>)
      requires Valid() && BridgeList(edges.Keys, bridges)
      modifies this
      ensures Valid() && nodes == old(nodes) && edges.Keys == old(edges.Keys)
      ensures cutEdges.Some? <==> SOURCE in nodes
      ensures cutEdges.Some? ==>
                forall a, z :: (a, z) in cutEdges.value <==>
                  && (a, z) in bridges && WirelessEdge(old(edges), a, z)
                  && CutCriterion(nodes, edges.Keys, cns, Pops(), finder, a, z)
    {
      var topologyComponents := finder(nodes, edges.Keys);
      if SOURCE !in nodes {
        return None;
      }
      var pops := Pops();
      var found: set<(Node, Node)> := {};
      for i := 0 to |bridges|
        invariant Valid() && nodes == old(nodes) && edges.Keys == old(edges.Keys)
        invariant forall j :: i <= j < |bridges| ==>
                    var e := {bridges[j].0, bridges[j].1};
                    e in edges && edges[e] == old(edges[e])
        invariant forall a, z :: (a, z) in found <==>
                    && (a, z) in bridges[..i] && WirelessEdge(old(edges), a, z)
                    && CutCriterion(nodes, edges.Keys, cns, pops, finder, a, z)
      {
        var (a, z) := bridges[i];
        if WirelessEdge(edges, a, z) {
          var cut := IsCnCutEdge(a, z, cns, pops, topologyComponents, finder);
          if cut {
            found := found + {(a, z)};
          }
        }
      }
      assert bridges[..|bridges|] == bridges;
      cutEdges := Some(found);
    }
  }

  // ---------- building the graph ----------

  function SourceEdges(topologyNodes: seq<TopologyNode>): set<Edge> {
    set n | n in topologyNodes && n.popNode && n.isPrimary :: {SOURCE, n.name}
  }

  method AddTopologyNode(graph: Graph, node: TopologyNode)
    requires graph.Valid() && forall e :: e in graph.edges ==> graph.edges[e] == None
    modifies graph
    ensures graph.Valid() && forall e :: e in graph.edges ==> graph.edges[e] == None
    ensures var pop := node.popNode && node.isPrimary;
            && graph.nodes == old(graph.nodes) + {node.name} + (if pop then {SOURCE} else {})
            && graph.edges.Keys == old(graph.edges.Keys) + if pop then {{SOURCE, node.name}} else {}
  {
    graph.nodes := graph.nodes + {node.name};
    if node.popNode && node.isPrimary {
      graph.AddEdge(SOURCE, node.name, None);
    }
  }

  // All topology nodes, with or without links, and the source if it is joined to any
  function BaseNodes(topologyNodes: seq<TopologyNode>): set<Node> {
    if topologyNodes == [] then {}
    else
      var n := topologyNodes[|topologyNodes| - 1];
      BaseNodes(topologyNodes[..|topologyNodes| - 1]) + {n.name} + if n.popNode && n.isPrimary then {SOURCE} else {}
  }

  function LinkNodes(links: seq<TopologyLink>): set<Node> {
    if links == [] then {}
    else LinkNodes(links[..|links| - 1]) + {links[|links| - 1].aNode, links[|links| - 1].zNode}
  }

  function LinkEdges(links: seq<TopologyLink>): set<Edge> {
    set l | l in links :: {l.aNode, l.zNode}
  }

  function CnNames(topologyNodes: seq<TopologyNode>): set<Node> {
    set n | n in topologyNodes && n.isCn :: n.name
  }

  // Of parallel links the last one listed decides the type of their common edge
  function LastType(links: seq<TopologyLink>, e: Edge): Option<LinkType> {
    if links == [] then None
    else
      var l := links[|links| - 1];
      if {l.aNode, l.zNode} == e then Some(l.linkType) else LastType(links[..|links| - 1], e)
  }

  method BuildTopologyGraph(topologyNodes: seq<TopologyNode>, links: seq<TopologyLink>)
    returns (graph: Graph, cns: set<Node>)
    ensures fresh(graph) && graph.Valid() && cns <= graph.nodes
    ensures cns == CnNames(topologyNodes)
    ensures graph.nodes == BaseNodes(topologyNodes) + LinkNodes(links)
    ensures graph.edges.Keys == SourceEdges(topologyNodes) + LinkEdges(links)
    ensures forall e :: e in graph.edges ==> graph.edges[e] == LastType(links, e)
  {
    graph := new Graph();
    cns := AddTopologyNodes(graph, topologyNodes);
    AddTopologyLinks(graph, links);
  }

  // What the topology nodes alone contribute
  ghost predicate BuiltFrom(nodes: set<Node>, edges: set<Edge>, cns: set<Node>, topologyNodes: seq<TopologyNode>) {
    && nodes == BaseNodes(topologyNodes) && edges == SourceEdges(topologyNodes)
    && cns == CnNames(topologyNodes) && cns <= nodes
  }

  method AddTopologyNodes(graph: Graph, topologyNodes: seq<TopologyNode>) returns (cns: set<Node>)
    requires graph.nodes == {} && graph.edges == map[]
    modifies graph
    ensures graph.Valid() && BuiltFrom(graph.nodes, graph.edges.Keys, cns, topologyNodes)
    ensures forall e :: e in graph.edges ==> graph.edges[e] == None
  {
    cns := {};
    for i := 0 to |topologyNodes|
      invariant graph.Valid() && BuiltFrom(graph.nodes, graph.edges.Keys, cns, topologyNodes[..i])
      invariant forall e :: e in graph.edges ==> graph.edges[e] == None
    {
      var node := topologyNodes[i];
      BuiltStep(graph.nodes, graph.edges.Keys, cns, topologyNodes, i);
      AddTopologyNode(graph, node);
      if node.isCn {
        cns := cns + {node.name};
      }
    }
    assert topologyNodes[..|topologyNodes|] == topologyNodes;
  }

  lemma BuiltStep(nodes: set<Node>, edges: set<Edge>, cns: set<Node>, topologyNodes: seq<TopologyNode>, i: nat)
    requires i < |topologyNodes| && BuiltFrom(nodes, edges, cns, topologyNodes[..i])
    ensures var n := topologyNodes[i];
            var pop := n.popNode && n.isPrimary;
            BuiltFrom(nodes + {n.name} + (if pop then {SOURCE} else {}),
                      edges + (if pop then {{SOURCE, n.name}} else {}),
                      if n.isCn then cns + {n.name} else cns, topologyNodes[..i + 1])
  {
    NodesStep(topologyNodes[..i], topologyNodes[i]);
    assert topologyNodes[..i + 1] == topologyNodes[..i] + [topologyNodes[i]];
  }

  lemma NodesStep(before: seq<TopologyNode>, node: TopologyNode)
    ensures SourceEdges(before + [node])
            == SourceEdges(before) + if node.popNode && node.isPrimary then {{SOURCE, node.name}} else {}
    ensures CnNames(before + [node]) == CnNames(before) + if node.isCn then {node.name} else {}
    ensures BaseNodes(before + [node])
            == BaseNodes(before) + {node.name} + if node.popNode && node.isPrimary then {SOURCE} else {}
  {
    assert (before + [node])[..|before|] == before;
    assert forall n :: n in before + [node] <==> n in before || n == node;
  }

  method AddTopologyLinks(graph: Graph, links: seq<TopologyLink>)
    requires graph.Valid() && forall e :: e in graph.edges ==> graph.edges[e] == None
    modifies graph
    ensures graph.Valid() && graph.nodes == old(graph.nodes) + LinkNodes(links)
    ensures graph.edges.Keys == old(graph.edges.Keys) + LinkEdges(links)
    ensures forall e :: e in graph.edges ==> graph.edges[e] == LastType(links, e)
  {
    for i := 0 to |links|
      invariant graph.Valid() && graph.nodes == old(graph.nodes) + LinkNodes(links[..i])
      invariant graph.edges.Keys == old(graph.edges.Keys) + LinkEdges(links[..i])
      invariant forall e :: e in graph.edges ==> graph.edges[e] == LastType(links[..i], e)
    {
      LinksStep(links[..i], links[i]);
      assert links[..i + 1] == links[..i] + [links[i]];
      graph.AddEdge(links[i].aNode, links[i].zNode, Some(links[i].linkType));
    }
    assert links[..|links|] == links;
  }

  lemma LinksStep(before: seq<TopologyLink>, link: TopologyLink)
    ensures LinkEdges(before + [link]) == LinkEdges(before) + {{link.aNode, link.zNode}}
    ensures LinkNodes(before + [link]) == LinkNodes(before) + {link.aNode, link.zNode}
    ensures forall e :: LastType(before + [link], e)
                        == if {link.aNode, link.zNode} == e then Some(link.linkType) else LastType(before, e)
  {
    assert forall l :: l in before + [link] <==> l in before || l == link;
    assert (before + [link])[..|before|] == before;
  }

  ghost predicate BridgeList(edges: set<Edge>, bridges: seq<(Node, Node)>) {
    && (forall b :: b in bridges ==> Bridge(edges, b.0, b.1))
    && (forall a, z :: Bridge(edges, a, z) ==> (a, z) in bridges || (z, a) in bridges)
    && (forall i, j :: 0 <= i < j < |bridges| ==> {bridges[i].0, bridges[i].1} != {bridges[j].0, bridges[j].1})
  }

  predicate CutCriterion(nodes: set<Node>, edges: set<Edge>, cns: set<Node>, pops: set<Node>,
                         finder: ComponentFinder, a: Node, z: Node) {
    || a in cns || z in cns
    || exists c :: c in finder(nodes, Without(edges, a, z))
                   && IsolatedCnComponent(c, cns, pops, finder(nodes, edges))
  }

  // ---------- what the criterion means ----------

  ghost predicate WellFormed(nodes: set<Node>, edges: set<Edge>) {
    forall a, b :: Adjacent(edges, a, b) ==> a in nodes && b in nodes
  }

  // Some CN next to the edge's component ends up without a PoP
  ghost predicate Isolates(edges: set<Edge>, cns: set<Node>, pops: set<Node>, a: Node, z: Node, c: Node) {
    c in cns && Connected(edges, c, a) && !ReachesPop(Without(edges, a, z), pops, c)
  }

  // Some CN has a PoP before the edge is removed, and none after
  ghost predicate Loses(edges: set<Edge>, cns: set<Node>, pops: set<Node>, a: Node, z: Node, c: Node) {
    c in cns && ReachesPop(edges, pops, c) && !ReachesPop(Without(edges, a, z), pops, c)
  }

  // Removing an edge elsewhere changes nothing for c
  lemma UnaffectedElsewhere(edges: set<Edge>, a: Node, z: Node, c: Node, y: Node)
    requires Adjacent(edges, a, z) && !Connected(edges, c, a)
    ensures Connected(edges, c, y) <==> Connected(Without(edges, a, z), c, y)
  {
    var less := Without(edges, a, z);
    if Connected(less, c, y) {
      ConnectedMonotone(less, edges, c, y);
    } else if Connected(edges, c, y) {
      ConnectedAfterRemoval(edges, a, z, c, y);
      assert {z, a} == {a, z};
      ConnectedAdjacent(edges, z, a);
      var end := if Connected(less, c, a) then a else z;
      ConnectedMonotone(less, edges, c, end);
      if end == z {
        ConnectedTransitive(edges, c, z, a);
      }
    }
  }

  lemma SameComponent(nodes: set<Node>, edges: set<Edge>, a: Node, z: Node, c: Node)
    requires Adjacent(edges, a, z) && !Connected(edges, c, a)
    ensures Component(nodes, edges, c) == Component(nodes, Without(edges, a, z), c)
  {
    forall y | y in nodes
      ensures Connected(edges, c, y) <==> Connected(Without(edges, a, z), c, y)
    {
      UnaffectedElsewhere(edges, a, z, c, y);
    }
  }

  lemma NoPopInside(nodes: set<Node>, edges: set<Edge>, pops: set<Node>, c: Node)
    requires pops <= nodes
    ensures Component(nodes, edges, c) * pops == {} <==> !ReachesPop(edges, pops, c)
  {
    var comp := Component(nodes, edges, c);
    if ReachesPop(edges, pops, c) {
      var p :| p in pops && Connected(edges, c, p);
      assert p in comp * pops;
    }
    if comp * pops != {} {
      var p :| p in comp * pops;
      assert Connected(edges, c, p);
    }
  }

  lemma ChangedComponentIsolates(nodes: set<Node>, edges: set<Edge>, cns: set<Node>, pops: set<Node>,
                                 a: Node, z: Node, c: Node)
    requires pops <= nodes && Adjacent(edges, a, z) && c in cns
    requires Component(nodes, Without(edges, a, z), c) * pops == {}
    requires Component(nodes, Without(edges, a, z), c) != Component(nodes, edges, c)
    ensures Isolates(edges, cns, pops, a, z, c)
  {
    NoPopInside(nodes, Without(edges, a, z), pops, c);
    if !Connected(edges, c, a) {
      SameComponent(nodes, edges, a, z, c);
    }
  }

  // The component that a bridge cuts off is new
  lemma CutOffComponentIsNew(nodes: set<Node>, edges: set<Edge>, known: seq<set<Node>>, a: Node, z: Node, c: Node)
    requires WellFormed(nodes, edges) && c in nodes && Bridge(edges, a, z) && Connected(edges, c, a)
    requires IsComponentList(nodes, edges, known)
    ensures Component(nodes, Without(edges, a, z), c) !in known
  {
    var less := Without(edges, a, z);
    var comp := Component(nodes, less, c);
    ConnectedSelf(less, c);
    if comp in known {
      assert comp == Component(nodes, edges, c);
      ConnectedAdjacent(edges, a, z);
      ConnectedTransitive(edges, c, a, z);
      assert a in comp && z in comp;
      ConnectedSymmetric(less, c, a);
      ConnectedTransitive(less, a, c, z);
    }
  }

  lemma IsolatedComponentGivesCn(nodes: set<Node>, edges: set<Edge>, cns: set<Node>, pops: set<Node>,
                                 known: seq<set<Node>>, a: Node, z: Node, x: Node)
    requires pops <= nodes && Adjacent(edges, a, z) && x in nodes
    requires forall y :: y in nodes ==> Component(nodes, edges, y) in known
    requires IsolatedCnComponent(Component(nodes, Without(edges, a, z), x), cns, pops, known)
    ensures exists c :: Isolates(edges, cns, pops, a, z, c)
  {
    var c :| c in Component(nodes, Without(edges, a, z), x) * cns;
    ComponentOfMember(nodes, Without(edges, a, z), x, c);
    ChangedComponentIsolates(nodes, edges, cns, pops, a, z, c);
  }

  lemma IsolatedCnGivesComponent(nodes: set<Node>, edges: set<Edge>, cns: set<Node>, pops: set<Node>,
                                 known: seq<set<Node>>, after: seq<set<Node>>, a: Node, z: Node, c: Node)
    requires WellFormed(nodes, edges) && cns <= nodes && pops <= nodes && Bridge(edges, a, z)
    requires IsComponentList(nodes, edges, known)
    requires forall x :: x in nodes ==> Component(nodes, Without(edges, a, z), x) in after
    requires Isolates(edges, cns, pops, a, z, c)
    ensures exists comp :: comp in after && IsolatedCnComponent(comp, cns, pops, known)
  {
    var comp := Component(nodes, Without(edges, a, z), c);
    CutOffComponentIsNew(nodes, edges, known, a, z, c);
    NoPopInside(nodes, Without(edges, a, z), pops, c);
    ConnectedSelf(Without(edges, a, z), c);
    assert c in comp * cns && comp in after;
    assert IsolatedCnComponent(comp, cns, pops, known);
  }

  lemma FoundComponentGivesCn(nodes: set<Node>, edges: set<Edge>, cns: set<Node>, pops: set<Node>,
                              finder: ComponentFinder, a: Node, z: Node, comp: set<Node>)
    requires FindsComponents(finder) && pops <= nodes && Adjacent(edges, a, z)
    requires comp in finder(nodes, Without(edges, a, z)) && IsolatedCnComponent(comp, cns, pops, finder(nodes, edges))
    ensures exists c :: Isolates(edges, cns, pops, a, z, c)
  {
    var less := Without(edges, a, z);
    assert IsComponentList(nodes, edges, finder(nodes, edges)) && IsComponentList(nodes, less, finder(nodes, less));
    var x :| x in comp;
    assert comp == Component(nodes, less, x);
    IsolatedComponentGivesCn(nodes, edges, cns, pops, finder(nodes, edges), a, z, x);
  }

  lemma IsolatedCnIsFound(nodes: set<Node>, edges: set<Edge>, cns: set<Node>, pops: set<Node>,
                          finder: ComponentFinder, a: Node, z: Node, c: Node)
    requires FindsComponents(finder) && WellFormed(nodes, edges) && cns <= nodes && pops <= nodes
    requires Bridge(edges, a, z) && Isolates(edges, cns, pops, a, z, c)
    ensures exists comp :: comp in finder(nodes, Without(edges, a, z))
                           && IsolatedCnComponent(comp, cns, pops, finder(nodes, edges))
  {
    var less := Without(edges, a, z);
    assert IsComponentList(nodes, edges, finder(nodes, edges)) && IsComponentList(nodes, less, finder(nodes, less));
    IsolatedCnGivesComponent(nodes, edges, cns, pops, finder(nodes, edges), finder(nodes, less), a, z, c);
  }

  // The criterion, for every bridge of the graph
  lemma CriterionExact(nodes: set<Node>, edges: set<Edge>, cns: set<Node>, pops: set<Node>,
                       finder: ComponentFinder, a: Node, z: Node)
    requires FindsComponents(finder) && WellFormed(nodes, edges) && cns <= nodes && pops <= nodes
    requires Bridge(edges, a, z)
    ensures CutCriterion(nodes, edges, cns, pops, finder, a, z)
            <==> a in cns || z in cns || exists c :: Isolates(edges, cns, pops, a, z, c)
  {
    if comp :| && comp in finder(nodes, Without(edges, a, z))
               && IsolatedCnComponent(comp, cns, pops, finder(nodes, edges)) {
      FoundComponentGivesCn(nodes, edges, cns, pops, finder, a, z, comp);
    }
    if c :| Isolates(edges, cns, pops, a, z, c) {
      IsolatedCnIsFound(nodes, edges, cns, pops, finder, a, z, c);
    }
  }

  // ---------- losing the last PoP ----------

  // Only a bridge can take a CN's last PoP away, and only from its own component
  lemma LosingNeedsBridge(edges: set<Edge>, cns: set<Node>, pops: set<Node>, a: Node, z: Node, c: Node)
    requires Adjacent(edges, a, z) && Loses(edges, cns, pops, a, z, c)
    ensures Bridge(edges, a, z) && Isolates(edges, cns, pops, a, z, c)
  {
    var p :| p in pops && Connected(edges, c, p);
    if !Bridge(edges, a, z) {
      NonBridgeHarmless(edges, a, z, c, p);
    } else if !Connected(edges, c, a) {
      UnaffectedElsewhere(edges, a, z, c, p);
    }
  }

  lemma ReachesPopViaSource(nodes: set<Node>, edges: set<Edge>, pops: set<Node>, x: Node)
    requires WellFormed(nodes, edges)
    requires pops == set n | n in nodes && Adjacent(edges, SOURCE, n)
    requires Connected(edges, x, SOURCE) && (x != SOURCE || pops != {})
    ensures ReachesPop(edges, pops, x)
  {
    if x == SOURCE {
      var p :| p in pops;
      ConnectedAdjacent(edges, SOURCE, p);
    } else {
      ConnectedSymmetric(edges, x, SOURCE);
      var w :| WalkBetween(edges, w, SOURCE, x);
      assert Adjacent(edges, w[0], w[1]);
      var t := Tail(edges, w);
      assert WalkBetween(edges, t, w[1], x);
      ConnectedSymmetric(edges, w[1], x);
      assert w[1] in pops;
    }
  }

  lemma IsolatingInSourceComponentLoses(nodes: set<Node>, edges: set<Edge>, cns: set<Node>, pops: set<Node>,
                                        a: Node, z: Node, c: Node)
    requires WellFormed(nodes, edges) && Adjacent(edges, a, z)
    requires pops == set n | n in nodes && Adjacent(edges, SOURCE, n)
    requires Connected(edges, a, SOURCE) && Isolates(edges, cns, pops, a, z, c)
    ensures Loses(edges, cns, pops, a, z, c)
  {
    ConnectedTransitive(edges, c, a, SOURCE);
    if a == SOURCE {
      assert z in pops;
    } else {
      ConnectedSymmetric(edges, a, SOURCE);
      var w :| WalkBetween(edges, w, SOURCE, a);
      assert Adjacent(edges, w[0], w[1]) && w[1] in pops;
    }
    ReachesPopViaSource(nodes, edges, pops, c);
  }

  // ---------- the analysis as a whole ----------

  predicate WirelessEdge(edges: TypedEdges, a: Node, z: Node) {
    {a, z} in edges && edges[{a, z}] == Some(Wireless)
  }

  // The result of the search, in whichever direction the bridge was listed: wired links and the edges
  // of the source are skipped
  ghost predicate Reported(nodes: set<Node>, edges: TypedEdges, cns: set<Node>, pops: set<Node>,
                           finder: ComponentFinder, bridges: seq<(Node, Node)>, a: Node, z: Node) {
    && WirelessEdge(edges, a, z)
    && (|| ((a, z) in bridges && CutCriterion(nodes, edges.Keys, cns, pops, finder, a, z))
        || ((z, a) in bridges && CutCriterion(nodes, edges.Keys, cns, pops, finder, z, a)))
  }

  lemma ReportedExact(nodes: set<Node>, edges: TypedEdges, cns: set<Node>, pops: set<Node>,
                      finder: ComponentFinder, bridges: seq<(Node, Node)>, a: Node, z: Node)
    requires FindsComponents(finder) && WellFormed(nodes, edges.Keys) && cns <= nodes && pops <= nodes
    requires BridgeList(edges.Keys, bridges)
    ensures Reported(nodes, edges, cns, pops, finder, bridges, a, z)
            <==> && WirelessEdge(edges, a, z) && Bridge(edges.Keys, a, z)
                 && (a in cns || z in cns || exists c :: Isolates(edges.Keys, cns, pops, a, z, c))
  {
    BridgeEitherWay(edges.Keys, a, z);
    assert {a, z} == {z, a};
    if Bridge(edges.Keys, a, z) {
      CriterionExact(nodes, edges.Keys, cns, pops, finder, a, z);
    }
  }

  lemma BridgeEitherWay(edges: set<Edge>, a: Node, z: Node)
    ensures Bridge(edges, a, z) <==> Bridge(edges, z, a)
  {
    assert {a, z} == {z, a};
    var less := Without(edges, a, z);
    if Connected(less, a, z) {
      ConnectedSymmetric(less, a, z);
    }
    if Connected(less, z, a) {
      ConnectedSymmetric(less, z, a);
    }
  }

  // An edge whose loss costs some CN its last PoP is reported exactly when it is wireless.  In the
  // component of the source a wireless edge without a CN end is reported exactly when there is such a
  // CN; one with a CN end is reported exactly when it is a bridge
  lemma CutEdgesCorrect(nodes: set<Node>, edges: TypedEdges, cns: set<Node>, pops: set<Node>,
                        finder: ComponentFinder, bridges: seq<(Node, Node)>, a: Node, z: Node)
    requires FindsComponents(finder) && WellFormed(nodes, edges.Keys) && cns <= nodes
    requires BridgeList(edges.Keys, bridges)
    requires pops == set n | n in nodes && Adjacent(edges.Keys, SOURCE, n)
    requires Adjacent(edges.Keys, a, z)
    ensures (exists c :: Loses(edges.Keys, cns, pops, a, z, c)) ==>
              (Reported(nodes, edges, cns, pops, finder, bridges, a, z) <==> WirelessEdge(edges, a, z))
    ensures Connected(edges.Keys, a, SOURCE) && a !in cns && z !in cns ==>
              (Reported(nodes, edges, cns, pops, finder, bridges, a, z)
               <==> WirelessEdge(edges, a, z) && exists c :: Loses(edges.Keys, cns, pops, a, z, c))
    ensures a in cns || z in cns ==>
              (Reported(nodes, edges, cns, pops, finder, bridges, a, z)
               <==> WirelessEdge(edges, a, z) && Bridge(edges.Keys, a, z))
  {
    ReportedExact(nodes, edges, cns, pops, finder, bridges, a, z);
    if exists c :: Loses(edges.Keys, cns, pops, a, z, c) {
      var c :| Loses(edges.Keys, cns, pops, a, z, c);
      LosingNeedsBridge(edges.Keys, cns, pops, a, z, c);
    }
    if Connected(edges.Keys, a, SOURCE) && exists c :: Isolates(edges.Keys, cns, pops, a, z, c) {
      var c :| Isolates(edges.Keys, cns, pops, a, z, c);
      IsolatingInSourceComponentLoses(nodes, edges.Keys, cns, pops, a, z, c);
    }
  }

  // ---------- which bridges really cut a CN off ----------

  // Behind the bridge there is no way to the source, hence none to a PoP
  lemma FarSideHasNoPop(nodes: set<Node>, edges: set<Edge>, pops: set<Node>, a: Node, z: Node, c: Node)
    requires pops == set n | n in nodes && Adjacent(edges, SOURCE, n)
    requires Bridge(edges, a, z) && SOURCE !in {a, z} && Connected(Without(edges, a, z), a, SOURCE)
    requires Connected(Without(edges, a, z), c, z)
    ensures !ReachesPop(Without(edges, a, z), pops, c)
  {
    var less := Without(edges, a, z);
    if ReachesPop(less, pops, c) {
      var p :| p in pops && Connected(less, c, p);
      assert SOURCE in {SOURCE, p};
      ConnectedAdjacent(less, SOURCE, p);
      ConnectedTransitive(less, a, SOURCE, p);
      ConnectedSymmetric(less, c, p);
      ConnectedTransitive(less, a, p, c);
      ConnectedTransitive(less, a, c, z);
    }
  }

  lemma NearSideKeepsPop(nodes: set<Node>, edges: set<Edge>, pops: set<Node>, a: Node, z: Node, c: Node)
    requires WellFormed(nodes, edges) && pops == set n | n in nodes && Adjacent(edges, SOURCE, n)
    requires SOURCE !in {a, z} && Connected(Without(edges, a, z), a, SOURCE)
    requires Connected(Without(edges, a, z), c, a)
    ensures ReachesPop(Without(edges, a, z), pops, c)
  {
    var less := Without(edges, a, z);
    ConnectedSymmetric(less, a, SOURCE);
    var w :| WalkBetween(less, w, SOURCE, a);
    assert Adjacent(less, w[0], w[1]) && Adjacent(edges, SOURCE, w[1]) && w[1] in pops;
    ConnectedTransitive(less, c, a, SOURCE);
    ConnectedAdjacent(less, SOURCE, w[1]);
    ConnectedTransitive(less, c, SOURCE, w[1]);
  }

  // A bridge whose near end stays with the source takes the last PoP from exactly the CNs behind it
  lemma LosersAreBehindTheBridge(nodes: set<Node>, edges: set<Edge>, cns: set<Node>, pops: set<Node>,
                                 a: Node, z: Node, c: Node)
    requires WellFormed(nodes, edges) && pops == set n | n in nodes && Adjacent(edges, SOURCE, n)
    requires Bridge(edges, a, z) && SOURCE !in {a, z} && Connected(Without(edges, a, z), a, SOURCE)
    ensures Loses(edges, cns, pops, a, z, c) <==> c in cns && Connected(Without(edges, a, z), c, z)
  {
    var less := Without(edges, a, z);
    assert a in {a, z} && z in {a, z} && {a, z} == {z, a};
    if c in cns && Connected(less, c, z) {
      FarSideHasNoPop(nodes, edges, pops, a, z, c);
      ConnectedMonotone(less, edges, c, z);
      ConnectedMonotone(less, edges, a, SOURCE);
      ConnectedAdjacent(edges, z, a);
      ConnectedTransitive(edges, c, z, a);
      IsolatingInSourceComponentLoses(nodes, edges, cns, pops, a, z, c);
    }
    if Loses(edges, cns, pops, a, z, c) {
      LosingNeedsBridge(edges, cns, pops, a, z, c);
      ConnectedAfterRemoval(edges, a, z, c, a);
      if Connected(less, c, a) {
        NearSideKeepsPop(nodes, edges, pops, a, z, c);
      }
    }
  }

  // Without the source nobody in the bridge's component has a PoP to lose
  lemma NothingToLose(nodes: set<Node>, edges: set<Edge>, cns: set<Node>, pops: set<Node>, a: Node, z: Node, c: Node)
    requires pops == set n | n in nodes && Adjacent(edges, SOURCE, n)
    requires Adjacent(edges, a, z) && !Connected(edges, a, SOURCE)
    ensures !Loses(edges, cns, pops, a, z, c)
    ensures c in cns && Connected(edges, c, a) ==> Isolates(edges, cns, pops, a, z, c)
  {
    var less := Without(edges, a, z);
    if Connected(edges, c, a) {
      ConnectedSymmetric(edges, c, a);
      forall p | p in pops ensures !Connected(edges, c, p) && !Connected(less, c, p) {
        if Connected(less, c, p) {
          ConnectedMonotone(less, edges, c, p);
        }
        if Connected(edges, c, p) {
          assert {SOURCE, p} == {p, SOURCE};
          ConnectedAdjacent(edges, p, SOURCE);
          ConnectedTransitive(edges, a, c, p);
          ConnectedTransitive(edges, a, p, SOURCE);
        }
      }
    } else if Loses(edges, cns, pops, a, z, c) {
      LosingNeedsBridge(edges, cns, pops, a, z, c);
    }
  }

  // A CN at the near end, and none behind the bridge
  ghost predicate OnlyNearCn(edges: set<Edge>, cns: set<Node>, a: Node, z: Node) {
    && a in cns && Connected(Without(edges, a, z), a, SOURCE)
    && forall c :: c in cns ==> !Connected(Without(edges, a, z), c, z)
  }

  // The bridges that meet the criterion although nobody loses a PoP: those of a component without the
  // source but with a CN, and those with a CN at the near end only
  ghost predicate Harmless(edges: set<Edge>, cns: set<Node>, a: Node, z: Node) {
    || (!Connected(edges, a, SOURCE) && exists c :: c in cns && Connected(edges, c, a))
    || OnlyNearCn(edges, cns, a, z) || OnlyNearCn(edges, cns, z, a)
  }

  ghost predicate FalseAlarm(nodes: set<Node>, edges: TypedEdges, cns: set<Node>, pops: set<Node>,
                             finder: ComponentFinder, bridges: seq<(Node, Node)>, a: Node, z: Node) {
    && Reported(nodes, edges, cns, pops, finder, bridges, a, z)
    && forall c :: !Loses(edges.Keys, cns, pops, a, z, c)
  }

  lemma OtherWayRound(nodes: set<Node>, edges: TypedEdges, cns: set<Node>, pops: set<Node>,
                      finder: ComponentFinder, bridges: seq<(Node, Node)>, a: Node, z: Node)
    ensures Without(edges.Keys, a, z) == Without(edges.Keys, z, a)
    ensures WirelessEdge(edges, a, z) <==> WirelessEdge(edges, z, a)
    ensures FalseAlarm(nodes, edges, cns, pops, finder, bridges, a, z)
            <==> FalseAlarm(nodes, edges, cns, pops, finder, bridges, z, a)
  {
    assert {a, z} == {z, a};
    forall c ensures Loses(edges.Keys, cns, pops, a, z, c) <==> Loses(edges.Keys, cns, pops, z, a, c) {
    }
  }

  lemma FalseAlarmAway(nodes: set<Node>, edges: TypedEdges, cns: set<Node>, pops: set<Node>,
                       finder: ComponentFinder, bridges: seq<(Node, Node)>, a: Node, z: Node)
    requires FindsComponents(finder) && WellFormed(nodes, edges.Keys) && cns <= nodes
    requires BridgeList(edges.Keys, bridges)
    requires pops == set n | n in nodes && Adjacent(edges.Keys, SOURCE, n)
    requires Bridge(edges.Keys, a, z) && !Connected(edges.Keys, a, SOURCE)
    ensures FalseAlarm(nodes, edges, cns, pops, finder, bridges, a, z)
            <==> WirelessEdge(edges, a, z) && exists c :: c in cns && Connected(edges.Keys, c, a)
  {
    ReportedExact(nodes, edges, cns, pops, finder, bridges, a, z);
    forall c
      ensures !Loses(edges.Keys, cns, pops, a, z, c)
      ensures c in cns && Connected(edges.Keys, c, a) <==> Isolates(edges.Keys, cns, pops, a, z, c)
    {
      NothingToLose(nodes, edges.Keys, cns, pops, a, z, c);
    }
    ConnectedSelf(edges.Keys, a);
    assert {z, a} == {a, z};
    ConnectedAdjacent(edges.Keys, z, a);
  }

  lemma FalseAlarmNear(nodes: set<Node>, edges: TypedEdges, cns: set<Node>, pops: set<Node>,
                       finder: ComponentFinder, bridges: seq<(Node, Node)>, a: Node, z: Node)
    requires FindsComponents(finder) && WellFormed(nodes, edges.Keys) && cns <= nodes
    requires BridgeList(edges.Keys, bridges)
    requires pops == set n | n in nodes && Adjacent(edges.Keys, SOURCE, n)
    requires Bridge(edges.Keys, a, z) && SOURCE !in {a, z} && Connected(Without(edges.Keys, a, z), a, SOURCE)
    ensures FalseAlarm(nodes, edges, cns, pops, finder, bridges, a, z)
            <==> WirelessEdge(edges, a, z) && OnlyNearCn(edges.Keys, cns, a, z)
    ensures !OnlyNearCn(edges.Keys, cns, z, a)
  {
    var less := Without(edges.Keys, a, z);
    assert {a, z} == {z, a};
    ConnectedSelf(less, z);
    ConnectedMonotone(less, edges.Keys, a, SOURCE);
    CutEdgesCorrect(nodes, edges, cns, pops, finder, bridges, a, z);
    forall c ensures Loses(edges.Keys, cns, pops, a, z, c) <==> c in cns && Connected(less, c, z) {
      LosersAreBehindTheBridge(nodes, edges.Keys, cns, pops, a, z, c);
    }
    if Connected(less, z, SOURCE) {
      ConnectedSymmetric(less, z, SOURCE);
      ConnectedTransitive(less, a, SOURCE, z);
    }
  }

  // The edges of the source carry no link type, as in every graph built from a topology in which no
  // link ends at a node named "source"
  ghost predicate SourceUntyped(edges: TypedEdges) {
    forall n :: !WirelessEdge(edges, SOURCE, n)
  }

  // For every bridge of every topology
  lemma FalseAlarmExact(nodes: set<Node>, edges: TypedEdges, cns: set<Node>, pops: set<Node>,
                        finder: ComponentFinder, bridges: seq<(Node, Node)>, a: Node, z: Node)
    requires FindsComponents(finder) && WellFormed(nodes, edges.Keys) && cns <= nodes
    requires BridgeList(edges.Keys, bridges) && SourceUntyped(edges)
    requires pops == set n | n in nodes && Adjacent(edges.Keys, SOURCE, n)
    requires Bridge(edges.Keys, a, z)
    ensures FalseAlarm(nodes, edges, cns, pops, finder, bridges, a, z)
            <==> WirelessEdge(edges, a, z) && Harmless(edges.Keys, cns, a, z)
  {
    OtherWayRound(nodes, edges, cns, pops, finder, bridges, a, z);
    if WirelessEdge(edges, a, z) {
      assert SOURCE !in {a, z};
      var less := Without(edges.Keys, a, z);
      assert {a, z} == {z, a};
      ConnectedAdjacent(edges.Keys, a, z);
      ConnectedAdjacent(edges.Keys, z, a);
      BridgeEitherWay(edges.Keys, a, z);
      if !Connected(edges.Keys, a, SOURCE) {
        FalseAlarmAway(nodes, edges, cns, pops, finder, bridges, a, z);
        AwayIsNotNear(edges.Keys, cns, a, z);
      } else {
        ConnectedSymmetric(edges.Keys, a, SOURCE);
        ConnectedAfterRemoval(edges.Keys, a, z, SOURCE, a);
        if Connected(less, SOURCE, a) {
          ConnectedSymmetric(less, SOURCE, a);
          FalseAlarmNear(nodes, edges, cns, pops, finder, bridges, a, z);
        } else {
          ConnectedSymmetric(less, SOURCE, z);
          FalseAlarmNear(nodes, edges, cns, pops, finder, bridges, z, a);
        }
      }
    }
  }

  lemma AwayIsNotNear(edges: set<Edge>, cns: set<Node>, a: Node, z: Node)
    requires Adjacent(edges, a, z) && !Connected(edges, a, SOURCE)
    ensures !OnlyNearCn(edges, cns, a, z) && !OnlyNearCn(edges, cns, z, a)
  {
    assert {a, z} == {z, a};
    ConnectedSelf(edges, a);
    ConnectedAdjacent(edges, a, z);
    if Connected(Without(edges, a, z), a, SOURCE) {
      ConnectedMonotone(Without(edges, a, z), edges, a, SOURCE);
    }
    if Connected(Without(edges, z, a), z, SOURCE) {
      ConnectedMonotone(Without(edges, z, a), edges, z, SOURCE);
      ConnectedTransitive(edges, a, z, SOURCE);
    }
  }

  // ---------- the search on a topology ----------

  function TopologyEdges(topologyNodes: seq<TopologyNode>, links: seq<TopologyLink>): set<Edge> {
    SourceEdges(topologyNodes) + LinkEdges(links)
  }

  function PopsOfTopology(topologyNodes: seq<TopologyNode>, links: seq<TopologyLink>): set<Node> {
    set n | n in BaseNodes(topologyNodes) + LinkNodes(links)
            && Adjacent(TopologyEdges(topologyNodes, links), SOURCE, n)
  }

  // Nodes and edges of a topology's graph, and which of its nodes are CNs
  lemma TopologyGraphIs(topologyNodes: seq<TopologyNode>, links: seq<TopologyLink>, x: Node, e: Edge)
    ensures x in BaseNodes(topologyNodes) + LinkNodes(links)
            <==> || (exists n :: n in topologyNodes && (n.name == x || (x == "source" && n.popNode && n.isPrimary)))
                 || (exists l :: l in links && (l.aNode == x || l.zNode == x))
    ensures e in TopologyEdges(topologyNodes, links)
            <==> || (exists n :: n in topologyNodes && n.popNode && n.isPrimary && e == {"source", n.name})
                 || (exists l :: l in links && e == {l.aNode, l.zNode})
    ensures x in CnNames(topologyNodes) <==> exists n :: n in topologyNodes && n.isCn && n.name == x
  {
    BaseNodesAre(topologyNodes, x);
    LinkNodesAre(links, x);
  }

  lemma {:induction false} BaseNodesAre(topologyNodes: seq<TopologyNode>, x: Node)
    ensures x in BaseNodes(topologyNodes)
            <==> exists n :: n in topologyNodes && (n.name == x || (x == "source" && n.popNode && n.isPrimary))
  {
    if topologyNodes != [] {
      var front, last := topologyNodes[..|topologyNodes| - 1], topologyNodes[|topologyNodes| - 1];
      BaseNodesAre(front, x);
      assert forall n :: n in topologyNodes <==> n in front || n == last by {
        assert topologyNodes == front + [last];
      }
    }
  }

  lemma {:induction false} LinkNodesAre(links: seq<TopologyLink>, x: Node)
    ensures x in LinkNodes(links) <==> exists l :: l in links && (l.aNode == x || l.zNode == x)
  {
    if links != [] {
      var front, last := links[..|links| - 1], links[|links| - 1];
      LinkNodesAre(front, x);
      assert forall l :: l in links <==> l in front || l == last by {
        assert links == front + [last];
      }
    }
  }

  lemma {:induction false} UnlinkedHasNoType(links: seq<TopologyLink>, e: Edge)
    ensures LastType(links, e) == None <==> forall l :: l in links ==> {l.aNode, l.zNode} != e
  {
    if links != [] {
      var front, last := links[..|links| - 1], links[|links| - 1];
      assert links == front + [last];
      UnlinkedHasNoType(front, e);
    }
  }

  // The type of an edge is that of the last link between its ends
  lemma {:induction false} LastTypeIs(links: seq<TopologyLink>, e: Edge) returns (i: nat)
    requires LastType(links, e).Some?
    ensures i < |links| && {links[i].aNode, links[i].zNode} == e && LastType(links, e) == Some(links[i].linkType)
    ensures forall j :: i < j < |links| ==> {links[j].aNode, links[j].zNode} != e
  {
    i := |links| - 1;
    if {links[i].aNode, links[i].zNode} != e {
      i := LastTypeIs(links[..|links| - 1], e);
    }
  }

  // The PoPs are the primary PoP nodes and whatever else a link joins to the source
  lemma PopsOfTopologyAre(topologyNodes: seq<TopologyNode>, links: seq<TopologyLink>, x: Node)
    requires SOURCE !in LinkNodes(links)
    ensures x in PopsOfTopology(topologyNodes, links)
            <==> exists n :: n in topologyNodes && n.name == x && n.popNode && n.isPrimary
  {
    TopologyGraphIs(topologyNodes, links, x, {"source", x});
    forall l | l in links ensures {l.aNode, l.zNode} != {SOURCE, x} {
      LinkNodesAre(links, SOURCE);
      assert SOURCE in {SOURCE, x};
    }
    if n :| n in topologyNodes && n.popNode && n.isPrimary && {"source", x} == {"source", n.name} {
      assert n.name in {"source", x} && x in {"source", n.name};
    }
  }

  ghost predicate TakesLastPop(topologyNodes: seq<TopologyNode>, links: seq<TopologyLink>, a: Node, z: Node) {
    exists c :: Loses(TopologyEdges(topologyNodes, links), CnNames(topologyNodes), PopsOfTopology(topologyNodes, links),
                      a, z, c)
  }

  predicate InResult(found: set<(Node, Node)>, a: Node, z: Node) {
    (a, z) in found || (z, a) in found
  }

  // Exactly the wireless ones of the edges that take a CN's last PoP are found; a wireless bridge that
  // takes none is found exactly when it is harmless in one of the two ways
  ghost predicate FoundExactly(topologyNodes: seq<TopologyNode>, links: seq<TopologyLink>, found: bool,
                               a: Node, z: Node) {
    var edges, wireless := TopologyEdges(topologyNodes, links), LastType(links, {a, z}) == Some(Wireless);
    && (found ==> Bridge(edges, a, z) && wireless)
    && (Adjacent(edges, a, z) && TakesLastPop(topologyNodes, links, a, z) ==> (found <==> wireless))
    && (Bridge(edges, a, z) && SOURCE !in LinkNodes(links) ==>
          (found && !TakesLastPop(topologyNodes, links, a, z)
           <==> wireless && Harmless(edges, CnNames(topologyNodes), a, z)))
  }

  // The graph of a topology and the search on it, for all pairs of nodes.  None stands for the
  // KeyError raised when no node is joined to the source
  method CutEdgesOfTopology(topologyNodes: seq<TopologyNode>, links: seq<TopologyLink>,
                            finder: ComponentFinder, bridges: seq<(Node, Node)>)
    returns (cutEdges: Option<set<(Node, Node)>>)
    requires FindsComponents(finder) && BridgeList(TopologyEdges(topologyNodes, links), bridges)
    ensures cutEdges.Some? <==> SOURCE in BaseNodes(topologyNodes) + LinkNodes(links)
    ensures cutEdges.Some? ==>
              forall a, z :: FoundExactly(topologyNodes, links, InResult(cutEdges.value, a, z), a, z)
  {
    var graph, cns := BuildTopologyGraph(topologyNodes, links);
    ghost var edges := graph.edges;
    cutEdges := graph.FindCnCutEdges(cns, bridges, finder);
    if cutEdges.Some? {
      forall a, z ensures FoundExactly(topologyNodes, links, InResult(cutEdges.value, a, z), a, z) {
        assert {a, z} == {z, a};
        ReportedIsFoundExactly(topologyNodes, links, graph.nodes, edges, finder, bridges, a, z);
      }
    }
  }

  lemma ReportedIsFoundExactly(topologyNodes: seq<TopologyNode>, links: seq<TopologyLink>, nodes: set<Node>,
                               edges: TypedEdges, finder: ComponentFinder, bridges: seq<(Node, Node)>, a: Node, z: Node)
    requires FindsComponents(finder) && WellFormed(nodes, edges.Keys) && CnNames(topologyNodes) <= nodes
    requires nodes == BaseNodes(topologyNodes) + LinkNodes(links)
    requires edges.Keys == TopologyEdges(topologyNodes, links) && BridgeList(edges.Keys, bridges)
    requires forall e :: e in edges ==> edges[e] == LastType(links, e)
    ensures var pops := PopsOfTopology(topologyNodes, links);
            FoundExactly(topologyNodes, links,
                         Reported(nodes, edges, CnNames(topologyNodes), pops, finder, bridges, a, z), a, z)
  {
    var cns, pops := CnNames(topologyNodes), PopsOfTopology(topologyNodes, links);
    ReportedExact(nodes, edges, cns, pops, finder, bridges, a, z);
    if Adjacent(edges.Keys, a, z) {
      CutEdgesCorrect(nodes, edges, cns, pops, finder, bridges, a, z);
      if Bridge(edges.Keys, a, z) && SOURCE !in LinkNodes(links) {
        BuiltUntyped(links, edges);
        FalseAlarmExact(nodes, edges, cns, pops, finder, bridges, a, z);
      }
    }
  }

  lemma {:induction false} TypedByLink(links: seq<TopologyLink>, e: Edge)
    requires LastType(links, e).Some?
    ensures e <= LinkNodes(links)
  {
    var l := links[|links| - 1];
    if {l.aNode, l.zNode} != e {
      TypedByLink(links[..|links| - 1], e);
    }
  }

  lemma BuiltUntyped(links: seq<TopologyLink>, edges: TypedEdges)
    requires SOURCE !in LinkNodes(links) && forall e :: e in edges ==> edges[e] == LastType(links, e)
    ensures SourceUntyped(edges)
  {
    forall e | e in edges && SOURCE in e ensures edges[e] == None {
      if edges[e].Some? {
        TypedByLink(links, e);
      }
    }
    SourceIsUntyped(edges);
  }

  // ---------- two networks with false alarms ----------

  // No walk leaves a set of nodes that no edge leaves
  lemma Separated(edges: set<Edge>, inside: set<Node>, a: Node, b: Node)
    requires a in inside && b !in inside
    requires forall x, y :: Adjacent(edges, x, y) && x in inside ==> y in inside
    ensures !Connected(edges, a, b)
  {
    if Connected(edges, a, b) {
      var p :| WalkBetween(edges, p, a, b);
      StaysInside(edges, inside, p);
    }
  }

  const RELAY: TypedEdges :=
    map[{SOURCE, "pop"} := None, {"pop", "cn"} := Some(Wireless), {"cn", "dn"} := Some(Wireless)]

  // A CN that relays for a distribution node: the bridge behind it is reported although every CN
  // keeps its PoP
  lemma RelayingCnOverReports(finder: ComponentFinder, bridges: seq<(Node, Node)>)
    requires FindsComponents(finder) && BridgeList(RELAY.Keys, bridges)
    ensures FalseAlarm({SOURCE, "pop", "cn", "dn"}, RELAY, {"cn"}, {"pop"}, finder, bridges, "cn", "dn")
  {
    var nodes: set<Node> := {SOURCE, "pop", "cn", "dn"};
    var edges := RELAY.Keys;
    var pop: Node, cn: Node, dn: Node := "pop", "cn", "dn";
    assert edges == {{SOURCE, pop}, {pop, cn}, {cn, dn}};
    var less := Without(edges, cn, dn);
    assert SOURCE[0] == 's' && pop[0] == 'p' && cn[0] == 'c' && dn[0] == 'd';
    forall x, y | Adjacent(edges, x, y) ensures x in nodes && y in nodes {
      assert x in {x, y} && y in {x, y};
    }
    assert dn !in {SOURCE, pop} && dn !in {pop, cn} && dn in {cn, dn};
    forall x, y | Adjacent(less, x, y) && x in {SOURCE, pop, cn} ensures y in {SOURCE, pop, cn} {
      assert y in {x, y};
    }
    Separated(less, {SOURCE, pop, cn}, cn, dn);
    assert {cn, pop} == {pop, cn} && {pop, SOURCE} == {SOURCE, pop};
    ConnectedAdjacent(less, cn, pop);
    ConnectedAdjacent(less, pop, SOURCE);
    ConnectedTransitive(less, cn, pop, SOURCE);
    PopsOf(nodes, edges);
    SourceIsUntyped(RELAY);
    FalseAlarmExact(nodes, RELAY, {cn}, {pop}, finder, bridges, cn, dn);
  }

  lemma PopsOf(nodes: set<Node>, edges: set<Edge>)
    requires "pop" in nodes && {SOURCE, "pop"} in edges
    requires forall e :: e in edges && SOURCE in e ==> e == {SOURCE, "pop"}
    ensures (set n | n in nodes && Adjacent(edges, SOURCE, n)) == {"pop"}
  {
    forall n | n in nodes && Adjacent(edges, SOURCE, n) ensures n == "pop" {
      assert SOURCE in {SOURCE, n} && n in {SOURCE, n} && SOURCE[0] == 's';
      assert n in {SOURCE, "pop"} && "pop" in {SOURCE, n};
    }
  }

  lemma SourceIsUntyped(edges: TypedEdges)
    requires forall e :: e in edges && SOURCE in e ==> edges[e] == None
    ensures SourceUntyped(edges)
  {
    forall n ensures !WirelessEdge(edges, SOURCE, n) {
      assert SOURCE in {SOURCE, n};
    }
  }

  const ISLAND: TypedEdges :=
    map[{SOURCE, "pop"} := None, {"dn", "en"} := Some(Wireless), {"en", "cn"} := Some(Wireless)]

  // An island: the bridge between two distribution nodes is reported although the CN behind it never
  // had a PoP
  lemma IslandOverReports(finder: ComponentFinder, bridges: seq<(Node, Node)>)
    requires FindsComponents(finder) && BridgeList(ISLAND.Keys, bridges)
    ensures FalseAlarm({SOURCE, "pop", "dn", "en", "cn"}, ISLAND, {"cn"}, {"pop"}, finder, bridges, "dn", "en")
  {
    var nodes: set<Node> := {SOURCE, "pop", "dn", "en", "cn"};
    var edges := ISLAND.Keys;
    var pop: Node, dn: Node, en: Node, cn: Node := "pop", "dn", "en", "cn";
    assert edges == {{SOURCE, pop}, {dn, en}, {en, cn}};
    var less := Without(edges, dn, en);
    assert SOURCE[0] == 's' && pop[0] == 'p' && cn[0] == 'c' && dn[0] == 'd' && en[0] == 'e';
    forall x, y | Adjacent(edges, x, y) ensures x in nodes && y in nodes {
      assert x in {x, y} && y in {x, y};
    }
    assert dn !in {SOURCE, pop} && dn !in {en, cn} && dn in {dn, en};
    forall y ensures !Adjacent(less, dn, y) {
      assert dn in {dn, y};
    }
    Separated(less, {dn}, dn, en);
    forall x, y | Adjacent(edges, x, y) && x in {dn, en, cn} ensures y in {dn, en, cn} {
      assert x in {x, y} && y in {x, y};
    }
    Separated(edges, {dn, en, cn}, dn, SOURCE);
    assert {cn, en} == {en, cn} && {en, dn} == {dn, en};
    ConnectedAdjacent(edges, cn, en);
    ConnectedAdjacent(edges, en, dn);
    ConnectedTransitive(edges, cn, en, dn);
    PopsOf(nodes, edges);
    SourceIsUntyped(ISLAND);
    FalseAlarmExact(nodes, ISLAND, {cn}, {pop}, finder, bridges, dn, en);
  }
}
