/**
  Undirected graphs and what it means to be connected in them.

  An edge is the set of its two end points, so parallel links between the same nodes are one edge.
 */
module Connectivity {
  type Node = string
  type Edge = set<Node>

  // The node that stands for the wide area network behind all points of presence
  const SOURCE: Node := "source"

  predicate Adjacent(edges: set<Edge>, a: Node, b: Node) {
    {a, b} in edges
  }

  predicate Walk(edges: set<Edge>, p: seq<Node>) {
    p != [] && forall i :: 0 <= i < |p| - 1 ==> Adjacent(edges, p[i], p[i + 1])
  }

  predicate WalkBetween(edges: set<Edge>, p: seq<Node>, a: Node, b: Node) {
    Walk(edges, p) && p[0] == a && p[|p| - 1] == b
  }

  ghost predicate Connected(edges: set<Edge>, a: Node, b: Node) {
    exists p :: WalkBetween(edges, p, a, b)
  }

  // nx.bridges: the edges that no other way around replaces
  ghost predicate Bridge(edges: set<Edge>, a: Node, z: Node) {
    Adjacent(edges, a, z) && !Connected(edges - {{a, z}}, a, z)
  }

  ghost function Component(nodes: set<Node>, edges: set<Edge>, x: Node): set<Node> {
    set y | y in nodes && Connected(edges, x, y)
  }

  // nx.connected_components
  ghost predicate IsComponentList(nodes: set<Node>, edges: set<Edge>, components: seq<set<Node>>) {
    && (forall c :: c in components ==> c != {})
    && (forall c, x :: c in components && x in c ==> x in nodes && c == Component(nodes, edges, x))
    && (forall x :: x in nodes ==> Component(nodes, edges, x) in components)
  }

  // ---------- connectedness is an equivalence ----------

  lemma ConnectedSelf(edges: set<Edge>, a: Node)
    ensures Connected(edges, a, a)
  {
    assert WalkBetween(edges, [a], a, a);
  }

  lemma ConnectedAdjacent(edges: set<Edge>, a: Node, b: Node)
    requires Adjacent(edges, a, b)
    ensures Connected(edges, a, b)
  {
    assert WalkBetween(edges, [a, b], a, b);
  }

  lemma ConnectedTransitive(edges: set<Edge>, a: Node, b: Node, c: Node)
    requires Connected(edges, a, b) && Connected(edges, b, c)
    ensures Connected(edges, a, c)
  {
    var p :| WalkBetween(edges, p, a, b);
    var q :| WalkBetween(edges, q, b, c);
    var r := p + q[1..];
    forall i | 0 <= i < |r| - 1
      ensures Adjacent(edges, r[i], r[i + 1])
    {
      if i >= |p| - 1 {
        var j := i - (|p| - 1);
        assert r[i] == q[j] && r[i + 1] == q[j + 1];
      } else {
        assert r[i] == p[i] && r[i + 1] == p[i + 1];
      }
    }
    assert WalkBetween(edges, r, a, c);
  }

  lemma ConnectedSymmetric(edges: set<Edge>, a: Node, b: Node)
    requires Connected(edges, a, b)
    ensures Connected(edges, b, a)
  {
    var p :| WalkBetween(edges, p, a, b);
    var r := seq(|p|, i requires 0 <= i < |p| => p[|p| - 1 - i]);
    forall i | 0 <= i < |r| - 1
      ensures Adjacent(edges, r[i], r[i + 1])
    {
      var j := |p| - 2 - i;
      assert Adjacent(edges, p[j], p[j + 1]);
      assert {p[j], p[j + 1]} == {r[i], r[i + 1]};
    }
    assert WalkBetween(edges, r, b, a);
  }

  lemma ConnectedMonotone(edges: set<Edge>, more: set<Edge>, a: Node, b: Node)
    requires edges <= more && Connected(edges, a, b)
    ensures Connected(more, a, b)
  {
    var p :| WalkBetween(edges, p, a, b);
    forall i | 0 <= i < |p| - 1
      ensures Adjacent(more, p[i], p[i + 1])
    {
      assert Adjacent(edges, p[i], p[i + 1]);
    }
    assert WalkBetween(more, p, a, b);
  }

  lemma ComponentOfMember(nodes: set<Node>, edges: set<Edge>, x: Node, y: Node)
    requires y in Component(nodes, edges, x)
    ensures Component(nodes, edges, x) == Component(nodes, edges, y)
  {
    ConnectedSymmetric(edges, x, y);
    forall z | z in nodes
      ensures Connected(edges, x, z) <==> Connected(edges, y, z)
    {
      if Connected(edges, x, z) {
        ConnectedTransitive(edges, y, x, z);
      }
      if Connected(edges, y, z) {
        ConnectedTransitive(edges, x, y, z);
      }
    }
  }

  // A set of nodes that no edge leaves cannot be left
  lemma {:induction false} StaysInside(edges: set<Edge>, inside: set<Node>, p: seq<Node>)
    requires Walk(edges, p) && p[0] in inside
    requires forall a, b :: Adjacent(edges, a, b) && a in inside ==> b in inside
    ensures p[|p| - 1] in inside
  {
    if |p| > 1 {
      assert Adjacent(edges, p[0], p[1]);
      StaysInside(edges, inside, Tail(edges, p));
    }
  }

  function Tail(edges: set<Edge>, p: seq<Node>): (t: seq<Node>)
    requires Walk(edges, p) && |p| > 1
    ensures Walk(edges, t) && t[0] == p[1] && t[|t| - 1] == p[|p| - 1]
  {
    assert forall i :: 0 <= i < |p| - 1 ==> Adjacent(edges, p[i], p[i + 1]);
    p[1..]
  }

  // ---------- removing one edge ----------

  function Without(edges: set<Edge>, a: Node, z: Node): set<Edge> {
    edges - {{a, z}}
  }

  // A walk either survives the removal or reached an end of the removed edge before using it
  lemma {:induction false} FirstUse(edges: set<Edge>, a: Node, z: Node, p: seq<Node>)
    requires Walk(edges, p)
    ensures var less := Without(edges, a, z);
            Connected(less, p[0], p[|p| - 1]) || Connected(less, p[0], a) || Connected(less, p[0], z)
  {
    var less := Without(edges, a, z);
    ConnectedSelf(less, p[0]);
    if |p| > 1 {
      assert Adjacent(edges, p[0], p[1]);
      if {p[0], p[1]} == {a, z} {
        assert p[0] in {a, z};
      } else {
        var t := Tail(edges, p);
        FirstUse(edges, a, z, t);
        ConnectedAdjacent(less, p[0], p[1]);
        var end := if Connected(less, t[0], t[|t| - 1]) then t[|t| - 1] else if Connected(less, t[0], a) then a else z;
        ConnectedTransitive(less, p[0], p[1], end);
      }
    }
  }

  lemma ConnectedAfterRemoval(edges: set<Edge>, a: Node, z: Node, x: Node, y: Node)
    requires Connected(edges, x, y)
    ensures var less := Without(edges, a, z);
            Connected(less, x, y) || Connected(less, x, a) || Connected(less, x, z)
  {
    var p :| WalkBetween(edges, p, x, y);
    FirstUse(edges, a, z, p);
  }

  // An edge that is not a bridge can be removed without separating anyone
  lemma NonBridgeHarmless(edges: set<Edge>, a: Node, z: Node, x: Node, y: Node)
    requires Adjacent(edges, a, z) && !Bridge(edges, a, z)
    ensures Connected(edges, x, y) <==> Connected(Without(edges, a, z), x, y)
  {
    var less := Without(edges, a, z);
    if Connected(less, x, y) {
      ConnectedMonotone(less, edges, x, y);
    } else if Connected(edges, x, y) {
      ConnectedSymmetric(edges, x, y);
      ConnectedAfterRemoval(edges, a, z, x, y);
      ConnectedAfterRemoval(edges, a, z, y, x);
      ConnectedSymmetric(less, a, z);
      if Connected(less, y, x) {
        ConnectedSymmetric(less, y, x);
      } else {
        // both ends reach the removed edge, whose own ends are still connected
        var u := if Connected(less, x, a) then a else z;
        var w := if Connected(less, y, a) then a else z;
        ConnectedSelf(less, a);
        ConnectedSelf(less, z);
        ConnectedTransitive(less, x, u, w);
        ConnectedSymmetric(less, y, w);
        ConnectedTransitive(less, x, w, y);
      }
    }
  }
}
