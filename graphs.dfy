/** The undirected weighted location graph (a networkx `Graph`): nodes in
    insertion order and the weighted edge list handed to
    `add_weighted_edges_from`. */
module Graphs {
  import opened Optional

  /** A location label such as "Admin Office" or "Store A". */
  type Node = string

  /** One `(u, v, weight)` triple of the edge list. */
  datatype Edge = Edge(u: Node, v: Node, weight: nat)

  datatype Graph = Graph(nodes: seq<Node>, edges: seq<Edge>)

  /** Node labels are distinct (they are dictionary keys in networkx). */
  predicate DistinctNodes(nodes: seq<Node>)
  {
    forall x, y :: 0 <= x < y < |nodes| ==> nodes[x] != nodes[y]
  }

  /** The node list names every node and every edge endpoint is one of them. */
  predicate ValidGraph(g: Graph)
  {
    && DistinctNodes(g.nodes)
    && forall k :: 0 <= k < |g.edges| ==> g.edges[k].u in g.nodes && g.edges[k].v in g.nodes
  }

  /** The edge connects a and b, in either direction (the graph is undirected). */
  predicate Joins(e: Edge, a: Node, b: Node)
  {
    (e.u == a && e.v == b) || (e.u == b && e.v == a)
  }

  /** The weight networkx stores for the pair {a, b}: adding an edge between
      a pair that is already joined overwrites its weight, so the last edge of
      the list that joins the pair decides; None when no edge joins them. */
  function EdgeWeight(edges: seq<Edge>, a: Node, b: Node): (r: Option<nat>)
    ensures r.None? <==> forall k :: 0 <= k < |edges| ==> !Joins(edges[k], a, b)
    ensures r.Some? ==> exists k :: && 0 <= k < |edges| && Joins(edges[k], a, b)
                                    && edges[k].weight == r.value
                                    && forall k' :: k < k' < |edges| ==> !Joins(edges[k'], a, b)
    decreases |edges|
  {
    if edges == [] then None
    else
      var e := edges[|edges| - 1];
      if Joins(e, a, b) then Some(e.weight)
      else
        var r := EdgeWeight(edges[..|edges| - 1], a, b);
        assert forall k :: 0 <= k < |edges| - 1 ==> edges[..|edges| - 1][k] == edges[k];
        r
  }

  /** The position of a node in the node list. */
  function IndexOf(nodes: seq<Node>, x: Node): (r: nat)
    requires x in nodes
    ensures r < |nodes| && nodes[r] == x
    ensures forall k :: 0 <= k < r ==> nodes[k] != x
  {
    if nodes[0] == x then 0 else 1 + IndexOf(nodes[1..], x)
  }

  /** Undirectedness: the weight between a and b is the weight between b and a. */
  lemma {:induction false} EdgeWeightSymmetric(edges: seq<Edge>, a: Node, b: Node)
    ensures EdgeWeight(edges, a, b) == EdgeWeight(edges, b, a)
    decreases |edges|
  {
    if edges != [] {
      EdgeWeightSymmetric(edges[..|edges| - 1], a, b);
    }
  }
}
