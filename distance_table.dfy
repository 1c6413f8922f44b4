/** The all-pairs distance table that `assign_driver` builds for every
    driver: a nested dictionary from source node to target node to the
    shortest-path length, with 0 on the diagonal and None (the source's
    `float('inf')`) for a pair that no path joins. */
module DistanceTable {
  import opened Optional
  import opened Graphs
  import opened ShortestPaths

  type Table = map<Node, map<Node, Option<nat>>>

  /** The shortest-path length between two named nodes of g. */
  function Leg(g: Graph, a: Node, b: Node): (r: Option<nat>)
    requires a in g.nodes && b in g.nodes
    ensures a == b ==> r == Some(0)
  {
    var i, j := IndexOf(g.nodes, a), IndexOf(g.nodes, b);
    DiagonalZero(g, |g.nodes|, i);
    Dist(g, i, j)
  }

  /** Leg is the shortest-path length: None exactly when no walk joins the
      two nodes, otherwise the least weight of such a walk. */
  lemma LegIsShortest(g: Graph, a: Node, b: Node)
    requires a in g.nodes && b in g.nodes
    ensures IsShortestDistance(g, IndexOf(g.nodes, a), IndexOf(g.nodes, b), Leg(g, a, b))
  {
    DistIsShortest(g, IndexOf(g.nodes, a), IndexOf(g.nodes, b));
  }

  /** At a node of a list without repeats, IndexOf finds that position. */
  lemma IndexOfDistinct(nodes: seq<Node>, k: nat)
    requires DistinctNodes(nodes) && k < |nodes|
    ensures IndexOf(nodes, nodes[k]) == k
  {
  }

  /** The Leg between the nodes at two positions is their Dist. */
  lemma LegAt(g: Graph, s: nat, t: nat)
    requires DistinctNodes(g.nodes) && s < |g.nodes| && t < |g.nodes|
    ensures Leg(g, g.nodes[s], g.nodes[t]) == Dist(g, s, t)
  {
    IndexOfDistinct(g.nodes, s);
    IndexOfDistinct(g.nodes, t);
  }

  /** table holds, for every ordered pair of nodes of g, their shortest-path
      length, and has a row for no other node. */
  ghost predicate IsDistanceTable(g: Graph, table: Table)
  {
    && (forall a :: a in table <==> a in g.nodes)
    && forall a :: a in g.nodes ==> IsRow(g, a, table[a])
  }

  /** row holds the shortest-path length from a to every node of g. */
  ghost predicate IsRow(g: Graph, a: Node, row: map<Node, Option<nat>>)
    requires a in g.nodes
  {
    && (forall b :: b in row <==> b in g.nodes)
    && forall b :: b in g.nodes ==> row[b] == Leg(g, a, b)
  }

  /** Looking up a pair of named nodes in a distance table gives their Leg. */
  lemma TableLookup(g: Graph, table: Table, a: Node, b: Node)
    requires IsDistanceTable(g, table) && a in g.nodes && b in g.nodes
    ensures a in table && b in table[a] && table[a][b] == Leg(g, a, b)
  {
  }

  /** Every entry of a distance table is the shortest-path length of its
      pair, None exactly when no walk joins them, and every diagonal entry is 0. */
  lemma TableEntries(g: Graph, table: Table, a: Node, b: Node)
    requires IsDistanceTable(g, table) && a in g.nodes && b in g.nodes
    ensures a in table && b in table[a]
    ensures IsShortestDistance(g, IndexOf(g.nodes, a), IndexOf(g.nodes, b), table[a][b])
    ensures a == b ==> table[a][b] == Some(0)
  {
    TableLookup(g, table, a, b);
    LegIsShortest(g, a, b);
  }

  /** One row of the table: the distances from the node at index s, 0 for
      the node itself and the matrix entry for every other node. */
  method BuildRow(g: Graph, m: array2<Option<nat>>, s: nat) returns (row: map<Node, Option<nat>>)
    requires ValidGraph(g) && s < |g.nodes|
    requires m.Length0 == |g.nodes| && m.Length1 == |g.nodes|
    requires forall i, j :: 0 <= i < |g.nodes| && 0 <= j < |g.nodes| ==> m[i, j] == Dist(g, i, j)
    ensures IsRow(g, g.nodes[s], row)
  {
    var n := |g.nodes|;
    row := map[];
    var t := 0;
    while t < n
      invariant t <= n
      invariant forall b :: b in row <==> b in g.nodes[..t]
      invariant forall j :: 0 <= j < t ==> g.nodes[j] in row && row[g.nodes[j]] == Leg(g, g.nodes[s], g.nodes[j])
    {
      var d := m[s, t];
      if s == t {
        d := Some(0);
      }
      LegAt(g, s, t);
      RowStep(g, s, t, row, row[g.nodes[t] := d]);
      row := row[g.nodes[t] := d];
      t := t + 1;
    }
    assert g.nodes[..n] == g.nodes;
    forall b | b in g.nodes
      ensures row[b] == Leg(g, g.nodes[s], b)
    {
      var j := IndexOf(g.nodes, b);
    }
  }

  /** Entering the Leg to the node at t extends a row filled for the nodes before t. */
  lemma RowStep(g: Graph, s: nat, t: nat, row: map<Node, Option<nat>>, row': map<Node, Option<nat>>)
    requires s < |g.nodes| && t < |g.nodes|
    requires forall b :: b in row <==> b in g.nodes[..t]
    requires forall j :: 0 <= j < t ==> g.nodes[j] in row && row[g.nodes[j]] == Leg(g, g.nodes[s], g.nodes[j])
    requires row' == row[g.nodes[t] := Leg(g, g.nodes[s], g.nodes[t])]
    ensures forall b :: b in row' <==> b in g.nodes[..t + 1]
    ensures forall j :: 0 <= j < t + 1 ==> g.nodes[j] in row' && row'[g.nodes[j]] == Leg(g, g.nodes[s], g.nodes[j])
  {
    var prefix := g.nodes[..t + 1];
    assert prefix == g.nodes[..t] + [g.nodes[t]];
    forall b
      ensures b in row' <==> b in prefix
    {
      assert b in prefix <==> b in g.nodes[..t] || b == g.nodes[t];
    }
  }

  /** Fills the nested table row by row from one Floyd-Warshall matrix. */
  method BuildDistanceTable(g: Graph) returns (table: Table)
    requires ValidGraph(g)
    ensures IsDistanceTable(g, table) && table == TableOf(g)
  {
    var m := FloydWarshall(g);
    var n := |g.nodes|;
    table := map[];
    var s := 0;
    while s < n
      invariant s <= n
      invariant forall i, j :: 0 <= i < n && 0 <= j < n ==> m[i, j] == Dist(g, i, j)
      invariant forall a :: a in table <==> a in g.nodes[..s]
      invariant forall i :: 0 <= i < s ==> g.nodes[i] in table && IsRow(g, g.nodes[i], table[g.nodes[i]])
    {
      var row := BuildRow(g, m, s);
      table := table[g.nodes[s] := row];
      assert g.nodes[..s + 1] == g.nodes[..s] + [g.nodes[s]];
      s := s + 1;
    }
    assert g.nodes[..n] == g.nodes;
    forall a | a in g.nodes
      ensures IsRow(g, a, table[a])
    {
      var i := IndexOf(g.nodes, a);
    }
    DistanceTableUnique(g, table);
  }

  /** Every row of the table has an entry for every node the table has a row for. */
  predicate Square(table: Table)
  {
    forall a, b :: a in table && b in table ==> b in table[a]
  }

  /** The distance table of g, row by row. */
  function TableOf(g: Graph): (table: Table)
    ensures forall a :: a in table <==> a in g.nodes
    ensures Square(table)
  {
    map a | a in g.nodes :: RowOf(g, a)
  }

  function RowOf(g: Graph, a: Node): (row: map<Node, Option<nat>>)
    requires a in g.nodes
    ensures forall b :: b in row <==> b in g.nodes
  {
    map b | b in g.nodes :: Leg(g, a, b)
  }

  /** TableOf is a square distance table of g. */
  lemma TableOfIsDistanceTable(g: Graph)
    ensures IsDistanceTable(g, TableOf(g)) && Square(TableOf(g))
  {
    var t := TableOf(g);
    forall a | a in g.nodes
      ensures IsRow(g, a, t[a])
    {
      RowOfIsRow(g, a);
    }
  }

  lemma RowOfIsRow(g: Graph, a: Node)
    requires a in g.nodes
    ensures IsRow(g, a, RowOf(g, a))
  {
  }

  /** A distance table of g is TableOf(g): the table is determined by g. */
  lemma DistanceTableUnique(g: Graph, table: Table)
    requires IsDistanceTable(g, table)
    ensures table == TableOf(g)
  {
    var t := TableOf(g);
    forall a | a in g.nodes
      ensures table[a] == t[a]
    {
      RowUnique(g, a, table[a], t[a]);
    }
  }

  lemma RowUnique(g: Graph, a: Node, r1: map<Node, Option<nat>>, r2: map<Node, Option<nat>>)
    requires a in g.nodes && IsRow(g, a, r1) && IsRow(g, a, r2)
    ensures r1 == r2
  {
  }

  /** What a distance table means, stated without the Floyd-Warshall
      recurrence: every node with a row is a node of g and every entry is
      the shortest-path length between its two nodes. */
  ghost predicate ShortestTable(g: Graph, table: Table)
  {
    && (forall a :: a in table ==> a in g.nodes)
    && forall a, b :: a in table && b in table ==>
         b in table[a] && IsShortestDistance(g, IndexOf(g.nodes, a), IndexOf(g.nodes, b), table[a][b])
  }

  /** A distance table of g is square and holds shortest-path lengths. */
  lemma DistanceTableIsShortest(g: Graph, table: Table)
    requires IsDistanceTable(g, table)
    ensures ShortestTable(g, table) && Square(table)
  {
    forall a, b | a in table && b in table
      ensures b in table[a] && IsShortestDistance(g, IndexOf(g.nodes, a), IndexOf(g.nodes, b), table[a][b])
    {
      TableEntries(g, table, a, b);
    }
  }

  /** In a graph without edges no node reaches another: every entry off
      the diagonal is unreachable (what every path query failing gives). */
  lemma EdgelessTableUnreachable(g: Graph)
    requires g.edges == []
    ensures forall a, b :: a in TableOf(g) && b in TableOf(g) && a != b ==> TableOf(g)[a][b].None?
  {
    var t: Table := TableOf(g);
    TableOfIsDistanceTable(g);
    forall a: Node, b: Node | a in t && b in t && a != b
      ensures t[a][b].None?
    {
      TableLookup(g, t, a, b);
      NoEdgesUnreachable(g, IndexOf(g.nodes, a), IndexOf(g.nodes, b));
    }
  }

  /** When every node reaches every node, no entry of the table is unreachable. */
  lemma ConnectedTableReachable(g: Graph)
    requires forall i, j :: 0 <= i < |g.nodes| && 0 <= j < |g.nodes| ==> Dist(g, i, j).Some?
    ensures forall a, b :: a in TableOf(g) && b in TableOf(g) ==> TableOf(g)[a][b].Some?
  {
    var t: Table := TableOf(g);
    forall a: Node, b: Node | a in t && b in t
      ensures t[a][b].Some?
    {
      TableOfEntry(g, a, b);
    }
  }

  /** Each entry of TableOf(g) is the Leg of its pair. */
  lemma TableOfEntry(g: Graph, a: Node, b: Node)
    requires a in g.nodes && b in g.nodes
    ensures a in TableOf(g) && b in TableOf(g)[a] && TableOf(g)[a][b] == Leg(g, a, b)
  {
    assert TableOf(g)[a] == RowOf(g, a);
  }
}
