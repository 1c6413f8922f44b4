/** The exact route search of `assign_driver`: the stores an order needs
    become graph nodes, every ordering of them is priced as a tour
    driver -> stores -> customer through the distance table, an ordering with
    an unreachable leg is discarded, and the first strictly cheapest ordering
    is kept. */
module RouteSearch {
  import opened Optional
  import opened Graphs
  import opened ShortestPaths
  import opened DistanceTable
  import opened Orderings

  /** The search runs only for orders with at most this many stores. */
  const ExactSearchLimit: nat := 4

  /** `chr(64 + id)` yields a character (below the surrogate range). */
  predicate ValidStoreId(id: int)
  {
    0 <= 64 + id < 0xD800
  }

  /** The node of store `id`: "Store " followed by chr(64 + id), so 1, 2, 3
      become "Store A", "Store B", "Store C". */
  function StoreNode(id: int): (r: Node)
    requires ValidStoreId(id)
    ensures |r| == 7 && r[..6] == "Store "
  {
    "Store " + [(64 + id) as char]
  }

  /** The store id a store node stands for (the inverse of StoreNode). */
  function StoreIdOf(n: Node): int
  {
    if |n| == 7 then n[6] as int - 64 else 0
  }

  /** Store nodes map back to their ids, so distinct ids give distinct nodes. */
  lemma StoreNodeRoundTrip(id: int, id': int)
    requires ValidStoreId(id) && ValidStoreId(id')
    ensures StoreIdOf(StoreNode(id)) == id
    ensures StoreNode(id) == StoreNode(id') ==> id == id'
  {
    assert StoreNode(id)[6] == (64 + id) as char;
    assert StoreNode(id')[6] == (64 + id') as char;
  }

  /** The node of the customer: "Customer " followed by the last character
      of the customer id. */
  function CustomerNode(customerId: string): (r: Node)
    requires |customerId| > 0
    ensures |r| > 9 && r[..9] == "Customer " && r[|r| - 1] == customerId[|customerId| - 1]
  {
    "Customer " + [customerId[|customerId| - 1]]
  }

  /** A customer node is never a store node. */
  lemma CustomerIsNotStore(customerId: string, id: int)
    requires |customerId| > 0 && ValidStoreId(id)
    ensures CustomerNode(customerId) != StoreNode(id)
  {
    assert |CustomerNode(customerId)| == 10;
  }

  /** The nodes of the listed stores, in order. */
  function StoreNodes(ids: seq<int>): (r: seq<Node>)
    requires forall k :: 0 <= k < |ids| ==> ValidStoreId(ids[k])
    ensures |r| == |ids|
    ensures forall k :: 0 <= k < |ids| ==> r[k] == StoreNode(ids[k])
  {
    seq(|ids|, k requires 0 <= k < |ids| => StoreNode(ids[k]))
  }

  /** Mapping the store nodes back gives the ids again. */
  lemma StoreNodesRoundTrip(ids: seq<int>)
    requires forall k :: 0 <= k < |ids| ==> ValidStoreId(ids[k])
    ensures MapSeq(StoreIdOf, StoreNodes(ids)) == ids
  {
    forall k | 0 <= k < |ids|
      ensures MapSeq(StoreIdOf, StoreNodes(ids))[k] == ids[k]
    {
      StoreNodeRoundTrip(ids[k], ids[k]);
    }
  }

  /** Every node of the route has a row in the table. */
  predicate NodesIn(table: Table, route: seq<Node>)
  {
    forall k :: 0 <= k < |route| ==> route[k] in table
  }

  /** The length of a route through the distance table: the sum of its legs,
      None as soon as one leg is unreachable. */
  function PathCost(table: Table, route: seq<Node>): (r: Option<nat>)
    requires Square(table) && NodesIn(table, route)
    ensures r.Some? <==> forall t :: 0 <= t < |route| - 1 ==> table[route[t]][route[t + 1]].Some?
    decreases |route|
  {
    if |route| <= 1 then Some(0)
    else
      var front := route[..|route| - 1];
      assert forall t :: 0 <= t < |front| ==> front[t] == route[t];
      AddOpt(PathCost(table, front), table[route[|route| - 2]][route[|route| - 1]])
  }

  /** The tour of one store ordering: from the driver's node to the first
      store, between consecutive stores, from the last store to the customer. */
  function TourCost(table: Table, start: Node, perm: seq<Node>, dest: Node): (r: Option<nat>)
    requires Square(table) && start in table && dest in table && NodesIn(table, perm)
    ensures perm == [] ==> r == table[start][dest]
    ensures r.Some? ==> table[start][if perm == [] then dest else perm[0]].Some?
    ensures r.Some? ==> table[if perm == [] then start else perm[|perm| - 1]][dest].Some?
  {
    var route := [start] + perm + [dest];
    assert perm == [] ==> route[..1] == [start] && PathCost(table, route[..1]) == Some(0);
    assert route[0] == start && route[|perm| + 1] == dest;
    assert route[1] == (if perm == [] then dest else perm[0]);
    assert route[|perm|] == (if perm == [] then start else perm[|perm| - 1]);
    PathCost(table, route)
  }

  /** A route priced through a distance table of g is a real walk: when every
      leg is reachable the route's length is the weight of a walk of g from
      its first node to its last (the shortest walks of its legs, joined end
      to end). */
  ghost function RouteWalk(g: Graph, table: Table, route: seq<Node>): (p: seq<nat>)
    requires ShortestTable(g, table) && Square(table) && NodesIn(table, route)
    requires |route| >= 1 && PathCost(table, route).Some?
    ensures IsWalk(g, p, IndexOf(g.nodes, route[0]), IndexOf(g.nodes, route[|route| - 1]))
    ensures WalkWeight(g, p) == PathCost(table, route).value
    decreases |route|
  {
    var i := IndexOf(g.nodes, route[0]);
    if |route| == 1 then
      assert IsWalk(g, [i], i, i);
      [i]
    else
      var front := route[..|route| - 1];
      assert forall t :: 0 <= t < |front| ==> front[t] == route[t];
      var a, b := route[|route| - 2], route[|route| - 1];
      var p := RouteWalk(g, table, front);
      var q := LegWalk(g, table, a, b);
      WalkConcat(g, p, q, i, IndexOf(g.nodes, a), IndexOf(g.nodes, b));
      p + q[1..]
  }

  /** A shortest walk of g realising a reachable table entry. */
  ghost function LegWalk(g: Graph, table: Table, a: Node, b: Node): (q: seq<nat>)
    requires ShortestTable(g, table) && Square(table) && a in table && b in table && table[a][b].Some?
    ensures a in g.nodes && b in g.nodes
    ensures IsWalk(g, q, IndexOf(g.nodes, a), IndexOf(g.nodes, b)) && WalkWeight(g, q) == table[a][b].value
  {
    assert IsShortestDistance(g, IndexOf(g.nodes, a), IndexOf(g.nodes, b), table[a][b]);
    var q :| IsWalk(g, q, IndexOf(g.nodes, a), IndexOf(g.nodes, b)) && WalkWeight(g, q) == table[a][b].value;
    q
  }

  /** No tour is shorter than the direct shortest path from the driver's node
      to the customer. */
  lemma TourAtLeastDirect(g: Graph, table: Table, start: Node, perm: seq<Node>, dest: Node)
    requires ShortestTable(g, table) && Square(table)
    requires start in table && dest in table && NodesIn(table, perm)
    requires TourCost(table, start, perm, dest).Some?
    ensures table[start][dest].Some? && table[start][dest].value <= TourCost(table, start, perm, dest).value
  {
    var route := [start] + perm + [dest];
    var p := RouteWalk(g, table, route);
    assert IsShortestDistance(g, IndexOf(g.nodes, start), IndexOf(g.nodes, dest), table[start][dest]);
  }

  /** The ordering kept by the search and its tour length. */
  datatype Best = Best(route: seq<Node>, distance: nat)

  /** costs[k] is reachable, no earlier entry is as small and no entry at
      all is smaller: the first minimum of the reachable entries. */
  ghost predicate FirstMinimumAt(costs: seq<Option<nat>>, k: int)
  {
    && 0 <= k < |costs|
    && costs[k].Some?
    && (forall k' :: 0 <= k' < k && costs[k'].Some? ==> costs[k'].value > costs[k].value)
    && (forall k' :: 0 <= k' < |costs| && costs[k'].Some? ==> costs[k].value <= costs[k'].value)
  }

  /** Scans the costs in order, replacing the kept (index, cost) only by a
      strictly smaller reachable cost (the source's `current_distance <
      best_distance`, with None as its initial `float('inf')`). */
  function Scan(costs: seq<Option<nat>>): (r: Option<(nat, nat)>)
    ensures r.None? <==> forall k :: 0 <= k < |costs| ==> costs[k].None?
    ensures r.Some? ==> FirstMinimumAt(costs, r.value.0) && costs[r.value.0] == Some(r.value.1)
    decreases |costs|
  {
    if costs == [] then None
    else
      var n := |costs| - 1;
      var front := costs[..n];
      assert forall k :: 0 <= k < n ==> front[k] == costs[k];
      var prev := Scan(front);
      if costs[n].Some? && (prev.None? || costs[n].value < prev.value.1) then Some((n, costs[n].value))
      else prev
  }

  /** Every ordering consists of nodes of the table. */
  predicate AllNodesIn(table: Table, perms: seq<seq<Node>>)
  {
    forall k :: 0 <= k < |perms| ==> NodesIn(table, perms[k])
  }

  /** The tour length of every ordering, in order. */
  function Tours(table: Table, start: Node, perms: seq<seq<Node>>, dest: Node): (r: seq<Option<nat>>)
    requires Square(table) && start in table && dest in table && AllNodesIn(table, perms)
    ensures |r| == |perms|
    ensures forall k :: 0 <= k < |perms| ==> r[k] == TourCost(table, start, perms[k], dest)
  {
    seq(|perms|, k requires 0 <= k < |perms| => TourCost(table, start, perms[k], dest))
  }

  /** The ordering the search keeps, with its length. */
  function BestOf(table: Table, start: Node, perms: seq<seq<Node>>, dest: Node): (r: Option<Best>)
    requires Square(table) && start in table && dest in table && AllNodesIn(table, perms)
    ensures r.Some? ==> exists k :: && 0 <= k < |perms| && perms[k] == r.value.route
                                    && TourCost(table, start, perms[k], dest) == Some(r.value.distance)
  {
    match Scan(Tours(table, start, perms, dest))
    case None => None
    case Some((k, d)) => Some(Best(perms[k], d))
  }

  /** The search keeps nothing exactly when no ordering is fully reachable;
      otherwise it keeps the first ordering of least tour length, with that
      length. */
  lemma BestOfIsFirstMinimum(table: Table, start: Node, perms: seq<seq<Node>>, dest: Node)
    requires Square(table) && start in table && dest in table && AllNodesIn(table, perms)
    ensures var r := BestOf(table, start, perms, dest);
      && (r.None? <==> forall k :: 0 <= k < |perms| ==> TourCost(table, start, perms[k], dest).None?)
      && (r.Some? ==> exists k :: && FirstMinimumAt(Tours(table, start, perms, dest), k)
                                  && perms[k] == r.value.route
                                  && TourCost(table, start, perms[k], dest) == Some(r.value.distance))
  {
    var costs := Tours(table, start, perms, dest);
    if Scan(costs).Some? {
      var k := Scan(costs).value.0;
      assert perms[k] == BestOf(table, start, perms, dest).value.route;
    }
  }

  /** Every ordering of a sequence of table nodes consists of table nodes
      and has its length. */
  lemma PermutationsNodesIn(table: Table, stores: seq<Node>)
    requires NodesIn(table, stores)
    ensures AllNodesIn(table, Permutations(stores))
    ensures forall k :: 0 <= k < |Permutations(stores)| ==> |Permutations(stores)[k]| == |stores|
  {
    PermutationsSound(stores);
    forall k | 0 <= k < |Permutations(stores)|
      ensures NodesIn(table, Permutations(stores)[k]) && |Permutations(stores)[k]| == |stores|
    {
      var p := Permutations(stores)[k];
      assert p in Permutations(stores);
      assert multiset(p) == multiset(stores);
      assert |p| == |multiset(p)|;
      forall t | 0 <= t < |p|
        ensures p[t] in table
      {
        assert p[t] in multiset(p);
      }
    }
  }

  /** The orderings of the stores enumerated are exactly the sequences with
      the same elements, and they consist of table nodes. */
  lemma OrderingEnumerated(table: Table, stores: seq<Node>, p: seq<Node>)
    requires NodesIn(table, stores) && multiset(p) == multiset(stores)
    ensures NodesIn(table, p) && p in Permutations(stores)
  {
    PermutationsComplete(stores, p);
    forall t | 0 <= t < |p|
      ensures p[t] in table
    {
      assert p[t] in multiset(p);
    }
  }

  /** The search over all orderings of the stores finds nothing exactly
      when no ordering of the stores is fully reachable. */
  lemma SearchFindsNothing(table: Table, start: Node, stores: seq<Node>, dest: Node)
    requires Square(table) && start in table && dest in table && NodesIn(table, stores)
    ensures (PermutationsNodesIn(table, stores);
      BestOf(table, start, Permutations(stores), dest).None? <==>
        forall p :: multiset(p) == multiset(stores) ==> NodesIn(table, p) && TourCost(table, start, p, dest).None?)
  {
    var perms := Permutations(stores);
    PermutationsNodesIn(table, stores);
    PermutationsSound(stores);
    BestOfIsFirstMinimum(table, start, perms, dest);
    forall p | multiset(p) == multiset(stores)
      ensures NodesIn(table, p) && p in perms
    {
      OrderingEnumerated(table, stores, p);
    }
    forall k | 0 <= k < |perms|
      ensures multiset(perms[k]) == multiset(stores)
    {
      assert perms[k] in perms;
    }
  }

  /** The route the search keeps is an ordering of the stores, fully
      reachable at the kept distance, and no ordering of the stores has a
      shorter tour. */
  lemma SearchOptimal(table: Table, start: Node, stores: seq<Node>, dest: Node)
    requires Square(table) && start in table && dest in table && NodesIn(table, stores)
    ensures (PermutationsNodesIn(table, stores);
      var r := BestOf(table, start, Permutations(stores), dest);
      r.Some? ==>
        && multiset(r.value.route) == multiset(stores)
        && NodesIn(table, r.value.route)
        && TourCost(table, start, r.value.route, dest) == Some(r.value.distance)
        && forall p :: multiset(p) == multiset(stores) ==>
             NodesIn(table, p) &&
             (TourCost(table, start, p, dest).Some? ==> r.value.distance <= TourCost(table, start, p, dest).value))
  {
    var perms := Permutations(stores);
    PermutationsNodesIn(table, stores);
    PermutationsSound(stores);
    BestOfIsFirstMinimum(table, start, perms, dest);
    var r := BestOf(table, start, perms, dest);
    if r.Some? {
      var costs := Tours(table, start, perms, dest);
      var k :| && FirstMinimumAt(costs, k)
               && perms[k] == r.value.route
               && TourCost(table, start, perms[k], dest) == Some(r.value.distance);
      assert perms[k] in perms;
      forall p | multiset(p) == multiset(stores)
        ensures NodesIn(table, p)
        ensures TourCost(table, start, p, dest).Some? ==> r.value.distance <= TourCost(table, start, p, dest).value
      {
        OrderingEnumerated(table, stores, p);
        MinimumBeatsEach(table, start, perms, dest, k, p);
      }
    }
  }

  /** The first minimum of the tours is at most the tour of every ordering. */
  lemma MinimumBeatsEach(table: Table, start: Node, perms: seq<seq<Node>>, dest: Node, k: nat, p: seq<Node>)
    requires Square(table) && start in table && dest in table && AllNodesIn(table, perms)
    requires FirstMinimumAt(Tours(table, start, perms, dest), k) && p in perms
    ensures NodesIn(table, p)
    ensures TourCost(table, start, p, dest).Some? ==>
      Tours(table, start, perms, dest)[k].value <= TourCost(table, start, p, dest).value
  {
    var k' :| 0 <= k' < |perms| && perms[k'] == p;
  }

  /** One more cost scanned: the kept entry changes only to a reachable
      cost strictly smaller than the kept one. */
  lemma ScanStep(costs: seq<Option<nat>>, n: nat)
    requires n < |costs|
    ensures var prev := Scan(costs[..n]);
            Scan(costs[..n + 1]) ==
              if costs[n].Some? && (prev.None? || costs[n].value < prev.value.1) then Some((n, costs[n].value))
              else prev
  {
    assert costs[..n + 1][..n] == costs[..n];
  }

  /** The tours of a prefix of the orderings are a prefix of the tours. */
  lemma ToursPrefix(table: Table, start: Node, perms: seq<seq<Node>>, dest: Node, n: nat)
    requires Square(table) && start in table && dest in table && AllNodesIn(table, perms)
    requires n <= |perms|
    ensures AllNodesIn(table, perms[..n])
    ensures Tours(table, start, perms[..n], dest) == Tours(table, start, perms, dest)[..n]
  {
    assert forall k :: 0 <= k < n ==> perms[..n][k] == perms[k];
  }

  /** One more ordering scanned: the kept ordering changes only to a fully
      reachable ordering strictly shorter than the kept one. */
  lemma BestOfStep(table: Table, start: Node, perms: seq<seq<Node>>, dest: Node, n: nat)
    requires Square(table) && start in table && dest in table && AllNodesIn(table, perms)
    requires n < |perms|
    ensures AllNodesIn(table, perms[..n]) && AllNodesIn(table, perms[..n + 1])
    ensures var prev := BestOf(table, start, perms[..n], dest);
            var c := TourCost(table, start, perms[n], dest);
            BestOf(table, start, perms[..n + 1], dest) ==
              if c.Some? && (prev.None? || c.value < prev.value.distance) then Some(Best(perms[n], c.value))
              else prev
  {
    ToursPrefix(table, start, perms, dest, n);
    ToursPrefix(table, start, perms, dest, n + 1);
    var costs := Tours(table, start, perms, dest);
    ScanStep(costs, n);
    var prev := Scan(costs[..n]);
    if prev.Some? {
      assert perms[..n][prev.value.0] == perms[..n + 1][prev.value.0];
    }
  }

  /** Prices one ordering through the table as the loop body does: the
      first leg, then the legs between consecutive stores, then the leg to
      the customer, giving up at the first unreachable one. */
  method MeasureTour(table: Table, start: Node, perm: seq<Node>, dest: Node) returns (cost: Option<nat>)
    requires Square(table) && start in table && dest in table && NodesIn(table, perm) && |perm| >= 1
    ensures cost == TourCost(table, start, perm, dest)
  {
    ghost var route := [start] + perm + [dest];
    ghost var n := |route|;
    assert n == |perm| + 2 && route[0] == start && route[1] == perm[0] && route[n - 1] == dest;
    assert NodesIn(table, route);
    var first := table[start][perm[0]];
    if first.None? {
      assert table[route[0]][route[1]].None?;
      return None;
    }
    var current := first.value;
    PathCostStep(table, route, 1, 0, current);
    var i := 0;
    while i < |perm| - 1
      invariant 0 <= i <= |perm| - 1
      invariant PathCost(table, route[..i + 2]) == Some(current)
    {
      var leg := table[perm[i]][perm[i + 1]];
      assert route[i + 1] == perm[i] && route[i + 2] == perm[i + 1];
      if leg.None? {
        assert table[route[i + 1]][route[i + 2]].None?;
        return None;
      }
      PathCostStep(table, route, i + 2, current, leg.value);
      current := current + leg.value;
      i := i + 1;
    }
    var last := table[perm[|perm| - 1]][dest];
    assert route[n - 2] == perm[|perm| - 1];
    if last.None? {
      assert table[route[n - 2]][route[n - 1]].None?;
      return None;
    }
    cost := Some(current + last.value);
    PathCostStep(table, route, n - 1, current, last.value);
    assert route[..n] == route;
  }

  /** A route prefix of length c followed by a reachable leg of length l
      has length c + l. */
  lemma PathCostStep(table: Table, route: seq<Node>, m: nat, c: nat, l: nat)
    requires Square(table) && NodesIn(table, route) && 1 <= m < |route|
    requires PathCost(table, route[..m]) == Some(c) && table[route[m - 1]][route[m]] == Some(l)
    ensures PathCost(table, route[..m + 1]) == Some(c + l)
  {
    assert route[..m + 1][..m] == route[..m];
  }

  /** The permutation loop: every ordering of the stores is priced in
      enumeration order and the first strictly shortest one is kept. */
  method SearchRoutes(table: Table, start: Node, stores: seq<Node>, dest: Node) returns (best: Option<Best>)
    requires Square(table) && start in table && dest in table && NodesIn(table, stores) && |stores| >= 1
    ensures (PermutationsNodesIn(table, stores); best == BestOf(table, start, Permutations(stores), dest))
  {
    var perms := Permutations(stores);
    PermutationsNodesIn(table, stores);
    best := None;
    var k := 0;
    while k < |perms|
      invariant k <= |perms|
      invariant AllNodesIn(table, perms[..k])
      invariant best == BestOf(table, start, perms[..k], dest)
    {
      var cost := MeasureTour(table, start, perms[k], dest);
      BestOfStep(table, start, perms, dest, k);
      if cost.Some? && (best.None? || cost.value < best.value.distance) {
        best := Some(Best(perms[k], cost.value));
      }
      k := k + 1;
    }
    assert perms[..k] == perms;
  }
}
