/** `assign_driver`: for every delivery agent, decide whether they are busy,
    place them on a graph node, price the best store ordering from there,
    and finally pick the least (priority, distance, username) candidate. */
module DriverSelection {
  import opened Optional
  import opened Graphs
  import opened DistanceTable
  import opened Orderings
  import opened Users
  import opened RouteSearch

  /** An order already in the system, as far as busy detection reads it. */
  datatype OrderRecord = OrderRecord(
    deliveryAgent: Option<string>,
    status: string,
    delivered: bool,
    customerLocation: Option<Coord>)

  /** The order to assign: the customer id and the ids of the stores it has
      items from (the keys of its items-by-store dictionary, in order). The
      customer's coordinate is carried but not read by the assignment. */
  datatype OrderRequest = OrderRequest(customerId: string, storeIds: seq<int>, customerLocation: Option<Coord>)

  /** What the assignment reads: the graph, the node positions (dictionary
      order), the users and the existing orders (dictionary order). */
  datatype World = World(graph: Graph, positions: seq<(Node, Coord)>, users: seq<User>, orders: seq<OrderRecord>)

  /** The inputs for which the assignment raises no error: every start node
      a driver can get, every store node and the customer node are graph
      nodes, the customer id is not empty and the store ids are distinct
      dictionary keys that `chr(64 + id)` accepts. */
  predicate WellFormed(w: World, order: OrderRequest)
  {
    && ValidGraph(w.graph)
    && AdminOffice in w.graph.nodes
    && (forall k :: 0 <= k < |w.positions| ==> w.positions[k].0 in w.graph.nodes)
    && |order.customerId| > 0
    && CustomerNode(order.customerId) in w.graph.nodes
    && (forall k :: 0 <= k < |order.storeIds| ==> ValidStoreId(order.storeIds[k]))
    && (forall k :: 0 <= k < |order.storeIds| ==> StoreNode(order.storeIds[k]) in w.graph.nodes)
    && (forall k, k' :: 0 <= k < k' < |order.storeIds| ==> order.storeIds[k] != order.storeIds[k'])
  }

  // ---------------------------------------------------------------------
  // Busy detection and start node

  /** The order is assigned to this driver and not yet delivered. */
  predicate IsActiveFor(o: OrderRecord, username: string)
  {
    o.deliveryAgent == Some(username) && o.status != "delivered" && !o.delivered
  }

  /** The first order, in iteration order, that keeps the driver busy. */
  function AssignedOrder(orders: seq<OrderRecord>, username: string): (r: Option<OrderRecord>)
    ensures r.None? <==> forall k :: 0 <= k < |orders| ==> !IsActiveFor(orders[k], username)
    ensures r.Some? ==> exists k :: && 0 <= k < |orders| && orders[k] == r.value
                                    && IsActiveFor(orders[k], username)
                                    && forall k' :: 0 <= k' < k ==> !IsActiveFor(orders[k'], username)
  {
    if orders == [] then None
    else if IsActiveFor(orders[0], username) then Some(orders[0])
    else
      var r := AssignedOrder(orders[1..], username);
      assert forall k :: 0 < k < |orders| ==> orders[1..][k - 1] == orders[k];
      r
  }

  /** The node whose position equals the coordinate, the first in
      dictionary order; "Admin Office" when none does. */
  function NodeAt(positions: seq<(Node, Coord)>, loc: Option<Coord>): (r: Node)
    ensures (forall k :: 0 <= k < |positions| ==> Some(positions[k].1) != loc) ==> r == AdminOffice
    ensures (exists k :: 0 <= k < |positions| && Some(positions[k].1) == loc) ==>
      exists k :: && 0 <= k < |positions| && Some(positions[k].1) == loc && r == positions[k].0
                  && forall k' :: 0 <= k' < k ==> Some(positions[k'].1) != loc
  {
    if positions == [] then AdminOffice
    else if Some(positions[0].1) == loc then positions[0].0
    else
      var r := NodeAt(positions[1..], loc);
      assert forall k :: 0 < k < |positions| ==> positions[1..][k - 1] == positions[k];
      r
  }

  /** The position scan with its early exit. */
  method LocateNode(positions: seq<(Node, Coord)>, loc: Option<Coord>) returns (node: Node)
    ensures node == NodeAt(positions, loc)
  {
    node := AdminOffice;
    var k := 0;
    while k < |positions|
      invariant k <= |positions|
      invariant NodeAt(positions, loc) == NodeAt(positions[k..], loc)
    {
      if Some(positions[k].1) == loc {
        node := positions[k].0;
        return;
      }
      assert positions[k..][1..] == positions[k + 1..];
      k := k + 1;
    }
  }

  /** A busy driver has priority 2 and starts at the customer location of
      their current order; any other driver has priority 1 and starts at
      their own location. */
  function StartOf(w: World, driver: User): (r: (nat, Node))
    ensures r.0 == 1 || r.0 == 2
    ensures r.1 == AdminOffice || exists k :: 0 <= k < |w.positions| && w.positions[k].0 == r.1
  {
    var busyOrder := AssignedOrder(w.orders, driver.id);
    if busyOrder.Some? then (2, NodeAt(w.positions, busyOrder.value.customerLocation))
    else (1, NodeAt(w.positions, driver.location))
  }

  /** Busy detection and the coordinate lookup for one driver. */
  method DriverStart(w: World, driver: User) returns (priority: nat, start: Node)
    ensures (priority, start) == StartOf(w, driver)
  {
    var busyOrder := AssignedOrder(w.orders, driver.id);
    var location: Option<Coord>;
    if busyOrder.Some? {
      location, priority := busyOrder.value.customerLocation, 2;
    } else {
      location, priority := driver.location, 1;
    }
    start := LocateNode(w.positions, location);
  }

  /** A start node is a node of the graph. */
  lemma StartInGraph(w: World, order: OrderRequest, driver: User)
    requires WellFormed(w, order)
    ensures StartOf(w, driver).1 in w.graph.nodes
  {
  }

  // ---------------------------------------------------------------------
  // Evaluating one driver

  /** The heap entry (priority, total distance, username). */
  datatype Candidate = Candidate(priority: nat, distance: nat, username: string)

  /** One driver's outcome: skipped, or pushed with the store ids in visiting order. */
  datatype Evaluation = Skipped | Kept(candidate: Candidate, route: seq<int>)

  /** The driver's start reaches none of the stores (true for no stores). */
  predicate ReachesNoStore(table: Table, start: Node, stores: seq<Node>)
    requires Square(table) && start in table && NodesIn(table, stores)
  {
    forall k :: 0 <= k < |stores| ==> table[start][stores[k]].None?
  }

  /** The table has a row for exactly the nodes of g, each with an entry
      for every node of g. */
  ghost predicate TableFor(g: Graph, table: Table)
  {
    Square(table) && forall a :: a in table <==> a in g.nodes
  }

  lemma StoreNodesIn(w: World, order: OrderRequest, table: Table)
    requires WellFormed(w, order) && TableFor(w.graph, table)
    ensures NodesIn(table, StoreNodes(order.storeIds))
  {
  }

  /** The outcome of the loop body for one driver, given the distance table. */
  function Evaluate(w: World, order: OrderRequest, table: Table, driver: User): (r: Evaluation)
    requires WellFormed(w, order) && TableFor(w.graph, table)
    ensures r.Kept? ==> 0 < |order.storeIds| <= ExactSearchLimit && |r.route| == |order.storeIds|
  {
    var (priority, start) := StartOf(w, driver);
    var stores := StoreNodes(order.storeIds);
    var dest := CustomerNode(order.customerId);
    StoreNodesIn(w, order, table);
    if ReachesNoStore(table, start, stores) then Skipped
    else if |stores| > ExactSearchLimit then Skipped
    else
      PermutationsNodesIn(table, stores);
      match BestOf(table, start, Permutations(stores), dest)
      case None => Skipped
      case Some(best) => Kept(Candidate(priority, best.distance, driver.id), MapSeq(StoreIdOf, best.route))
  }

  /** The loop body for one driver: a fresh distance table, then the
      evaluation through it. */
  method EvaluateDriver(w: World, order: OrderRequest, stores: seq<Node>, mapping: map<Node, int>, driver: User)
    returns (ev: Evaluation)
    requires WellFormed(w, order)
    requires stores == StoreNodes(order.storeIds)
    requires forall k :: 0 <= k < |order.storeIds| ==>
      StoreNode(order.storeIds[k]) in mapping && mapping[StoreNode(order.storeIds[k])] == order.storeIds[k]
    ensures ev == Evaluate(w, order, TableOf(w.graph), driver)
  {
    var table := BuildDistanceTable(w.graph);
    ev := EvaluateWith(w, order, table, stores, mapping, driver);
  }

  /** Busy detection, start node, the reachability pre-check, the
      permutation search and the conversion of the kept store nodes back
      to store ids through the mapping built from the order. */
  method EvaluateWith(w: World, order: OrderRequest, table: Table, stores: seq<Node>, mapping: map<Node, int>, driver: User)
    returns (ev: Evaluation)
    requires WellFormed(w, order) && TableFor(w.graph, table)
    requires stores == StoreNodes(order.storeIds)
    requires forall k :: 0 <= k < |order.storeIds| ==>
      StoreNode(order.storeIds[k]) in mapping && mapping[StoreNode(order.storeIds[k])] == order.storeIds[k]
    ensures ev == Evaluate(w, order, table, driver)
  {
    var priority, start := DriverStart(w, driver);
    StoreNodesIn(w, order, table);
    StartInGraph(w, order, driver);
    var dest := CustomerNode(order.customerId);
    if ReachesNoStore(table, start, stores) {
      return Skipped;
    }
    if |stores| > ExactSearchLimit {
      return Skipped;
    }
    var best := SearchRoutes(table, start, stores, dest);
    if best.None? {
      return Skipped;
    }
    SearchOptimal(table, start, stores, dest);
    var ids := StoreIdsOfRoute(order.storeIds, mapping, best.value.route);
    ev := Kept(Candidate(priority, best.value.distance, driver.id), ids);
  }

  /** The kept route's store nodes turned back into store ids through the
      mapping built from the order. */
  method StoreIdsOfRoute(storeIds: seq<int>, mapping: map<Node, int>, route: seq<Node>) returns (ids: seq<int>)
    requires forall k :: 0 <= k < |storeIds| ==> ValidStoreId(storeIds[k])
    requires forall k :: 0 <= k < |storeIds| ==>
      StoreNode(storeIds[k]) in mapping && mapping[StoreNode(storeIds[k])] == storeIds[k]
    requires multiset(route) == multiset(StoreNodes(storeIds))
    ensures ids == MapSeq(StoreIdOf, route)
  {
    MappingInvertsStoreNode(storeIds, mapping, route);
    ids := seq(|route|, k requires 0 <= k < |route| && route[k] in mapping => mapping[route[k]]);
  }

  /** On an ordering of the order's store nodes, the mapping built from
      the order agrees with StoreIdOf. */
  lemma MappingInvertsStoreNode(ids: seq<int>, mapping: map<Node, int>, route: seq<Node>)
    requires forall k :: 0 <= k < |ids| ==> ValidStoreId(ids[k])
    requires forall k :: 0 <= k < |ids| ==> StoreNode(ids[k]) in mapping && mapping[StoreNode(ids[k])] == ids[k]
    requires multiset(route) == multiset(StoreNodes(ids))
    ensures forall t :: 0 <= t < |route| ==> route[t] in mapping && mapping[route[t]] == StoreIdOf(route[t])
  {
    forall t | 0 <= t < |route|
      ensures route[t] in mapping && mapping[route[t]] == StoreIdOf(route[t])
    {
      assert route[t] in multiset(route);
      InStoreNodes(ids, route[t]);
      var k :| 0 <= k < |ids| && route[t] == StoreNode(ids[k]);
      StoreNodeRoundTrip(ids[k], ids[k]);
    }
  }

  /** A member of the store nodes of ids is the node of one of the ids. */
  lemma InStoreNodes(ids: seq<int>, x: Node)
    requires forall k :: 0 <= k < |ids| ==> ValidStoreId(ids[k])
    requires x in multiset(StoreNodes(ids))
    ensures exists k :: 0 <= k < |ids| && x == StoreNode(ids[k])
  {
    var stores := StoreNodes(ids);
    assert x in stores;
    var k :| 0 <= k < |stores| && stores[k] == x;
  }

  // ---------------------------------------------------------------------
  // Selecting the driver

  /** Python's `<` on strings: lexicographic by code point, a proper prefix
      being smaller. */
  predicate StrLess(a: string, b: string)
  {
    if |a| == 0 then |b| > 0
    else if |b| == 0 then false
    else if a[0] != b[0] then a[0] < b[0]
    else StrLess(a[1..], b[1..])
  }

  lemma {:induction false} StrLessIrreflexive(a: string)
    ensures !StrLess(a, a)
  {
    if |a| > 0 {
      StrLessIrreflexive(a[1..]);
    }
  }

  lemma {:induction false} StrLessTransitive(a: string, b: string, c: string)
    requires StrLess(a, b) && StrLess(b, c)
    ensures StrLess(a, c)
  {
    if |a| > 0 && |b| > 0 && |c| > 0 && a[0] == b[0] && b[0] == c[0] {
      StrLessTransitive(a[1..], b[1..], c[1..]);
    }
  }

  /** Distinct strings are ordered one way or the other. */
  lemma {:induction false} StrLessTotal(a: string, b: string)
    requires a != b
    ensures StrLess(a, b) || StrLess(b, a)
  {
    if |a| > 0 && |b| > 0 && a[0] == b[0] {
      assert a == [a[0]] + a[1..] && b == [b[0]] + b[1..];
      StrLessTotal(a[1..], b[1..]);
    }
  }

  /** Tuple order on (priority, distance, username), the heap's order. */
  predicate KeyLess(x: Candidate, y: Candidate)
    ensures KeyLess(x, y) ==> x.priority <= y.priority
    ensures KeyLess(x, y) && x.priority == y.priority ==> x.distance <= y.distance
  {
    || x.priority < y.priority
    || (x.priority == y.priority && x.distance < y.distance)
    || (x.priority == y.priority && x.distance == y.distance && StrLess(x.username, y.username))
  }

  /** KeyLess is a strict total order on candidates. */
  lemma KeyLessOrder(x: Candidate, y: Candidate, z: Candidate)
    ensures !KeyLess(x, x)
    ensures KeyLess(x, y) && KeyLess(y, z) ==> KeyLess(x, z)
    ensures x != y ==> KeyLess(x, y) || KeyLess(y, x)
  {
    StrLessIrreflexive(x.username);
    if KeyLess(x, y) && KeyLess(y, z) && x.priority == z.priority && x.distance == z.distance {
      StrLessTransitive(x.username, y.username, z.username);
    }
    if x != y && x.priority == y.priority && x.distance == y.distance {
      StrLessTotal(x.username, y.username);
    }
  }

  /** The entry the heap pops: the least candidate in tuple order. */
  function MinCandidate(queue: seq<Candidate>): (m: Candidate)
    requires |queue| > 0
    ensures m in queue
    ensures forall x :: x in queue ==> x == m || KeyLess(m, x)
    decreases |queue|
  {
    if |queue| == 1 then queue[0]
    else
      var n := |queue| - 1;
      var rest := MinCandidate(queue[..n]);
      assert queue == queue[..n] + [queue[n]];
      var m := if KeyLess(queue[n], rest) then queue[n] else rest;
      forall x | x in queue
        ensures x == m || KeyLess(m, x)
      {
        KeyLessOrder(queue[n], rest, x);
        KeyLessOrder(rest, queue[n], x);
        if x in queue[..n] {
          KeyLessOrder(m, rest, x);
        }
      }
      m
  }

  /** The heap pop as a scan for the least entry. */
  method SelectDriver(queue: seq<Candidate>) returns (m: Candidate)
    requires |queue| > 0
    ensures m == MinCandidate(queue)
  {
    m := queue[0];
    var k := 1;
    while k < |queue|
      invariant 1 <= k <= |queue|
      invariant m == MinCandidate(queue[..k])
    {
      assert queue[..k + 1][..k] == queue[..k];
      if KeyLess(queue[k], m) {
        m := queue[k];
      }
      k := k + 1;
    }
    assert queue[..k] == queue;
  }

  /** The users whose type is "Delivery Agent", in order. */
  function DeliveryAgents(users: seq<User>): (r: seq<User>)
    ensures forall u :: u in r <==> u in users && u.userType == DeliveryAgentType
    ensures |r| <= |users|
  {
    if users == [] then []
    else (if users[0].userType == DeliveryAgentType then [users[0]] else []) + DeliveryAgents(users[1..])
  }

  /** The filter keeps the users' order: the delivery agents of a list
      joined to another are those of the first list followed by those of
      the second. */
  lemma {:induction false} DeliveryAgentsConcat(a: seq<User>, b: seq<User>)
    ensures DeliveryAgents(a + b) == DeliveryAgents(a) + DeliveryAgents(b)
    decreases |a|
  {
    if a == [] {
      assert a + b == b;
    } else {
      assert (a + b)[1..] == a[1..] + b;
      DeliveryAgentsConcat(a[1..], b);
    }
  }

  /** The evaluation of every driver, in order. */
  function Evaluations(w: World, order: OrderRequest, table: Table, drivers: seq<User>): (r: seq<Evaluation>)
    requires WellFormed(w, order) && TableFor(w.graph, table)
    ensures |r| == |drivers|
  {
    if drivers == [] then []
    else
      var n := |drivers| - 1;
      Evaluations(w, order, table, drivers[..n]) + [Evaluate(w, order, table, drivers[n])]
  }

  /** The k-th evaluation is that of the k-th driver. */
  lemma {:induction false} EvaluationAt(w: World, order: OrderRequest, table: Table, drivers: seq<User>, k: nat)
    requires WellFormed(w, order) && TableFor(w.graph, table) && k < |drivers|
    ensures Evaluations(w, order, table, drivers)[k] == Evaluate(w, order, table, drivers[k])
    decreases |drivers|
  {
    var n := |drivers| - 1;
    var rest := Evaluations(w, order, table, drivers[..n]);
    assert Evaluations(w, order, table, drivers) == rest + [Evaluate(w, order, table, drivers[n])];
    if k < n {
      EvaluationAt(w, order, table, drivers[..n], k);
      assert drivers[..n][k] == drivers[k];
    }
  }

  /** Evaluating one more driver appends its evaluation. */
  lemma EvaluationsStep(w: World, order: OrderRequest, table: Table, drivers: seq<User>, d: nat)
    requires WellFormed(w, order) && TableFor(w.graph, table) && d < |drivers|
    ensures Evaluations(w, order, table, drivers[..d + 1]) ==
      Evaluations(w, order, table, drivers[..d]) + [Evaluate(w, order, table, drivers[d])]
  {
    var p := drivers[..d + 1];
    assert p[..d] == drivers[..d];
    assert p[d] == drivers[d];
  }

  /** The heap's contents: the candidates pushed, in push order. */
  function Queue(evs: seq<Evaluation>): (r: seq<Candidate>)
    ensures forall c :: c in r <==> exists k :: 0 <= k < |evs| && evs[k].Kept? && evs[k].candidate == c
    decreases |evs|
  {
    if evs == [] then []
    else
      var n := |evs| - 1;
      var front := evs[..n];
      assert forall k :: 0 <= k < n ==> front[k] == evs[k];
      Queue(front) + (if evs[n].Kept? then [evs[n].candidate] else [])
  }

  /** The `best_routes` dictionary: each pushed driver's route under their
      username, a later driver with the same username overwriting it. */
  function BestRoutes(evs: seq<Evaluation>): (r: map<string, seq<int>>)
    ensures forall u :: u in r ==> exists k :: && 0 <= k < |evs| && evs[k].Kept?
                                              && evs[k].candidate.username == u && evs[k].route == r[u]
    ensures forall k :: 0 <= k < |evs| && evs[k].Kept? ==> evs[k].candidate.username in r
    decreases |evs|
  {
    if evs == [] then map[]
    else
      var n := |evs| - 1;
      var front := evs[..n];
      assert forall k :: 0 <= k < n ==> front[k] == evs[k];
      var prev := BestRoutes(front);
      if evs[n].Kept? then prev[evs[n].candidate.username := evs[n].route] else prev
  }

  /** The assignment: (None, []) when there is no delivery agent or no
      candidate was pushed, otherwise the popped username with its route. */
  function Assign(w: World, order: OrderRequest): (r: (Option<string>, seq<int>))
    requires WellFormed(w, order)
    ensures r.0.None? ==> r.1 == []
  {
    AssignWith(w, order, TableOf(w.graph))
  }

  /** Assign, with the distance table every driver's evaluation uses. */
  function AssignWith(w: World, order: OrderRequest, table: Table): (r: (Option<string>, seq<int>))
    requires WellFormed(w, order) && TableFor(w.graph, table)
    ensures r.0.None? ==> r.1 == []
  {
    var drivers := DeliveryAgents(w.users);
    if drivers == [] then (None, [])
    else Outcome(Evaluations(w, order, table, drivers))
  }

  /** The final pop: (None, []) when no candidate was pushed, otherwise the
      least candidate's username with the route recorded under it. */
  function Outcome(evs: seq<Evaluation>): (r: (Option<string>, seq<int>))
    ensures r.0.None? ==> r.1 == []
    ensures r.0.Some? ==> exists k :: && 0 <= k < |evs| && evs[k].Kept?
                                      && evs[k].candidate.username == r.0.value && evs[k].route == r.1
  {
    var queue := Queue(evs);
    if queue == [] then (None, [])
    else
      var best := MinCandidate(queue);
      (Some(best.username), BestRoutes(evs)[best.username])
  }

  /** The stores to visit and the `store_id_mapping` dictionary, built from
      the order's store ids in order. */
  method StoresToVisit(ids: seq<int>) returns (stores: seq<Node>, mapping: map<Node, int>)
    requires forall k :: 0 <= k < |ids| ==> ValidStoreId(ids[k])
    requires forall k, k' :: 0 <= k < k' < |ids| ==> ids[k] != ids[k']
    ensures stores == StoreNodes(ids)
    ensures forall k :: 0 <= k < |ids| ==> StoreNode(ids[k]) in mapping && mapping[StoreNode(ids[k])] == ids[k]
  {
    stores := [];
    mapping := map[];
    var i := 0;
    while i < |ids|
      invariant i <= |ids|
      invariant stores == StoreNodes(ids[..i])
      invariant forall k :: 0 <= k < i ==> StoreNode(ids[k]) in mapping && mapping[StoreNode(ids[k])] == ids[k]
    {
      var node := StoreNode(ids[i]);
      forall k | 0 <= k < i
        ensures StoreNode(ids[k]) != node
      {
        StoreNodeRoundTrip(ids[k], ids[i]);
      }
      stores := stores + [node];
      mapping := mapping[node := ids[i]];
      i := i + 1;
    }
    assert ids[..i] == ids;
  }

  /** One more evaluation appends its candidate, if kept, to the queue and
      records its route under its username. */
  lemma QueueStep(evs: seq<Evaluation>, e: Evaluation)
    ensures Queue(evs + [e]) == Queue(evs) + (if e.Kept? then [e.candidate] else [])
    ensures BestRoutes(evs + [e]) ==
      if e.Kept? then BestRoutes(evs)[e.candidate.username := e.route] else BestRoutes(evs)
  {
    assert (evs + [e])[..|evs|] == evs;
  }

  /** The driver loop: every driver is evaluated in turn; a kept driver's
      candidate is pushed and their route recorded under their username. */
  method CollectCandidates(w: World, order: OrderRequest, stores: seq<Node>, mapping: map<Node, int>, drivers: seq<User>, ghost table: Table)
    returns (queue: seq<Candidate>, bestRoutes: map<string, seq<int>>)
    requires WellFormed(w, order) && table == TableOf(w.graph) && TableFor(w.graph, table)
    requires stores == StoreNodes(order.storeIds)
    requires forall k :: 0 <= k < |order.storeIds| ==>
      StoreNode(order.storeIds[k]) in mapping && mapping[StoreNode(order.storeIds[k])] == order.storeIds[k]
    ensures queue == Queue(Evaluations(w, order, table, drivers))
    ensures bestRoutes == BestRoutes(Evaluations(w, order, table, drivers))
  {
    queue := [];
    bestRoutes := map[];
    var d := 0;
    assert drivers[..d] == [];
    while d < |drivers|
      invariant d <= |drivers|
      invariant queue == Queue(Evaluations(w, order, table, drivers[..d]))
      invariant bestRoutes == BestRoutes(Evaluations(w, order, table, drivers[..d]))
    {
      queue, bestRoutes := CollectOne(w, order, stores, mapping, drivers, d, queue, bestRoutes, table);
      d := d + 1;
    }
    assert drivers[..d] == drivers;
  }

  /** One iteration of the driver loop, for the driver at index d. */
  method CollectOne(w: World, order: OrderRequest, stores: seq<Node>, mapping: map<Node, int>, drivers: seq<User>, d: nat,
                    queue: seq<Candidate>, bestRoutes: map<string, seq<int>>, ghost table: Table)
    returns (queue': seq<Candidate>, bestRoutes': map<string, seq<int>>)
    requires WellFormed(w, order) && d < |drivers| && table == TableOf(w.graph) && TableFor(w.graph, table)
    requires stores == StoreNodes(order.storeIds)
    requires forall k :: 0 <= k < |order.storeIds| ==>
      StoreNode(order.storeIds[k]) in mapping && mapping[StoreNode(order.storeIds[k])] == order.storeIds[k]
    requires queue == Queue(Evaluations(w, order, table, drivers[..d]))
    requires bestRoutes == BestRoutes(Evaluations(w, order, table, drivers[..d]))
    ensures queue' == Queue(Evaluations(w, order, table, drivers[..d + 1]))
    ensures bestRoutes' == BestRoutes(Evaluations(w, order, table, drivers[..d + 1]))
  {
    var ev := EvaluateDriver(w, order, stores, mapping, drivers[d]);
    EvaluationsStep(w, order, table, drivers, d);
    QueueStep(Evaluations(w, order, table, drivers[..d]), ev);
    queue', bestRoutes' := queue, bestRoutes;
    if ev.Kept? {
      queue' := queue + [ev.candidate];
      bestRoutes' := bestRoutes[ev.candidate.username := ev.route];
    }
  }

  /** `assign_driver`: the stores and their mapping, the delivery agents,
      the driver loop and the final pop. */
  method AssignDriver(w: World, order: OrderRequest) returns (driver: Option<string>, route: seq<int>)
    requires WellFormed(w, order)
    ensures (driver, route) == Assign(w, order)
  {
    var stores, mapping := StoresToVisit(order.storeIds);
    var drivers := DeliveryAgents(w.users);
    if drivers == [] {
      return None, [];
    }
    ghost var table := TableOf(w.graph);
    var queue, bestRoutes := CollectCandidates(w, order, stores, mapping, drivers, table);
    if queue != [] {
      var best := SelectDriver(queue);
      return Some(best.username), bestRoutes[best.username];
    }
    return None, [];
  }
}
