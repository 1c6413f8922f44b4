/** What `assign_driver` promises, first for one driver and then for the
    whole assignment. The lemmas are stated for any distance table with a
    row and an entry for every node of the graph, so they also cover a
    table whose path queries all failed; `TableOf` supplies the real one. */
module AssignmentFacts {
  import opened Optional
  import opened Graphs
  import opened ShortestPaths
  import opened DistanceTable
  import opened Orderings
  import opened Users
  import opened RouteSearch
  import opened DriverSelection

  // ---------------------------------------------------------------------
  // Orderings of the order's store ids

  /** p lists the order's store ids, each once, in some order. */
  predicate IdOrdering(w: World, order: OrderRequest, p: seq<int>)
  {
    && multiset(p) == multiset(order.storeIds)
    && (forall k :: 0 <= k < |p| ==> ValidStoreId(p[k]))
    && (forall k :: 0 <= k < |p| ==> StoreNode(p[k]) in w.graph.nodes)
  }

  /** Every rearrangement of the order's store ids is an IdOrdering. */
  lemma PermutedIdsAreOrderings(w: World, order: OrderRequest, p: seq<int>)
    requires WellFormed(w, order) && multiset(p) == multiset(order.storeIds)
    ensures IdOrdering(w, order, p)
  {
    forall k | 0 <= k < |p|
      ensures ValidStoreId(p[k]) && StoreNode(p[k]) in w.graph.nodes
    {
      assert p[k] in multiset(order.storeIds);
      var j :| 0 <= j < |order.storeIds| && order.storeIds[j] == p[k];
    }
  }

  /** The length of the tour from start through the stores of p, in that
      order, to the customer. */
  function IdTour(w: World, order: OrderRequest, table: Table, start: Node, p: seq<int>): Option<nat>
    requires WellFormed(w, order) && TableFor(w.graph, table)
    requires start in w.graph.nodes && IdOrdering(w, order, p)
  {
    TourCost(table, start, StoreNodes(p), CustomerNode(order.customerId))
  }

  /** StoreNode made total, to map it over a sequence. */
  function StoreNodeOr(id: int): Node
  {
    if ValidStoreId(id) then StoreNode(id) else ""
  }

  lemma StoreNodesAsMap(ids: seq<int>)
    requires forall k :: 0 <= k < |ids| ==> ValidStoreId(ids[k])
    ensures StoreNodes(ids) == MapSeq(StoreNodeOr, ids)
  {
    var m := MapSeq(StoreNodeOr, ids);
    forall k | 0 <= k < |ids|
      ensures m[k] == StoreNodes(ids)[k]
    {
      assert m[k] == StoreNodeOr(ids[k]);
    }
  }

  /** The store nodes of an ordering of the ids are an ordering of the
      store nodes. */
  lemma OrderingNodes(w: World, order: OrderRequest, p: seq<int>)
    requires WellFormed(w, order) && IdOrdering(w, order, p)
    ensures multiset(StoreNodes(p)) == multiset(StoreNodes(order.storeIds))
  {
    StoreNodesAsMap(p);
    StoreNodesAsMap(order.storeIds);
    MapPreservesPermutation(StoreNodeOr, p, order.storeIds);
  }

  /** An ordering of the store nodes is the node list of the ordering of
      the ids read back through StoreIdOf. */
  lemma NodeOrderingIds(w: World, order: OrderRequest, q: seq<Node>)
    requires WellFormed(w, order) && multiset(q) == multiset(StoreNodes(order.storeIds))
    ensures IdOrdering(w, order, MapSeq(StoreIdOf, q))
    ensures StoreNodes(MapSeq(StoreIdOf, q)) == q
  {
    var ids := order.storeIds;
    var p := MapSeq(StoreIdOf, q);
    StoreNodesRoundTrip(ids);
    MapPreservesPermutation(StoreIdOf, q, StoreNodes(ids));
    PermutedIdsAreOrderings(w, order, p);
    forall t | 0 <= t < |q|
      ensures StoreNode(p[t]) == q[t]
    {
      assert q[t] in multiset(StoreNodes(ids));
      var k :| 0 <= k < |ids| && StoreNodes(ids)[k] == q[t];
      StoreNodeRoundTrip(ids[k], ids[k]);
    }
  }

  // ---------------------------------------------------------------------
  // One driver

  /** Priority 2 exactly for a driver with an order that is theirs and not
      delivered, starting at the node of that order's customer location
      (the first such order); priority 1 otherwise, starting at the node of
      the driver's own location. */
  lemma StartOfBusyOrAvailable(w: World, driver: User)
    ensures StartOf(w, driver).0 == 1 || StartOf(w, driver).0 == 2
    ensures StartOf(w, driver).0 == 2 <==> exists k :: 0 <= k < |w.orders| && IsActiveFor(w.orders[k], driver.id)
    ensures StartOf(w, driver).0 == 1 ==> StartOf(w, driver).1 == NodeAt(w.positions, driver.location)
    ensures StartOf(w, driver).0 == 2 ==>
      exists k :: && 0 <= k < |w.orders| && IsActiveFor(w.orders[k], driver.id)
                  && (forall k' :: 0 <= k' < k ==> !IsActiveFor(w.orders[k'], driver.id))
                  && StartOf(w, driver).1 == NodeAt(w.positions, w.orders[k].customerLocation)
  {
  }

  /** A kept driver's candidate carries their username and their priority. */
  lemma KeptCandidate(w: World, order: OrderRequest, table: Table, driver: User)
    requires WellFormed(w, order) && TableFor(w.graph, table)
    requires Evaluate(w, order, table, driver).Kept?
    ensures Evaluate(w, order, table, driver).candidate.username == driver.id
    ensures Evaluate(w, order, table, driver).candidate.priority == StartOf(w, driver).0
  {
  }

  /** A driver is skipped exactly when their start reaches none of the
      stores, when the order has more than four stores, or when no ordering
      of the stores has a finite tour to the customer. */
  lemma SkippedExactly(w: World, order: OrderRequest, table: Table, driver: User)
    requires WellFormed(w, order) && TableFor(w.graph, table)
    ensures (StartInGraph(w, order, driver); StoreNodesIn(w, order, table);
      var start := StartOf(w, driver).1;
      Evaluate(w, order, table, driver).Skipped? <==>
        || ReachesNoStore(table, start, StoreNodes(order.storeIds))
        || |order.storeIds| > ExactSearchLimit
        || forall p :: IdOrdering(w, order, p) ==> IdTour(w, order, table, start, p).None?)
  {
    StartInGraph(w, order, driver);
    StoreNodesIn(w, order, table);
    var start := StartOf(w, driver).1;
    var stores := StoreNodes(order.storeIds);
    var dest := CustomerNode(order.customerId);
    if !ReachesNoStore(table, start, stores) && |order.storeIds| <= ExactSearchLimit {
      PermutationsNodesIn(table, stores);
      var best := BestOf(table, start, Permutations(stores), dest);
      assert Evaluate(w, order, table, driver).Skipped? <==> best.None?;
      SearchFindsNothing(table, start, stores, dest);
      if best.None? {
        NoNodeTourNoIdTour(w, order, table, start);
      }
      if forall p :: IdOrdering(w, order, p) ==> IdTour(w, order, table, start, p).None? {
        NoIdTourNoNodeTour(w, order, table, start);
      }
    }
  }

  /** No ordering of the store nodes has a finite tour: then no ordering
      of the store ids has one either. */
  lemma NoNodeTourNoIdTour(w: World, order: OrderRequest, table: Table, start: Node)
    requires WellFormed(w, order) && TableFor(w.graph, table) && start in w.graph.nodes
    requires forall q :: multiset(q) == multiset(StoreNodes(order.storeIds)) ==>
      NodesIn(table, q) && TourCost(table, start, q, CustomerNode(order.customerId)).None?
    ensures forall p :: IdOrdering(w, order, p) ==> IdTour(w, order, table, start, p).None?
  {
    forall p | IdOrdering(w, order, p)
      ensures IdTour(w, order, table, start, p).None?
    {
      OrderingNodes(w, order, p);
    }
  }

  /** No ordering of the store ids has a finite tour: then no ordering of
      the store nodes has one either. */
  lemma NoIdTourNoNodeTour(w: World, order: OrderRequest, table: Table, start: Node)
    requires WellFormed(w, order) && TableFor(w.graph, table) && start in w.graph.nodes
    requires forall p :: IdOrdering(w, order, p) ==> IdTour(w, order, table, start, p).None?
    ensures forall q :: multiset(q) == multiset(StoreNodes(order.storeIds)) ==>
      NodesIn(table, q) && TourCost(table, start, q, CustomerNode(order.customerId)).None?
  {
    var dest := CustomerNode(order.customerId);
    forall q | multiset(q) == multiset(StoreNodes(order.storeIds))
      ensures NodesIn(table, q) && TourCost(table, start, q, dest).None?
    {
      NodeOrderingIds(w, order, q);
      assert IdTour(w, order, table, start, MapSeq(StoreIdOf, q)).None?;
    }
  }

  /** A kept driver's route is an ordering of the order's store ids whose
      tour has the candidate's distance, and no ordering of the stores has
      a shorter finite tour from the driver's start. */
  lemma KeptIsShortestTour(w: World, order: OrderRequest, table: Table, driver: User)
    requires WellFormed(w, order) && TableFor(w.graph, table)
    requires Evaluate(w, order, table, driver).Kept?
    ensures (StartInGraph(w, order, driver);
      var ev := Evaluate(w, order, table, driver);
      var start := StartOf(w, driver).1;
      && IdOrdering(w, order, ev.route)
      && IdTour(w, order, table, start, ev.route) == Some(ev.candidate.distance)
      && forall p :: IdOrdering(w, order, p) && IdTour(w, order, table, start, p).Some? ==>
           ev.candidate.distance <= IdTour(w, order, table, start, p).value)
  {
    StartInGraph(w, order, driver);
    StoreNodesIn(w, order, table);
    var ev := Evaluate(w, order, table, driver);
    var start := StartOf(w, driver).1;
    var stores := StoreNodes(order.storeIds);
    var dest := CustomerNode(order.customerId);
    SearchOptimal(table, start, stores, dest);
    PermutationsNodesIn(table, stores);
    var best := BestOf(table, start, Permutations(stores), dest).value;
    assert ev.route == MapSeq(StoreIdOf, best.route);
    NodeOrderingIds(w, order, best.route);
    forall p | IdOrdering(w, order, p) && IdTour(w, order, table, start, p).Some?
      ensures ev.candidate.distance <= IdTour(w, order, table, start, p).value
    {
      OrderingNodes(w, order, p);
    }
  }

  /** Every ordering listed before index k has no finite tour or one
      strictly longer than d. */
  predicate NoneShorterBefore(table: Table, start: Node, perms: seq<seq<Node>>, dest: Node, k: nat, d: nat)
    requires Square(table) && start in table && dest in table && AllNodesIn(table, perms) && k <= |perms|
  {
    forall k' :: 0 <= k' < k ==>
      var c := TourCost(table, start, perms[k'], dest);
      c.None? || c.value > d
  }

  /** route is an ordering of stores with tour length d, and every
      ordering `itertools.permutations` lists before it has no finite tour
      or a strictly longer one. */
  ghost predicate FirstShortest(table: Table, start: Node, stores: seq<Node>, dest: Node, route: seq<Node>, d: nat)
    requires Square(table) && start in table && dest in table && NodesIn(table, stores)
  {
    PermutationsNodesIn(table, stores);
    var perms := Permutations(stores);
    exists k: nat :: && k < |perms| && perms[k] == route
                     && TourCost(table, start, perms[k], dest) == Some(d)
                     && NoneShorterBefore(table, start, perms, dest, k, d)
  }

  /** The search keeps the first shortest ordering it enumerates. */
  lemma BestIsFirstShortest(table: Table, start: Node, stores: seq<Node>, dest: Node)
    requires Square(table) && start in table && dest in table && NodesIn(table, stores)
    ensures (PermutationsNodesIn(table, stores);
      var r := BestOf(table, start, Permutations(stores), dest);
      r.Some? ==> FirstShortest(table, start, stores, dest, r.value.route, r.value.distance))
  {
    PermutationsNodesIn(table, stores);
    var perms := Permutations(stores);
    BestOfIsFirstMinimum(table, start, perms, dest);
    var r := BestOf(table, start, perms, dest);
    if r.Some? {
      var best := r.value;
      var costs := Tours(table, start, perms, dest);
      var k: nat :| && FirstMinimumAt(costs, k)
                    && perms[k] == best.route
                    && TourCost(table, start, perms[k], dest) == Some(best.distance);
      forall k' | 0 <= k' < k
        ensures var c := TourCost(table, start, perms[k'], dest); c.None? || c.value > best.distance
      {
        assert costs[k'] == TourCost(table, start, perms[k'], dest);
      }
      assert NoneShorterBefore(table, start, perms, dest, k, best.distance);
    }
  }

  /** Ties go to the ordering `itertools.permutations` lists first: the
      kept route, as store nodes, is the first ordering with the least tour. */
  lemma KeptIsFirstShortest(w: World, order: OrderRequest, table: Table, driver: User)
    requires WellFormed(w, order) && TableFor(w.graph, table)
    requires Evaluate(w, order, table, driver).Kept?
    ensures (StartInGraph(w, order, driver); StoreNodesIn(w, order, table);
      var ev := Evaluate(w, order, table, driver);
      && IdOrdering(w, order, ev.route)
      && FirstShortest(table, StartOf(w, driver).1, StoreNodes(order.storeIds), CustomerNode(order.customerId),
                       StoreNodes(ev.route), ev.candidate.distance))
  {
    StartInGraph(w, order, driver);
    StoreNodesIn(w, order, table);
    var stores := StoreNodes(order.storeIds);
    PermutationsNodesIn(table, stores);
    var start := StartOf(w, driver).1;
    var dest := CustomerNode(order.customerId);
    var best := BestOf(table, start, Permutations(stores), dest).value;
    var ev := Evaluate(w, order, table, driver);
    assert ev.route == MapSeq(StoreIdOf, best.route) && ev.candidate.distance == best.distance;
    BestIsFirstShortest(table, start, stores, dest);
    SearchOptimal(table, start, stores, dest);
    NodeOrderingIds(w, order, best.route);
  }

  // ---------------------------------------------------------------------
  // The whole assignment

  /** The candidate of a kept evaluation in the driver loop carries that
      driver's username and priority. */
  lemma KeptAt(w: World, order: OrderRequest, table: Table, drivers: seq<User>, k: nat)
    requires WellFormed(w, order) && TableFor(w.graph, table) && k < |drivers|
    requires Evaluations(w, order, table, drivers)[k].Kept?
    ensures Evaluations(w, order, table, drivers)[k].candidate.username == drivers[k].id
    ensures Evaluations(w, order, table, drivers)[k].candidate.priority == StartOf(w, drivers[k]).0
  {
    EvaluationAt(w, order, table, drivers, k);
    KeptCandidate(w, order, table, drivers[k]);
  }

  /** The pop finds nothing exactly when every evaluation was skipped, and
      the route is then empty. */
  lemma OutcomeNoneIff(evs: seq<Evaluation>)
    ensures Outcome(evs).0.None? <==> forall k :: 0 <= k < |evs| ==> evs[k].Skipped?
    ensures Outcome(evs).0.None? ==> Outcome(evs).1 == []
  {
    if Queue(evs) != [] {
      assert Queue(evs)[0] in Queue(evs);
    }
    forall k | 0 <= k < |evs| && evs[k].Kept?
      ensures evs[k].candidate in Queue(evs)
    {
    }
  }

  /** The popped username is that of the least kept candidate in
      (priority, distance, username) order, and the route returned is the
      route of a kept evaluation under that username (the last one, since
      later routes overwrite earlier ones in the dictionary). */
  lemma OutcomeIsLeast(evs: seq<Evaluation>)
    requires Outcome(evs).0.Some?
    ensures exists k :: && 0 <= k < |evs| && evs[k].Kept? && evs[k].candidate.username == Outcome(evs).0.value
                        && forall k' :: 0 <= k' < |evs| && evs[k'].Kept? ==>
                             evs[k'].candidate == evs[k].candidate || KeyLess(evs[k].candidate, evs[k'].candidate)
    ensures exists j :: && 0 <= j < |evs| && evs[j].Kept? && evs[j].candidate.username == Outcome(evs).0.value
                        && Outcome(evs).1 == evs[j].route
  {
    var queue := Queue(evs);
    var m := MinCandidate(queue);
    var k :| 0 <= k < |evs| && evs[k].Kept? && evs[k].candidate == m;
    forall k' | 0 <= k' < |evs| && evs[k'].Kept?
      ensures evs[k'].candidate == m || KeyLess(m, evs[k'].candidate)
    {
      assert evs[k'].candidate in queue;
    }
    var routes := BestRoutes(evs);
    assert m.username in routes;
  }

  /** OutcomeIsLeast, with each kept candidate named after its driver. */
  lemma OutcomeWinner(evs: seq<Evaluation>, drivers: seq<User>)
    requires |evs| == |drivers|
    requires forall k :: 0 <= k < |evs| && evs[k].Kept? ==> evs[k].candidate.username == drivers[k].id
    requires Outcome(evs).0.Some?
    ensures exists k :: && 0 <= k < |drivers| && drivers[k].id == Outcome(evs).0.value && evs[k].Kept?
                        && forall k' :: 0 <= k' < |drivers| && evs[k'].Kept? ==>
                             evs[k'].candidate == evs[k].candidate || KeyLess(evs[k].candidate, evs[k'].candidate)
    ensures exists j :: && 0 <= j < |drivers| && drivers[j].id == Outcome(evs).0.value && evs[j].Kept?
                        && Outcome(evs).1 == evs[j].route
  {
    OutcomeIsLeast(evs);
  }

  /** The assignment is the pop over the evaluations of the delivery agents. */
  lemma AssignIsOutcome(w: World, order: OrderRequest, table: Table)
    requires WellFormed(w, order) && TableFor(w.graph, table)
    ensures AssignWith(w, order, table) == Outcome(Evaluations(w, order, table, DeliveryAgents(w.users)))
    ensures forall k :: 0 <= k < |DeliveryAgents(w.users)| && Evaluations(w, order, table, DeliveryAgents(w.users))[k].Kept? ==>
      && Evaluations(w, order, table, DeliveryAgents(w.users))[k].candidate.username == DeliveryAgents(w.users)[k].id
      && Evaluations(w, order, table, DeliveryAgents(w.users))[k].candidate.priority == StartOf(w, DeliveryAgents(w.users)[k]).0
  {
    var agents := DeliveryAgents(w.users);
    var evs := Evaluations(w, order, table, agents);
    if agents == [] {
      assert evs == [];
    }
    forall k | 0 <= k < |agents| && evs[k].Kept?
      ensures evs[k].candidate.username == agents[k].id
      ensures evs[k].candidate.priority == StartOf(w, agents[k]).0
    {
      KeptAt(w, order, table, agents, k);
    }
  }

  /** Nobody is assigned exactly when every delivery agent is skipped, and
      the route is then empty. */
  lemma NobodyIffAllSkipped(w: World, order: OrderRequest, table: Table)
    requires WellFormed(w, order) && TableFor(w.graph, table)
    ensures var evs := Evaluations(w, order, table, DeliveryAgents(w.users));
      && (AssignWith(w, order, table).0.None? <==> forall k :: 0 <= k < |evs| ==> evs[k].Skipped?)
      && (AssignWith(w, order, table).0.None? ==> AssignWith(w, order, table).1 == [])
  {
    AssignIsOutcome(w, order, table);
    OutcomeNoneIff(Evaluations(w, order, table, DeliveryAgents(w.users)));
  }

  /** The assigned driver is a kept delivery agent whose candidate is the
      least kept one in (priority, distance, username) order, and the route
      returned is the route of a kept delivery agent with that username. */
  lemma WinnerIsLeast(w: World, order: OrderRequest, table: Table)
    requires WellFormed(w, order) && TableFor(w.graph, table)
    requires AssignWith(w, order, table).0.Some?
    ensures var agents := DeliveryAgents(w.users);
      var evs := Evaluations(w, order, table, agents);
      var u := AssignWith(w, order, table).0.value;
      exists k :: && 0 <= k < |agents| && agents[k].id == u && evs[k].Kept?
                  && forall k' :: 0 <= k' < |agents| && evs[k'].Kept? ==>
                       evs[k'].candidate == evs[k].candidate || KeyLess(evs[k].candidate, evs[k'].candidate)
    ensures var agents := DeliveryAgents(w.users);
      var evs := Evaluations(w, order, table, agents);
      var u := AssignWith(w, order, table).0.value;
      exists j :: && 0 <= j < |agents| && agents[j].id == u && evs[j].Kept?
                  && AssignWith(w, order, table).1 == evs[j].route
  {
    AssignIsOutcome(w, order, table);
    OutcomeWinner(Evaluations(w, order, table, DeliveryAgents(w.users)), DeliveryAgents(w.users));
  }

  /** With delivery agents sharing no username, the route returned is the
      assigned driver's own. */
  lemma WinnerOwnRoute(w: World, order: OrderRequest, table: Table)
    requires WellFormed(w, order) && TableFor(w.graph, table)
    requires AssignWith(w, order, table).0.Some?
    requires var agents := DeliveryAgents(w.users);
      forall k, k' :: 0 <= k < k' < |agents| ==> agents[k].id != agents[k'].id
    ensures var agents := DeliveryAgents(w.users);
      var evs := Evaluations(w, order, table, agents);
      var u := AssignWith(w, order, table).0.value;
      forall k :: 0 <= k < |agents| && agents[k].id == u ==>
        evs[k].Kept? && AssignWith(w, order, table).1 == evs[k].route
  {
    WinnerIsLeast(w, order, table);
    var agents := DeliveryAgents(w.users);
    var evs := Evaluations(w, order, table, agents);
    var u := AssignWith(w, order, table).0.value;
    var j :| && 0 <= j < |agents| && agents[j].id == u && evs[j].Kept?
             && AssignWith(w, order, table).1 == evs[j].route;
    forall k | 0 <= k < |agents| && agents[k].id == u
      ensures k == j
    {
    }
  }

  /** The route returned with an assigned driver lists every store id of
      the order exactly once. */
  lemma AssignedRouteIsOrdering(w: World, order: OrderRequest, table: Table)
    requires WellFormed(w, order) && TableFor(w.graph, table)
    requires AssignWith(w, order, table).0.Some?
    ensures IdOrdering(w, order, AssignWith(w, order, table).1)
  {
    WinnerIsLeast(w, order, table);
    var agents := DeliveryAgents(w.users);
    var u := AssignWith(w, order, table).0.value;
    var evs := Evaluations(w, order, table, agents);
    var j :| && 0 <= j < |agents| && agents[j].id == u && evs[j].Kept?
             && AssignWith(w, order, table).1 == evs[j].route;
    EvaluationAt(w, order, table, agents, j);
    KeptIsShortestTour(w, order, table, agents[j]);
  }

  /** With one store the route is that store's id alone. */
  lemma SingleStoreRoute(w: World, order: OrderRequest, table: Table)
    requires WellFormed(w, order) && TableFor(w.graph, table)
    requires AssignWith(w, order, table).0.Some? && |order.storeIds| == 1
    ensures AssignWith(w, order, table).1 == order.storeIds
  {
    AssignedRouteIsOrdering(w, order, table);
    SingletonOrdering(AssignWith(w, order, table).1, order.storeIds);
  }

  /** The only rearrangement of a one-element sequence is itself. */
  lemma SingletonOrdering(p: seq<int>, ids: seq<int>)
    requires multiset(p) == multiset(ids) && |ids| == 1
    ensures p == ids
  {
    assert |p| == |multiset(p)| == |multiset(ids)| == 1;
    assert p[0] in multiset(ids);
  }

  /** When a kept candidate has the top priority 1 and none has a lower
      number, the popped candidate has priority 1. */
  lemma OutcomePrefersTopPriority(evs: seq<Evaluation>, k: nat)
    requires k < |evs| && evs[k].Kept? && evs[k].candidate.priority == 1
    requires forall k' :: 0 <= k' < |evs| && evs[k'].Kept? ==> evs[k'].candidate.priority >= 1
    ensures Outcome(evs).0.Some?
    ensures exists j :: && 0 <= j < |evs| && evs[j].Kept? && evs[j].candidate.username == Outcome(evs).0.value
                        && evs[j].candidate.priority == 1
  {
    OutcomeNoneIff(evs);
    OutcomeIsLeast(evs);
  }

  /** While an available delivery agent (no undelivered order of theirs) is
      kept, the assigned driver has no undelivered order either: busy
      drivers only win when every available one is skipped. */
  lemma AvailableBeforeBusy(w: World, order: OrderRequest, table: Table, k: nat)
    requires WellFormed(w, order) && TableFor(w.graph, table)
    requires k < |DeliveryAgents(w.users)|
    requires Evaluations(w, order, table, DeliveryAgents(w.users))[k].Kept?
    requires forall i :: 0 <= i < |w.orders| ==> !IsActiveFor(w.orders[i], DeliveryAgents(w.users)[k].id)
    ensures AssignWith(w, order, table).0.Some?
    ensures forall i :: 0 <= i < |w.orders| ==> !IsActiveFor(w.orders[i], AssignWith(w, order, table).0.value)
  {
    var agents := DeliveryAgents(w.users);
    var evs := Evaluations(w, order, table, agents);
    AssignIsOutcome(w, order, table);
    forall k' | 0 <= k' < |agents|
      ensures StartOf(w, agents[k']).0 == 1 || StartOf(w, agents[k']).0 == 2
    {
      StartOfBusyOrAvailable(w, agents[k']);
    }
    StartOfBusyOrAvailable(w, agents[k]);
    OutcomePrefersTopPriority(evs, k);
    var j :| && 0 <= j < |evs| && evs[j].Kept? && evs[j].candidate.username == Outcome(evs).0.value
             && evs[j].candidate.priority == 1;
    StartOfBusyOrAvailable(w, agents[j]);
  }

  /** No delivery agent among the users: nobody is assigned. */
  lemma NoAgentsAssignsNobody(w: World, order: OrderRequest, table: Table)
    requires WellFormed(w, order) && TableFor(w.graph, table)
    requires forall k :: 0 <= k < |w.users| ==> w.users[k].userType != DeliveryAgentType
    ensures AssignWith(w, order, table) == (None, [])
  {
    NoneOfTypeNoAgents(w.users);
  }

  lemma {:induction false} NoneOfTypeNoAgents(users: seq<User>)
    requires forall k :: 0 <= k < |users| ==> users[k].userType != DeliveryAgentType
    ensures DeliveryAgents(users) == []
  {
    if users != [] {
      NoneOfTypeNoAgents(users[1..]);
    }
  }

  /** An order without stores: every driver fails the reachability
      pre-check, so nobody is assigned. */
  lemma EmptyOrderAssignsNobody(w: World, order: OrderRequest, table: Table)
    requires WellFormed(w, order) && TableFor(w.graph, table)
    requires order.storeIds == []
    ensures AssignWith(w, order, table) == (None, [])
  {
    var agents := DeliveryAgents(w.users);
    var evs := Evaluations(w, order, table, agents);
    forall k | 0 <= k < |agents|
      ensures evs[k].Skipped?
    {
      EvaluationAt(w, order, table, agents, k);
      SkippedExactly(w, order, table, agents[k]);
    }
    NobodyIffAllSkipped(w, order, table);
  }

  /** An order from more than four stores: no candidate is pushed, so
      nobody is assigned. */
  lemma LargeOrderAssignsNobody(w: World, order: OrderRequest, table: Table)
    requires WellFormed(w, order) && TableFor(w.graph, table)
    requires |order.storeIds| > ExactSearchLimit
    ensures AssignWith(w, order, table) == (None, [])
  {
    var agents := DeliveryAgents(w.users);
    var evs := Evaluations(w, order, table, agents);
    forall k | 0 <= k < |agents|
      ensures evs[k].Skipped?
    {
      EvaluationAt(w, order, table, agents, k);
      SkippedExactly(w, order, table, agents[k]);
    }
    NobodyIffAllSkipped(w, order, table);
  }

  /** A table in which no node reaches another: a driver is skipped even
      when they stand on a store, because no store reaches the customer. */
  lemma IsolatedNodesSkip(w: World, order: OrderRequest, table: Table, driver: User)
    requires WellFormed(w, order) && TableFor(w.graph, table)
    requires forall a, b :: a in table && b in table && a != b ==> table[a][b].None?
    ensures Evaluate(w, order, table, driver).Skipped?
  {
    SkippedExactly(w, order, table, driver);
    StartInGraph(w, order, driver);
    var start := StartOf(w, driver).1;
    var dest := CustomerNode(order.customerId);
    if order.storeIds == [] {
      return;
    }
    forall p | IdOrdering(w, order, p)
      ensures IdTour(w, order, table, start, p).None?
    {
      assert |p| == |multiset(p)| == |order.storeIds|;
      IsolatedTour(w, order, table, start, p);
    }
  }

  /** A table in which no node reaches another: the tour through a
      non-empty ordering of the stores is infinite, since its last leg
      goes from a store to the customer. */
  lemma IsolatedTour(w: World, order: OrderRequest, table: Table, start: Node, p: seq<int>)
    requires WellFormed(w, order) && TableFor(w.graph, table) && start in w.graph.nodes
    requires forall a, b :: a in table && b in table && a != b ==> table[a][b].None?
    requires IdOrdering(w, order, p) && |p| > 0
    ensures IdTour(w, order, table, start, p).None?
  {
    var dest := CustomerNode(order.customerId);
    var route := [start] + StoreNodes(p) + [dest];
    assert IdTour(w, order, table, start, p) == PathCost(table, route);
    var t := |p|;
    assert 0 <= t < |route| - 1;
    assert route[t] == StoreNode(p[t - 1]) && route[t + 1] == dest;
    CustomerIsNotStore(order.customerId, p[t - 1]);
    assert table[route[t]][route[t + 1]].None?;
  }

  /** A table in which no node reaches another: nobody is assigned. */
  lemma IsolatedNodesAssignNobody(w: World, order: OrderRequest, table: Table)
    requires WellFormed(w, order) && TableFor(w.graph, table)
    requires forall a, b :: a in table && b in table && a != b ==> table[a][b].None?
    ensures AssignWith(w, order, table) == (None, [])
  {
    var agents := DeliveryAgents(w.users);
    var evs := Evaluations(w, order, table, agents);
    forall k | 0 <= k < |agents|
      ensures evs[k].Skipped?
    {
      EvaluationAt(w, order, table, agents, k);
      IsolatedNodesSkip(w, order, table, agents[k]);
    }
    NobodyIffAllSkipped(w, order, table);
  }

  /** A table in which every node reaches every node, and an order from
      one to four stores: every driver is kept. */
  lemma ConnectedKeeps(w: World, order: OrderRequest, table: Table, driver: User)
    requires WellFormed(w, order) && TableFor(w.graph, table)
    requires forall a, b :: a in table && b in table ==> table[a][b].Some?
    requires 1 <= |order.storeIds| <= ExactSearchLimit
    ensures Evaluate(w, order, table, driver).Kept?
  {
    SkippedExactly(w, order, table, driver);
    StartInGraph(w, order, driver);
    var start := StartOf(w, driver).1;
    assert table[start][StoreNodes(order.storeIds)[0]].Some?;
    ConnectedTour(w, order, table, start);
  }

  /** A table in which every node reaches every node: the tour through the
      stores in the order's own order is finite. */
  lemma ConnectedTour(w: World, order: OrderRequest, table: Table, start: Node)
    requires WellFormed(w, order) && TableFor(w.graph, table) && start in w.graph.nodes
    requires forall a, b :: a in table && b in table ==> table[a][b].Some?
    ensures IdOrdering(w, order, order.storeIds)
    ensures IdTour(w, order, table, start, order.storeIds).Some?
  {
    PermutedIdsAreOrderings(w, order, order.storeIds);
  }

  /** A table in which every node reaches every node, an order from one to
      four stores and at least one delivery agent: somebody is assigned. */
  lemma ConnectedAssignsSomebody(w: World, order: OrderRequest, table: Table)
    requires WellFormed(w, order) && TableFor(w.graph, table)
    requires forall a, b :: a in table && b in table ==> table[a][b].Some?
    requires 1 <= |order.storeIds| <= ExactSearchLimit
    requires DeliveryAgents(w.users) != []
    ensures AssignWith(w, order, table).0.Some?
  {
    ConnectedKeeps(w, order, table, DeliveryAgents(w.users)[0]);
    EvaluationAt(w, order, table, DeliveryAgents(w.users), 0);
    NobodyIffAllSkipped(w, order, table);
  }

  /** The assignment prices tours through the graph's own distance table:
      a table with a row and an entry for every node, each entry the
      shortest-path length of its pair. */
  lemma AssignUsesShortestPaths(w: World, order: OrderRequest)
    requires WellFormed(w, order)
    ensures TableFor(w.graph, TableOf(w.graph))
    ensures ShortestTable(w.graph, TableOf(w.graph))
    ensures Assign(w, order) == AssignWith(w, order, TableOf(w.graph))
  {
    TableOfIsDistanceTable(w.graph);
    DistanceTableIsShortest(w.graph, TableOf(w.graph));
  }
}
