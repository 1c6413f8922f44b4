/** The delivery network of the user model with the driver fixture of the
    assignment tests: two delivery agents, one at the Admin Office and one
    at Store A, and a customer. Each scenario is proved from the general
    lemmas, not by evaluating the assignment. */
module Scenarios {
  import opened Optional
  import opened Graphs
  import opened DistanceTable
  import opened Users
  import opened RouteSearch
  import opened DriverSelection
  import opened AssignmentFacts

  const Driver1: User := User("driver1", "", DeliveryAgentType, location := Some((0, 0)))
  const Driver2: User := User("driver2", "", DeliveryAgentType, location := Some((-1, 1)))
  const Customer: User := User("customer1", "", "Customer", location := Some((1, 0)))
  const FixtureUsers: seq<User> := [Driver1, Driver2, Customer]

  /** driver1 busy with an undelivered order for Customer 2. */
  const Driver1Busy: OrderRecord := OrderRecord(Some("driver1"), "preparing", false, Some((-2, 0)))
  /** driver2 busy with an undelivered order for Customer 3. */
  const Driver2Busy: OrderRecord := OrderRecord(Some("driver2"), "preparing", false, Some((0, -1)))

  function Fixture(users: seq<User>, orders: seq<OrderRecord>): World
  {
    World(DeliveryGraph, GraphPositions, users, orders)
  }

  /** An order of customer1 from the given stores. */
  function OrderFrom(storeIds: seq<int>): OrderRequest
  {
    OrderRequest("customer1", storeIds, Some((1, 0)))
  }

  /** Orders of customer1 from stores 1, 2 and 3 raise no error. */
  lemma FixtureWellFormed(users: seq<User>, orders: seq<OrderRecord>, storeIds: seq<int>)
    requires forall k :: 0 <= k < |storeIds| ==> 1 <= storeIds[k] <= 3
    requires forall k, k' :: 0 <= k < k' < |storeIds| ==> storeIds[k] != storeIds[k']
    ensures WellFormed(Fixture(users, orders), OrderFrom(storeIds))
  {
    DeliveryGraphShape();
    assert CustomerNode("customer1") == Customer1;
    assert StoreNode(1) == StoreA && StoreNode(2) == StoreB && StoreNode(3) == StoreC;
  }

  /** Every pair of nodes of the delivery network is joined. */
  lemma FixtureConnected()
    ensures TableFor(DeliveryGraph, TableOf(DeliveryGraph))
    ensures forall a, b :: a in TableOf(DeliveryGraph) && b in TableOf(DeliveryGraph) ==>
      TableOf(DeliveryGraph)[a][b].Some?
  {
    DeliveryGraphConnected();
    ConnectedTableReachable(DeliveryGraph);
  }

  /** The delivery agents of the fixture, extended by `extra`. */
  lemma FixtureAgents(extra: seq<User>)
    requires forall k :: 0 <= k < |extra| ==> extra[k].userType == DeliveryAgentType
    ensures DeliveryAgents(FixtureUsers + extra) == [Driver1, Driver2] + extra
  {
    AgentsConcat(FixtureUsers, extra);
    AllAgents(extra);
    FixtureUsersAgents();
  }

  /** Of the fixture's users, the two drivers are delivery agents. */
  lemma FixtureUsersAgents()
    ensures DeliveryAgents(FixtureUsers) == [Driver1, Driver2]
  {
    var u := FixtureUsers;
    assert u[0] == Driver1 && u[1..] == [Driver2, Customer];
    assert [Driver2, Customer][0] == Driver2 && [Driver2, Customer][1..] == [Customer];
    assert [Customer][0] == Customer && [Customer][1..] == [];
    assert Customer.userType != DeliveryAgentType by {
      assert Customer.userType[0] == 'C' && DeliveryAgentType[0] == 'D';
    }
    assert DeliveryAgents([Customer]) == [];
    assert DeliveryAgents([Driver2, Customer]) == [Driver2];
  }

  /** The agents of a concatenation are the agents of each part. */
  lemma {:induction false} AgentsConcat(a: seq<User>, b: seq<User>)
    ensures DeliveryAgents(a + b) == DeliveryAgents(a) + DeliveryAgents(b)
  {
    if a != [] {
      assert (a + b)[0] == a[0];
      assert (a + b)[1..] == a[1..] + b;
      AgentsConcat(a[1..], b);
      var x := if a[0].userType == DeliveryAgentType then [a[0]] else [];
      assert DeliveryAgents(a + b) == x + (DeliveryAgents(a[1..]) + DeliveryAgents(b));
      assert DeliveryAgents(a) == x + DeliveryAgents(a[1..]);
    } else {
      assert a + b == b;
    }
  }

  lemma {:induction false} AllAgents(users: seq<User>)
    requires forall k :: 0 <= k < |users| ==> users[k].userType == DeliveryAgentType
    ensures DeliveryAgents(users) == users
  {
    if users != [] {
      AllAgents(users[1..]);
    }
  }

  /** With every pair of nodes joined and one to four distinct stores out
      of 1, 2 and 3, some delivery agent is assigned and the route lists
      each store once. */
  lemma FixtureAssigns(users: seq<User>, orders: seq<OrderRecord>, storeIds: seq<int>)
    requires DeliveryAgents(users) != []
    requires 1 <= |storeIds| <= ExactSearchLimit && forall k :: 0 <= k < |storeIds| ==> 1 <= storeIds[k] <= 3
    requires forall k, k' :: 0 <= k < k' < |storeIds| ==> storeIds[k] != storeIds[k']
    ensures (FixtureWellFormed(users, orders, storeIds);
      var result := Assign(Fixture(users, orders), OrderFrom(storeIds));
      && result.0.Some?
      && (exists k :: 0 <= k < |DeliveryAgents(users)| && result.0.value == DeliveryAgents(users)[k].id)
      && multiset(result.1) == multiset(storeIds))
  {
    var w := Fixture(users, orders);
    var order := OrderFrom(storeIds);
    FixtureWellFormed(users, orders, storeIds);
    AssignUsesShortestPaths(w, order);
    FixtureConnected();
    ConnectedAssignsSomebody(w, order, TableOf(DeliveryGraph));
    WinnerIsLeast(w, order, TableOf(DeliveryGraph));
    AssignedRouteIsOrdering(w, order, TableOf(DeliveryGraph));
  }

  /** Some agent with no active order keeps a route when every pair of
      nodes is joined, so the assigned agent has no active order either. */
  lemma FixturePrefersAvailable(users: seq<User>, orders: seq<OrderRecord>, storeIds: seq<int>, k: nat)
    requires k < |DeliveryAgents(users)|
    requires forall i :: 0 <= i < |orders| ==> !IsActiveFor(orders[i], DeliveryAgents(users)[k].id)
    requires 1 <= |storeIds| <= ExactSearchLimit && forall k :: 0 <= k < |storeIds| ==> 1 <= storeIds[k] <= 3
    requires forall k, k' :: 0 <= k < k' < |storeIds| ==> storeIds[k] != storeIds[k']
    ensures (FixtureWellFormed(users, orders, storeIds);
      var result := Assign(Fixture(users, orders), OrderFrom(storeIds));
      result.0.Some? && forall i :: 0 <= i < |orders| ==> !IsActiveFor(orders[i], result.0.value))
  {
    var w, order := Fixture(users, orders), OrderFrom(storeIds);
    var table := TableOf(DeliveryGraph);
    FixtureWellFormed(users, orders, storeIds);
    AssignUsesShortestPaths(w, order);
    FixtureConnected();
    var agents := DeliveryAgents(users);
    ConnectedKeeps(w, order, table, agents[k]);
    EvaluationAt(w, order, table, agents, k);
    AvailableBeforeBusy(w, order, table, k);
  }

  /** One store: one of the two drivers is assigned and the route is that store. */
  lemma BasicAssignment(users: seq<User>)
    requires users == FixtureUsers
    ensures (FixtureWellFormed(users, [], [1]);
      var result := Assign(Fixture(users, []), OrderFrom([1]));
      (result.0 == Some("driver1") || result.0 == Some("driver2")) && result.1 == [1])
  {
    FixtureUsersAgents();
    FixtureWellFormed(users, [], [1]);
    FixtureAssigns(users, [], [1]);
    var result := Assign(Fixture(users, []), OrderFrom([1]));
    AmongTwo(result.0.value, DeliveryAgents(users));
    SingletonOrdering(result.1, [1]);
  }

  /** Three stores: one of the two drivers visits each of stores 1, 2 and 3 once. */
  lemma ThreeStoreAssignment(users: seq<User>)
    requires users == FixtureUsers
    ensures (FixtureWellFormed(users, [], [1, 2, 3]);
      var result := Assign(Fixture(users, []), OrderFrom([1, 2, 3]));
      && (result.0 == Some("driver1") || result.0 == Some("driver2"))
      && |result.1| == 3 && (set id | id in result.1) == {1, 2, 3})
  {
    var ids := [1, 2, 3];
    FixtureUsersAgents();
    FixtureWellFormed(users, [], ids);
    FixtureAssigns(users, [], ids);
    var result := Assign(Fixture(users, []), OrderFrom(ids));
    var route := result.1;
    AmongTwo(result.0.value, DeliveryAgents(users));
    PermutationSameSet(route, ids);
    ThreeIds(ids);
  }

  lemma ThreeIds(ids: seq<int>)
    requires ids == [1, 2, 3]
    ensures (set x | x in ids) == {1, 2, 3}
  {
    assert forall x :: x in ids <==> x == 1 || x == 2 || x == 3;
  }

  /** Sequences that are permutations of each other have the same length
      and the same elements. */
  lemma PermutationSameSet(p: seq<int>, q: seq<int>)
    requires multiset(p) == multiset(q)
    ensures |p| == |q| && (set x | x in p) == (set x | x in q)
  {
    assert |p| == |multiset(p)| == |multiset(q)| == |q|;
    forall x
      ensures x in p <==> x in q
    {
      assert x in p <==> x in multiset(p);
      assert x in q <==> x in multiset(q);
    }
  }

  /** Without users nobody is assigned. */
  lemma NoDrivers()
    ensures (FixtureWellFormed([], [], [1]);
      Assign(Fixture([], []), OrderFrom([1])) == (None, []))
  {
    var w, order := Fixture([], []), OrderFrom([1]);
    FixtureWellFormed([], [], [1]);
    AssignUsesShortestPaths(w, order);
    NoAgentsAssignsNobody(w, order, TableOf(DeliveryGraph));
  }

  /** driver1 busy with an undelivered order: the available driver2 is assigned. */
  lemma BusyDriverPassedOver(users: seq<User>)
    requires users == FixtureUsers
    ensures (FixtureWellFormed(users, [Driver1Busy], [1]);
      Assign(Fixture(users, [Driver1Busy]), OrderFrom([1])).0 == Some("driver2"))
  {
    FixtureUsersAgents();
    assert !IsActiveFor(Driver1Busy, "driver2");
    FixtureAssigns(users, [Driver1Busy], [1]);
    FixturePrefersAvailable(users, [Driver1Busy], [1], 1);
    assert IsActiveFor(Driver1Busy, "driver1");
  }

  /** Both drivers busy: one of them is still assigned. */
  lemma AllDriversBusy(users: seq<User>)
    requires users == FixtureUsers
    ensures (FixtureWellFormed(users, [Driver1Busy, Driver2Busy], [1]);
      var result := Assign(Fixture(users, [Driver1Busy, Driver2Busy]), OrderFrom([1]));
      result.0 == Some("driver1") || result.0 == Some("driver2"))
  {
    FixtureUsersAgents();
    FixtureAssigns(users, [Driver1Busy, Driver2Busy], [1]);
  }

  /** A third driver at coordinates of no node. */
  const Driver3: User := User("driver3", "", DeliveryAgentType, location := Some((100, 100)))

  /** Every node lies in the box [-2, 1] x [-1, 1], so a coordinate outside
      it matches no node and the driver starts at the Admin Office. */
  lemma OffGridStartsAtAdmin(c: Coord)
    requires c.0 < -2 || c.0 > 1 || c.1 < -1 || c.1 > 1
    ensures NodeAt(GraphPositions, Some(c)) == AdminOffice
  {
    forall k | 0 <= k < |GraphPositions|
      ensures -2 <= GraphPositions[k].1.0 <= 1 && -1 <= GraphPositions[k].1.1 <= 1
    {
    }
  }

  /** A driver at coordinates of no node starts at the Admin Office, and
      one of the three drivers is assigned. */
  lemma UnmappedCoordinates(users: seq<User>)
    requires users == FixtureUsers + [Driver3]
    ensures NodeAt(GraphPositions, Driver3.location) == AdminOffice
    ensures (FixtureWellFormed(users, [], [1]);
      var result := Assign(Fixture(users, []), OrderFrom([1]));
      result.0 == Some("driver1") || result.0 == Some("driver2") || result.0 == Some("driver3"))
  {
    OffGridStartsAtAdmin((100, 100));
    FixtureAgents([Driver3]);
    assert DeliveryAgents(users) == [Driver1, Driver2, Driver3];
    FixtureWellFormed(users, [], [1]);
    FixtureAssigns(users, [], [1]);
    AmongThree(Assign(Fixture(users, []), OrderFrom([1])).0.value, DeliveryAgents(users));
  }

  lemma AmongTwo(u: string, agents: seq<User>)
    requires agents == [Driver1, Driver2]
    requires exists k :: 0 <= k < |agents| && u == agents[k].id
    ensures u == "driver1" || u == "driver2"
  {
  }

  lemma AmongThree(u: string, agents: seq<User>)
    requires agents == [Driver1, Driver2, Driver3]
    requires exists k :: 0 <= k < |agents| && u == agents[k].id
    ensures u == "driver1" || u == "driver2" || u == "driver3"
  {
  }

  /** When every path query fails, every entry off the diagonal is
      unreachable, and nobody is assigned, whoever the users are. */
  lemma PathQueriesFail(users: seq<User>, table: Table)
    requires TableFor(DeliveryGraph, table)
    requires forall a, b :: a in table && b in table && a != b ==> table[a][b].None?
    ensures (FixtureWellFormed(users, [], [1]);
      AssignWith(Fixture(users, []), OrderFrom([1]), table) == (None, []))
  {
    FixtureWellFormed(users, [], [1]);
    IsolatedNodesAssignNobody(Fixture(users, []), OrderFrom([1]), table);
  }

  /** Over a network without roads no store is reachable, so nobody is assigned. */
  lemma NoRoadsAssignsNobody(w: World, order: OrderRequest)
    requires WellFormed(w, order) && w.graph.edges == []
    ensures Assign(w, order) == (None, [])
  {
    AssignUsesShortestPaths(w, order);
    EdgelessTableUnreachable(w.graph);
    IsolatedNodesAssignNobody(w, order, TableOf(w.graph));
  }

  /** The seeded users hold two delivery agents, driver1 and driver2, both
      at the Admin Office. */
  lemma SeededAgents(users: seq<User>)
    requires users == SeedUsers
    ensures |DeliveryAgents(users)| == 2
    ensures DeliveryAgents(users)[0].id == "driver1" && DeliveryAgents(users)[1].id == "driver2"
    ensures forall k :: 0 <= k < 2 ==> NodeAt(GraphPositions, DeliveryAgents(users)[k].location) == AdminOffice
  {
    SeedStaffNotAgents(users[..7]);
    SeedDriversAreAgents(users[7..]);
    AgentsAfter(users, 7);
    SeedDriversAtAdmin(users[7..]);
  }

  /** Users that start with n non-agents followed by agents only have those agents. */
  lemma AgentsAfter(users: seq<User>, n: nat)
    requires n <= |users|
    requires DeliveryAgents(users[..n]) == [] && DeliveryAgents(users[n..]) == users[n..]
    ensures DeliveryAgents(users) == users[n..]
  {
    AgentsConcat(users[..n], users[n..]);
    assert users[..n] + users[n..] == users;
  }

  lemma SeedStaffNotAgents(staff: seq<User>)
    requires staff == SeedUsers[..7]
    ensures DeliveryAgents(staff) == []
  {
    NoneOfTypeNoAgents(staff);
  }

  lemma SeedDriversAreAgents(drivers: seq<User>)
    requires drivers == SeedUsers[7..]
    ensures DeliveryAgents(drivers) == drivers
  {
    AllAgents(drivers);
  }

  lemma SeedDriversAtAdmin(drivers: seq<User>)
    requires drivers == SeedUsers[7..]
    ensures |drivers| == 2 && drivers[0].id == "driver1" && drivers[1].id == "driver2"
    ensures forall k :: 0 <= k < 2 ==> NodeAt(GraphPositions, drivers[k].location) == AdminOffice
  {
    CoordinatesMatchPositions();
    assert drivers[0].location == drivers[1].location == Some(GraphPositions[0].1);
  }
}
