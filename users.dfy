/** The static data of the user model: the delivery graph, the drawing
    positions of its nodes (used as the coordinate-to-node map), the
    coordinates of the seeded accounts, the seeded user list, and the
    `User` record. */
module Users {
  import opened Optional
  import opened Graphs
  import opened ShortestPaths

  /** A 2-D coordinate tuple. */
  type Coord = (int, int)

  const AdminOffice: Node := "Admin Office"
  const StoreA: Node := "Store A"
  const StoreB: Node := "Store B"
  const StoreC: Node := "Store C"
  const Customer1: Node := "Customer 1"
  const Customer2: Node := "Customer 2"
  const Customer3: Node := "Customer 3"

  const DeliveryNodes: seq<Node> := [AdminOffice, StoreA, StoreB, StoreC, Customer1, Customer2, Customer3]

  /** Distances in km. */
  const DeliveryEdges: seq<Edge> := [
    Edge(AdminOffice, StoreA, 5),
    Edge(AdminOffice, StoreB, 6),
    Edge(AdminOffice, StoreC, 7),
    Edge(StoreA, Customer1, 4),
    Edge(StoreA, Customer2, 3),
    Edge(StoreB, Customer2, 2),
    Edge(StoreB, Customer3, 5),
    Edge(StoreC, Customer1, 6),
    Edge(StoreC, Customer3, 4),
    Edge(StoreA, StoreB, 3),
    Edge(StoreA, StoreC, 4),
    Edge(StoreB, StoreC, 2)
  ]

  const DeliveryGraph: Graph := Graph(DeliveryNodes, DeliveryEdges)

  /** `graph_positions`, in its insertion order: the coordinate of each node. */
  const GraphPositions: seq<(Node, Coord)> := [
    (AdminOffice, (0, 0)),
    (StoreA, (-1, 1)),
    (StoreB, (-1, -1)),
    (StoreC, (1, 1)),
    (Customer1, (1, 0)),
    (Customer2, (-2, 0)),
    (Customer3, (0, -1))
  ]

  /** `location_coordinates`: the coordinate of each seeded account. */
  const LocationCoordinates: map<string, Coord> := map[
    "admin" := (0, 0),
    "manager1" := (-1, 1),
    "manager2" := (-1, -1),
    "manager3" := (1, 1),
    "customer1" := (1, 0),
    "customer2" := (-2, 0),
    "customer3" := (0, -1)
  ]

  /** A user: the `User` record, whose constructor stores its arguments and
      uses the username as `id`; the optional fields default to None. The
      seeded user dictionaries carry the same fields (their "username" is
      the `id` here). Ratings are decimal numbers. */
  datatype User = User(
    id: string,
    phone: string,
    userType: string,
    storeId: Option<int> := None,
    rating: Option<real> := None,
    email: Option<string> := None,
    location: Option<Coord> := None)

  const DeliveryAgentType: string := "Delivery Agent"

  /** The seeded users (password hashes are not modelled). */
  const SeedUsers: seq<User> := [
    User("admin", "1234567890", "Admin", location := Some(LocationCoordinates["admin"])),
    User("manager1", "1234567891", "Manager", storeId := Some(1), location := Some(LocationCoordinates["manager1"])),
    User("manager2", "1234567892", "Manager", storeId := Some(2), location := Some(LocationCoordinates["manager2"])),
    User("manager3", "1234567893", "Manager", storeId := Some(3), location := Some(LocationCoordinates["manager3"])),
    User("customer1", "1234567894", "Customer", location := Some(LocationCoordinates["customer1"]), email := Some("djangomekgp@gmail.com")),
    User("customer2", "1234567895", "Customer", location := Some(LocationCoordinates["customer2"]), email := Some("djangomekgp@gmail.com")),
    User("customer3", "1234567896", "Customer", location := Some(LocationCoordinates["customer3"]), email := Some("djangomekgp@gmail.com")),
    User("driver1", "1234567897", DeliveryAgentType, rating := Some(4.5), location := Some(LocationCoordinates["admin"])),
    User("driver2", "1234567898", DeliveryAgentType, rating := Some(3.8), location := Some(LocationCoordinates["admin"]))
  ]

  /** The delivery graph has the seven named locations, all distinct, and
      twelve edges, none a self-loop and no two joining the same pair, so
      the networkx graph holds exactly twelve undirected edges. */
  lemma DeliveryGraphShape()
    ensures ValidGraph(DeliveryGraph)
    ensures |DeliveryNodes| == 7 && |DeliveryEdges| == 12
    ensures forall k :: 0 <= k < |DeliveryEdges| ==> DeliveryEdges[k].u != DeliveryEdges[k].v
    ensures forall k, k' :: 0 <= k < k' < |DeliveryEdges| ==>
      !Joins(DeliveryEdges[k'], DeliveryEdges[k].u, DeliveryEdges[k].v)
  {
    EndpointsAreNodes();
    forall k | 0 <= k < 12
      ensures forall k' :: k < k' < 12 ==> !Joins(DeliveryEdges[k'], DeliveryEdges[k].u, DeliveryEdges[k].v)
    {
      NoLaterParallel(k);
    }
  }

  lemma EndpointsAreNodes()
    ensures DistinctNodes(DeliveryNodes)
    ensures forall k :: 0 <= k < |DeliveryEdges| ==> DeliveryEdges[k].u in DeliveryNodes && DeliveryEdges[k].v in DeliveryNodes
    ensures forall k :: 0 <= k < |DeliveryEdges| ==> DeliveryEdges[k].u != DeliveryEdges[k].v
  {
  }

  /** No edge after edge k joins the same pair of nodes. */
  lemma NoLaterParallel(k: nat)
    requires k < 12
    ensures forall k' :: k < k' < 12 ==> !Joins(DeliveryEdges[k'], DeliveryEdges[k].u, DeliveryEdges[k].v)
  {
  }

  /** The weight of every listed edge, in both directions. */
  lemma DeliveryEdgeWeights()
    ensures forall k :: 0 <= k < |DeliveryEdges| ==>
      && EdgeWeight(DeliveryEdges, DeliveryEdges[k].u, DeliveryEdges[k].v) == Some(DeliveryEdges[k].weight)
      && EdgeWeight(DeliveryEdges, DeliveryEdges[k].v, DeliveryEdges[k].u) == Some(DeliveryEdges[k].weight)
    ensures EdgeWeight(DeliveryEdges, AdminOffice, StoreA) == Some(5)
    ensures EdgeWeight(DeliveryEdges, StoreB, StoreC) == Some(2)
  {
    forall k | 0 <= k < |DeliveryEdges|
      ensures EdgeWeight(DeliveryEdges, DeliveryEdges[k].u, DeliveryEdges[k].v) == Some(DeliveryEdges[k].weight)
      ensures EdgeWeight(DeliveryEdges, DeliveryEdges[k].v, DeliveryEdges[k].u) == Some(DeliveryEdges[k].weight)
    {
      ListedEdgeWeight(k);
    }
    ListedEdgeWeight(0);
    ListedEdgeWeight(11);
  }

  lemma ListedEdgeWeight(k: nat)
    requires k < 12
    ensures EdgeWeight(DeliveryEdges, DeliveryEdges[k].u, DeliveryEdges[k].v) == Some(DeliveryEdges[k].weight)
    ensures EdgeWeight(DeliveryEdges, DeliveryEdges[k].v, DeliveryEdges[k].u) == Some(DeliveryEdges[k].weight)
  {
    NoLaterParallel(k);
    EdgeWeightSymmetric(DeliveryEdges, DeliveryEdges[k].u, DeliveryEdges[k].v);
  }

  /** Walks between the Admin Office (index 0) and every node. */
  function FromAdmin(x: nat): seq<nat>
    requires x < 7
  {
    if x == 0 then [0] else if x <= 3 then [0, x] else [0, Via(x), x]
  }

  /** The store a customer node is reached through from the Admin Office. */
  function Via(x: nat): nat
  {
    if x == 6 then 2 else 1
  }

  function ToAdmin(x: nat): seq<nat>
    requires x < 7
  {
    if x == 0 then [0] else if x <= 3 then [x, 0] else [x, Via(x), 0]
  }

  /** Nodes a and b of the delivery graph are joined by edge k. */
  lemma Adjacent(a: nat, b: nat, k: nat)
    requires a < 7 && b < 7 && k < 12
    requires DeliveryEdges[k].u == DeliveryNodes[a] && DeliveryEdges[k].v == DeliveryNodes[b]
    ensures Step(DeliveryGraph, a, b).Some? && Step(DeliveryGraph, b, a).Some?
  {
    DeliveryEdgeWeights();
  }

  lemma ShortWalk(a: nat, b: nat, c: nat)
    requires a < 7 && b < 7 && c < 7
    requires Step(DeliveryGraph, a, b).Some? && Step(DeliveryGraph, b, c).Some?
    ensures IsWalk(DeliveryGraph, [a, b], a, b) && IsWalk(DeliveryGraph, [a, b, c], a, c)
  {
  }

  /** a-b-c is a walk in both directions when edges k1 and k2 join a, b and b, c. */
  lemma TwoHops(a: nat, b: nat, c: nat, k1: nat, k2: nat)
    requires a < 7 && b < 7 && c < 7 && k1 < 12 && k2 < 12
    requires DeliveryEdges[k1].u == DeliveryNodes[a] && DeliveryEdges[k1].v == DeliveryNodes[b]
    requires DeliveryEdges[k2].u == DeliveryNodes[b] && DeliveryEdges[k2].v == DeliveryNodes[c]
    ensures IsWalk(DeliveryGraph, [a, b, c], a, c) && IsWalk(DeliveryGraph, [c, b, a], c, a)
  {
    Adjacent(a, b, k1);
    Adjacent(b, c, k2);
    ShortWalk(a, b, c);
    ShortWalk(c, b, a);
  }

  lemma AdminWalks(x: nat)
    requires x < 7
    ensures IsWalk(DeliveryGraph, FromAdmin(x), 0, x)
    ensures IsWalk(DeliveryGraph, ToAdmin(x), x, 0)
  {
    if 1 <= x <= 3 {
      Adjacent(0, x, x - 1);
      ShortWalk(0, x, 0);
      ShortWalk(x, 0, x);
    } else if x == 4 {
      TwoHops(0, 1, 4, 0, 3);
    } else if x == 5 {
      TwoHops(0, 1, 5, 0, 4);
    } else if x == 6 {
      TwoHops(0, 2, 6, 1, 6);
    }
  }

  /** Every node reaches every node in the delivery graph, so its distance
      table has no unreachable entry. */
  lemma DeliveryGraphConnected()
    ensures forall i, j :: 0 <= i < 7 && 0 <= j < 7 ==> Dist(DeliveryGraph, i, j).Some?
  {
    forall i, j | 0 <= i < 7 && 0 <= j < 7
      ensures Dist(DeliveryGraph, i, j).Some?
    {
      JoinedViaAdmin(i, j);
    }
  }

  /** Node i reaches node j through the Admin Office. */
  lemma JoinedViaAdmin(i: nat, j: nat)
    requires i < 7 && j < 7
    ensures Dist(DeliveryGraph, i, j).Some?
  {
    var p, q := ToAdmin(i), FromAdmin(j);
    AdminWalks(i);
    AdminWalks(j);
    WalkConcat(DeliveryGraph, p, q, i, 0, j);
    DistIsShortest(DeliveryGraph, i, j);
    assert IsWalk(DeliveryGraph, p + q[1..], i, j);
  }

  /** The seven positions name the seven graph nodes, in order, at pairwise
      distinct coordinates: an exact-match lookup finds at most one node. */
  lemma PositionsDistinct()
    ensures |GraphPositions| == |DeliveryNodes|
    ensures forall k :: 0 <= k < |GraphPositions| ==> GraphPositions[k].0 == DeliveryNodes[k]
    ensures forall k, k' :: 0 <= k < k' < |GraphPositions| ==> GraphPositions[k].1 != GraphPositions[k'].1
  {
  }

  /** Each customer's coordinate is the position of its "Customer n" node,
      each manager's that of its store, the admin's that of the Admin Office. */
  lemma CoordinatesMatchPositions()
    ensures LocationCoordinates["admin"] == GraphPositions[0].1 && GraphPositions[0].0 == AdminOffice
    ensures LocationCoordinates["manager1"] == GraphPositions[1].1 && GraphPositions[1].0 == StoreA
    ensures LocationCoordinates["manager2"] == GraphPositions[2].1 && GraphPositions[2].0 == StoreB
    ensures LocationCoordinates["manager3"] == GraphPositions[3].1 && GraphPositions[3].0 == StoreC
    ensures LocationCoordinates["customer1"] == GraphPositions[4].1 && GraphPositions[4].0 == Customer1
    ensures LocationCoordinates["customer2"] == GraphPositions[5].1 && GraphPositions[5].0 == Customer2
    ensures LocationCoordinates["customer3"] == GraphPositions[6].1 && GraphPositions[6].0 == Customer3
  {
  }

  /** The constructor keeps its arguments, takes the username as id and
      leaves every optional field it is not given as None. */
  lemma UserConstructorDefaults(username: string, phone: string, userType: string, location: Coord)
    ensures var u := User(username, phone, userType, location := Some(location));
      && u.id == username && u.phone == phone && u.userType == userType
      && u.location == Some(location)
      && u.storeId.None? && u.rating.None? && u.email.None?
  {
  }
}
