# Driver assignment and route selection, modelled in Dafny

This project models `assign_driver` from `app/utils/algo.py`, the routine that picks a delivery agent for a multi-store order and the order in which that agent visits the stores. It also models the static data in `app/models/users.py` that the routine runs over: the seven-node delivery graph, the node positions, the account coordinates, the seeded users and the `User` record.

The routine works in four stages, and each has its own module:

- **Distance table** (`DistanceTable`, over `ShortestPaths` and `Graphs`). For every driver, a nested table from source node to target node to shortest-path length. The diagonal is 0, and a pair no path joins gets the `float('inf')` sentinel, written `None` here. `Graphs` models the undirected networkx graph: a later edge between the same pair overwrites the earlier weight. The per-pair networkx queries are replaced by one Floyd–Warshall matrix computed in place on an `array2`. The values it produces are proved to be the shortest walk weights (`IsShortestDistance`), so the table is the same.
- **Route search** (`RouteSearch`, `Orderings`). Store ids become `"Store " + chr(64 + id)` and the customer becomes `"Customer " + last character of the customer id`. `Orderings.Permutations` enumerates orderings in `itertools.permutations` order. Each ordering is priced start → stores → customer, and an ordering with an unreachable leg is dropped. The first strictly cheapest ordering is kept.
- **Busy detection and start node** (`DriverSelection`):
  - A driver is busy when some order is theirs, its status is not `"delivered"` and its `delivered` flag is false. The first such order counts.
  - A busy driver has priority 2 and starts at that order's customer location.
  - Any other driver has priority 1 and starts at their own location.
  - The coordinate is mapped to the first node whose position equals it exactly, or to "Admin Office" when none does.
- **Selection** (`DriverSelection`). The heap pop is the least `(priority, distance, username)` in Python tuple order, with strings compared by code point. The route returned is the one recorded under the winner's username. With more than four stores nothing is pushed, so the result is `(None, [])`.

`AssignmentFacts` proves what the routine promises, for any table with a row and an entry for every node. `Scenarios` restates the cases of `tests/test_utils/test_algo.py` on the shipped graph and proves each one from those general lemmas.

The comments and the docstring in `app/utils/algo.py` describe two things the code does not do. The model follows the code:

- **More than four stores.** The comment at app/utils/algo.py:86-87 and the docstring at app/utils/algo.py:178-179 and :199-201 describe a nearest-neighbour heuristic for larger orders. The code has no such branch: it pushes no candidate, so the result is `(None, [])` (`LargeOrderAssignsNobody`).
- **Floyd–Warshall.** The comment at app/utils/algo.py:62-63 and the docstring at :176 and :202 name Floyd–Warshall, but the code runs one networkx query per pair. The model computes a single Floyd–Warshall matrix and proves that its entries are the shortest-path lengths those queries return.

Ties between drivers on `(priority, distance)` are broken by the heap itself: the tuple with the smaller username is popped (`WinnerIsLeast`, `KeyLess`).

## Model

| member | source | states |
|---|---|---|
| Graphs.EdgeWeight | app/models/users.py:13-27 | the stored weight of a pair is None exactly when no listed edge joins it, and otherwise the weight of the last listed edge joining it (networkx overwrites) |
| Graphs.EdgeWeightSymmetric | app/models/users.py:6 | the graph is undirected: the weight between a and b equals the weight between b and a |
| ShortestPaths.AdjacencyMatrix | app/models/users.py:27 | adding the edges one by one in place gives 0 on the diagonal, the overwriting edge weight between joined pairs and None elsewhere |
| ShortestPaths.SetEdge | app/models/users.py:27 | one edge addition records the weight in both directions and changes no other entry |
| ShortestPaths.RelaxThrough | app/utils/algo.py:62-63 | one in-place Floyd–Warshall round through node k turns the stage-k distances into the stage-k+1 distances |
| ShortestPaths.FloydWarshall | app/utils/algo.py:62-80 | the computed matrix holds the shortest-path length of every ordered pair of nodes |
| ShortestPaths.Dist | app/utils/algo.py:68-74 | the shortest-path length of a pair; a node's length to itself is 0 (its full meaning is DistIsShortest) |
| ShortestPaths.DistIsShortest | app/utils/algo.py:72-80 | the computed length is None exactly when no walk joins the pair; otherwise it is the weight of some walk and at most the weight of every walk |
| ShortestPaths.ShortestDistanceUnique | app/utils/algo.py:72-80 | no other value meets that description of the shortest-path length |
| ShortestPaths.NoEdgesUnreachable | app/utils/algo.py:76-80 | with no edges, distinct nodes are unreachable from each other |
| ShortestPaths.Optimal | app/utils/algo.py:74 | every walk whose interior nodes lie below k weighs at least the stage-k distance, which is finite |
| ShortestPaths.Witness | app/utils/algo.py:74 | every finite stage-k distance is the weight of an actual walk between the two nodes |
| DistanceTable.BuildRow | app/utils/algo.py:66-80 | one row holds, for every node of the graph and no other key, the shortest-path length from the source (0 to itself) |
| DistanceTable.BuildDistanceTable | app/utils/algo.py:64-80 | building the table never fails and yields the distance table of the graph: a row for every node and an entry for every pair |
| DistanceTable.TableEntries | app/utils/algo.py:64-80 | every entry is the shortest-path length of its pair (None exactly when no walk joins them) and every diagonal entry is 0 |
| DistanceTable.DistanceTableUnique | app/utils/algo.py:64-80 | the graph determines the distance table |
| DistanceTable.DistanceTableIsShortest | app/utils/algo.py:64-80 | a distance table is square and every entry is a shortest-path length |
| DistanceTable.LegIsShortest | app/utils/algo.py:68-77 | the entry between two named nodes is their shortest-path length |
| DistanceTable.EdgelessTableUnreachable | app/utils/algo.py:76-80 | in a graph without edges, every off-diagonal entry is unreachable |
| DistanceTable.ConnectedTableReachable | app/utils/algo.py:74-75 | when every pair is joined, no entry is unreachable |
| RouteSearch.StoreNodeRoundTrip | app/utils/algo.py:20-25 | StoreIdOf inverts StoreNode, so distinct store ids give distinct store nodes |
| RouteSearch.StoreNodesRoundTrip | app/utils/algo.py:22-25 | reading the store nodes of a list of ids back through StoreIdOf gives the ids |
| RouteSearch.StoreNode | app/utils/algo.py:23 | a store node is seven characters long and starts with "Store " (StoreNodeRoundTrip shows it names its id) |
| RouteSearch.CustomerNode | app/utils/algo.py:16 | a customer node starts with "Customer " and ends with the last character of the customer id |
| RouteSearch.CustomerIsNotStore | app/utils/algo.py:16-23 | a customer node is never a store node |
| RouteSearch.StoreNodes | app/utils/algo.py:22-24 | the stores to visit are the nodes of the order's store ids, in order |
| RouteSearch.PathCost | app/utils/algo.py:94-116 | a route has a length exactly when every leg of it is reachable |
| RouteSearch.TourCost | app/utils/algo.py:94-116 | with no store the tour is the direct start-to-customer entry; a tour with a length has a reachable first leg from the start and a reachable final leg to the customer (PathCost gives every leg) |
| RouteSearch.RouteWalk | app/utils/algo.py:94-116 | a route's length through a shortest-path table is the weight of an actual walk of the graph from its first node to its last |
| RouteSearch.TourAtLeastDirect | app/utils/algo.py:94-116 | no tour through the stores is shorter than the direct shortest path from the start to the customer |
| RouteSearch.MeasureTour | app/utils/algo.py:94-116 | pricing one ordering leg by leg, stopping at the first unreachable leg, yields the tour length (None when any leg is unreachable) |
| RouteSearch.Scan | app/utils/algo.py:90-120 | replacing the kept cost only by a strictly smaller reachable one keeps nothing exactly when every cost is unreachable, and otherwise keeps the first minimum |
| RouteSearch.BestOfIsFirstMinimum | app/utils/algo.py:90-120 | the search keeps nothing exactly when no ordering is fully reachable; otherwise it keeps the first ordering of least tour length, with that length |
| RouteSearch.BestOf | app/utils/algo.py:88-124 | the kept ordering is one of the enumerated orderings, kept with its own tour length |
| RouteSearch.BestOfStep | app/utils/algo.py:118-120 | scanning one more ordering changes the kept ordering only to a fully reachable one that is strictly shorter |
| RouteSearch.SearchRoutes | app/utils/algo.py:88-124 | the permutation loop returns exactly the first strictly cheapest ordering of the enumeration, or None |
| RouteSearch.SearchFindsNothing | app/utils/algo.py:90-124 | the search finds nothing exactly when no ordering of the stores is fully reachable |
| RouteSearch.SearchOptimal | app/utils/algo.py:88-124 | the kept ordering is a permutation of the stores, fully reachable at the kept distance, and no permutation has a shorter finite tour |
| RouteSearch.OrderingEnumerated | app/utils/algo.py:93 | every rearrangement of the stores is enumerated |
| Orderings.PermutationsSound | app/utils/algo.py:93 | every enumerated ordering is a permutation of the input |
| Orderings.PermutationsComplete | app/utils/algo.py:93 | every permutation of the input is enumerated |
| Orderings.Permutations | app/utils/algo.py:93 | the enumeration is never empty and its first ordering is the input itself, as `itertools.permutations` yields it |
| Orderings.MapPreservesPermutation | app/utils/algo.py:127 | mapping a function over two permutations of each other gives permutations of each other |
| DriverSelection.StoresToVisit | app/utils/algo.py:19-25 | builds the stores to visit in order, and a mapping that sends each store node back to its id |
| DriverSelection.AssignedOrder | app/utils/algo.py:39-42 | no order is found exactly when none is the driver's and undelivered; otherwise the first such order is found |
| DriverSelection.NodeAt | app/utils/algo.py:54-60 | the start node is the first node whose position equals the coordinate, or "Admin Office" when none does |
| DriverSelection.LocateNode | app/utils/algo.py:54-60 | the position scan with early exit returns that node |
| DriverSelection.DriverStart | app/utils/algo.py:38-60 | computes priority 2 and the busy order's customer location, or priority 1 and the driver's own location, then looks up the node |
| DriverSelection.StartOf | app/utils/algo.py:38-60 | the priority is 1 or 2, and the start node is "Admin Office" or a node named in the position table |
| DriverSelection.StartInGraph | app/utils/algo.py:54-60 | the start node is always a node of the graph |
| DriverSelection.EvaluateWith | app/utils/algo.py:83-135 | one driver's loop body: skipped when no store is reachable, when there are more than four stores, or when no ordering is fully reachable; otherwise a candidate with the kept ordering as store ids |
| DriverSelection.EvaluateDriver | app/utils/algo.py:62-135 | the same with the driver's freshly built distance table |
| DriverSelection.Evaluate | app/utils/algo.py:83-135 | a driver is pushed only for an order of one to four stores, with a route of one store id per store |
| DriverSelection.StoreIdsOfRoute | app/utils/algo.py:127 | the mapping turns the kept store nodes back into exactly their store ids |
| DriverSelection.MappingInvertsStoreNode | app/utils/algo.py:20-25 | on any ordering of the store nodes, the mapping agrees with StoreIdOf |
| DriverSelection.StrLessIrreflexive | app/utils/algo.py:135-139 | no string is below itself in Python string order |
| DriverSelection.StrLessTransitive | app/utils/algo.py:135-139 | Python string order is transitive |
| DriverSelection.StrLessTotal | app/utils/algo.py:135-139 | of two distinct strings, one is below the other |
| DriverSelection.KeyLessOrder | app/utils/algo.py:135-139 | the (priority, distance, username) order is a strict total order |
| DriverSelection.KeyLess | app/utils/algo.py:135 | in the heap's tuple order a smaller key never has a larger priority, and with equal priorities never a larger distance |
| DriverSelection.MinCandidate | app/utils/algo.py:138-139 | the popped entry is in the heap and below every other entry |
| DriverSelection.SelectDriver | app/utils/algo.py:138-139 | a scan for the least entry pops the same candidate |
| DriverSelection.DeliveryAgents | app/utils/algo.py:28 | the drivers are exactly the users of type "Delivery Agent" |
| DriverSelection.DeliveryAgentsConcat | app/utils/algo.py:28 | the filter keeps the users' order: the agents of two joined lists are the agents of the first followed by those of the second |
| DriverSelection.EvaluationAt | app/utils/algo.py:37 | the k-th evaluation of the driver loop is that of the k-th driver |
| DriverSelection.Queue | app/utils/algo.py:133-135 | the heap holds exactly the candidates of the kept drivers |
| DriverSelection.BestRoutes | app/utils/algo.py:131 | every recorded username belongs to a kept driver whose route is recorded under it, and every kept driver's username is recorded |
| DriverSelection.QueueStep | app/utils/algo.py:131-135 | one more driver pushes their candidate, if kept, and records their route under their username |
| DriverSelection.CollectOne | app/utils/algo.py:38-135 | one iteration of the driver loop extends the heap and the route dictionary by that driver's evaluation |
| DriverSelection.CollectCandidates | app/utils/algo.py:37-135 | the driver loop leaves the heap and route dictionary of all evaluations |
| DriverSelection.AssignDriver | app/utils/algo.py:7-142 | the whole routine returns (None, []) without delivery agents or without any candidate; otherwise it returns the least candidate's username and the route recorded under it |
| DriverSelection.Assign | app/utils/algo.py:7-142 | when nobody is assigned the route is empty (AssignIsOutcome and AssignUsesShortestPaths give its full meaning) |
| DriverSelection.AssignWith | app/utils/algo.py:7-142 | the same, over a given distance table |
| DriverSelection.Outcome | app/utils/algo.py:137-142 | when nobody is assigned the route is empty; a driver returned is a kept driver's username, with a route that driver recorded |
| AssignmentFacts.PermutedIdsAreOrderings | app/utils/algo.py:22-25 | every rearrangement of the order's store ids is a valid ordering of its stores |
| AssignmentFacts.OrderingNodes | app/utils/algo.py:23-24 | the store nodes of an ordering of the ids are an ordering of the store nodes |
| AssignmentFacts.NodeOrderingIds | app/utils/algo.py:127 | an ordering of the store nodes is the node list of the ordering of ids read back through StoreIdOf |
| AssignmentFacts.StartOfBusyOrAvailable | app/utils/algo.py:39-60 | priority is 2 exactly for a driver with an undelivered order of theirs, starting at the node of the first such order's customer location; otherwise it is 1, starting at the node of the driver's location |
| AssignmentFacts.KeptCandidate | app/utils/algo.py:135 | a kept driver's candidate carries their username and priority |
| AssignmentFacts.SkippedExactly | app/utils/algo.py:83-124 | a driver is skipped exactly when their start reaches no store, when there are more than four stores, or when no ordering of the store ids has a finite tour |
| AssignmentFacts.NoNodeTourNoIdTour | app/utils/algo.py:93-124 | if no ordering of the store nodes has a finite tour, no ordering of the store ids has one |
| AssignmentFacts.NoIdTourNoNodeTour | app/utils/algo.py:93-124 | if no ordering of the store ids has a finite tour, no ordering of the store nodes has one |
| AssignmentFacts.KeptIsShortestTour | app/utils/algo.py:88-131 | a kept route is a permutation of the order's store ids, fully reachable, its tour equals the candidate's distance, and no ordering has a shorter finite tour |
| AssignmentFacts.BestIsFirstShortest | app/utils/algo.py:118-120 | the search keeps the first ordering of least length in enumeration order |
| AssignmentFacts.KeptIsFirstShortest | app/utils/algo.py:118-127 | ties between orderings go to the one enumerated first, because the comparison is strict |
| AssignmentFacts.KeptAt | app/utils/algo.py:131-135 | the candidate of each kept driver in the loop carries that driver's username and priority |
| AssignmentFacts.OutcomeNoneIff | app/utils/algo.py:138-142 | the pop finds nothing exactly when every driver was skipped, and the route is then [] |
| AssignmentFacts.OutcomeIsLeast | app/utils/algo.py:138-140 | the popped username is that of the least kept candidate, and the route returned is one recorded for that username |
| AssignmentFacts.OutcomeWinner | app/utils/algo.py:138-140 | the same, with each candidate named after its driver |
| AssignmentFacts.AssignIsOutcome | app/utils/algo.py:28-142 | the assignment is the pop over the evaluations of the delivery agents, and each kept candidate is its driver's |
| AssignmentFacts.NobodyIffAllSkipped | app/utils/algo.py:137-142 | nobody is assigned exactly when every delivery agent is skipped, and the route is then [] |
| AssignmentFacts.WinnerIsLeast | app/utils/algo.py:135-140 | the assigned driver is a kept delivery agent with the least (priority, distance, username) candidate, and the route is one recorded for that username |
| AssignmentFacts.WinnerOwnRoute | app/utils/algo.py:131-140 | when usernames are distinct, the route returned is the assigned driver's own |
| AssignmentFacts.AssignedRouteIsOrdering | app/utils/algo.py:127-140 | the route returned with an assigned driver lists every store id of the order exactly once |
| AssignmentFacts.SingleStoreRoute | app/utils/algo.py:127 | with one store, the route is that store's id alone |
| AssignmentFacts.SingletonOrdering | app/utils/algo.py:127 | the only rearrangement of a one-element list is itself |
| AssignmentFacts.OutcomePrefersTopPriority | app/utils/algo.py:135-139 | if some kept candidate has priority 1, the popped one has priority 1 |
| AssignmentFacts.AvailableBeforeBusy | app/utils/algo.py:45-52 | while an available driver is kept, the assigned driver has no undelivered order, however long their route |
| AssignmentFacts.NoAgentsAssignsNobody | app/utils/algo.py:28-31 | without delivery agents, the result is (None, []) |
| AssignmentFacts.NoneOfTypeNoAgents | app/utils/algo.py:28 | users none of whom is a delivery agent have no delivery agents |
| AssignmentFacts.EmptyOrderAssignsNobody | app/utils/algo.py:83-84 | an order without stores fails every reachability pre-check, so the result is (None, []) |
| AssignmentFacts.LargeOrderAssignsNobody | app/utils/algo.py:88-135 | with more than four stores nothing is pushed, so the result is (None, []) |
| AssignmentFacts.IsolatedNodesSkip | app/utils/algo.py:83-114 | when no node reaches another, every driver is skipped, even one standing on a store |
| AssignmentFacts.IsolatedTour | app/utils/algo.py:111-114 | when no node reaches another, the last leg of every tour is unreachable |
| AssignmentFacts.IsolatedNodesAssignNobody | app/utils/algo.py:83-142 | when no node reaches another, the result is (None, []) |
| AssignmentFacts.ConnectedKeeps | app/utils/algo.py:83-135 | when every node reaches every node and there are one to four stores, every driver is kept |
| AssignmentFacts.ConnectedTour | app/utils/algo.py:94-116 | when every node reaches every node, the tour in the order's own store order is finite |
| AssignmentFacts.ConnectedAssignsSomebody | app/utils/algo.py:83-140 | when every node reaches every node, there are one to four stores and some delivery agent exists, somebody is assigned |
| AssignmentFacts.AssignUsesShortestPaths | app/utils/algo.py:62-80 | the assignment prices tours through the graph's own shortest-path table |
| Users.DeliveryGraphShape | app/models/users.py:9-27 | the graph has 7 distinct nodes and 12 edges, with no self-loop and no two edges joining the same pair |
| Users.DeliveryEdgeWeights | app/models/users.py:13-27 | every listed edge has its listed weight in both directions, e.g. Admin Office–Store A is 5 and Store B–Store C is 2 |
| Users.DeliveryGraphConnected | app/models/users.py:13-26 | every node reaches every node, so the table of the shipped graph has no unreachable entry |
| Users.AdminWalks | app/models/users.py:14-22 | every node has a walk from and to the Admin Office |
| Users.PositionsDistinct | app/models/users.py:31-39 | the seven positions name the seven nodes in order, at pairwise distinct coordinates |
| Users.CoordinatesMatchPositions | app/models/users.py:42-50 | each account coordinate is the position of its node: admin for Admin Office, managers for stores, customers for customer nodes |
| Users.UserConstructorDefaults | app/models/users.py:77-85 | the constructor keeps its arguments, uses the username as id and leaves the omitted fields None |
| Scenarios.FixtureWellFormed | tests/test_utils/test_algo.py:8-60 | customer1's orders from distinct stores among 1, 2, 3 raise no error on the fixture network |
| Scenarios.FixtureConnected | tests/test_utils/test_algo.py:16-34 | every pair of nodes of the fixture network is joined |
| Scenarios.FixtureAgents | tests/test_utils/test_algo.py:48-52 | the delivery agents of the fixture plus added agents are driver1, driver2 and the added ones |
| Scenarios.FixtureAssigns | tests/test_utils/test_algo.py:62-85 | some delivery agent is assigned and the route is a permutation of the store ids |
| Scenarios.FixturePrefersAvailable | tests/test_utils/test_algo.py:120-138 | if some agent has no active order, the assigned agent has no active order |
| Scenarios.BasicAssignment | tests/test_utils/test_algo.py:62-72 | one store: driver1 or driver2 is assigned with route [1] |
| Scenarios.ThreeStoreAssignment | tests/test_utils/test_algo.py:74-85 | three stores: driver1 or driver2 is assigned with a route of length 3 whose set is {1, 2, 3} |
| Scenarios.PermutationSameSet | tests/test_utils/test_algo.py:84-85 | permutations of each other have the same length and the same set of elements |
| Scenarios.NoDrivers | tests/test_utils/test_algo.py:106-118 | without users, the result is (None, []) |
| Scenarios.BusyDriverPassedOver | tests/test_utils/test_algo.py:120-138 | when driver1 is busy, driver2 is assigned |
| Scenarios.AllDriversBusy | tests/test_utils/test_algo.py:140-164 | when both drivers are busy, one of them is still assigned |
| Scenarios.OffGridStartsAtAdmin | app/utils/algo.py:54-60 | a coordinate outside the box of the node positions starts at the Admin Office |
| Scenarios.UnmappedCoordinates | tests/test_utils/test_algo.py:166-183 | driver3 at (100, 100) starts at the Admin Office, and one of the three drivers is assigned |
| Scenarios.PathQueriesFail | tests/test_utils/test_algo.py:185-200 | when every path query fails, nobody is assigned, whoever the users are |
| Scenarios.NoRoadsAssignsNobody | app/utils/algo.py:76-84 | over a network without roads, nobody is assigned |
| Scenarios.SeededAgents | app/models/users.py:53-63 | the seeded users hold exactly two delivery agents, driver1 and driver2, both starting at the Admin Office |

## Left out

- The Flask route handlers, sessions, forms and app setup are not modelled. They are request plumbing with no assignment logic.
- Delivery status updates are not modelled as code. Busy status and a driver's location are inputs here (`World.orders`, `User.location`).
- bcrypt password hashes are not modelled, because they come from a foreign library. `FAKE_BANK_ACCOUNTS` is also left out, because the assignment never reads it.
- `flask_login.UserMixin` behaviour is not modelled, because the routine does not use it. The `User` record keeps only its fields.
- `app/models/plot.py` is not modelled. It is a drawing with its own graph, and the routine does not read it.
- networkx, heapq and itertools are replaced by the model's own definitions:
  - the shortest walk weight, computed by Floyd–Warshall;
  - the least candidate in tuple order;
  - an enumeration in `itertools.permutations` order.
- The model computes one Floyd–Warshall matrix, not one networkx query per pair, so the `NetworkXError` branch has no counterpart. When every path query fails (the test at tests/test_utils/test_algo.py:185-200), every off-diagonal entry is unreachable. `PathQueriesFail` and `IsolatedNodesAssignNobody` take that table as a parameter.
- The nearest-neighbour heuristic for more than four stores exists only in the docstring. The code pushes no candidate then, and the model does the same.
- Store ids are modelled as integers, with `int(store_id)` already applied, and only for `0 <= 64 + id < 0xD800`. In that range `chr(64 + id)` is a Dafny `char`. A negative `64 + id` makes `chr` raise an error. Larger ids are outside the model; they name no node of the shipped graph anyway.
- `WellFormed` requires every store node and the customer node of the order to be nodes of the graph, and the customer id to be non-empty. The source raises `KeyError` (or `IndexError` for `[-1]` on an empty id) only when it reaches the failing lookup: with no delivery agents it returns `(None, [])` at app/utils/algo.py:30-31 first; the store lookups at app/utils/algo.py:83 run only for a driver and stop at the first reachable store; the customer node is looked up only at app/utils/algo.py:112. The model requires membership throughout instead of modelling where the exception would surface.
- `WellFormed` also requires "Admin Office" and every node named in the position table to be nodes of the graph. The source needs the driver's start node only when it reads `shortest_paths[driver_node]` at app/utils/algo.py:83, that is, when there is a driver and the order has a store. Both hold for the shipped graph and position table (`PositionsDistinct`).
- NoAgentsAssignsNobody: stated only for inputs that satisfy `WellFormed`; the source also returns `(None, [])` without agents when a store or customer node is missing from the graph.
- EmptyOrderAssignsNobody: stated only for inputs that satisfy `WellFormed`; with no stores the source never looks up the customer node, so it also returns `(None, [])` when that node is missing.
- The test at tests/test_utils/test_algo.py:87-104 is not encoded. It replaces `itertools.permutations` with a function that raises, and its assertions contradict what the code then does.
- Test users without a phone number are given the phone "".
- Concurrency is left out. The routine reads shared order and user state without locking.
- Ratings are `real` numbers and are never read by the assignment.
- The order's `customer_location` is carried but not used, because the routine takes the customer node from the customer id.
