# Truck loading system: verified model of the planner core

This project models the planning core of a small truck loading system for
deliveries out of Hanoi. It covers four parts of `TruckLoadingSystem` in
`main.py`:

- **the parcel registry.** `load_parcel` checks a parcel's destination and
  the truck's weight and volume allowances. It then stores the parcel with
  its distance from the hub and its volume. `get_weight` and `get_volume`
  total the stored parcels.
- **the loading plan.** The parcel IDs are stably sorted by descending
  distance from the hub.
- **`shortest_distance`.** This is Dijkstra's search over the road-distance
  table, with an early return when the target is popped.
- **`shortest_path` and `generate_route`.** The greedy tour starts at the
  hub. It repeatedly goes to the nearest unvisited destination (the first
  one wins a tie) and finally returns to the hub.

Modules:

- `Wrappers`: `Option` and `Result`.
- `Sequences`: distinct sequences and removal by index. A Python set or dict
  is modelled as a sequence in its iteration order.
- `CityGraph`:
  - the fixed hub-and-spokes table;
  - paths, path length and reachability;
  - `Dist`, the reference shortest distance defined over all paths.
- `DistanceGraph`: the search, `ShortestDistance`, proved against `Dist`.
- `RouteComputer`: the tour.
  - The functions `Nearest`, `Visit` and `Plan` are written over any leg
    oracle, i.e. a function from a pair of cities to a distance or an error.
  - `ShortestLeg(g)` is the oracle of true shortest distances.
  - The methods `NearestDestination`, `Travel` and `ShortestPath` run the
    search for every leg. They are proved equal to those functions.
- `HubRoutes`: distances and tours over a hub-and-spokes table such as the
  fixed one. Two different cities are as far apart as their two roads to the
  hub together, and the greedy tour visits the spokes in ascending distance
  from the hub.
- `TruckLoading`: the registry class with `LoadParcel`, `LoadingPlan` and
  `GenerateRoute`, the totals, and the stable sort.

## Model

| member | source | states |
|---|---|---|
| CityGraph.CityMap | main.py:15-22 | The table has the hub with exactly the five spokes Hai Phong, Da Nang, Nha Trang, Dalat and HCMC, and no other city. The hub has no road to itself. Each spoke links back only to the hub, over a road of the same length. |
| CityGraph.SpokesSymmetric | main.py:15-22 | In such a table every road can be driven back, over the same length. |
| CityGraph.DistSymmetric | main.py:208-244 | When every road can be driven back over the same length, the distance from a to b equals the distance from b to a, including when neither exists. |
| CityGraph.DistSpec | main.py:208-214 | The reference distance exists exactly when the target is reachable. It is then the length of a path no other path undercuts. |
| CityGraph.DistSelf | main.py:217-226 | A city is at distance 0 from itself: the start is popped first and returned at once. |
| CityGraph.ReachableTrans | main.py:179-202 | Reachability composes. This is what makes a tour exist when every destination is reachable from the hub and back. |
| DistanceGraph.MinIndex | main.py:222 | The popped entry has a distance no larger than any entry on the frontier. |
| DistanceGraph.PoppedIsShortest | main.py:221-232 | An unvisited city popped at the least frontier distance has its shortest distance, so the early return and the settling of a city are exact. |
| DistanceGraph.LowerStep | main.py:235-241 | A relaxation only lowers an existing tentative distance or adds a new one. Every distance known when a city is popped is still known afterwards and no larger. The search keeps this as an invariant of its inner loop. |
| DistanceGraph.ShortestDistance | main.py:208-244 | It returns a distance exactly when `end` is reachable from `start`, and the distance is the shortest path length. Otherwise it fails with NoPathFound(start, end). |
| RouteComputer.ShortestLegSpec | main.py:208-244 | The leg oracle of true distances succeeds exactly for reachable pairs, gives the shortest length, and fails with NoPathFound(a, b). |
| RouteComputer.NearestSpec | main.py:181-193 | On success the scan gives a candidate whose distance is at most every candidate's, and strictly below every earlier one (the `<` tie-break). It succeeds whenever all candidates have a distance. On failure the error is that of the first candidate without one. |
| RouteComputer.NearestDestination | main.py:181-190 | The loop over the remaining destinations computes exactly the scan `Nearest` over true distances. |
| RouteComputer.Travel | main.py:174-199 | The outer loop computes exactly the greedy walk `Visit` over true distances: its stops, their total and the last city. |
| RouteComputer.ShortestPath | main.py:162-206 | It computes exactly the greedy tour `Plan` over true distances, including ([], 0) for no destinations and the return leg. |
| RouteComputer.PlanShape | main.py:171-206 | No destinations gives ([], 0). Otherwise the route has two more cities than there are destinations and starts and ends at the start city. Its middle is a permutation of the destinations, each visited once. |
| RouteComputer.VisitPermutes | main.py:196-199 | The stops of the walk are a permutation of the destinations. |
| RouteComputer.PlanTotal | main.py:196-204 | The total is the sum of the legs of the route, including the return leg. |
| RouteComputer.PlanGreedy | main.py:184-199 | Each stop is no farther from the previous city than any destination not yet visited, and strictly nearer than any such destination earlier in iteration order. |
| RouteComputer.TourSucceeds | main.py:179-206 | For a transitive oracle, a tour exists iff every destination has a leg from the start and a leg back to it. |
| RouteComputer.PlanSucceeds | main.py:162-206 | The tour is found iff every destination is reachable from the start and reaches it back. Otherwise `shortest_path` fails. |
| RouteComputer.PlanFailsFirst | main.py:184-186 | If the first scan hits a destination with no distance, with every earlier one fine, the whole call fails with that destination's error. |
| TruckLoading.TruckLoadingSystem.constructor | main.py:7-22 | The registry starts empty, over the fixed table. |
| TruckLoading.TruckLoadingSystem.LoadParcel | main.py:33-71 | It rejects an unknown destination, then a parcel that would take the volume or weight total over its allowance, and changes nothing when it rejects. Otherwise it stores the parcel under its ID with the hub distance and length*width*height. The registry invariant is kept, and with non-negative entries both totals stay within their allowances. |
| TruckLoading.RegisterTotal | main.py:55-68 | After a parcel is stored, a total changes by the new parcel's measure less that of the parcel it replaces. |
| TruckLoading.TotalReplace | main.py:60-68 | Overwriting a registered ID changes its total by the difference of the two parcels. |
| TruckLoading.LoadKeepsCapacity | main.py:55-68 | A parcel admitted by the capacity test keeps the total within the allowance, provided the parcel it replaces was not negative. |
| TruckLoading.LoadWithin | main.py:55-68 | With non-negative entries, a parcel that passes both capacity tests keeps both the weight and the volume total within their allowances. |
| TruckLoading.TotalNonNegative | main.py:120-131 | The weight or volume total is non-negative when every entry is. |
| TruckLoading.SortPermutes | main.py:107 | The sort is a permutation of the registry's items. |
| TruckLoading.SortDescending | main.py:107 | The sorted items never move to a farther destination. |
| TruckLoading.SortStable | main.py:107 | Items at equal distance keep their order in the dict, as Python's stable sort does. |
| TruckLoading.TruckLoadingSystem.LoadingPlan | main.py:97-112 | The plan lists every registered ID exactly once, farthest destination first, and parcels at equal distance keep registry order. |
| TruckLoading.PlanSorted | main.py:107-112 | The plan is a permutation of the registry's IDs, never moves to a farther destination, and keeps registry order among IDs at the same distance. |
| TruckLoading.PlanPermutes | main.py:107-112 | The plan's IDs are a permutation of the registry's IDs. |
| TruckLoading.PlanDescending | main.py:107-112 | Parcel distances never increase along the plan. |
| TruckLoading.PlanStable | main.py:107-112 | For every distance, the IDs at that distance appear in the plan in registry order. |
| TruckLoading.TruckLoadingSystem.GenerateRoute | main.py:133-159 | With no parcels it gives None. Otherwise it gives the greedy tour from the hub through the set of destination cities, or ([], 0) if `shortest_path` fails. |
| HubRoutes.HubToSpoke | main.py:15-22 | The distance from the hub to a spoke, and from the spoke back, is the road between them. |
| HubRoutes.SpokeToSpoke | main.py:15-22 | The distance between two different spokes is the sum of their roads to the hub, e.g. 105 + 763 = 868 km from Hai Phong to Da Nang. |
| HubRoutes.ShortestLegStar | main.py:208-244 | Over a hub-and-spokes table, `shortest_distance` between two cities of the table is 0 for the same city and otherwise the sum of their distances from the hub. |
| HubRoutes.SpokeRoundTrip | main.py:15-22 | Every spoke is reachable from the hub and reaches it back. |
| HubRoutes.RouteAlwaysFound | main.py:15-22 | Over a hub-and-spokes table, a tour from the hub through any set of spokes always exists. |
| HubRoutes.OneSpokeTour | main.py:162-206 | A delivery to one spoke gives the route hub, spoke, hub, of twice the spoke's road. |
| HubRoutes.TwoSpokeTour | main.py:162-206 | Two spokes at different distances are visited nearer one first, in either iteration order, for a total of twice the sum of their roads. |
| HubRoutes.HaiPhongDaNang | main.py:162-206 | On the fixed table, Hai Phong and Da Nang give the route Hanoi, Hai Phong, Da Nang, Hanoi of 1736 km, in either iteration order. |
| HubRoutes.PlanAscending | main.py:184-199 | Over a hub-and-spokes table, consecutive stops of the tour never move to a spoke nearer the hub. Spokes at the same distance are visited in iteration order. |
| HubRoutes.FixedTableAscending | main.py:150-151 | On the fixed table, the route of `generate_route` visits its cities in ascending distance from Hanoi, ties in iteration order. |
| TruckLoading.GenerateRouteFound | main.py:150-159 | For a valid registry the ([], 0) fallback of `generate_route` is never taken. |

## Left out

- Console input, printing and the tkinter interface are not modelled. The typed-in parcel fields are parameters of `LoadParcel`. The ValueError on unparsable input (main.py:38-44, 70-71) is not modelled.
- Floating point: weights, dimensions and volumes are exact reals. Rounding, NaN, infinity and the order-dependence of float sums are not captured.
- `get_invoice` and `city_coordinates` play no part in the planner.
- TruckLoading.TruckLoadingSystem.GetWeight: it has no contract of its own, because it is the sum `Total`. Its properties are stated by RegisterTotal, TotalReplace and TotalNonNegative.
- TruckLoading.TruckLoadingSystem.GetVolume: the same as GetWeight. The `get('volume', 0)` default never applies, because every stored parcel has a volume.
- TruckLoading.TruckLoadingSystem.LoadParcel: the capacity bound after a load is stated only when every stored weight and volume is non-negative. The source does not reject negative inputs, and replacing a negative entry can push a total past the allowance.
- TruckLoading.TruckLoadingSystem.LoadingPlan: it returns the plan instead of printing it. For an empty registry it returns [] where the source prints "No parcel data".
- TruckLoading.TruckLoadingSystem.GenerateRoute: the cities are a parameter, a distinct sequence. Greedy ties are decided by the iteration order of the copy `remaining_destinations` (main.py:174), which need not be that of the set `delivery_cities`. Every lemma holds for any order. The branch for an empty set of cities (main.py:145-146) cannot be reached once a parcel exists, and the printing is left out.
- DistanceGraph.ShortestDistance:
  - The heap is a sequence from which a least entry is popped. Which of two equal entries comes first is not modelled, and the returned distance does not depend on it.
  - Neighbours are relaxed in any order.
  - The table must name only cities that have entries of their own. Otherwise the source raises KeyError; the fixed table has this property.
- RouteComputer.ShortestPath, NearestDestination and Travel take a ghost leg oracle. It connects them to the functions they are proved against, and it must equal the true shortest distances. NearestDestination and Travel are the inner and outer loops of `shortest_path`, written as methods of their own.
- The `next_city is None` branch (main.py:192-193) is not modelled. Every successful distance is finite and beats the initial infinity, and a failing distance raises before the branch is reached.
