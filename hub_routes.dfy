/**
 * Distances and tours over a hub-and-spokes table such as the fixed one:
 * the distance between two different cities is the sum of their distances
 * from the hub, and the greedy tour visits the spokes in ascending distance
 * from the hub.
 */
module HubRoutes {
  import opened Wrappers
  import opened Sequences
  import opened CityGraph
  import opened DistanceGraph
  import opened RouteComputer

  /** The road length between the hub and `c`; 0 for the hub itself. */
  function HubDistance(g: Graph, c: City): nat
  {
    if Hub in g && c in g[Hub] then g[Hub][c] else 0
  }

  /** The distance between two cities of a hub-and-spokes table: through the hub, unless they are the same city. */
  function StarLength(g: Graph, a: City, b: City): nat
  {
    if a == b then 0 else HubDistance(g, a) + HubDistance(g, b)
  }

  /** `leg` gives the hub-and-spokes distance between any two cities of `g`. */
  ghost predicate StarLegs(g: Graph, leg: Oracle)
  {
    forall a, b {:trigger leg(a, b)} :: a in g && b in g ==> leg(a, b) == Ok(StarLength(g, a, b))
  }

  /** Along a walk of two or more cities, the last road is no longer than the walk. */
  lemma LastEdgeBound(g: Graph, p: seq<City>)
    requires IsWalk(g, p) && |p| >= 2
    ensures IsEdge(g, p[|p| - 2], p[|p| - 1])
    ensures PathLength(g, p) == PathLength(g, p[..|p| - 1]) + EdgeLength(g, p[|p| - 2], p[|p| - 1])
  {
  }

  /** Along a walk of two or more cities, the first road is no longer than the walk. */
  lemma FirstEdgeBound(g: Graph, p: seq<City>)
    requires IsWalk(g, p) && |p| >= 2
    ensures IsEdge(g, p[0], p[1]) && EdgeLength(g, p[0], p[1]) <= PathLength(g, p)
  {
    StepOf(g, p, 1);
    PrefixWalk(g, p, 2);
  }

  /** Out of a spoke the only road leads to the hub, over the spoke's own length. */
  lemma OutOfSpoke(g: Graph, c: City, y: City)
    requires HubAndSpokes(g) && c in g[Hub] && IsEdge(g, c, y)
    ensures y == Hub && EdgeLength(g, c, y) == g[Hub][c]
  {
    assert c in g && y in g[c] && c != Hub;
  }

  /** Into a spoke the only road comes from the hub. */
  lemma IntoSpoke(g: Graph, x: City, c: City)
    requires HubAndSpokes(g) && c in g[Hub] && IsEdge(g, x, c)
    ensures x == Hub
  {
    assert x in g;
  }

  /** The distance between the hub and a spoke, either way, is the road between them. */
  lemma HubToSpoke(g: Graph, c: City)
    requires HubAndSpokes(g) && c in g[Hub]
    ensures Dist(g, Hub, c) == Some(g[Hub][c]) && Dist(g, c, Hub) == Some(g[Hub][c])
  {
    Hop(g, Hub, c);
    forall p | IsPath(g, p, Hub, c) ensures g[Hub][c] <= PathLength(g, p) {
      LastEdgeBound(g, p);
      IntoSpoke(g, p[|p| - 2], c);
    }
    DistIs(g, Hub, c, g[Hub][c]);
    SpokesSymmetric(g);
    DistSymmetric(g, Hub, c);
  }

  /** The distance between two different spokes is the sum of their roads to the hub. */
  lemma SpokeToSpoke(g: Graph, a: City, b: City)
    requires HubAndSpokes(g) && a in g[Hub] && b in g[Hub] && a != b
    ensures Dist(g, a, b) == Some(g[Hub][a] + g[Hub][b])
  {
    var d := g[Hub][a] + g[Hub][b];
    Hop(g, a, Hub);
    Hop(g, Hub, b);
    Concat(g, [a, Hub], [Hub, b], a, Hub, b);
    forall p | IsPath(g, p, a, b) ensures d <= PathLength(g, p) {
      var n := |p|;
      LastEdgeBound(g, p);
      IntoSpoke(g, p[n - 2], b);
      var q := p[..n - 1];
      FirstEdgeBound(g, q);
      OutOfSpoke(g, a, q[1]);
    }
    DistIs(g, a, b, d);
  }

  /** The oracle of true distances over a hub-and-spokes table goes through the hub. */
  lemma ShortestLegStar(g: Graph)
    requires HubAndSpokes(g)
    ensures StarLegs(g, ShortestLeg(g))
  {
    forall a, b | a in g && b in g ensures ShortestLeg(g)(a, b) == Ok(StarLength(g, a, b)) {
      if a == b {
        DistSelf(g, a);
      } else if a == Hub {
        HubToSpoke(g, b);
      } else if b == Hub {
        HubToSpoke(g, a);
      } else {
        SpokeToSpoke(g, a, b);
      }
    }
  }

  /** In a hub-and-spokes table every spoke is reachable from the hub and reaches it back. */
  lemma SpokeRoundTrip(g: Graph, c: City)
    requires HubAndSpokes(g) && c in g[Hub]
    ensures Reachable(g, Hub, c) && Reachable(g, c, Hub)
  {
    Hop(g, Hub, c);
    Hop(g, c, Hub);
  }

  /**
   * Over a hub-and-spokes table, such as the fixed one, a route through any
   * spokes is always found: the error path of `generate_route` is never taken.
   */
  lemma RouteAlwaysFound(g: Graph, cities: seq<City>)
    requires HubAndSpokes(g) && forall c :: c in cities ==> c in g[Hub]
    ensures Plan(ShortestLeg(g), Hub, cities).Ok?
  {
    forall c | c in cities ensures Reachable(g, Hub, c) && Reachable(g, c, Hub) {
      SpokeRoundTrip(g, c);
    }
    PlanSucceeds(g, Hub, cities);
  }

  /** The visit of a single destination is the one leg to it. */
  lemma VisitOne(leg: Oracle, current: City, c: City)
    requires leg(current, c).Ok?
    ensures Visit(leg, current, [c]) == Ok(([c], leg(current, c).value, c))
  {
    assert [c][0] == c;
    assert Nearest(leg, current, [c]) == Ok((0, leg(current, c).value));
    assert RemoveAt([c], 0) == [];
    assert [c] + [] == [c];
  }

  /** A delivery to one spoke drives out and back: twice its road. */
  lemma OneSpokeTour(g: Graph, leg: Oracle, c: City)
    requires HubAndSpokes(g) && StarLegs(g, leg) && c in g[Hub]
    ensures Plan(leg, Hub, [c]) == Ok(([Hub, c, Hub], 2 * g[Hub][c]))
  {
    assert Hub in g && c in g;
    assert leg(Hub, c) == Ok(g[Hub][c]) && leg(c, Hub) == Ok(g[Hub][c]);
    VisitOne(leg, Hub, c);
    assert [Hub] + [c] + [Hub] == [Hub, c, Hub];
  }

  /**
   * Two spokes are visited nearer one first, whatever their order in the
   * set, and the tour costs twice the sum of their roads.
   */
  lemma TwoSpokeTour(g: Graph, leg: Oracle, a: City, b: City)
    requires HubAndSpokes(g) && StarLegs(g, leg) && a in g[Hub] && b in g[Hub] && a != b
    requires g[Hub][a] < g[Hub][b]
    ensures Plan(leg, Hub, [a, b]) == Ok(([Hub, a, b, Hub], 2 * (g[Hub][a] + g[Hub][b])))
    ensures Plan(leg, Hub, [b, a]) == Ok(([Hub, a, b, Hub], 2 * (g[Hub][a] + g[Hub][b])))
  {
    var wa, wb := g[Hub][a], g[Hub][b];
    assert Hub in g && a in g && b in g;
    assert leg(Hub, a) == Ok(wa) && leg(Hub, b) == Ok(wb);
    assert leg(a, b) == Ok(wa + wb) && leg(b, Hub) == Ok(wb);
    VisitOne(leg, a, b);
    assert [a, b][..1] == [a] && [b, a][..1] == [b];
    assert RemoveAt([a, b], 0) == [b] && RemoveAt([b, a], 1) == [b];
    assert Nearest(leg, Hub, [a, b]) == Ok((0, wa));
    assert Nearest(leg, Hub, [b, a]) == Ok((1, wa));
    assert [a] + [b] == [a, b] && [Hub] + [a, b] + [Hub] == [Hub, a, b, Hub];
    assert Visit(leg, Hub, [a, b]) == Ok(([a, b], wa + (wa + wb), b));
    assert Visit(leg, Hub, [b, a]) == Ok(([a, b], wa + (wa + wb), b));
  }

  /**
   * On the fixed table, parcels for Hai Phong and Da Nang give the route
   * Hanoi, Hai Phong, Da Nang, Hanoi of 105 + 868 + 763 = 1736 km, in
   * whichever order the two cities are iterated.
   */
  lemma HaiPhongDaNang()
    ensures Plan(ShortestLeg(CityMap()), Hub, ["Hai Phong", "Da Nang"]) ==
      Ok((["Hanoi", "Hai Phong", "Da Nang", "Hanoi"], 1736))
    ensures Plan(ShortestLeg(CityMap()), Hub, ["Da Nang", "Hai Phong"]) ==
      Ok((["Hanoi", "Hai Phong", "Da Nang", "Hanoi"], 1736))
  {
    var g := CityMap();
    assert g[Hub]["Hai Phong"] == 105 && g[Hub]["Da Nang"] == 763;
    ShortestLegStar(g);
    TwoSpokeTour(g, ShortestLeg(g), "Hai Phong", "Da Nang");
  }

  /**
   * Around the `k`-th stop of a tour through distinct spokes: the two stops
   * are different spokes, the city before them is neither, and the next
   * stop has not been visited yet.
   */
  lemma AroundStop(g: Graph, route: seq<City>, cities: seq<City>, k: nat)
    requires HubAndSpokes(g) && forall c :: c in cities ==> c in g[Hub]
    requires 1 <= k && k + 2 < |route| && route[0] == Hub
    requires Distinct(route[1..|route| - 1]) && multiset(route[1..|route| - 1]) == multiset(cities)
    ensures route[k] in g[Hub] && route[k + 1] in g[Hub] && route[k - 1] in g
    ensures route[k] != route[k + 1] && route[k - 1] != route[k] && route[k - 1] != route[k + 1]
    ensures route[k + 1] !in route[1..k]
  {
    var middle := route[1..|route| - 1];
    assert middle[k - 1] == route[k] && middle[k] == route[k + 1];
    assert route[k] in multiset(cities) && route[k + 1] in multiset(cities);
    DistinctIndex(middle, k);
    forall m | 1 <= m < k ensures route[m] != route[k + 1] {
      assert route[m] == middle[m - 1];
    }
    if k > 1 {
      assert route[k - 1] == middle[k - 2];
      assert route[k - 1] in multiset(cities);
      DistinctIndex(middle, k - 2);
    }
  }

  /** From a city other than `c`, a star oracle reaches spoke `c` through the hub. */
  lemma StarLeg(g: Graph, leg: Oracle, from: City, c: City)
    requires HubAndSpokes(g) && StarLegs(g, leg) && from in g && c in g[Hub] && from != c
    ensures leg(from, c) == Ok(HubDistance(g, from) + g[Hub][c])
  {
    assert c in g;
  }

  /**
   * Over a hub-and-spokes table the greedy tour visits the spokes in
   * ascending distance from the hub, and spokes at equal distance in the
   * order the set is iterated.
   */
  lemma PlanAscending(g: Graph, leg: Oracle, cities: seq<City>, k: nat, i: nat, j: nat)
    requires HubAndSpokes(g) && StarLegs(g, leg) && Distinct(cities) && forall c :: c in cities ==> c in g[Hub]
    requires Plan(leg, Hub, cities).Ok?
    requires var route := Plan(leg, Hub, cities).value.0;
      1 <= k && k + 2 < |route| && i < |cities| && j < |cities| && route[k] == cities[i] && route[k + 1] == cities[j]
    ensures g[Hub][cities[i]] < g[Hub][cities[j]] || (g[Hub][cities[i]] == g[Hub][cities[j]] && i < j)
  {
    var route := Plan(leg, Hub, cities).value.0;
    PlanShape(leg, Hub, cities);
    AroundStop(g, route, cities, k);
    PlanGreedy(leg, Hub, cities, k, j, i);
    var from := route[k - 1];
    var near, next := leg(from, cities[i]), leg(from, cities[j]);
    assert near.value <= next.value && (j < i ==> near.value < next.value);
    StarLeg(g, leg, from, cities[i]);
    StarLeg(g, leg, from, cities[j]);
    assert i != j;
  }

  /** On the fixed table, `generate_route` visits its cities in ascending distance from Hanoi. */
  lemma FixedTableAscending(cities: seq<City>, k: nat, i: nat, j: nat)
    requires Distinct(cities) && forall c :: c in cities ==> c in CityMap()[Hub]
    requires Plan(ShortestLeg(CityMap()), Hub, cities).Ok?
    requires var route := Plan(ShortestLeg(CityMap()), Hub, cities).value.0;
      1 <= k && k + 2 < |route| && i < |cities| && j < |cities| && route[k] == cities[i] && route[k + 1] == cities[j]
    ensures var w := CityMap()[Hub];
      w[cities[i]] < w[cities[j]] || (w[cities[i]] == w[cities[j]] && i < j)
  {
    var g := CityMap();
    ShortestLegStar(g);
    PlanAscending(g, ShortestLeg(g), cities, k, i, j);
  }
}
