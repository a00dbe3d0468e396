/**
 * `shortest_path(start, destinations)`: the greedy nearest-unvisited tour.
 * The destination set is a distinct sequence in its iteration order; the
 * first remaining city at least distance wins, and removing a city keeps the
 * order of the others.
 *
 * The tour only ever asks `shortest_distance` for the distance between two
 * cities, so `Nearest`, `Visit` and `Plan` define it over any such distance
 * oracle; `ShortestLeg(g)` is the one `ShortestPath` uses.
 */
module RouteComputer {
  import opened Wrappers
  import opened Sequences
  import opened CityGraph
  import opened DistanceGraph

  /** A route with its total distance. */
  type Tour = (seq<City>, nat)

  /** A distance between two cities, or the error that there is none. */
  type Oracle = (City, City) -> Result<nat, RouteError>

  /** `shortest_distance` over `g`, as an oracle. */
  ghost function ShortestLeg(g: Graph): Oracle
  {
    (a, b) => DistanceResult(g, a, b)
  }

  /**
   * One scan of the `for dest in remaining_destinations` loop from
   * `current`: the position and distance of the nearest candidate (the
   * first among equals, since the comparison is a strict `<`), or the error
   * of the first candidate that cannot be reached.
   */
  function Nearest(leg: Oracle, current: City, candidates: seq<City>): (r: Result<(nat, nat), RouteError>)
    requires candidates != []
    ensures r.Ok? ==> r.value.0 < |candidates|
    decreases |candidates|
  {
    var n := |candidates| - 1;
    var last := leg(current, candidates[n]);
    if n == 0 then
      if last.Err? then Err(last.error) else Ok((0, last.value))
    else
      var scan := Nearest(leg, current, candidates[..n]);
      if scan.Err? then Err(scan.error)
      else if last.Err? then Err(last.error)
      else if last.value < scan.value.1 then Ok((n, last.value))
      else scan
  }

  /** Prefixes a partial route and distance to the outcome of a visit. */
  function Join(stops: seq<City>, total: nat, r: Result<(seq<City>, nat, City), RouteError>)
    : Result<(seq<City>, nat, City), RouteError>
  {
    if r.Err? then r else Ok((stops + r.value.0, total + r.value.1, r.value.2))
  }

  /**
   * The greedy visit of `remaining` from `current`: the stops in order, the
   * distance travelled through them, and the city the visit ends at.
   */
  function Visit(leg: Oracle, current: City, remaining: seq<City>): Result<(seq<City>, nat, City), RouteError>
    decreases |remaining|
  {
    if remaining == [] then Ok(([], 0, current))
    else
      var nearest := Nearest(leg, current, remaining);
      if nearest.Err? then Err(nearest.error)
      else
        var next := remaining[nearest.value.0];
        Join([next], nearest.value.1, Visit(leg, next, RemoveAt(remaining, nearest.value.0)))
  }

  /** What `shortest_path(start, destinations)` returns or raises. */
  function Plan(leg: Oracle, start: City, destinations: seq<City>): Result<Tour, RouteError>
  {
    if destinations == [] then Ok(([], 0))
    else
      var visit := Visit(leg, start, destinations);
      if visit.Err? then Err(visit.error)
      else
        var back := leg(visit.value.2, start);
        if back.Err? then Err(back.error)
        else Ok(([start] + visit.value.0 + [start], visit.value.1 + back.value))
  }

  /** Sum of the distances between consecutive cities of a route; None if a leg has none. */
  function LegSum(leg: Oracle, route: seq<City>): Option<nat>
    decreases |route|
  {
    if |route| <= 1 then Some(0)
    else
      var first := leg(route[0], route[1]);
      var rest := LegSum(leg, route[1..]);
      if first.Ok? && rest.Some? then Some(first.value + rest.value) else None
  }

  // The oracle `ShortestPath` uses.

  /**
   * `leg` is `shortest_distance` over `g`. The trigger lets the link be used
   * where a distance was actually computed, and not on every unfolding of
   * the tour.
   */
  ghost predicate Computes(g: Graph, leg: Oracle)
  {
    forall a, b {:trigger DistanceResult(g, a, b)} :: leg(a, b) == DistanceResult(g, a, b)
  }

  lemma ShortestLegComputes(g: Graph)
    ensures Computes(g, ShortestLeg(g))
  {
  }

  /** `ShortestLeg(g)` gives the shortest distance when there is a path, and names both cities when not. */
  lemma ShortestLegSpec(g: Graph, a: City, b: City)
    ensures ShortestLeg(g)(a, b).Ok? <==> Reachable(g, a, b)
    ensures ShortestLeg(g)(a, b).Ok? ==> IsShortest(g, a, b, ShortestLeg(g)(a, b).value)
    ensures ShortestLeg(g)(a, b).Err? ==> ShortestLeg(g)(a, b).error == NoPathFound(a, b)
  {
    DistSpec(g, a, b);
  }

  ghost predicate Transitive(leg: Oracle)
  {
    forall a, b, c :: leg(a, b).Ok? && leg(b, c).Ok? ==> leg(a, c).Ok?
  }

  /** Having a distance is transitive for `ShortestLeg(g)`. */
  lemma ShortestLegTransitive(g: Graph)
    ensures Transitive(ShortestLeg(g))
  {
    forall a, b, c | ShortestLeg(g)(a, b).Ok? && ShortestLeg(g)(b, c).Ok?
      ensures ShortestLeg(g)(a, c).Ok?
    {
      ShortestLegSpec(g, a, b);
      ShortestLegSpec(g, b, c);
      ReachableTrans(g, a, b, c);
      ShortestLegSpec(g, a, c);
    }
  }

  // Properties of one scan.

  /**
   * The scan picks a nearest candidate and the first one among equals; it
   * fails exactly when some candidate has no distance, and then reports the
   * error of the first such candidate.
   */
  lemma {:induction false} NearestSpec(leg: Oracle, current: City, candidates: seq<City>)
    requires candidates != []
    ensures var r := Nearest(leg, current, candidates);
      && (r.Ok? ==> leg(current, candidates[r.value.0]) == Ok(r.value.1))
      && (r.Ok? ==> forall j :: 0 <= j < |candidates| ==>
            leg(current, candidates[j]).Ok? && r.value.1 <= leg(current, candidates[j]).value &&
            (j < r.value.0 ==> r.value.1 < leg(current, candidates[j]).value))
      && ((forall j :: 0 <= j < |candidates| ==> leg(current, candidates[j]).Ok?) ==> r.Ok?)
      && (r.Err? ==> exists j :: (0 <= j < |candidates| && leg(current, candidates[j]) == Err(r.error) &&
            forall k :: 0 <= k < j ==> leg(current, candidates[k]).Ok?))
    decreases |candidates|
  {
    var n := |candidates| - 1;
    if n > 0 {
      var prefix := candidates[..n];
      assert forall j :: 0 <= j < n ==> prefix[j] == candidates[j];
      NearestSpec(leg, current, prefix);
    }
  }

  /** One more candidate extends the scan. */
  lemma NearestStep(leg: Oracle, current: City, candidates: seq<City>, k: nat)
    requires k < |candidates|
    ensures var r := Nearest(leg, current, candidates[..k + 1]);
      var last := leg(current, candidates[k]);
      if k == 0 then
        r == (if last.Err? then Err(last.error) else Ok((0, last.value)))
      else
        var scan := Nearest(leg, current, candidates[..k]);
        r == if scan.Err? then Err(scan.error)
             else if last.Err? then Err(last.error)
             else if last.value < scan.value.1 then Ok((k, last.value))
             else scan
  {
    assert candidates[..k + 1][..k] == candidates[..k];
  }

  /** An error in an early part of the scan is the error of the whole scan. */
  lemma {:induction false} NearestPrefixErr(leg: Oracle, current: City, candidates: seq<City>, m: nat)
    requires 1 <= m <= |candidates|
    requires Nearest(leg, current, candidates[..m]).Err?
    ensures Nearest(leg, current, candidates) == Nearest(leg, current, candidates[..m])
    decreases |candidates| - m
  {
    if m < |candidates| {
      var n := |candidates| - 1;
      assert candidates[..n][..m] == candidates[..m];
      NearestPrefixErr(leg, current, candidates[..n], m);
      NearestStep(leg, current, candidates, n);
      assert candidates[..n + 1] == candidates;
    } else {
      assert candidates[..m] == candidates;
    }
  }

  // Bookkeeping of the loop of `shortest_path`.

  lemma JoinNothing(r: Result<(seq<City>, nat, City), RouteError>)
    ensures Join([], 0, r) == r
  {
    if r.Ok? {
      assert [] + r.value.0 == r.value.0;
    }
  }

  /** One step of the visit: move to the nearest city and visit the rest from there. */
  lemma VisitStep(leg: Oracle, current: City, remaining: seq<City>, i: nat, d: nat)
    requires remaining != [] && Nearest(leg, current, remaining) == Ok((i, d))
    ensures i < |remaining|
    ensures Visit(leg, current, remaining) == Join([remaining[i]], d, Visit(leg, remaining[i], RemoveAt(remaining, i)))
  {
  }

  lemma JoinSnoc(stops: seq<City>, total: nat, next: City, d: nat, r: Result<(seq<City>, nat, City), RouteError>)
    ensures Join(stops, total, Join([next], d, r)) == Join(stops + [next], total + d, r)
  {
    if r.Ok? {
      assert stops + ([next] + r.value.0) == (stops + [next]) + r.value.0;
    }
  }

  /**
   * The `for dest in remaining_destinations` scan of `shortest_path`: the
   * position and distance of the nearest remaining city from `current`, or
   * the error of the first one that cannot be reached.
   */
  method NearestDestination(g: Graph, ghost leg: Oracle, current: City, remaining: seq<City>)
    returns (r: Result<(nat, nat), RouteError>)
    requires Closed(g) && Computes(g, leg) && remaining != []
    ensures r == Nearest(leg, current, remaining)
  {
    var shortestDistance: Option<nat> := None;  // infinity
    var nextCity := 0;
    var k := 0;
    while k < |remaining|
      invariant k <= |remaining|
      invariant shortestDistance.None? <==> k == 0
      invariant k > 0 ==> Nearest(leg, current, remaining[..k]) == Ok((nextCity, shortestDistance.value))
    {
      var distance := ShortestDistance(g, current, remaining[k]);
      NearestStep(leg, current, remaining, k);
      if distance.Err? {
        NearestPrefixErr(leg, current, remaining, k + 1);
        return Err(distance.error);
      }
      if shortestDistance.None? || distance.value < shortestDistance.value {
        shortestDistance, nextCity := Some(distance.value), k;
      }
      k := k + 1;
    }
    assert remaining[..k] == remaining;
    return Ok((nextCity, shortestDistance.value));
  }

  /**
   * The `while remaining_destinations` loop of `shortest_path`: repeatedly
   * moves to the nearest remaining destination, collecting the stops and
   * the distance travelled, and reports where it ends.
   */
  method Travel(g: Graph, ghost leg: Oracle, start: City, destinations: seq<City>)
    returns (r: Result<(seq<City>, nat, City), RouteError>)
    requires Closed(g) && Computes(g, leg)
    ensures r == Visit(leg, start, destinations)
  {
    var remaining := destinations;
    var stops := [];
    var totalDistance: nat := 0;
    var currentCity := start;
    JoinNothing(Visit(leg, start, destinations));
    while remaining != []
      invariant Visit(leg, start, destinations) == Join(stops, totalDistance, Visit(leg, currentCity, remaining))
      decreases |remaining|
    {
      var nearest := NearestDestination(g, leg, currentCity, remaining);
      if nearest.Err? {
        return Err(nearest.error);
      }
      var nextIndex, shortestDistance := nearest.value.0, nearest.value.1;
      VisitStep(leg, currentCity, remaining, nextIndex, shortestDistance);
      JoinSnoc(stops, totalDistance, remaining[nextIndex], shortestDistance,
               Visit(leg, remaining[nextIndex], RemoveAt(remaining, nextIndex)));
      var nextCity := remaining[nextIndex];
      stops := stops + [nextCity];
      totalDistance := totalDistance + shortestDistance;
      currentCity := nextCity;
      remaining := RemoveAt(remaining, nextIndex);
    }
    assert stops + [] == stops;
    return Ok((stops, totalDistance, currentCity));
  }

  /**
   * `shortest_path(start, destinations)`: the stops of the greedy visit
   * between two copies of `start`, with the return leg added to the total.
   */
  method ShortestPath(g: Graph, ghost leg: Oracle, start: City, destinations: seq<City>) returns (r: Result<Tour, RouteError>)
    requires Closed(g) && Computes(g, leg)
    ensures r == Plan(leg, start, destinations)
  {
    if destinations == [] {
      return Ok(([], 0));
    }
    var visit := Travel(g, leg, start, destinations);
    if visit.Err? {
      return Err(visit.error);
    }
    var currentRoute := [start] + visit.value.0;
    var finalDistance := ShortestDistance(g, visit.value.2, start);
    if finalDistance.Err? {
      return Err(finalDistance.error);
    }
    currentRoute := currentRoute + [start];
    var totalDistance := visit.value.1 + finalDistance.value;
    return Ok((currentRoute, totalDistance));
  }

  // What the tour is.

  /** The stops of a visit are a permutation of the cities to visit. */
  lemma {:induction false} VisitPermutes(leg: Oracle, current: City, remaining: seq<City>)
    requires Visit(leg, current, remaining).Ok?
    ensures multiset(Visit(leg, current, remaining).value.0) == multiset(remaining)
    decreases |remaining|
  {
    if remaining != [] {
      var nearest := Nearest(leg, current, remaining).value;
      var next := remaining[nearest.0];
      var rest := RemoveAt(remaining, nearest.0);
      VisitStep(leg, current, remaining, nearest.0, nearest.1);
      VisitPermutes(leg, next, rest);
      RemoveAtMultiset(remaining, nearest.0);
      var sub := Visit(leg, next, rest).value;
      var v := Visit(leg, current, remaining).value;
      assert v.0 == [next] + sub.0;
      assert multiset(v.0) == multiset{next} + multiset(sub.0);
    }
  }

  /** A visit ends at its last stop, or where it began when there is nothing to visit. */
  lemma {:induction false} VisitEnds(leg: Oracle, current: City, remaining: seq<City>)
    requires Visit(leg, current, remaining).Ok?
    ensures var v := Visit(leg, current, remaining).value;
      v.2 == if v.0 == [] then current else v.0[|v.0| - 1]
    decreases |remaining|
  {
    if remaining != [] {
      var nearest := Nearest(leg, current, remaining).value;
      var next := remaining[nearest.0];
      var rest := RemoveAt(remaining, nearest.0);
      VisitStep(leg, current, remaining, nearest.0, nearest.1);
      VisitEnds(leg, next, rest);
      var sub := Visit(leg, next, rest).value;
      var v := Visit(leg, current, remaining).value;
      assert v.0 == [next] + sub.0 && v.2 == sub.2;
    }
  }

  /**
   * `shortest_path` with no destinations returns ([], 0); otherwise the
   * route starts and ends at `start`, and between them visits every
   * destination exactly once.
   */
  lemma PlanShape(leg: Oracle, start: City, destinations: seq<City>)
    requires Plan(leg, start, destinations).Ok?
    ensures destinations == [] ==> Plan(leg, start, destinations) == Ok(([], 0))
    ensures destinations != [] ==>
      var route := Plan(leg, start, destinations).value.0;
      |route| == |destinations| + 2 && route[0] == start && route[|route| - 1] == start &&
      multiset(route[1..|route| - 1]) == multiset(destinations) &&
      (Distinct(destinations) ==> Distinct(route[1..|route| - 1]))
  {
    if destinations != [] {
      VisitPermutes(leg, start, destinations);
      var stops := Visit(leg, start, destinations).value.0;
      var route := Plan(leg, start, destinations).value.0;
      assert route[1..|route| - 1] == stops;
      assert |stops| == |multiset(stops)| == |destinations|;
    }
  }

  /** The distance of a visit is the sum of its legs, starting from `current`. */
  lemma {:induction false} VisitLegs(leg: Oracle, current: City, remaining: seq<City>)
    requires Visit(leg, current, remaining).Ok?
    ensures LegSum(leg, [current] + Visit(leg, current, remaining).value.0) == Some(Visit(leg, current, remaining).value.1)
    decreases |remaining|
  {
    if remaining != [] {
      NearestSpec(leg, current, remaining);
      var i := Nearest(leg, current, remaining).value.0;
      var next := remaining[i];
      var rest := RemoveAt(remaining, i);
      VisitLegs(leg, next, rest);
      var sub := Visit(leg, next, rest).value;
      assert ([current] + ([next] + sub.0))[1..] == [next] + sub.0;
    }
  }

  lemma {:induction false} LegSumSnoc(leg: Oracle, s: seq<City>, x: City)
    requires |s| >= 1 && LegSum(leg, s).Some? && leg(s[|s| - 1], x).Ok?
    ensures LegSum(leg, s + [x]) == Some(LegSum(leg, s).value + leg(s[|s| - 1], x).value)
    decreases |s|
  {
    if |s| == 1 {
      assert (s + [x])[1..] == [x];
    } else {
      LegSumSnoc(leg, s[1..], x);
      assert (s + [x])[1..] == s[1..] + [x];
    }
  }

  /** The total returned is the sum of the distances of consecutive legs, the return leg included. */
  lemma PlanTotal(leg: Oracle, start: City, destinations: seq<City>)
    requires destinations != [] && Plan(leg, start, destinations).Ok?
    ensures LegSum(leg, Plan(leg, start, destinations).value.0) == Some(Plan(leg, start, destinations).value.1)
  {
    VisitLegs(leg, start, destinations);
    VisitPermutes(leg, start, destinations);
    VisitEnds(leg, start, destinations);
    var v := Visit(leg, start, destinations).value;
    LegSumSnoc(leg, [start] + v.0, start);
  }

  /**
   * Each stop of a visit is nearest to the previous city among the cities
   * not yet visited, and strictly nearer than those before it in the
   * iteration order.
   */
  lemma {:induction false} VisitGreedy(leg: Oracle, current: City, remaining: seq<City>, k: nat, j: nat, p: nat)
    requires Distinct(remaining) && Visit(leg, current, remaining).Ok?
    requires var stops := Visit(leg, current, remaining).value.0;
      k < |stops| && p < |remaining| && j < |remaining| &&
      remaining[p] == stops[k] && remaining[j] !in stops[..k]
    ensures var stops := Visit(leg, current, remaining).value.0;
      var from := if k == 0 then current else stops[k - 1];
      leg(from, stops[k]).Ok? && leg(from, remaining[j]).Ok? &&
      leg(from, stops[k]).value <= leg(from, remaining[j]).value &&
      (j < p ==> leg(from, stops[k]).value < leg(from, remaining[j]).value)
    decreases |remaining|
  {
    var stops := Visit(leg, current, remaining).value.0;
    assert remaining != [];
    var i := Nearest(leg, current, remaining).value.0;
    var next := remaining[i];
    var rest := RemoveAt(remaining, i);
    var sub := Visit(leg, next, rest).value.0;
    assert stops == [next] + sub;
    if k == 0 {
      NearestSpec(leg, current, remaining);
      DistinctIndex(remaining, i);
    } else {
      assert stops[0] in stops[..k];
      VisitPermutes(leg, current, remaining);
      DistinctIndex(stops, 0);
      DistinctRemoveAt(remaining, i);
      RemoveAtIndex(remaining, i, j);
      RemoveAtIndex(remaining, i, p);
      assert stops[..k] == [next] + sub[..k - 1];
      VisitGreedy(leg, next, rest, k - 1, if j < i then j else j - 1, if p < i then p else p - 1);
    }
  }

  /**
   * The greedy rule on the returned route: for 1 <= k <= |destinations|,
   * route[k] is nearest to route[k - 1] among the destinations not yet on the
   * route, and strictly nearer than those before it in iteration order.
   */
  lemma PlanGreedy(leg: Oracle, start: City, destinations: seq<City>, k: nat, j: nat, p: nat)
    requires Distinct(destinations) && Plan(leg, start, destinations).Ok?
    requires var route := Plan(leg, start, destinations).value.0;
      1 <= k <= |destinations| && k < |route| && p < |destinations| && j < |destinations| &&
      route[k] == destinations[p] && destinations[j] !in route[1..k]
    ensures var route := Plan(leg, start, destinations).value.0;
      leg(route[k - 1], route[k]).Ok? && leg(route[k - 1], destinations[j]).Ok? &&
      leg(route[k - 1], route[k]).value <= leg(route[k - 1], destinations[j]).value &&
      (j < p ==> leg(route[k - 1], route[k]).value < leg(route[k - 1], destinations[j]).value)
  {
    VisitPermutes(leg, start, destinations);
    var stops := Visit(leg, start, destinations).value.0;
    var route := Plan(leg, start, destinations).value.0;
    assert route == [start] + stops + [start];
    assert |stops| == |multiset(stops)| == |destinations|;
    assert route[k] == stops[k - 1];
    assert route[1..k] == stops[..k - 1];
    assert k > 1 ==> route[k - 1] == stops[k - 2];
    VisitGreedy(leg, start, destinations, k - 1, j, p);
  }

  /** The first scan of a visit that succeeds found a distance from `current` to every city to visit. */
  lemma VisitFirstScan(leg: Oracle, current: City, remaining: seq<City>)
    requires Visit(leg, current, remaining).Ok?
    ensures forall x :: x in remaining ==> leg(current, x).Ok?
  {
    if remaining != [] {
      NearestSpec(leg, current, remaining);
      forall x | x in remaining ensures leg(current, x).Ok? {
        var j :| 0 <= j < |remaining| && remaining[j] == x;
      }
    }
  }

  /** A visit of at least one city ends at one of them. */
  lemma VisitEndsInside(leg: Oracle, current: City, remaining: seq<City>)
    requires remaining != [] && Visit(leg, current, remaining).Ok?
    ensures Visit(leg, current, remaining).value.2 in remaining
  {
    VisitEnds(leg, current, remaining);
    VisitPermutes(leg, current, remaining);
    var stops := Visit(leg, current, remaining).value.0;
    assert stops[|stops| - 1] in multiset(stops);
  }

  /** Every city a visit was given is the city it ends at, or has a distance to it. */
  lemma {:induction false} VisitReaches(leg: Oracle, current: City, remaining: seq<City>)
    requires Visit(leg, current, remaining).Ok?
    ensures var last := Visit(leg, current, remaining).value.2;
      forall x :: x in remaining ==> x == last || leg(x, last).Ok?
    decreases |remaining|
  {
    if remaining != [] {
      var nearest := Nearest(leg, current, remaining).value;
      var next := remaining[nearest.0];
      var rest := RemoveAt(remaining, nearest.0);
      VisitStep(leg, current, remaining, nearest.0, nearest.1);
      var last := Visit(leg, next, rest).value.2;
      VisitReaches(leg, next, rest);
      RemoveAtMultiset(remaining, nearest.0);
      if rest != [] {
        VisitEndsInside(leg, next, rest);
        VisitFirstScan(leg, next, rest);
      }
      forall x | x in remaining ensures x == last || leg(x, last).Ok? {
        if x != next {
          assert x in multiset(rest);
        }
      }
    }
  }

  /** A visit succeeds among cities that all have a distance to every city still to visit. */
  lemma {:induction false} VisitSucceeds(leg: Oracle, current: City, remaining: seq<City>, from: set<City>)
    requires current in from && forall x :: x in remaining ==> x in from
    requires forall a, b :: a in from && b in remaining ==> leg(a, b).Ok?
    ensures Visit(leg, current, remaining).Ok?
    decreases |remaining|
  {
    if remaining != [] {
      NearestSpec(leg, current, remaining);
      var i := Nearest(leg, current, remaining).value.0;
      var rest := RemoveAt(remaining, i);
      RemoveAtMultiset(remaining, i);
      forall x | x in rest ensures x in remaining {
        assert x in multiset(remaining);
      }
      VisitSucceeds(leg, remaining[i], rest, from);
    }
  }

  /**
   * For a transitive oracle, `shortest_path` succeeds exactly when every
   * destination has a distance from `start` and back to it; otherwise it
   * fails as a whole.
   */
  lemma TourSucceeds(leg: Oracle, start: City, destinations: seq<City>)
    requires Transitive(leg)
    ensures Plan(leg, start, destinations).Ok? <==>
      forall d :: d in destinations ==> leg(start, d).Ok? && leg(d, start).Ok?
  {
    if destinations != [] {
      if Plan(leg, start, destinations).Ok? {
        VisitFirstScan(leg, start, destinations);
        VisitReaches(leg, start, destinations);
      }
      if forall d :: d in destinations ==> leg(start, d).Ok? && leg(d, start).Ok? {
        var from := {start} + set d | d in destinations;
        VisitSucceeds(leg, start, destinations, from);
        VisitPermutes(leg, start, destinations);
        VisitEnds(leg, start, destinations);
        var stops := Visit(leg, start, destinations).value.0;
        assert stops[|stops| - 1] in multiset(destinations);
      }
    }
  }

  /**
   * `shortest_path` over `g` succeeds exactly when every destination is
   * reachable from `start` and can reach `start` back.
   */
  lemma PlanSucceeds(g: Graph, start: City, destinations: seq<City>)
    ensures Plan(ShortestLeg(g), start, destinations).Ok? <==>
      forall d :: d in destinations ==> Reachable(g, start, d) && Reachable(g, d, start)
  {
    ShortestLegTransitive(g);
    TourSucceeds(ShortestLeg(g), start, destinations);
    forall d | d in destinations
      ensures ShortestLeg(g)(start, d).Ok? <==> Reachable(g, start, d)
      ensures ShortestLeg(g)(d, start).Ok? <==> Reachable(g, d, start)
    {
      ShortestLegSpec(g, start, d);
      ShortestLegSpec(g, d, start);
    }
  }

  /**
   * When a destination has no distance from `start`, the call fails on the
   * first scan with the error of the first such destination in iteration
   * order; over `g` that error names `start` and that destination.
   */
  lemma PlanFailsFirst(leg: Oracle, start: City, destinations: seq<City>, j: nat)
    requires j < |destinations| && leg(start, destinations[j]).Err?
    requires forall k :: 0 <= k < j ==> leg(start, destinations[k]).Ok?
    ensures Plan(leg, start, destinations) == Err(leg(start, destinations[j]).error)
  {
    NearestSpec(leg, start, destinations);
  }
}
