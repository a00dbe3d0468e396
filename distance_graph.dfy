/**
 * `shortest_distance`: Dijkstra's search over the adjacency table, with an
 * early return when the target is popped. The frontier is a sequence of
 * (tentative distance, city) entries from which the minimum is popped; a
 * city absent from `distances` is at distance infinity.
 */
module DistanceGraph {
  import opened Wrappers
  import opened CityGraph

  /** The error `shortest_distance` raises when its frontier runs out. */
  datatype RouteError = NoPathFound(start: City, end: City)

  /** What `shortest_distance(s, t)` returns or raises, by the path definition of distance. */
  ghost function DistanceResult(g: Graph, s: City, t: City): Result<nat, RouteError>
  {
    match Dist(g, s, t)
    case Some(d) => Ok(d)
    case None => Err(NoPathFound(s, t))
  }

  /** Index of a frontier entry of least distance: the entry a pop-minimum returns. */
  function MinIndex(q: seq<(nat, City)>): (i: nat)
    requires q != []
    ensures i < |q|
    ensures forall e :: e in q ==> q[i].0 <= e.0
  {
    if |q| == 1 then 0
    else
      var k := MinIndex(q[1..]) + 1;
      if q[k].0 < q[0].0 then k else 0
  }

  // Loop invariants of the search, named so that the correctness lemmas can state them.

  /** Each tentative distance is the length of a recorded path from `start`. */
  ghost predicate Witnessed(g: Graph, start: City, dist: map<City, nat>, via: map<City, seq<City>>) {
    forall c :: c in dist ==> c in via && IsPath(g, via[c], start, c) && PathLength(g, via[c]) == dist[c]
  }

  /** No frontier entry is below the tentative distance of its city. */
  ghost predicate Sound(dist: map<City, nat>, pq: seq<(nat, City)>) {
    forall e :: e in pq ==> e.1 in dist && dist[e.1] <= e.0
  }

  /** Each unvisited city with a finite distance is on the frontier at that distance. */
  ghost predicate Queued(dist: map<City, nat>, visited: set<City>, pq: seq<(nat, City)>) {
    forall c :: c in dist && c !in visited ==> (dist[c], c) in pq
  }

  /** Visited cities hold their shortest distance. */
  ghost predicate Settled(g: Graph, start: City, dist: map<City, nat>, visited: set<City>) {
    forall v :: v in visited ==> v in dist && LowerBound(g, start, v, dist[v])
  }

  /** Every out-edge of a visited city has been relaxed. */
  ghost predicate Relaxed(g: Graph, dist: map<City, nat>, visited: set<City>) {
    forall v, w :: v in visited && v in dist && w in Neighbours(g, v) ==>
      w in dist && dist[w] <= dist[v] + Neighbours(g, v)[w]
  }

  /** Visited cities are never farther than any frontier entry. */
  ghost predicate Behind(dist: map<City, nat>, visited: set<City>, pq: seq<(nat, City)>) {
    forall v, e :: v in visited && v in dist && e in pq ==> dist[v] <= e.0
  }

  /** First position of `p` outside `s`. */
  ghost function FirstOutside(p: seq<City>, s: set<City>): (k: nat)
    requires |p| > 0 && p[|p| - 1] !in s
    ensures k < |p| && p[k] !in s
    ensures forall i :: 0 <= i < k ==> p[i] in s
  {
    if p[0] !in s then 0 else 1 + FirstOutside(p[1..], s)
  }

  /**
   * A path from `start` whose step k leaves the visited set: relaxation put
   * the city it enters at a tentative distance no larger than the path.
   */
  lemma ExitBound(g: Graph, start: City, dist: map<City, nat>, visited: set<City>, p: seq<City>, t: City, k: nat)
    requires Settled(g, start, dist, visited) && Relaxed(g, dist, visited)
    requires IsPath(g, p, start, t) && 1 <= k < |p| && p[k - 1] in visited
    ensures p[k] in dist && dist[p[k]] <= PathLength(g, p)
  {
    StepOf(g, p, k);
    PrefixWalk(g, p, k + 1);
    assert IsPath(g, p[..k], start, p[k - 1]);
  }

  /**
   * The heart of Dijkstra's argument: an unvisited city whose distance is
   * no larger than any frontier entry has its shortest distance. A path to
   * it leaves the visited set at some city that is relaxed and queued.
   */
  lemma PoppedIsShortest(g: Graph, start: City, dist: map<City, nat>, visited: set<City>,
                         pq: seq<(nat, City)>, c: City)
    requires start in dist && dist[start] == 0
    requires Settled(g, start, dist, visited) && Relaxed(g, dist, visited)
    requires Queued(dist, visited, pq)
    requires c in dist && c !in visited
    requires forall e :: e in pq ==> dist[c] <= e.0
    ensures LowerBound(g, start, c, dist[c])
  {
    forall p | IsPath(g, p, start, c) ensures dist[c] <= PathLength(g, p) {
      var k := FirstOutside(p, visited);
      if k == 0 {
        assert (dist[start], start) in pq;
      } else {
        ExitBound(g, start, dist, visited, p, c, k);
        assert (dist[p[k]], p[k]) in pq;
      }
    }
  }

  /** The cities reachable from a visited `start` stay inside a visited set closed under relaxation. */
  lemma {:induction false} VisitedClosed(g: Graph, start: City, dist: map<City, nat>, visited: set<City>,
                                         p: seq<City>, t: City)
    requires start in visited && visited <= dist.Keys
    requires Relaxed(g, dist, visited)
    requires forall c :: c in dist ==> c in visited
    requires IsPath(g, p, start, t)
    ensures t in visited
    decreases |p|
  {
    if |p| > 1 {
      var u := p[|p| - 2];
      assert IsPath(g, p[..|p| - 1], start, u);
      VisitedClosed(g, start, dist, visited, p[..|p| - 1], u);
    }
  }

  /** Recording the improved distance of `w` through `c` keeps every distance witnessed. */
  lemma WitnessedUpdate(g: Graph, start: City, dist: map<City, nat>, via: map<City, seq<City>>, c: City, w: City)
    requires Witnessed(g, start, dist, via)
    requires c in dist && IsEdge(g, c, w)
    ensures Witnessed(g, start, dist[w := dist[c] + EdgeLength(g, c, w)], via[w := via[c] + [w]])
  {
    Extend(g, via[c], start, c, w);
  }

  lemma RemoveEntry(pq: seq<(nat, City)>, i: nat)
    requires i < |pq|
    ensures forall e :: e in pq[..i] + pq[i + 1..] ==> e in pq
    ensures forall e :: e in pq && e != pq[i] ==> e in pq[..i] + pq[i + 1..]
  {
    assert pq == pq[..i] + [pq[i]] + pq[i + 1..];
  }

  /** The invariant of the outer `while pq` loop. */
  ghost predicate SearchInv(g: Graph, start: City, end: City, dist: map<City, nat>, pq: seq<(nat, City)>,
                            visited: set<City>, via: map<City, seq<City>>)
  {
    Closed(g) &&
    dist.Keys <= g.Keys + {start} && visited <= dist.Keys &&
    start in dist && dist[start] == 0 &&
    Witnessed(g, start, dist, via) &&
    Sound(dist, pq) && Queued(dist, visited, pq) &&
    Settled(g, start, dist, visited) && Relaxed(g, dist, visited) &&
    Behind(dist, visited, pq) &&
    end !in visited
  }

  /** The invariant of the inner loop relaxing the out-edges of `c`, popped at distance `d`. */
  ghost predicate RelaxInv(g: Graph, start: City, end: City, dist: map<City, nat>, pq: seq<(nat, City)>,
                           visited: set<City>, via: map<City, seq<City>>, c: City, d: nat, todo: set<City>)
  {
    Closed(g) &&
    todo <= Neighbours(g, c).Keys &&
    dist.Keys <= g.Keys + {start} && visited <= dist.Keys &&
    start in dist && dist[start] == 0 &&
    c in visited && dist[c] == d &&
    Witnessed(g, start, dist, via) &&
    Sound(dist, pq) && Queued(dist, visited, pq) &&
    Settled(g, start, dist, visited) && Relaxed(g, dist, visited - {c}) &&
    (forall w :: w in Neighbours(g, c) && w !in todo ==> w in dist && dist[w] <= d + Neighbours(g, c)[w]) &&
    (forall v :: v in visited ==> dist[v] <= d) &&
    Behind(dist, visited, pq) &&
    end !in visited
  }

  lemma SearchStart(g: Graph, start: City, end: City)
    requires Closed(g)
    ensures SearchInv(g, start, end, map[start := 0], [(0, start)], {}, map[start := [start]])
  {
    assert IsPath(g, [start], start, start);
  }

  /**
   * Popping a least entry (d, c) of an unvisited city: d is the tentative
   * distance of c and it is the shortest distance to c.
   */
  lemma PopUnvisited(g: Graph, start: City, end: City, dist: map<City, nat>, pq: seq<(nat, City)>,
                     visited: set<City>, via: map<City, seq<City>>, i: nat)
    requires SearchInv(g, start, end, dist, pq, visited, via)
    requires i < |pq| && forall e :: e in pq ==> pq[i].0 <= e.0
    requires pq[i].1 !in visited
    ensures pq[i].1 in dist && dist[pq[i].1] == pq[i].0
    ensures IsShortest(g, start, pq[i].1, pq[i].0)
  {
    var c := pq[i].1;
    assert (dist[c], c) in pq;
    PoppedIsShortest(g, start, dist, visited, pq, c);
    assert IsPath(g, via[c], start, c);
  }

  /** Popping a stale entry of a visited city keeps the invariant. */
  lemma PopStale(g: Graph, start: City, end: City, dist: map<City, nat>, pq: seq<(nat, City)>,
                 visited: set<City>, via: map<City, seq<City>>, i: nat)
    requires SearchInv(g, start, end, dist, pq, visited, via)
    requires i < |pq| && pq[i].1 in visited
    ensures SearchInv(g, start, end, dist, pq[..i] + pq[i + 1..], visited, via)
  {
    RemoveEntry(pq, i);
  }

  /** Marking the popped city visited starts the relaxation of its out-edges. */
  lemma StartRelax(g: Graph, start: City, end: City, dist: map<City, nat>, pq: seq<(nat, City)>,
                   visited: set<City>, via: map<City, seq<City>>, i: nat)
    requires SearchInv(g, start, end, dist, pq, visited, via)
    requires i < |pq| && forall e :: e in pq ==> pq[i].0 <= e.0
    requires pq[i].1 !in visited && pq[i].1 != end
    ensures RelaxInv(g, start, end, dist, pq[..i] + pq[i + 1..], visited + {pq[i].1}, via,
                     pq[i].1, pq[i].0, Neighbours(g, pq[i].1).Keys)
  {
    var c := pq[i].1;
    PopUnvisited(g, start, end, dist, pq, visited, via, i);
    RemoveEntry(pq, i);
    assert (visited + {c}) - {c} == visited;
  }

  /** Lowering the distance of an unvisited `w` to `nd` and queueing (nd, w) keeps the frontier predicates. */
  lemma FrontierImprove(dist: map<City, nat>, visited: set<City>, pq: seq<(nat, City)>, w: City, nd: nat, d: nat)
    requires Sound(dist, pq) && Queued(dist, visited, pq) && Behind(dist, visited, pq)
    requires visited <= dist.Keys && w !in visited && (w !in dist || nd < dist[w])
    requires (forall v :: v in visited ==> dist[v] <= d) && d <= nd
    ensures Sound(dist[w := nd], pq + [(nd, w)])
    ensures Queued(dist[w := nd], visited, pq + [(nd, w)])
    ensures Behind(dist[w := nd], visited, pq + [(nd, w)])
  {
  }

  /** Lowering the distance of an unvisited neighbour `w` of `c` to its distance through `c` keeps the settled part. */
  lemma SettledImprove(g: Graph, start: City, dist: map<City, nat>, visited: set<City>,
                       c: City, d: nat, todo: set<City>, w: City, nd: nat)
    requires Settled(g, start, dist, visited) && Relaxed(g, dist, visited - {c})
    requires visited <= dist.Keys && w !in visited
    requires w in Neighbours(g, c) && nd == d + Neighbours(g, c)[w] && (w !in dist || nd < dist[w])
    requires forall u :: u in Neighbours(g, c) && u !in todo ==> u in dist && dist[u] <= d + Neighbours(g, c)[u]
    ensures Settled(g, start, dist[w := nd], visited)
    ensures Relaxed(g, dist[w := nd], visited - {c})
    ensures forall u :: u in Neighbours(g, c) && u !in todo - {w} ==>
      u in dist[w := nd] && dist[w := nd][u] <= d + Neighbours(g, c)[u]
  {
  }

  /** Relaxing c -> w when it improves the distance of w keeps the inner invariant. */
  lemma RelaxImprove(g: Graph, start: City, end: City, dist: map<City, nat>, pq: seq<(nat, City)>,
                     visited: set<City>, via: map<City, seq<City>>, c: City, d: nat, todo: set<City>,
                     w: City, nd: nat)
    requires RelaxInv(g, start, end, dist, pq, visited, via, c, d, todo)
    requires w in todo && nd == d + Neighbours(g, c)[w]
    requires w !in dist || nd < dist[w]
    ensures RelaxInv(g, start, end, dist[w := nd], pq + [(nd, w)], visited, via[w := via[c] + [w]], c, d, todo - {w})
  {
    assert w !in visited;
    WitnessedUpdate(g, start, dist, via, c, w);
    FrontierImprove(dist, visited, pq, w, nd, d);
    SettledImprove(g, start, dist, visited, c, d, todo, w, nd);
  }

  /** Relaxing c -> w when it does not improve the distance of w keeps the inner invariant. */
  lemma RelaxKeep(g: Graph, start: City, end: City, dist: map<City, nat>, pq: seq<(nat, City)>,
                  visited: set<City>, via: map<City, seq<City>>, c: City, d: nat, todo: set<City>,
                  w: City, nd: nat)
    requires RelaxInv(g, start, end, dist, pq, visited, via, c, d, todo)
    requires w in todo && nd == d + Neighbours(g, c)[w]
    requires w in dist && dist[w] <= nd
    ensures RelaxInv(g, start, end, dist, pq, visited, via, c, d, todo - {w})
  {
  }

  /** With every out-edge relaxed the outer invariant holds again. */
  lemma EndRelax(g: Graph, start: City, end: City, dist: map<City, nat>, pq: seq<(nat, City)>,
                 visited: set<City>, via: map<City, seq<City>>, c: City, d: nat)
    requires RelaxInv(g, start, end, dist, pq, visited, via, c, d, {})
    ensures SearchInv(g, start, end, dist, pq, visited, via)
  {
  }

  /** An empty frontier means the target cannot be reached. */
  lemma Exhausted(g: Graph, start: City, end: City, dist: map<City, nat>, visited: set<City>,
                  via: map<City, seq<City>>)
    requires SearchInv(g, start, end, dist, [], visited, via)
    ensures !Reachable(g, start, end)
  {
    assert (dist[start], start) !in [];
    forall p | IsPath(g, p, start, end) ensures false {
      VisitedClosed(g, start, dist, visited, p, end);
    }
  }

  /** Every tentative distance of `before` is still there in `after`, and no larger. */
  ghost predicate Lowered(before: map<City, nat>, after: map<City, nat>)
  {
    forall c :: c in before ==> c in after && after[c] <= before[c]
  }

  /** A relaxation only ever lowers a tentative distance or adds a new one. */
  lemma LowerStep(before: map<City, nat>, after: map<City, nat>, c: City, d: nat)
    requires Lowered(before, after) && (c !in after || d < after[c])
    ensures Lowered(before, after[c := d])
  {
  }

  /**
   * `shortest_distance(start, end)`: returns the length of a shortest path
   * from `start` to `end`, or raises NoPathFound when none exists.
   */
  method ShortestDistance(g: Graph, start: City, end: City) returns (r: Result<nat, RouteError>)
    requires Closed(g)
    ensures r.Ok? <==> Reachable(g, start, end)
    ensures r.Ok? ==> IsShortest(g, start, end, r.value)
    ensures r == DistanceResult(g, start, end)
  {
    var distances: map<City, nat> := map[start := 0];
    var pq: seq<(nat, City)> := [(0, start)];
    var visited: set<City> := {};
    ghost var via: map<City, seq<City>> := map[start := [start]];
    SearchStart(g, start, end);
    while pq != []
      invariant SearchInv(g, start, end, distances, pq, visited, via)
      decreases g.Keys + {start} - visited, |pq|
    {
      ghost var snap := distances;
      var i := MinIndex(pq);
      var currentDistance, currentCity := pq[i].0, pq[i].1;
      if currentCity == end {
        PopUnvisited(g, start, end, distances, pq, visited, via, i);
        DistIs(g, start, end, currentDistance);
        return Ok(currentDistance);
      }
      if currentCity in visited {
        PopStale(g, start, end, distances, pq, visited, via, i);
        pq := pq[..i] + pq[i + 1..];
        continue;
      }
      StartRelax(g, start, end, distances, pq, visited, via, i);
      pq := pq[..i] + pq[i + 1..];
      visited := visited + {currentCity};
      var neighbours := Neighbours(g, currentCity);
      var todo := neighbours.Keys;
      while todo != {}
        invariant RelaxInv(g, start, end, distances, pq, visited, via, currentCity, currentDistance, todo)
        invariant neighbours == Neighbours(g, currentCity)
        invariant Lowered(snap, distances)
        decreases todo
      {
        var neighbor :| neighbor in todo;
        var distance := currentDistance + neighbours[neighbor];
        if neighbor !in distances || distance < distances[neighbor] {
          RelaxImprove(g, start, end, distances, pq, visited, via, currentCity, currentDistance, todo, neighbor, distance);
          LowerStep(snap, distances, neighbor, distance);
          distances := distances[neighbor := distance];
          pq := pq + [(distance, neighbor)];
          via := via[neighbor := via[currentCity] + [neighbor]];
        } else {
          RelaxKeep(g, start, end, distances, pq, visited, via, currentCity, currentDistance, todo, neighbor, distance);
        }
        todo := todo - {neighbor};
      }
      EndRelax(g, start, end, distances, pq, visited, via, currentCity, currentDistance);
    }
    Exhausted(g, start, end, distances, visited, via);
    return Err(NoPathFound(start, end));
  }
}
