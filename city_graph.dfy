/**
 * The directed road-distance table of the truck loading system and the
 * theory of paths over it: path length, reachability and shortest distance.
 * `Dist` is the reference definition the search in DistanceGraph is proved against.
 */
module CityGraph {
  import opened Wrappers

  type City = string

  /** Adjacency table: each city maps its direct neighbours to a road distance in km. */
  type Graph = map<City, map<City, nat>>

  /** The hub every truck departs from and returns to. */
  const Hub: City := "Hanoi"

  /** The fixed table the system is built with: five spokes joined only through the hub. */
  function CityMap(): (g: Graph)
    ensures HubAndSpokes(g)
    ensures g[Hub].Keys == {"Hai Phong", "Da Nang", "Nha Trang", "Dalat", "HCMC"}
  {
    map[
      "Hanoi" := map["Hai Phong" := 105, "Da Nang" := 763, "Nha Trang" := 1280, "Dalat" := 1370, "HCMC" := 1730],
      "Hai Phong" := map["Hanoi" := 105],
      "Da Nang" := map["Hanoi" := 763],
      "Nha Trang" := map["Hanoi" := 1280],
      "Dalat" := map["Hanoi" := 1370],
      "HCMC" := map["Hanoi" := 1730]
    ]
  }

  /**
   * The table is the hub and its spokes alone, and every spoke links back
   * to the hub only, over a road of the same length.
   */
  ghost predicate HubAndSpokes(g: Graph) {
    Hub in g && Hub !in g[Hub] &&
    (forall c :: c in g ==> c == Hub || c in g[Hub]) &&
    (forall c :: c in g[Hub] ==> c in g && Hub in g[c] && g[c][Hub] == g[Hub][c]) &&
    forall c, y :: c in g && y in g[c] && c != Hub ==> y == Hub
  }

  /** Every neighbour named in the table has an entry of its own. */
  predicate Closed(g: Graph) {
    forall a, b :: a in g && b in g[a] ==> b in g
  }

  /** Out-edges of `c`; a city without an entry has none. */
  function Neighbours(g: Graph, c: City): map<City, nat> {
    if c in g then g[c] else map[]
  }

  predicate IsEdge(g: Graph, a: City, b: City) {
    b in Neighbours(g, a)
  }

  function EdgeLength(g: Graph, a: City, b: City): nat
    requires IsEdge(g, a, b)
  {
    Neighbours(g, a)[b]
  }

  /** Consecutive cities of `p` are joined by directed edges. */
  ghost predicate IsWalk(g: Graph, p: seq<City>)
    decreases |p|
  {
    |p| <= 1 || (IsWalk(g, p[..|p| - 1]) && IsEdge(g, p[|p| - 2], p[|p| - 1]))
  }

  /** `p` is a walk from `s` to `t`. */
  ghost predicate IsPath(g: Graph, p: seq<City>, s: City, t: City) {
    |p| > 0 && p[0] == s && p[|p| - 1] == t && IsWalk(g, p)
  }

  /** Sum of the edge lengths along a walk. */
  ghost function PathLength(g: Graph, p: seq<City>): nat
    requires IsWalk(g, p)
    decreases |p|
  {
    if |p| <= 1 then 0 else PathLength(g, p[..|p| - 1]) + EdgeLength(g, p[|p| - 2], p[|p| - 1])
  }

  ghost predicate Reachable(g: Graph, s: City, t: City) {
    exists p :: IsPath(g, p, s, t)
  }

  /** No path from `s` to `t` is shorter than `d`. */
  ghost predicate LowerBound(g: Graph, s: City, t: City, d: nat) {
    forall p :: IsPath(g, p, s, t) ==> d <= PathLength(g, p)
  }

  /** `d` is the length of some path from `s` to `t` and no path is shorter. */
  ghost predicate IsShortest(g: Graph, s: City, t: City, d: nat) {
    (exists p :: IsPath(g, p, s, t) && PathLength(g, p) == d) && LowerBound(g, s, t, d)
  }

  /** The shortest distance from `s` to `t`, or None (infinity) when `t` is unreachable. */
  ghost function Dist(g: Graph, s: City, t: City): Option<nat>
  {
    if Reachable(g, s, t) then
      ShortestExists(g, s, t);
      var d :| IsShortest(g, s, t, d);
      Some(d)
    else
      None
  }

  /** `Dist` is defined exactly for reachable targets, and is then the least path length. */
  lemma DistSpec(g: Graph, s: City, t: City)
    ensures Dist(g, s, t).Some? <==> Reachable(g, s, t)
    ensures Dist(g, s, t).Some? ==> IsShortest(g, s, t, Dist(g, s, t).value)
  {
  }

  /** Every reachable target has a shortest distance: path lengths are natural numbers. */
  lemma ShortestExists(g: Graph, s: City, t: City)
    requires Reachable(g, s, t)
    ensures exists d :: IsShortest(g, s, t, d)
  {
    var p :| IsPath(g, p, s, t);
    ShortestBelow(g, s, t, p);
  }

  lemma {:induction false} ShortestBelow(g: Graph, s: City, t: City, p: seq<City>)
    requires IsPath(g, p, s, t)
    ensures exists d :: IsShortest(g, s, t, d)
    decreases PathLength(g, p)
  {
    if LowerBound(g, s, t, PathLength(g, p)) {
      assert IsShortest(g, s, t, PathLength(g, p));
    } else {
      var q :| IsPath(g, q, s, t) && PathLength(g, q) < PathLength(g, p);
      ShortestBelow(g, s, t, q);
    }
  }

  /** Any shortest length is the one `Dist` returns. */
  lemma DistIs(g: Graph, s: City, t: City, d: nat)
    requires IsShortest(g, s, t, d)
    ensures Dist(g, s, t) == Some(d)
  {
    var p :| IsPath(g, p, s, t) && PathLength(g, p) == d;
    DistSpec(g, s, t);
    var e := Dist(g, s, t).value;
    var q :| IsPath(g, q, s, t) && PathLength(g, q) == e;
    assert d <= e && e <= d;
  }

  /** Every city is at distance 0 from itself: the one-city path. */
  lemma DistSelf(g: Graph, c: City)
    ensures Dist(g, c, c) == Some(0)
  {
    assert IsPath(g, [c], c, c) && PathLength(g, [c]) == 0;
    DistIs(g, c, c, 0);
  }

  /** A prefix of a walk is a walk and is no longer. */
  lemma {:induction false} PrefixWalk(g: Graph, p: seq<City>, m: nat)
    requires IsWalk(g, p) && 1 <= m <= |p|
    ensures IsWalk(g, p[..m]) && PathLength(g, p[..m]) <= PathLength(g, p)
    decreases |p| - m
  {
    if m < |p| {
      var q := p[..|p| - 1];
      assert q[..m] == p[..m];
      PrefixWalk(g, q, m);
    } else {
      assert p[..m] == p;
    }
  }

  /** The `k`-th step of a walk is an edge and adds its length to the prefix before it. */
  lemma StepOf(g: Graph, p: seq<City>, k: nat)
    requires IsWalk(g, p) && 1 <= k < |p|
    ensures IsEdge(g, p[k - 1], p[k])
    ensures IsWalk(g, p[..k]) && IsWalk(g, p[..k + 1])
    ensures PathLength(g, p[..k + 1]) == PathLength(g, p[..k]) + EdgeLength(g, p[k - 1], p[k])
  {
    PrefixWalk(g, p, k + 1);
    assert p[..k + 1][..k] == p[..k];
  }

  /** Extending a path by one edge extends its length by that edge. */
  lemma Extend(g: Graph, p: seq<City>, s: City, t: City, u: City)
    requires IsPath(g, p, s, t) && IsEdge(g, t, u)
    ensures IsPath(g, p + [u], s, u)
    ensures PathLength(g, p + [u]) == PathLength(g, p) + EdgeLength(g, t, u)
  {
    assert (p + [u])[..|p|] == p;
  }

  /** Joining a path from `s` to `m` with one from `m` to `t`. */
  lemma {:induction false} Concat(g: Graph, p: seq<City>, q: seq<City>, s: City, m: City, t: City)
    requires IsPath(g, p, s, m) && IsPath(g, q, m, t)
    ensures IsPath(g, p + q[1..], s, t)
    ensures PathLength(g, p + q[1..]) == PathLength(g, p) + PathLength(g, q)
    decreases |q|
  {
    if |q| == 1 {
      assert p + q[1..] == p;
    } else {
      var q' := q[..|q| - 1];
      var u := q[|q| - 2];
      Concat(g, p, q', s, m, u);
      Extend(g, p + q'[1..], s, u, t);
      assert p + q'[1..] + [t] == p + q[1..];
    }
  }

  /** Reachability is transitive. */
  lemma ReachableTrans(g: Graph, a: City, b: City, c: City)
    requires Reachable(g, a, b) && Reachable(g, b, c)
    ensures Reachable(g, a, c)
  {
    var p :| IsPath(g, p, a, b);
    var q :| IsPath(g, q, b, c);
    Concat(g, p, q, a, b, c);
  }

  /** Every road can be driven both ways, over the same length. */
  ghost predicate Symmetric(g: Graph) {
    forall a, b :: IsEdge(g, a, b) ==> IsEdge(g, b, a) && EdgeLength(g, b, a) == EdgeLength(g, a, b)
  }

  /** A table made of the hub and its spokes alone is symmetric. */
  lemma SpokesSymmetric(g: Graph)
    requires HubAndSpokes(g)
    ensures Symmetric(g)
  {
    forall a, b | IsEdge(g, a, b) ensures IsEdge(g, b, a) && EdgeLength(g, b, a) == EdgeLength(g, a, b) {
      if a != Hub {
        assert a in g[Hub] && b == Hub;
      }
    }
  }

  /** `p` driven backwards. */
  ghost function Reversed(p: seq<City>): (r: seq<City>)
    ensures |r| == |p|
    decreases |p|
  {
    if p == [] then [] else [p[|p| - 1]] + Reversed(p[..|p| - 1])
  }

  /** A single road is a path of its own length. */
  lemma Hop(g: Graph, a: City, b: City)
    requires IsEdge(g, a, b)
    ensures IsPath(g, [a, b], a, b) && PathLength(g, [a, b]) == EdgeLength(g, a, b)
  {
    assert [a, b][..1] == [a];
  }

  /** Over a symmetric table a walk driven backwards is a walk of the same length. */
  lemma {:induction false} ReversedWalk(g: Graph, p: seq<City>)
    requires Symmetric(g) && IsWalk(g, p) && p != []
    ensures IsPath(g, Reversed(p), p[|p| - 1], p[0])
    ensures PathLength(g, Reversed(p)) == PathLength(g, p)
    decreases |p|
  {
    var n := |p|;
    if n == 1 {
      assert Reversed(p) == [p[0]] + Reversed([]);
    } else {
      var q := p[..n - 1];
      var a, b := p[n - 1], p[n - 2];
      StepOf(g, p, n - 1);
      assert p[..n] == p && p[..n - 1] == q;
      ReversedWalk(g, q);
      var r := Reversed(q);
      assert IsPath(g, r, b, p[0]);
      Hop(g, a, b);
      Concat(g, [a, b], r, a, b, p[0]);
      assert [a, b] + r[1..] == [a] + r == Reversed(p);
    }
  }

  /** Over a symmetric table the distance from `a` to `b` is the distance from `b` to `a`. */
  lemma DistSymmetric(g: Graph, a: City, b: City)
    requires Symmetric(g)
    ensures Dist(g, a, b) == Dist(g, b, a)
  {
    DistSpec(g, a, b);
    DistSpec(g, b, a);
    if Reachable(g, a, b) {
      ShortestReversed(g, a, b, Dist(g, a, b).value);
      DistIs(g, b, a, Dist(g, a, b).value);
    } else if Reachable(g, b, a) {
      var p :| IsPath(g, p, b, a);
      ReversedWalk(g, p);
    }
  }

  /** A shortest length from `a` to `b` is one from `b` to `a` when the table is symmetric. */
  lemma ShortestReversed(g: Graph, a: City, b: City, d: nat)
    requires Symmetric(g) && IsShortest(g, a, b, d)
    ensures IsShortest(g, b, a, d)
  {
    var p :| IsPath(g, p, a, b) && PathLength(g, p) == d;
    ReversedWalk(g, p);
    forall q | IsPath(g, q, b, a) ensures d <= PathLength(g, q) {
      ReversedWalk(g, q);
    }
  }
}
