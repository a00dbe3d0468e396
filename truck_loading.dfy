/**
 * The parcel registry of the truck loading system: loading a parcel against
 * the weight and volume allowances, the totals, the loading plan ordered by
 * distance from the hub, and the delivery route over the destinations.
 */
module TruckLoading {
  import opened Wrappers
  import opened Sequences
  import opened CityGraph
  import opened DistanceGraph
  import opened RouteComputer
  import opened HubRoutes

  type ParcelId = string

  /** A registered parcel; `distance` is the road distance from the hub, `volume` is length * width * height. */
  datatype Parcel = Parcel(destination: City, weight: real, length: real, width: real, height: real,
                           distance: nat, volume: real)

  datatype Metric = Mass | Bulk

  datatype LoadOutcome = Loaded | InvalidDestination | CapacityExceeded

  function Measure(p: Parcel, m: Metric): real
  {
    match m
    case Mass => p.weight
    case Bulk => p.volume
  }

  /** Every ID of `ids` is registered. */
  ghost predicate Known(ids: seq<ParcelId>, parcels: map<ParcelId, Parcel>)
  {
    forall id :: id in ids ==> id in parcels
  }

  /** The keys of the dict are `order`, each once. */
  ghost predicate Registry(order: seq<ParcelId>, parcels: map<ParcelId, Parcel>)
  {
    Distinct(order) && forall id :: id in parcels <==> id in order
  }

  /** Sum of the weights or volumes of the parcels `ids`, in that order. */
  function Total(ids: seq<ParcelId>, parcels: map<ParcelId, Parcel>, m: Metric): real
    requires Known(ids, parcels)
    decreases |ids|
  {
    if ids == [] then 0.0
    else Total(ids[..|ids| - 1], parcels, m) + Measure(parcels[ids[|ids| - 1]], m)
  }

  /**
   * `self.parcels[parcel_id] = ...` on a dict whose keys are `order` in
   * insertion order: a new key goes last, an existing key keeps its place.
   */
  function Register(order: seq<ParcelId>, parcels: map<ParcelId, Parcel>, id: ParcelId, p: Parcel)
    : (seq<ParcelId>, map<ParcelId, Parcel>)
  {
    (if id in parcels then order else order + [id], parcels[id := p])
  }

  ghost predicate NonNegative(ids: seq<ParcelId>, parcels: map<ParcelId, Parcel>, m: Metric)
    requires Known(ids, parcels)
  {
    forall id :: id in ids ==> Measure(parcels[id], m) >= 0.0
  }

  // Totals.

  /** Changing a parcel not among `ids` leaves their total alone. */
  lemma {:induction false} TotalFrame(ids: seq<ParcelId>, parcels: map<ParcelId, Parcel>, id: ParcelId, p: Parcel, m: Metric)
    requires Known(ids, parcels) && id !in ids
    ensures Total(ids, parcels[id := p], m) == Total(ids, parcels, m)
    decreases |ids|
  {
    if ids != [] {
      TotalFrame(ids[..|ids| - 1], parcels, id, p, m);
    }
  }

  /** Replacing the parcel of a registered ID changes the total by the difference of the two measures. */
  lemma {:induction false} TotalReplace(ids: seq<ParcelId>, parcels: map<ParcelId, Parcel>, id: ParcelId, p: Parcel, m: Metric)
    requires Known(ids, parcels) && Distinct(ids) && id in ids
    ensures Total(ids, parcels[id := p], m) == Total(ids, parcels, m) - Measure(parcels[id], m) + Measure(p, m)
    decreases |ids|
  {
    var n := |ids| - 1;
    var prefix := ids[..n];
    DistinctIndex(ids, n);
    if ids[n] == id {
      assert id !in prefix;
      TotalFrame(prefix, parcels, id, p, m);
    } else {
      assert id in prefix;
      DistinctPrefix(ids);
      TotalReplace(prefix, parcels, id, p, m);
    }
  }

  /** Registering keeps the keys and the order in step. */
  lemma RegisterRegistry(order: seq<ParcelId>, parcels: map<ParcelId, Parcel>, id: ParcelId, p: Parcel)
    requires Registry(order, parcels)
    ensures Registry(Register(order, parcels, id, p).0, Register(order, parcels, id, p).1)
  {
    if id !in parcels {
      assert multiset(order + [id]) == multiset(order) + multiset{id};
      assert multiset(order)[id] == 0;
    }
  }

  /** Registering a parcel changes the total by its measure, less the measure of the parcel it replaces. */
  lemma RegisterTotal(order: seq<ParcelId>, parcels: map<ParcelId, Parcel>, id: ParcelId, p: Parcel, m: Metric)
    requires Registry(order, parcels)
    ensures Known(Register(order, parcels, id, p).0, Register(order, parcels, id, p).1)
    ensures Total(Register(order, parcels, id, p).0, Register(order, parcels, id, p).1, m) ==
      Total(order, parcels, m) - (if id in parcels then Measure(parcels[id], m) else 0.0) + Measure(p, m)
  {
    if id in parcels {
      TotalReplace(order, parcels, id, p, m);
    } else {
      TotalFrame(order, parcels, id, p, m);
      assert (order + [id])[..|order|] == order;
    }
  }

  lemma {:induction false} TotalNonNegative(ids: seq<ParcelId>, parcels: map<ParcelId, Parcel>, m: Metric)
    requires Known(ids, parcels) && NonNegative(ids, parcels, m)
    ensures Total(ids, parcels, m) >= 0.0
    decreases |ids|
  {
    if ids != [] {
      TotalNonNegative(ids[..|ids| - 1], parcels, m);
    }
  }

  /**
   * A load the capacity test lets through keeps the truck within its
   * allowance, provided the parcel it replaces (if any) did not have a
   * negative weight or volume.
   */
  lemma LoadKeepsCapacity(order: seq<ParcelId>, parcels: map<ParcelId, Parcel>, id: ParcelId, p: Parcel,
                          m: Metric, allowance: real)
    requires Registry(order, parcels)
    requires Total(order, parcels, m) + Measure(p, m) <= allowance
    requires id in parcels ==> Measure(parcels[id], m) >= 0.0
    ensures Total(Register(order, parcels, id, p).0, Register(order, parcels, id, p).1, m) <= allowance
  {
    RegisterTotal(order, parcels, id, p, m);
  }

  /** With non-negative entries, a parcel that passes both capacity tests keeps both totals within their allowances. */
  lemma LoadWithin(order: seq<ParcelId>, parcels: map<ParcelId, Parcel>, id: ParcelId, p: Parcel,
                   weightAllowance: real, volumeAllowance: real)
    requires Registry(order, parcels) && NonNegative(order, parcels, Mass) && NonNegative(order, parcels, Bulk)
    requires Total(order, parcels, Mass) + p.weight <= weightAllowance
    requires Total(order, parcels, Bulk) + p.volume <= volumeAllowance
    ensures var (o, ps) := Register(order, parcels, id, p);
      Known(o, ps) && Total(o, ps, Mass) <= weightAllowance && Total(o, ps, Bulk) <= volumeAllowance
  {
    assert id in parcels ==> id in order;
    RegisterRegistry(order, parcels, id, p);
    LoadKeepsCapacity(order, parcels, id, p, Mass, weightAllowance);
    LoadKeepsCapacity(order, parcels, id, p, Bulk, volumeAllowance);
  }

  // The loading plan: `sorted(self.parcels.items(), key=distance, reverse=True)`.

  /** An entry of `self.parcels.items()`. */
  type Item = (ParcelId, Parcel)

  /** The dict's items in insertion order. */
  function Items(order: seq<ParcelId>, parcels: map<ParcelId, Parcel>): seq<Item>
    requires Known(order, parcels)
    decreases |order|
  {
    if order == [] then [] else [(order[0], parcels[order[0]])] + Items(order[1..], parcels)
  }

  /** The IDs of a sequence of items. */
  function Ids(s: seq<Item>): (r: seq<ParcelId>)
    ensures |r| == |s|
    decreases |s|
  {
    if s == [] then [] else [s[0].0] + Ids(s[1..])
  }

  /** The items of a registry hold each ID with its own parcel, and their IDs are the registry order. */
  lemma {:induction false} ItemsOf(order: seq<ParcelId>, parcels: map<ParcelId, Parcel>)
    requires Known(order, parcels)
    ensures Ids(Items(order, parcels)) == order
    ensures Consistent(Items(order, parcels), parcels)
    decreases |order|
  {
    if order != [] {
      var first, rest := (order[0], parcels[order[0]]), Items(order[1..], parcels);
      ItemsOf(order[1..], parcels);
      assert Items(order, parcels) == [first] + rest;
      assert ([first] + rest)[1..] == rest;
      assert order == [order[0]] + order[1..];
    }
  }

  lemma {:induction false} IdsAppend(a: seq<Item>, b: seq<Item>)
    ensures Ids(a + b) == Ids(a) + Ids(b)
    decreases |a|
  {
    if a == [] {
      assert a + b == b;
    } else {
      assert (a + b)[1..] == a[1..] + b;
      IdsAppend(a[1..], b);
    }
  }

  /** The `i`-th ID is the ID of the `i`-th item. */
  lemma {:induction false} IdsIndex(s: seq<Item>, i: nat)
    requires i < |s|
    ensures Ids(s)[i] == s[i].0
    decreases i
  {
    if i > 0 {
      IdsIndex(s[1..], i - 1);
    }
  }

  /** Every item pairs a registered ID with its parcel. */
  ghost predicate Consistent(s: seq<Item>, parcels: map<ParcelId, Parcel>)
  {
    forall x :: x in s ==> x.0 in parcels && parcels[x.0] == x.1
  }

  /** Distances never increase along `s`. */
  predicate Descending(s: seq<Item>)
  {
    forall i, j :: 0 <= i < j < |s| ==> s[i].1.distance >= s[j].1.distance
  }

  /** The items of `s` at distance `d`, in their order in `s`. */
  function AtDistance(s: seq<Item>, d: nat): seq<Item>
    decreases |s|
  {
    if s == [] then [] else (if s[0].1.distance == d then [s[0]] else []) + AtDistance(s[1..], d)
  }

  /** The IDs of `ids` whose parcel is at distance `d`, in their order in `ids`. */
  function IdsAt(ids: seq<ParcelId>, parcels: map<ParcelId, Parcel>, d: nat): seq<ParcelId>
    requires Known(ids, parcels)
    decreases |ids|
  {
    if ids == [] then [] else (if parcels[ids[0]].distance == d then [ids[0]] else []) + IdsAt(ids[1..], parcels, d)
  }

  /** Puts `x` after every item at least as far away, and before the first nearer one. */
  function InsertByDistance(x: Item, sorted: seq<Item>): (r: seq<Item>)
    ensures |r| == |sorted| + 1
    decreases |sorted|
  {
    if sorted == [] then [x]
    else if sorted[0].1.distance < x.1.distance then [x] + sorted
    else [sorted[0]] + InsertByDistance(x, sorted[1..])
  }

  /** A stable sort by descending distance, as Python's `sorted(..., reverse=True)` is. */
  function SortByDistance(s: seq<Item>): (r: seq<Item>)
    ensures |r| == |s|
    decreases |s|
  {
    if s == [] then [] else InsertByDistance(s[|s| - 1], SortByDistance(s[..|s| - 1]))
  }

  lemma {:induction false} InsertPermutes(x: Item, sorted: seq<Item>)
    ensures multiset(InsertByDistance(x, sorted)) == multiset(sorted) + multiset{x}
    decreases |sorted|
  {
    if sorted != [] && sorted[0].1.distance >= x.1.distance {
      InsertPermutes(x, sorted[1..]);
      assert sorted == [sorted[0]] + sorted[1..];
    }
  }

  /** The sort is a permutation of its input. */
  lemma {:induction false} SortPermutes(s: seq<Item>)
    ensures multiset(SortByDistance(s)) == multiset(s)
    decreases |s|
  {
    if s != [] {
      var n := |s| - 1;
      SortPermutes(s[..n]);
      InsertPermutes(s[n], SortByDistance(s[..n]));
      assert s == s[..n] + [s[n]];
    }
  }

  /** The head of a descending sequence is at least as far as any of its items. */
  lemma HeadBound(s: seq<Item>)
    requires Descending(s) && s != []
    ensures forall y :: y in s ==> y.1.distance <= s[0].1.distance
  {
    forall y | y in s ensures y.1.distance <= s[0].1.distance {
      var k :| 0 <= k < |s| && s[k] == y;
    }
  }

  /** A head at least as far as everything after it extends a descending sequence. */
  lemma ConsDescending(h: Item, t: seq<Item>)
    requires Descending(t) && forall y :: y in t ==> y.1.distance <= h.1.distance
    ensures Descending([h] + t)
  {
    var r := [h] + t;
    forall i, j | 0 <= i < j < |r| ensures r[i].1.distance >= r[j].1.distance {
      assert r[j] == t[j - 1];
      if i > 0 {
        assert r[i] == t[i - 1];
      } else {
        assert t[j - 1] in t;
      }
    }
  }

  lemma {:induction false} InsertDescending(x: Item, sorted: seq<Item>)
    requires Descending(sorted)
    ensures Descending(InsertByDistance(x, sorted))
    decreases |sorted|
  {
    if sorted == [] {
    } else if sorted[0].1.distance < x.1.distance {
      HeadBound(sorted);
      ConsDescending(x, sorted);
    } else {
      var tail := sorted[1..];
      assert Descending(tail) by {
        forall i, j | 0 <= i < j < |tail| ensures tail[i].1.distance >= tail[j].1.distance {
          assert tail[i] == sorted[i + 1] && tail[j] == sorted[j + 1];
        }
      }
      var t := InsertByDistance(x, tail);
      InsertDescending(x, tail);
      InsertPermutes(x, tail);
      HeadBound(sorted);
      forall y | y in t ensures y.1.distance <= sorted[0].1.distance {
        assert y in multiset(t);
        assert y == x || y in multiset(tail);
      }
      ConsDescending(sorted[0], t);
    }
  }

  /** The plan lists far destinations first. */
  lemma {:induction false} SortDescending(s: seq<Item>)
    ensures Descending(SortByDistance(s))
    decreases |s|
  {
    if s != [] {
      var n := |s| - 1;
      SortDescending(s[..n]);
      InsertDescending(s[n], SortByDistance(s[..n]));
    }
  }

  lemma {:induction false} AtDistanceAppend(a: seq<Item>, b: seq<Item>, d: nat)
    ensures AtDistance(a + b, d) == AtDistance(a, d) + AtDistance(b, d)
    decreases |a|
  {
    if a == [] {
      assert a + b == b;
    } else {
      var head := if a[0].1.distance == d then [a[0]] else [];
      var x, y := AtDistance(a[1..], d), AtDistance(b, d);
      assert (a + b)[0] == a[0];
      assert (a + b)[1..] == a[1..] + b;
      AtDistanceAppend(a[1..], b, d);
      assert AtDistance(a + b, d) == head + (x + y);
      assert head + (x + y) == (head + x) + y;
    }
  }

  /** The tail of a descending sequence is descending. */
  lemma DescendingTail(s: seq<Item>)
    requires Descending(s) && s != []
    ensures Descending(s[1..])
  {
    forall i, j | 0 <= i < j < |s| - 1 ensures s[1..][i].1.distance >= s[1..][j].1.distance {
      assert s[1..][i] == s[i + 1] && s[1..][j] == s[j + 1];
    }
  }

  /** In a descending sequence that starts nearer than `d`, nothing is at distance `d`. */
  lemma {:induction false} AtDistanceNone(sorted: seq<Item>, d: nat)
    requires Descending(sorted)
    requires sorted != [] ==> sorted[0].1.distance < d
    ensures AtDistance(sorted, d) == []
    decreases |sorted|
  {
    if sorted != [] {
      if |sorted| > 1 {
        assert sorted[1..][0] == sorted[1];
      }
      AtDistanceNone(sorted[1..], d);
    }
  }

  /** Inserting into a descending sequence puts `x` after the items at its own distance. */
  lemma {:induction false} InsertStable(x: Item, sorted: seq<Item>, d: nat)
    requires Descending(sorted)
    ensures AtDistance(InsertByDistance(x, sorted), d) ==
      AtDistance(sorted, d) + (if x.1.distance == d then [x] else [])
    decreases |sorted|
  {
    if sorted == [] {
      assert AtDistance([x], d) == (if x.1.distance == d then [x] else []) + AtDistance([], d);
    } else if sorted[0].1.distance < x.1.distance {
      if x.1.distance == d {
        AtDistanceNone(sorted, d);
      }
      assert ([x] + sorted)[1..] == sorted;
    } else {
      var t := InsertByDistance(x, sorted[1..]);
      var head := if sorted[0].1.distance == d then [sorted[0]] else [];
      var tail := if x.1.distance == d then [x] else [];
      DescendingTail(sorted);
      InsertStable(x, sorted[1..], d);
      assert ([sorted[0]] + t)[1..] == t;
      assert AtDistance(InsertByDistance(x, sorted), d) == head + (AtDistance(sorted[1..], d) + tail);
      assert head + (AtDistance(sorted[1..], d) + tail) == (head + AtDistance(sorted[1..], d)) + tail;
    }
  }

  /** Items at the same distance keep their registry order: the sort is stable. */
  lemma {:induction false} SortStable(s: seq<Item>, d: nat)
    ensures AtDistance(SortByDistance(s), d) == AtDistance(s, d)
    decreases |s|
  {
    if s != [] {
      var n := |s| - 1;
      SortStable(s[..n], d);
      SortDescending(s[..n]);
      InsertStable(s[n], SortByDistance(s[..n]), d);
      assert s == s[..n] + [s[n]];
      AtDistanceAppend(s[..n], [s[n]], d);
      assert AtDistance([s[n]], d) == (if s[n].1.distance == d then [s[n]] else []) + AtDistance([], d);
    }
  }

  /** Each ID occurs in `Ids(r)` as often as its items occur in `r`, so a permutation of items permutes the IDs. */
  lemma {:induction false} InsertIds(x: Item, sorted: seq<Item>)
    ensures multiset(Ids(InsertByDistance(x, sorted))) == multiset(Ids(sorted)) + multiset{x.0}
    decreases |sorted|
  {
    var r := InsertByDistance(x, sorted);
    if sorted == [] {
    } else if sorted[0].1.distance < x.1.distance {
      assert r[1..] == sorted;
      assert Ids(r) == [x.0] + Ids(sorted);
    } else {
      var t := InsertByDistance(x, sorted[1..]);
      InsertIds(x, sorted[1..]);
      assert r[1..] == t;
      assert Ids(r) == [sorted[0].0] + Ids(t);
      assert Ids(sorted) == [sorted[0].0] + Ids(sorted[1..]);
    }
  }

  /** The sort permutes the IDs. */
  lemma {:induction false} SortIds(s: seq<Item>)
    ensures multiset(Ids(SortByDistance(s))) == multiset(Ids(s))
    decreases |s|
  {
    if s != [] {
      var n := |s| - 1;
      SortIds(s[..n]);
      InsertIds(s[n], SortByDistance(s[..n]));
      assert s == s[..n] + [s[n]];
      IdsAppend(s[..n], [s[n]]);
      assert Ids([s[n]]) == [s[n].0] + Ids([]);
    }
  }

  /** Sequences holding the same items are consistent together. */
  lemma ConsistentPermutation(a: seq<Item>, b: seq<Item>, parcels: map<ParcelId, Parcel>)
    requires Consistent(a, parcels) && multiset(a) == multiset(b)
    ensures Consistent(b, parcels)
  {
    forall x | x in b ensures x.0 in parcels && parcels[x.0] == x.1 {
      assert x in multiset(b);
    }
  }

  /** Over consistent items, filtering the items by distance and taking IDs commutes with filtering the IDs. */
  lemma {:induction false} IdsAtDistance(s: seq<Item>, parcels: map<ParcelId, Parcel>, d: nat)
    requires Consistent(s, parcels)
    ensures Known(Ids(s), parcels)
    ensures IdsAt(Ids(s), parcels, d) == Ids(AtDistance(s, d))
    decreases |s|
  {
    if s != [] {
      assert s[0] in s;
      IdsAtDistance(s[1..], parcels, d);
      var head := if s[0].1.distance == d then [s[0]] else [];
      IdsAppend(head, AtDistance(s[1..], d));
    }
  }

  // Routes over the fixed table.

  /** The route `generate_route` returns: the planned tour, or ([], 0) once `shortest_path` has failed. */
  function RouteOrEmpty(plan: Result<Tour, RouteError>): Tour
  {
    if plan.Ok? then plan.value else ([], 0)
  }

  /** Each parcel was admitted by `load_parcel` against the table `g`: a known destination, its distance from the hub, its volume. */
  ghost predicate Admitted(g: Graph, parcels: map<ParcelId, Parcel>)
    requires Hub in g
  {
    forall id :: id in parcels ==>
      parcels[id].destination in g[Hub] &&
      parcels[id].distance == g[Hub][parcels[id].destination] &&
      parcels[id].volume == parcels[id].length * parcels[id].width * parcels[id].height
  }

  /** Storing an admitted parcel keeps every parcel admitted. */
  lemma RegisterAdmitted(g: Graph, parcels: map<ParcelId, Parcel>, id: ParcelId, p: Parcel)
    requires Hub in g && Admitted(g, parcels)
    requires p.destination in g[Hub] && p.distance == g[Hub][p.destination] && p.volume == p.length * p.width * p.height
    ensures Admitted(g, parcels[id := p])
  {
  }

  class TruckLoadingSystem {
    /** The keys of `self.parcels`, in insertion order. */
    var order: seq<ParcelId>
    var parcels: map<ParcelId, Parcel>
    const truckWeight: real := 100.0
    const truckVolume: real := 69696969.0
    /** The road-distance table, fixed at construction. */
    const cityMap: Graph

    ghost predicate Valid()
      reads this
    {
      HubAndSpokes(cityMap) && Closed(cityMap) && Registry(order, parcels) && Admitted(cityMap, parcels)
    }

    constructor()
      ensures Valid() && cityMap == CityMap() && order == [] && parcels == map[]
    {
      order := [];
      parcels := map[];
      cityMap := CityMap();
    }

    /** `get_weight`: the sum of the weights of the registered parcels. */
    function GetWeight(): real
      reads this
      requires Valid()
    {
      Total(order, parcels, Mass)
    }

    /** `get_volume`: the sum of the volumes of the registered parcels. */
    function GetVolume(): real
      reads this
      requires Valid()
    {
      Total(order, parcels, Bulk)
    }

    /** All registered weights and volumes are non-negative. */
    ghost predicate NonNegativeLoad()
      reads this
      requires Valid()
    {
      NonNegative(order, parcels, Mass) && NonNegative(order, parcels, Bulk)
    }

    /**
     * `load_parcel` with the typed-in fields as parameters: rejects an
     * unknown destination, then a parcel that would take the totals over
     * an allowance, and otherwise stores the parcel under `id` with its
     * distance from the hub and its volume.
     */
    method LoadParcel(id: ParcelId, destination: City, weight: real, length: real, width: real, height: real)
      returns (outcome: LoadOutcome)
      requires Valid()
      modifies this
      ensures Valid()
      ensures outcome == InvalidDestination <==> destination !in cityMap[Hub]
      ensures outcome == CapacityExceeded <==>
        (destination in cityMap[Hub] &&
         (old(GetVolume()) + length * width * height > truckVolume || old(GetWeight()) + weight > truckWeight))
      ensures outcome != Loaded ==> order == old(order) && parcels == old(parcels)
      ensures outcome == Loaded ==>
        (order, parcels) == Register(old(order), old(parcels), id,
          Parcel(destination, weight, length, width, height, cityMap[Hub][destination], length * width * height))
      ensures outcome == Loaded && old(NonNegativeLoad()) ==> GetWeight() <= truckWeight && GetVolume() <= truckVolume
    {
      if destination !in cityMap[Hub] {
        return InvalidDestination;
      }
      var volume := length * width * height;
      if GetVolume() + volume > truckVolume || GetWeight() + weight > truckWeight {
        return CapacityExceeded;
      }
      var parcel := Parcel(destination, weight, length, width, height, cityMap[Hub][destination], volume);
      RegisterRegistry(order, parcels, id, parcel);
      RegisterAdmitted(cityMap, parcels, id, parcel);
      if NonNegativeLoad() {
        LoadWithin(order, parcels, id, parcel, truckWeight, truckVolume);
      }
      var registered := Register(order, parcels, id, parcel);
      order, parcels := registered.0, registered.1;
      outcome := Loaded;
    }

    /**
     * The parcel IDs of `loading_plan`, farthest destination first, parcels
     * at the same distance in the order they were registered.
     */
    method LoadingPlan() returns (plan: seq<ParcelId>)
      requires Valid()
      ensures plan == Ids(SortByDistance(Items(order, parcels)))
      ensures multiset(plan) == multiset(order)
      ensures Known(plan, parcels)
      ensures forall i, j :: 0 <= i < j < |plan| ==> parcels[plan[i]].distance >= parcels[plan[j]].distance
      ensures forall d: nat :: IdsAt(plan, parcels, d) == IdsAt(order, parcels, d)
    {
      var items := Items(order, parcels);
      var sortedParcels := SortByDistance(items);
      plan := [];
      for i := 0 to |sortedParcels|
        invariant plan == Ids(sortedParcels[..i])
      {
        assert sortedParcels[..i + 1] == sortedParcels[..i] + [sortedParcels[i]];
        IdsAppend(sortedParcels[..i], [sortedParcels[i]]);
        assert Ids([sortedParcels[i]]) == [sortedParcels[i].0] by {
          assert [sortedParcels[i]][1..] == [];
        }
        plan := plan + [sortedParcels[i].0];
      }
      assert sortedParcels[..|sortedParcels|] == sortedParcels;
      PlanSorted(order, parcels, plan);
    }

    /** The set of destination cities of the registered parcels. */
    ghost function DeliveryCities(): set<City>
      reads this
    {
      set id | id in parcels :: parcels[id].destination
    }

    /**
     * `generate_route`: None when no parcel is registered; otherwise the
     * greedy tour from the hub through the destination cities, visited in
     * `cities`, the iteration order of the set, or ([], 0) when no route is found.
     */
    method GenerateRoute(cities: seq<City>) returns (r: Option<Tour>)
      requires Valid()
      requires Distinct(cities) && forall c :: c in cities <==> c in DeliveryCities()
      ensures parcels == map[] ==> r == None
      ensures parcels != map[] ==> r == Some(RouteOrEmpty(Plan(ShortestLeg(cityMap), Hub, cities)))
    {
      if parcels == map[] {
        return None;
      }
      ShortestLegComputes(cityMap);
      var route := ShortestPath(cityMap, ShortestLeg(cityMap), Hub, cities);
      if route.Err? {
        return Some(([], 0));
      }
      return Some(route.value);
    }
  }

  /** The sorted items of a registry each pair an ID with its own parcel. */
  lemma SortedConsistent(order: seq<ParcelId>, parcels: map<ParcelId, Parcel>)
    requires Known(order, parcels)
    ensures Consistent(SortByDistance(Items(order, parcels)), parcels)
  {
    ItemsOf(order, parcels);
    SortPermutes(Items(order, parcels));
    ConsistentPermutation(Items(order, parcels), SortByDistance(Items(order, parcels)), parcels);
  }

  /** The loading plan lists every registered ID exactly as often as the registry does. */
  lemma PlanPermutes(order: seq<ParcelId>, parcels: map<ParcelId, Parcel>)
    requires Known(order, parcels)
    ensures multiset(Ids(SortByDistance(Items(order, parcels)))) == multiset(order)
  {
    ItemsOf(order, parcels);
    SortIds(Items(order, parcels));
  }

  /** The loading plan never moves to a farther destination. */
  lemma PlanDescending(order: seq<ParcelId>, parcels: map<ParcelId, Parcel>)
    requires Known(order, parcels)
    ensures var plan := Ids(SortByDistance(Items(order, parcels)));
      Known(plan, parcels) &&
      forall i, j :: 0 <= i < j < |plan| ==> parcels[plan[i]].distance >= parcels[plan[j]].distance
  {
    var sorted := SortByDistance(Items(order, parcels));
    var plan := Ids(sorted);
    SortedConsistent(order, parcels);
    IdsAtDistance(sorted, parcels, 0);
    SortDescending(Items(order, parcels));
    forall i, j | 0 <= i < j < |plan| ensures parcels[plan[i]].distance >= parcels[plan[j]].distance {
      IdsIndex(sorted, i);
      IdsIndex(sorted, j);
      assert sorted[i] in sorted && sorted[j] in sorted;
    }
  }

  /** Parcels at equal distance are loaded in the order they were registered. */
  lemma PlanStable(order: seq<ParcelId>, parcels: map<ParcelId, Parcel>, d: nat)
    requires Known(order, parcels)
    ensures Known(Ids(SortByDistance(Items(order, parcels))), parcels)
    ensures IdsAt(Ids(SortByDistance(Items(order, parcels))), parcels, d) == IdsAt(order, parcels, d)
  {
    var items := Items(order, parcels);
    ItemsOf(order, parcels);
    SortedConsistent(order, parcels);
    SortStable(items, d);
    IdsAtDistance(SortByDistance(items), parcels, d);
    IdsAtDistance(items, parcels, d);
  }

  /** The loading plan is a stable sort of the registry by descending distance. */
  lemma PlanSorted(order: seq<ParcelId>, parcels: map<ParcelId, Parcel>, plan: seq<ParcelId>)
    requires Known(order, parcels) && plan == Ids(SortByDistance(Items(order, parcels)))
    ensures multiset(plan) == multiset(order) && Known(plan, parcels)
    ensures forall i, j :: 0 <= i < j < |plan| ==> parcels[plan[i]].distance >= parcels[plan[j]].distance
    ensures forall d: nat :: IdsAt(plan, parcels, d) == IdsAt(order, parcels, d)
  {
    PlanPermutes(order, parcels);
    PlanDescending(order, parcels);
    forall d: nat ensures IdsAt(plan, parcels, d) == IdsAt(order, parcels, d) {
      PlanStable(order, parcels, d);
    }
  }

  /** For a valid registry, `generate_route` returns the planned tour itself, never the ([], 0) fallback. */
  lemma GenerateRouteFound(s: TruckLoadingSystem, cities: seq<City>)
    requires s.Valid()
    requires forall c :: c in cities <==> c in s.DeliveryCities()
    ensures Plan(ShortestLeg(s.cityMap), Hub, cities).Ok?
  {
    forall c | c in cities ensures c in s.cityMap[Hub] {
      var id :| id in s.parcels && s.parcels[id].destination == c;
    }
    RouteAlwaysFound(s.cityMap, cities);
  }
}
