/**
 * The transport catalogue: stops, buses and road distances, with name lookup.
 * A Stop* or Bus* of the program is an index into the catalogue's stop or bus
 * sequence (the deques never move their elements); a pointer that may be null
 * is an Option<nat>.
 */
module Catalogue {
  import opened Common

  /** Modulus of size_t on a 64-bit target. */
  const SizeTModulus: int := 0x1_0000_0000_0000_0000

  datatype Coordinates = Coordinates(lat: real, lng: real)

  /** A stop; `buses` holds the index of every bus added through it, once per visit. */
  datatype Stop = Stop(name: string, coords: Coordinates, buses: seq<nat>)

  /** A bus line: its stops in riding order and the road length AddBus records. */
  datatype Bus = Bus(name: string, stops: seq<nat>, isRoundtrip: bool, routeLength: nat)

  /** A possibly null `const Stop*`. */
  type StopRef = Option<nat>

  datatype Distance = Distance(from: StopRef, to: StopRef, distance: int)

  /** Answer to a "Bus" statistics query (the curvature is not modelled). */
  datatype BusQuery = BusQuery(name: string, queryExists: bool, routeStops: int, uniqueStops: int, routeLength: int)

  /** Answer to a "Stop" statistics query. */
  datatype StopQuery = StopQuery(name: string, queryExists: bool, buses: seq<string>)

  /** The road-distance dictionary, keyed by an ordered pair of stop pointers. */
  type DistanceTable = map<(StopRef, StopRef), int>

  /**
   * An int converted to size_t: the value modulo 2^64 (the stored int read
   * back by GetDistanceBetweenStops, or position arithmetic that wraps).
   */
  function SizeT(d: int): nat {
    d % SizeTModulus
  }

  /** GetDistanceBetweenStops: the forward entry, else the reverse one, else 0, read as a size_t. */
  function DistanceBetween(table: DistanceTable, from: nat, to: nat): (r: nat)
    ensures r < SizeTModulus
  {
    if |table| == 0 then 0
    else if (Some(from), Some(to)) in table then SizeT(table[(Some(from), Some(to))])
    else if (Some(to), Some(from)) in table then SizeT(table[(Some(to), Some(from))])
    else 0
  }

  /**
   * The lookup prefers the entry recorded for (from, to), falls back on the
   * one recorded for (to, from), and is 0 for a pair recorded in neither
   * direction (including on an empty table).
   */
  lemma DistanceLookup(table: DistanceTable, from: nat, to: nat)
    ensures (Some(from), Some(to)) in table ==> DistanceBetween(table, from, to) == SizeT(table[(Some(from), Some(to))])
    ensures (Some(from), Some(to)) !in table && (Some(to), Some(from)) in table ==>
              DistanceBetween(table, from, to) == SizeT(table[(Some(to), Some(from))])
    ensures (Some(from), Some(to)) !in table && (Some(to), Some(from)) !in table ==>
              DistanceBetween(table, from, to) == 0
  {
  }

  /** With at most one direction recorded (or both equal), the lookup is symmetric. */
  lemma DistanceFallbackSymmetric(table: DistanceTable, a: nat, b: nat)
    requires (Some(a), Some(b)) in table && (Some(b), Some(a)) in table ==>
             table[(Some(a), Some(b))] == table[(Some(b), Some(a))]
    ensures DistanceBetween(table, a, b) == DistanceBetween(table, b, a)
  {
  }

  /** The first value recorded for an ordered pair is the one the lookup returns. */
  lemma DistanceFirstRecorded(table: DistanceTable, d: Distance, from: nat, to: nat)
    requires d.from == Some(from) && d.to == Some(to)
    ensures var t := if (d.from, d.to) in table then table else table[(d.from, d.to) := d.distance];
            DistanceBetween(t, from, to) ==
              if (d.from, d.to) in table then SizeT(table[(d.from, d.to)]) else SizeT(d.distance)
  {
  }

  /** The table after AddDistance of every entry of `ds`, in order. */
  function Recorded(table: DistanceTable, ds: seq<Distance>): (r: DistanceTable)
    ensures forall key :: key in table ==> key in r && r[key] == table[key]
    ensures forall key :: key in r ==> key in table || exists k :: 0 <= k < |ds| && (ds[k].from, ds[k].to) == key
  {
    if ds == [] then table
    else
      var t := Recorded(table, ds[..|ds| - 1]);
      var d := ds[|ds| - 1];
      if (d.from, d.to) in t then t else t[(d.from, d.to) := d.distance]
  }

  /** Recording two lists one after the other is recording their concatenation. */
  lemma {:induction false} RecordedConcat(table: DistanceTable, a: seq<Distance>, b: seq<Distance>)
    ensures Recorded(table, a + b) == Recorded(Recorded(table, a), b)
    decreases |b|
  {
    if b == [] {
      assert a + b == a;
    } else {
      assert (a + b)[..|a + b| - 1] == a + b[..|b| - 1];
      RecordedConcat(table, a, b[..|b| - 1]);
    }
  }

  /**
   * A pair the table did not hold gets the value of the first entry recorded
   * for it; later entries for the same pair are ignored.
   */
  lemma {:induction false} RecordedFirstWins(table: DistanceTable, ds: seq<Distance>, k: nat)
    requires k < |ds| && (ds[k].from, ds[k].to) !in table
    requires forall j :: 0 <= j < k ==> (ds[j].from, ds[j].to) != (ds[k].from, ds[k].to)
    ensures (ds[k].from, ds[k].to) in Recorded(table, ds)
    ensures Recorded(table, ds)[(ds[k].from, ds[k].to)] == ds[k].distance
  {
    var key := (ds[k].from, ds[k].to);
    var prefix := ds[..|ds| - 1];
    if k < |ds| - 1 {
      assert prefix[k] == ds[k];
      RecordedFirstWins(table, prefix, k);
    } else {
      assert forall j :: 0 <= j < |prefix| ==> prefix[j] == ds[j];
    }
  }

  /**
   * Road distance along route[i..j]: the sum of the lookups over the
   * consecutive pairs (route[k], route[k+1]) for i <= k < j.
   */
  function SegmentDistance(table: DistanceTable, route: seq<nat>, i: nat, j: nat): nat
    requires i <= j < |route|
    decreases j - i
  {
    if i == j then 0 else SegmentDistance(table, route, i, j - 1) + DistanceBetween(table, route[j - 1], route[j])
  }

  lemma {:induction false} SegmentDistanceAdditive(table: DistanceTable, route: seq<nat>, i: nat, j: nat, k: nat)
    requires i <= j <= k < |route|
    ensures SegmentDistance(table, route, i, k) == SegmentDistance(table, route, i, j) + SegmentDistance(table, route, j, k)
    decreases k - j
  {
    if j < k {
      SegmentDistanceAdditive(table, route, i, j, k - 1);
    }
  }

  /** Riding further along a route never shortens the distance covered. */
  lemma SegmentDistanceMonotone(table: DistanceTable, route: seq<nat>, i: nat, j: nat, k: nat)
    requires i <= j <= k < |route|
    ensures SegmentDistance(table, route, i, j) <= SegmentDistance(table, route, i, k)
  {
    SegmentDistanceAdditive(table, route, i, j, k);
  }

  /**
   * GetRouteDistance's result: the distance from the first stop to the last,
   * in a size_t; 0 for a route without stops (see RouteLoopBound).
   */
  function RouteDistance(table: DistanceTable, route: seq<nat>): nat {
    if |route| == 0 then 0 else SizeT(SegmentDistance(table, route, 0, |route| - 1))
  }

  /** The bound of GetRouteDistance's loop as written: `STOPS_SIZE - 1u`, a size_t. */
  function RouteLoopBound(stopCount: nat): nat {
    SizeT(stopCount - 1)
  }

  /**
   * GetRouteDistance as written: the loop runs i over [0, RouteLoopBound) and
   * reads stops[i] and stops[i + 1]; None when one of those reads is out of range.
   */
  function RouteDistanceAsWritten(table: DistanceTable, route: seq<nat>): Option<nat> {
    var bound := RouteLoopBound(|route|);
    if bound > 0 && bound + 1 > |route| then None
    else if |route| == 0 then Some(0)
    else Some(SizeT(SegmentDistance(table, route, 0, bound)))
  }

  /** On a route without stops the bound wraps to 2^64 - 1 and the first read is out of range. */
  lemma EmptyRouteOverruns(table: DistanceTable)
    ensures RouteLoopBound(0) == SizeTModulus - 1
    ensures RouteDistanceAsWritten(table, []) == None
  {
  }

  /** On any route with a stop, the loop as written computes RouteDistance. */
  lemma RouteDistanceAsWrittenAgrees(table: DistanceTable, route: seq<nat>)
    requires 1 <= |route| <= SizeTModulus
    ensures RouteDistanceAsWritten(table, route) == Some(RouteDistance(table, route))
  {
  }

  /** A value size_t can hold is its own size_t. */
  lemma SizeTExact(x: int)
    requires 0 <= x < SizeTModulus
    ensures SizeT(x) == x
  {
  }

  /** Adding to a size_t accumulator wraps the same way as wrapping the exact sum once. */
  lemma SizeTAdd(a: nat, b: nat)
    ensures SizeT(SizeT(a) + b) == SizeT(a + b)
  {
  }

  /** Conversion of a count or a size_t to a 32-bit int field (two's complement, modulo 2^32). */
  function ToInt32(x: nat): (r: int)
    ensures -0x8000_0000 <= r < 0x8000_0000
    ensures (r - x) % 0x1_0000_0000 == 0
    ensures x < 0x8000_0000 ==> r == x
  {
    var low := x % 0x1_0000_0000;
    if low < 0x8000_0000 then low else low - 0x1_0000_0000
  }

  /** stopIndex keeps, for every stop name, the index of the first stop added under it. */
  ghost predicate StopIndexed(stops: seq<Stop>, index: map<string, nat>) {
    && (forall name :: name in index ==>
          index[name] < |stops| && stops[index[name]].name == name &&
          forall k :: 0 <= k < index[name] ==> stops[k].name != name)
    && (forall k :: 0 <= k < |stops| ==> stops[k].name in index)
  }

  ghost predicate BusIndexed(buses: seq<Bus>, index: map<string, nat>) {
    && (forall name :: name in index ==>
          index[name] < |buses| && buses[index[name]].name == name &&
          forall k :: 0 <= k < index[name] ==> buses[k].name != name)
    && (forall k :: 0 <= k < |buses| ==> buses[k].name in index)
  }

  /** Every entry of `order` is a valid bus index. */
  predicate BusIndices(buses: seq<Bus>, order: seq<nat>) {
    forall k :: 0 <= k < |order| ==> order[k] < |buses|
  }

  /** Names of the given buses, in the given order. */
  function BusNames(buses: seq<Bus>, order: seq<nat>): (r: seq<string>)
    requires BusIndices(buses, order)
    ensures |r| == |order| && forall k :: 0 <= k < |order| ==> r[k] == buses[order[k]].name
  {
    if order == [] then [] else BusNames(buses, order[..|order| - 1]) + [buses[order[|order| - 1]].name]
  }

  lemma BusNamesConcat(buses: seq<Bus>, p: seq<nat>, q: seq<nat>)
    requires BusIndices(buses, p) && BusIndices(buses, q)
    ensures BusIndices(buses, p + q)
    ensures BusNames(buses, p + q) == BusNames(buses, p) + BusNames(buses, q)
  {
    assert forall k :: 0 <= k < |q| ==> (p + q)[|p| + k] == q[k];
  }

  lemma BusIndicesPermutation(buses: seq<Bus>, a: seq<nat>, b: seq<nat>)
    requires BusIndices(buses, a) && multiset(a) == multiset(b)
    ensures BusIndices(buses, b)
  {
    forall k | 0 <= k < |b| ensures b[k] < |buses| {
      assert b[k] in multiset(a);
      var i :| 0 <= i < |a| && a[i] == b[k];
    }
  }

  /** Removing the element at position k leaves the multiset without one copy of it. */
  lemma RemoveAt<T>(b: seq<T>, k: nat)
    requires k < |b|
    ensures multiset(b[..k] + b[k + 1..]) == multiset(b) - multiset{b[k]}
  {
    assert b == b[..k] + [b[k]] + b[k + 1..];
  }

  /** Taking the last element of a out of a, and a copy of it out of a permutation b, leaves permutations. */
  lemma RemoveLastMatching<T>(a: seq<T>, b: seq<T>, k: nat)
    requires a != [] && multiset(a) == multiset(b) && k < |b| && b[k] == a[|a| - 1]
    ensures multiset(a[..|a| - 1]) == multiset(b[..k] + b[k + 1..])
  {
    RemoveAt(b, k);
    assert a == a[..|a| - 1] + [a[|a| - 1]];
  }

  /** Taking bus `b[k]` out of `b` takes one copy of its name out of the names. */
  lemma BusNamesRemoveAt(buses: seq<Bus>, b: seq<nat>, k: nat)
    requires BusIndices(buses, b) && k < |b|
    ensures BusIndices(buses, b[..k] + b[k + 1..])
    ensures multiset(BusNames(buses, b)) ==
            multiset(BusNames(buses, b[..k] + b[k + 1..])) + multiset{buses[b[k]].name}
  {
    var names := BusNames(buses, b);
    BusNamesTake(buses, b, k);
    BusNamesDrop(buses, b, k + 1);
    BusNamesConcat(buses, b[..k], b[k + 1..]);
    RemoveAt(names, k);
  }

  lemma BusNamesTake(buses: seq<Bus>, b: seq<nat>, k: nat)
    requires BusIndices(buses, b) && k <= |b|
    ensures BusIndices(buses, b[..k]) && BusNames(buses, b[..k]) == BusNames(buses, b)[..k]
  {
    assert BusIndices(buses, b[..k]);
  }

  lemma BusNamesDrop(buses: seq<Bus>, b: seq<nat>, k: nat)
    requires BusIndices(buses, b) && k <= |b|
    ensures BusIndices(buses, b[k..]) && BusNames(buses, b[k..]) == BusNames(buses, b)[k..]
  {
    assert BusIndices(buses, b[k..]);
    var names := BusNames(buses, b);
    assert forall i :: 0 <= i < |b| - k ==> BusNames(buses, b[k..])[i] == names[k + i];
  }

  /** Mapping bus indices to names respects permutations. */
  lemma {:induction false} BusNamesPermutation(buses: seq<Bus>, a: seq<nat>, b: seq<nat>)
    requires BusIndices(buses, a)
    requires multiset(a) == multiset(b)
    ensures BusIndices(buses, b)
    ensures multiset(BusNames(buses, a)) == multiset(BusNames(buses, b))
    decreases |a|
  {
    BusIndicesPermutation(buses, a, b);
    if a != [] {
      var x := a[|a| - 1];
      var a' := a[..|a| - 1];
      assert x in multiset(b) by {
        assert x in multiset(a);
      }
      var k :| 0 <= k < |b| && b[k] == x;
      var rest := b[..k] + b[k + 1..];
      RemoveLastMatching(a, b, k);
      BusNamesPermutation(buses, a', rest);
      BusNamesRemoveAt(buses, b, k);
      assert BusNames(buses, a) == BusNames(buses, a') + [buses[x].name];
    }
  }

  /** Every stop of a route is one of the n stops. */
  ghost predicate RoutesWithin(buses: seq<Bus>, n: nat) {
    forall b :: 0 <= b < |buses| ==> forall s :: s in buses[b].stops ==> s < n
  }

  /** Every bus listed at a stop is one of the n buses. */
  ghost predicate VisitsWithin(stops: seq<Stop>, n: nat) {
    forall k :: 0 <= k < |stops| ==> forall b :: b in stops[k].buses ==> b < n
  }

  /** A name index after inserting (name, i) with emplace: an existing entry is kept. */
  function Indexed(index: map<string, nat>, name: string, i: nat): map<string, nat> {
    if name in index then index else index[name := i]
  }

  /** The stops after bus b has been recorded once for every visit along `route`. */
  function WithVisits(stops: seq<Stop>, b: nat, route: seq<nat>): (r: seq<Stop>)
    ensures |r| == |stops|
    ensures forall k :: 0 <= k < |stops| ==>
              r[k] == stops[k].(buses := stops[k].buses + Repeat(b, Count<nat>(route, k)))
  {
    seq(|stops|, k requires 0 <= k < |stops| => stops[k].(buses := stops[k].buses + Repeat(b, Count<nat>(route, k))))
  }

  /** The names of the stops, in catalogue order. */
  function StopNames(stops: seq<Stop>): (r: seq<string>)
    ensures |r| == |stops| && forall k :: 0 <= k < |stops| ==> r[k] == stops[k].name
  {
    seq(|stops|, k requires 0 <= k < |stops| => stops[k].name)
  }

  /** Names and coordinates of the stops, in catalogue order. */
  function Places(stops: seq<Stop>): (r: seq<(string, Coordinates)>)
    ensures |r| == |stops| && forall k :: 0 <= k < |stops| ==> r[k] == (stops[k].name, stops[k].coords)
  {
    seq(|stops|, k requires 0 <= k < |stops| => (stops[k].name, stops[k].coords))
  }

  /** Recording a bus's visits leaves every stop's name and coordinates as they were. */
  lemma WithVisitsPlaces(stops: seq<Stop>, b: nat, route: seq<nat>)
    ensures Places(WithVisits(stops, b, route)) == Places(stops)
    ensures StopNames(WithVisits(stops, b, route)) == StopNames(stops)
  {
  }

  /** One more visit along the route appends b to the visited stop only. */
  lemma WithVisitsStep(stops: seq<Stop>, b: nat, route: seq<nat>, i: nat)
    requires i < |route| && route[i] < |stops|
    ensures var before := WithVisits(stops, b, route[..i]);
            WithVisits(stops, b, route[..i + 1]) ==
              before[route[i] := before[route[i]].(buses := before[route[i]].buses + [b])]
  {
    assert route[..i + 1][..i] == route[..i];
    var before := WithVisits(stops, b, route[..i]);
    var after := WithVisits(stops, b, route[..i + 1]);
    forall k | 0 <= k < |stops|
      ensures after[k] == before[route[i] := before[route[i]].(buses := before[route[i]].buses + [b])][k]
    {
      if k == route[i] {
        assert Repeat(b, Count<nat>(route[..i + 1], k)) == Repeat(b, Count<nat>(route[..i], k)) + [b];
      }
    }
  }

  lemma StopIndexedAppend(stops: seq<Stop>, index: map<string, nat>, stop: Stop)
    requires StopIndexed(stops, index)
    ensures StopIndexed(stops + [stop], Indexed(index, stop.name, |stops|))
  {
  }

  lemma StopAppendWithin(stops: seq<Stop>, buses: seq<Bus>, stop: Stop)
    requires RoutesWithin(buses, |stops|) && VisitsWithin(stops, |buses|)
    requires forall b :: b in stop.buses ==> b < |buses|
    ensures RoutesWithin(buses, |stops + [stop]|) && VisitsWithin(stops + [stop], |buses|)
  {
    var r := stops + [stop];
    assert forall k :: 0 <= k < |stops| ==> r[k] == stops[k];
  }

  lemma BusIndexedAppend(buses: seq<Bus>, index: map<string, nat>, bus: Bus)
    requires BusIndexed(buses, index)
    ensures BusIndexed(buses + [bus], Indexed(index, bus.name, |buses|))
  {
  }

  lemma WithVisitsIndexed(stops: seq<Stop>, index: map<string, nat>, b: nat, route: seq<nat>)
    requires StopIndexed(stops, index)
    ensures StopIndexed(WithVisits(stops, b, route), index)
  {
    var r := WithVisits(stops, b, route);
    assert forall k :: 0 <= k < |stops| ==> r[k].name == stops[k].name;
  }

  lemma WithVisitsWithin(stops: seq<Stop>, b: nat, route: seq<nat>)
    requires VisitsWithin(stops, b)
    ensures VisitsWithin(WithVisits(stops, b, route), b + 1)
  {
    var r := WithVisits(stops, b, route);
    forall k, x | 0 <= k < |r| && x in r[k].buses ensures x < b + 1 {
      assert r[k].buses == stops[k].buses + Repeat(b, Count<nat>(route, k));
    }
  }

  class TransportCatalogue {
    var stops: seq<Stop>
    var stopIndex: map<string, nat>
    var buses: seq<Bus>
    var busIndex: map<string, nat>
    var distances: DistanceTable

    ghost predicate Valid()
      reads this
    {
      && StopIndexed(stops, stopIndex)
      && BusIndexed(buses, busIndex)
      && RoutesWithin(buses, |stops|)
      && VisitsWithin(stops, |buses|)
    }

    constructor ()
      ensures Valid()
      ensures stops == [] && buses == [] && stopIndex == map[] && busIndex == map[] && distances == map[]
    {
      stops, buses := [], [];
      stopIndex, busIndex := map[], map[];
      distances := map[];
    }

    /** GetStop: the first stop added under `name`, or null. */
    function GetStop(name: string): (r: Option<nat>)
      reads this
      requires Valid()
      ensures r.Some? <==> exists k :: 0 <= k < |stops| && stops[k].name == name
      ensures r.Some? ==> r.value < |stops| && stops[r.value].name == name &&
                          forall k :: 0 <= k < r.value ==> stops[k].name != name
    {
      if |stopIndex| == 0 then None
      else if name in stopIndex then Some(stopIndex[name])
      else None
    }

    /** GetStop called from a statement: its answer is the first stop of that name. */
    method FindStop(name: string) returns (r: Option<nat>)
      requires Valid()
      ensures r == IndexOf(StopNames(stops), name)
    {
      GetStopFirst(name);
      r := GetStop(name);
    }

    /** The index lookup finds the first stop whose name equals `name`, as a search of the stop names would. */
    lemma GetStopFirst(name: string)
      requires Valid()
      ensures GetStop(name) == IndexOf(StopNames(stops), name)
    {
      var names := StopNames(stops);
      var r := IndexOf(names, name);
      if GetStop(name).Some? {
        assert name in names by { assert names[GetStop(name).value] == name; }
      } else {
        assert name !in names by { assert forall k :: 0 <= k < |names| ==> names[k] == stops[k].name; }
      }
    }

    /** GetBus: the first bus added under `name`, or null. */
    function GetBus(name: string): (r: Option<nat>)
      reads this
      requires Valid()
      ensures r.Some? <==> exists k :: 0 <= k < |buses| && buses[k].name == name
      ensures r.Some? ==> r.value < |buses| && buses[r.value].name == name &&
                          forall k :: 0 <= k < r.value ==> buses[k].name != name
    {
      if |busIndex| == 0 then None
      else if name in busIndex then Some(busIndex[name])
      else None
    }

    /** AddStop: the stop is always stored; its name is indexed only if new. */
    method AddStop(stop: Stop)
      requires Valid()
      requires forall b :: b in stop.buses ==> b < |buses|
      modifies this
      ensures Valid()
      ensures stops == old(stops) + [stop]
      ensures stopIndex == Indexed(old(stopIndex), stop.name, |old(stops)|)
      ensures buses == old(buses) && busIndex == old(busIndex) && distances == old(distances)
    {
      StopIndexedAppend(stops, stopIndex, stop);
      StopAppendWithin(stops, buses, stop);
      stops := stops + [stop];
      if stop.name !in stopIndex {
        stopIndex := stopIndex[stop.name := |stops| - 1];
      }
    }

    /** AddDistance: std::unordered_map::insert, so the first value for a pair wins. */
    method AddDistance(distance: Distance)
      modifies this
      ensures distances == if (distance.from, distance.to) in old(distances) then old(distances)
                           else old(distances)[(distance.from, distance.to) := distance.distance]
      ensures stops == old(stops) && stopIndex == old(stopIndex)
      ensures buses == old(buses) && busIndex == old(busIndex)
    {
      if (distance.from, distance.to) !in distances {
        distances := distances[(distance.from, distance.to) := distance.distance];
      }
    }

    /**
     * AddBus: stores the bus, indexes its name if new, appends the bus to the
     * list of every stop it visits (once per visit) and records its road length.
     */
    method AddBus(bus: Bus)
      requires Valid()
      requires forall s :: s in bus.stops ==> s < |stops|
      modifies this
      ensures Valid()
      ensures buses == old(buses) + [bus.(routeLength := RouteDistance(distances, bus.stops))]
      ensures busIndex == Indexed(old(busIndex), bus.name, |old(buses)|)
      ensures stops == WithVisits(old(stops), |old(buses)|, bus.stops)
      ensures stopIndex == old(stopIndex) && distances == old(distances)
    {
      var b := |buses|;
      ghost var buses0 := buses;
      ghost var stops0 := stops;
      buses := buses + [bus];
      if bus.name !in busIndex {
        busIndex := busIndex[bus.name := b];
      }
      RecordVisits(b, bus.stops);
      var length := GetRouteDistance(b);
      buses := buses[b := buses[b].(routeLength := length)];
      assert buses == buses0 + [bus.(routeLength := length)];
      BusIndexedAppend(buses0, old(busIndex), bus.(routeLength := length));
      WithVisitsIndexed(stops0, stopIndex, b, bus.stops);
      WithVisitsWithin(stops0, b, bus.stops);
    }

    /** The loop of AddBus that appends bus `b` to every stop of `route`, once per visit. */
    method RecordVisits(b: nat, route: seq<nat>)
      requires forall s :: s in route ==> s < |stops|
      modifies this
      ensures stops == WithVisits(old(stops), b, route)
      ensures buses == old(buses) && busIndex == old(busIndex)
      ensures stopIndex == old(stopIndex) && distances == old(distances)
    {
      var i := 0;
      assert route[..0] == [];
      assert forall k :: 0 <= k < |stops| ==> stops[k].buses + [] == stops[k].buses;
      while i < |route|
        invariant 0 <= i <= |route|
        invariant stops == WithVisits(old(stops), b, route[..i])
        invariant buses == old(buses) && busIndex == old(busIndex)
        invariant stopIndex == old(stopIndex) && distances == old(distances)
      {
        var s := route[i];
        assert s in route;
        WithVisitsStep(old(stops), b, route, i);
        stops := stops[s := stops[s].(buses := stops[s].buses + [b])];
        i := i + 1;
      }
      assert route[..i] == route;
    }

    /**
     * GetRouteDistance: sums the distance lookups over consecutive stops in a
     * size_t. On a route without stops the loop as written runs past the end
     * (RouteDistanceAsWritten, EmptyRouteOverruns); this corrected loop
     * returns 0 there.
     */
    method GetRouteDistance(bus: nat) returns (distance: nat)
      requires bus < |buses|
      ensures distance == RouteDistance(distances, buses[bus].stops)
    {
      var route := buses[bus].stops;
      distance := 0;
      if |route| == 0 {
        return;
      }
      var i := 0;
      while i + 1 < |route|
        invariant 0 <= i <= |route| - 1
        invariant distance == SizeT(SegmentDistance(distances, route, 0, i))
      {
        SizeTAdd(SegmentDistance(distances, route, 0, i), DistanceBetween(distances, route[i], route[i + 1]));
        distance := SizeT(distance + DistanceBetween(distances, route[i], route[i + 1]));
        i := i + 1;
      }
    }

    /** GetUniqueStops: the set of stops a bus visits. */
    function GetUniqueStops(bus: nat): (r: set<nat>)
      reads this
      requires Valid() && bus < |buses|
      ensures forall s :: s in r <==> s in buses[bus].stops
      ensures |r| <= |buses[bus].stops|
      ensures |buses[bus].stops| >= 1 ==> |r| >= 1
      ensures forall s :: s in r ==> s < |stops|
    {
      ElementsCardinality(buses[bus].stops);
      assert |buses[bus].stops| >= 1 ==> buses[bus].stops[0] in Elements(buses[bus].stops);
      Elements(buses[bus].stops)
    }

    /** GetUniqueBuses: the set of buses that pass a stop. */
    function GetUniqueBuses(stop: nat): (r: set<nat>)
      reads this
      requires Valid() && stop < |stops|
      ensures forall b :: b in r <==> b in stops[stop].buses
      ensures |r| <= |stops[stop].buses|
      ensures forall b :: b in r ==> b < |buses|
    {
      ElementsCardinality(stops[stop].buses);
      Elements(stops[stop].buses)
    }

    /**
     * GetSortedBusesNames; `order` is the order in which the bus dictionary
     * hands out its keys.
     */
    function GetSortedBusesNames(order: seq<string>): (r: seq<string>)
      reads this
      requires Valid() && Distinct(order) && Elements(order) == busIndex.Keys
      ensures Sorted(r) && Distinct(r)
      ensures Elements(r) == busIndex.Keys && |r| == |busIndex|
    {
      ElementsCardinality(order);
      assert |busIndex.Keys| == |busIndex|;
      if |busIndex| > 0 then
        var r := Sort(order);
        DistinctMultiset(order, r);
        assert forall x :: x in r <==> x in multiset(order);
        r
      else
        assert order == [];
        []
    }

    /** GetBusQuery, without the curvature. */
    function GetBusQuery(query: string): (r: BusQuery)
      reads this
      requires Valid()
      ensures r.name == query
      ensures r.queryExists <==> exists k :: 0 <= k < |buses| && buses[k].name == query
      ensures r.queryExists ==>
                var b := GetBus(query).value;
                && r.routeStops == ToInt32(|buses[b].stops|)
                && r.uniqueStops == ToInt32(|GetUniqueStops(b)|)
                && (|buses[b].stops| < 0x8000_0000 ==>
                      r.uniqueStops <= r.routeStops && (r.routeStops >= 1 ==> r.uniqueStops >= 1))
                && r.routeLength == ToInt32(RouteDistance(distances, buses[b].stops))
    {
      match GetBus(query)
      case Some(b) =>
        BusQuery(buses[b].name, true, ToInt32(|buses[b].stops|), ToInt32(|GetUniqueStops(b)|),
                 ToInt32(RouteDistance(distances, buses[b].stops)))
      case None =>
        BusQuery(query, false, 0, 0, 0)
    }

    /**
     * GetStopQuery; `order` is the order in which the stop's set of unique
     * buses is iterated.
     */
    function GetStopQuery(query: string, order: seq<nat>): (r: StopQuery)
      reads this
      requires Valid()
      requires GetStop(query).Some? ==> Enumerates(order, GetUniqueBuses(GetStop(query).value))
      ensures r.name == query
      ensures r.queryExists <==> exists k :: 0 <= k < |stops| && stops[k].name == query
      ensures !r.queryExists ==> r.buses == []
      ensures r.queryExists ==> Sorted(r.buses) && multiset(r.buses) == multiset(BusNames(buses, order))
    {
      match GetStop(query)
      case Some(s) =>
        StopQuery(stops[s].name, true, if |order| > 0 then Sort(BusNames(buses, order)) else [])
      case None =>
        StopQuery(query, false, [])
    }
  }

  /** The loops of the readers that pass every distance of a list to AddDistance, in order. */
  method RecordDistances(catalogue: TransportCatalogue, ds: seq<Distance>)
    requires catalogue.Valid()
    modifies catalogue
    ensures catalogue.Valid() && catalogue.distances == Recorded(old(catalogue.distances), ds)
    ensures catalogue.stops == old(catalogue.stops) && catalogue.stopIndex == old(catalogue.stopIndex)
    ensures catalogue.buses == old(catalogue.buses) && catalogue.busIndex == old(catalogue.busIndex)
  {
    var i := 0;
    while i < |ds|
      invariant i <= |ds| && catalogue.Valid()
      invariant catalogue.distances == Recorded(old(catalogue.distances), ds[..i])
      invariant catalogue.stops == old(catalogue.stops) && catalogue.stopIndex == old(catalogue.stopIndex)
      invariant catalogue.buses == old(catalogue.buses) && catalogue.busIndex == old(catalogue.busIndex)
    {
      assert ds[..i + 1][..i] == ds[..i];
      catalogue.AddDistance(ds[i]);
      i := i + 1;
    }
    assert ds[..i] == ds;
  }

  /** A stop query answers the same whatever order the hash set iterates in. */
  lemma StopQueryOrderIndependent(c: TransportCatalogue, query: string, o1: seq<nat>, o2: seq<nat>)
    requires c.Valid()
    requires c.GetStop(query).Some? ==> Enumerates(o1, c.GetUniqueBuses(c.GetStop(query).value))
    requires c.GetStop(query).Some? ==> Enumerates(o2, c.GetUniqueBuses(c.GetStop(query).value))
    ensures c.GetStopQuery(query, o1) == c.GetStopQuery(query, o2)
  {
    if c.GetStop(query).Some? {
      DistinctSameElements(o1, o2);
      assert Elements(o1) == Elements(o2) by {
        assert forall k :: 0 <= k < |o1| ==> o1[k] in Elements(o1);
        assert forall k :: 0 <= k < |o2| ==> o2[k] in Elements(o2);
      }
      BusNamesPermutation(c.buses, o1, o2);
      var r1, r2 := c.GetStopQuery(query, o1), c.GetStopQuery(query, o2);
      SortedPermutationUnique(r1.buses, r2.buses);
    }
  }

  /** How a loading pass over requests ends: it finished, an exception left it, or it dereferenced a null stop. */
  datatype Outcome = Loaded | Thrown | Undefined

  /** What one request of a loading pass does: the items it adds, or how the pass ends there. */
  datatype Step<T> = Adds(items: seq<T>) | Ends(outcome: Outcome)

  /**
   * A loading pass over requests in order, each read against `ctx` (what
   * earlier passes loaded): the items of every request up to the first one
   * that ends the pass, and how the pass ended.
   */
  function Pass<C, R, T>(requests: seq<R>, ctx: C, step: (C, R) -> Step<T>): (Outcome, seq<T>) {
    if requests == [] then (Loaded, [])
    else
      var before := Pass(requests[..|requests| - 1], ctx, step);
      if before.0 != Loaded then before
      else match step(ctx, requests[|requests| - 1])
        case Adds(items) => (Loaded, before.1 + items)
        case Ends(outcome) => (outcome, before.1)
  }

  /** One more request of a pass still running: its items follow, or the pass ends there. */
  lemma PassNext<C, R, T>(requests: seq<R>, ctx: C, step: (C, R) -> Step<T>, i: nat)
    requires i < |requests| && Pass(requests[..i], ctx, step).0 == Loaded
    ensures var before := Pass(requests[..i], ctx, step).1;
            Pass(requests[..i + 1], ctx, step) ==
              match step(ctx, requests[i])
              case Adds(items) => (Loaded, before + items)
              case Ends(outcome) => (outcome, before)
  {
    assert requests[..i + 1][..i] == requests[..i];
  }

  /** Once a pass has ended, the requests after that change nothing. */
  lemma {:induction false} PassSettled<C, R, T>(requests: seq<R>, ctx: C, step: (C, R) -> Step<T>, i: nat)
    requires i <= |requests| && Pass(requests[..i], ctx, step).0 != Loaded
    ensures Pass(requests, ctx, step) == Pass(requests[..i], ctx, step)
    decreases |requests|
  {
    if i == |requests| {
      assert requests[..i] == requests;
    } else {
      var prefix := requests[..|requests| - 1];
      assert prefix[..i] == requests[..i];
      PassSettled(prefix, ctx, step, i);
    }
  }

  /** A request that ends the pass other than by finishing makes the whole pass end that way or earlier. */
  lemma {:induction false} PassEnds<C, R, T>(requests: seq<R>, ctx: C, step: (C, R) -> Step<T>, i: nat)
    requires i < |requests| && step(ctx, requests[i]).Ends? && step(ctx, requests[i]).outcome != Loaded
    ensures Pass(requests, ctx, step).0 != Loaded
    decreases |requests|
  {
    var prefix := requests[..|requests| - 1];
    if i < |prefix| {
      assert prefix[i] == requests[i];
      PassEnds(prefix, ctx, step, i);
    }
  }

  /**
   * When every request adds exactly one item, the pass finishes with the
   * k-th request's item in place k.
   */
  lemma {:induction false} PassOnes<C, R, T>(requests: seq<R>, ctx: C, step: (C, R) -> Step<T>)
    requires forall k :: 0 <= k < |requests| ==> step(ctx, requests[k]).Adds? && |step(ctx, requests[k]).items| == 1
    ensures var r := Pass(requests, ctx, step);
            && r.0 == Loaded && |r.1| == |requests|
            && forall k :: 0 <= k < |requests| ==> r.1[k] == step(ctx, requests[k]).items[0]
    decreases |requests|
  {
    if requests != [] {
      var prefix := requests[..|requests| - 1];
      assert forall k :: 0 <= k < |prefix| ==> prefix[k] == requests[k];
      PassOnes(prefix, ctx, step);
      var before := Pass(prefix, ctx, step).1;
      var r := Pass(requests, ctx, step).1;
      assert r == before + step(ctx, requests[|prefix|]).items;
      forall k | 0 <= k < |requests| ensures r[k] == step(ctx, requests[k]).items[0] {
        if k < |prefix| {
          assert r[k] == before[k];
        }
      }
    }
  }

  /** When no request ends it, a pass finishes. */
  lemma {:induction false} PassFinishes<C, R, T>(requests: seq<R>, ctx: C, step: (C, R) -> Step<T>)
    requires forall k :: 0 <= k < |requests| ==> step(ctx, requests[k]).Adds?
    ensures Pass(requests, ctx, step).0 == Loaded
    decreases |requests|
  {
    if requests != [] {
      var prefix := requests[..|requests| - 1];
      assert forall k :: 0 <= k < |prefix| ==> prefix[k] == requests[k];
      PassFinishes(prefix, ctx, step);
    }
  }

  /** Every name of the route is a known stop. */
  predicate Known(names: seq<string>, route: seq<string>) {
    forall j :: 0 <= j < |route| ==> route[j] in names
  }

  /**
   * The bus a reader adds for a route read by name: its name, its stops found
   * by name as GetStop finds them, its flag, and the road length AddBus records.
   */
  function AddedBus(names: seq<string>, table: DistanceTable, route: (string, seq<string>), isRoundtrip: bool): Bus
    requires Known(names, route.1)
  {
    var stops := ResolvedStops(names, route.1);
    Bus(route.0, stops, isRoundtrip, RouteDistance(table, stops))
  }

  /** The index of every stop of a route, found by name as GetStop finds it. */
  function ResolvedStops(names: seq<string>, route: seq<string>): seq<nat>
    requires Known(names, route)
  {
    seq(|route|, j requires 0 <= j < |route| => IndexOf(names, route[j]).value)
  }

  /** The added bus keeps the route's name and the flag, finds every stop by name, and measures its road. */
  lemma AddedBusShape(names: seq<string>, table: DistanceTable, route: (string, seq<string>), isRoundtrip: bool)
    requires Known(names, route.1)
    ensures var r := AddedBus(names, table, route, isRoundtrip);
            && r.name == route.0 && r.isRoundtrip == isRoundtrip
            && |r.stops| == |route.1| && (forall j :: 0 <= j < |route.1| ==> IndexOf(names, route.1[j]) == Some(r.stops[j]))
            && r.routeLength == RouteDistance(table, r.stops)
  {
  }

  /** Every stop reference is the catalogue's answer for the stop name at the same place. */
  ghost predicate LookedUp(catalogue: TransportCatalogue, names: seq<string>, stops: seq<StopRef>)
    reads catalogue
    requires catalogue.Valid()
  {
    |stops| == |names| && forall k :: 0 <= k < |names| ==> stops[k] == catalogue.GetStop(names[k])
  }

  /** Looking the stops up and running the line back commute. */
  lemma OutAndBackLookedUp(catalogue: TransportCatalogue, names: seq<string>, stops: seq<StopRef>)
    requires catalogue.Valid() && |names| >= 1 && LookedUp(catalogue, names, stops)
    ensures LookedUp(catalogue, OutAndBack(names), OutAndBack(stops))
  {
    var n := |names|;
    forall k | 0 <= k < 2 * n - 1
      ensures OutAndBack(stops)[k] == catalogue.GetStop(OutAndBack(names)[k])
    {
      if k >= n {
        assert OutAndBack(stops)[k] == stops[2 * n - 2 - k];
      }
    }
  }
}
