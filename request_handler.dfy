/**
 * The answers to statistics requests and the selection of what the map
 * draws (transport-catalogue/request_handler.cpp).  Hash-container
 * iteration orders are parameters, the rendered SVG text of a "Map" answer
 * and a bus's curvature (which needs the geographic route length) are
 * parameters too, and Render returns what it hands to the map renderer's
 * drawing calls.
 */
module RequestHandler {
  import opened Common
  import opened Catalogue
  import opened Json
  import JsonReader

  // ---------------------------------------------------------------------------
  // GetSortedBusesNames and GetStopQuery (request_handler.cpp:24-39, 60-86).

  /**
   * GetSortedBusesNames: every key of the bus dictionary, pushed in `order`
   * (the order the dictionary hands them out), then sorted; nothing for an
   * empty dictionary.
   */
  method GetSortedBusesNames(catalogue: TransportCatalogue, order: seq<string>) returns (names: seq<string>)
    requires catalogue.Valid() && Distinct(order) && Elements(order) == catalogue.busIndex.Keys
    ensures names == catalogue.GetSortedBusesNames(order)
    ensures Sorted(names) && Distinct(names) && Elements(names) == catalogue.busIndex.Keys
  {
    if |catalogue.busIndex| == 0 {
      return [];
    }
    names := [];
    var i := 0;
    while i < |order|
      invariant i <= |order| && names == order[..i]
    {
      names := names + [order[i]];
      i := i + 1;
    }
    assert order[..i] == order;
    names := Sort(names);
  }

  /**
   * GetStopQuery: the query echoed as not found for an unknown stop; else
   * the stop's name and the names of its unique buses, pushed in `order`
   * (the order the set hands them out) and sorted.
   */
  method GetStopQuery(catalogue: TransportCatalogue, query: string, order: seq<nat>) returns (r: StopQuery)
    requires catalogue.Valid()
    requires catalogue.GetStop(query).Some? ==> Enumerates(order, catalogue.GetUniqueBuses(catalogue.GetStop(query).value))
    ensures r == catalogue.GetStopQuery(query, order)
    ensures r.name == query && (r.queryExists <==> catalogue.GetStop(query).Some?)
    ensures r.queryExists ==> Sorted(r.buses) && multiset(r.buses) == multiset(BusNames(catalogue.buses, order))
  {
    var stop := catalogue.GetStop(query);
    if stop.None? {
      return StopQuery(query, false, []);
    }
    var names: seq<string> := [];
    if |order| > 0 {
      assert BusIndices(catalogue.buses, order);
      var i := 0;
      while i < |order|
        invariant i <= |order| && names == BusNames(catalogue.buses, order[..i])
      {
        assert order[..i + 1][..i] == order[..i];
        names := names + [catalogue.buses[order[i]].name];
        i := i + 1;
      }
      assert order[..i] == order;
      names := Sort(names);
    }
    r := StopQuery(catalogue.stops[stop.value].name, true, names);
  }

  // ---------------------------------------------------------------------------
  // The answer nodes (request_handler.cpp:88-146).

  /**
   * MakeStopNode: for an unknown stop exactly request_id and the error
   * message "not found"; else request_id and the bus names as strings, in
   * the query's order.
   */
  function MakeStopNode(id: int, query: StopQuery): (r: Node)
    ensures r.Dict? && "request_id" in r.entries && r.entries["request_id"] == Int(id)
    ensures !query.queryExists ==>
              r.entries.Keys == {"request_id", "error_message"} && r.entries["error_message"] == String("not found")
    ensures query.queryExists ==>
              && r.entries.Keys == {"request_id", "buses"}
              && r.entries["buses"].Array? && |r.entries["buses"].items| == |query.buses|
              && forall k :: 0 <= k < |query.buses| ==> r.entries["buses"].items[k] == String(query.buses[k])
  {
    if !query.queryExists then
      Dict(map["request_id" := Int(id), "error_message" := String("not found")])
    else
      Dict(map["request_id" := Int(id), "buses" := Array(seq(|query.buses|, k requires 0 <= k < |query.buses| => String(query.buses[k])))])
  }

  /**
   * MakeBusNode: for an unknown bus exactly request_id and the error message
   * "not found"; else request_id, curvature, route_length, stop_count and
   * unique_stop_count.
   */
  function MakeBusNode(id: int, query: BusQuery, curvature: real): (r: Node)
    ensures r.Dict? && "request_id" in r.entries && r.entries["request_id"] == Int(id)
    ensures !query.queryExists ==>
              r.entries.Keys == {"request_id", "error_message"} && r.entries["error_message"] == String("not found")
    ensures query.queryExists ==>
              && r.entries.Keys == {"request_id", "curvature", "route_length", "stop_count", "unique_stop_count"}
              && r.entries["curvature"] == Double(curvature)
              && r.entries["route_length"] == Int(query.routeLength)
              && r.entries["stop_count"] == Int(query.routeStops)
              && r.entries["unique_stop_count"] == Int(query.uniqueStops)
  {
    if !query.queryExists then
      Dict(map["request_id" := Int(id), "error_message" := String("not found")])
    else
      Dict(map["request_id" := Int(id), "curvature" := Double(curvature), "route_length" := Int(query.routeLength),
               "stop_count" := Int(query.routeStops), "unique_stop_count" := Int(query.uniqueStops)])
  }

  /** MakeMapNode: request_id and the rendered map as a string. */
  function MakeMapNode(id: int, svg: string): (r: Node)
    ensures r.Dict? && r.entries.Keys == {"request_id", "map"}
    ensures r.entries["request_id"] == Int(id) && r.entries["map"] == String(svg)
  {
    Dict(map["request_id" := Int(id), "map" := String(svg)])
  }

  /** The not-found answers to a stop and to a bus request are the same node, and a found answer never carries an error. */
  lemma NotFoundAlike(id: int, stop: StopQuery, bus: BusQuery, curvature: real)
    requires !stop.queryExists && !bus.queryExists
    ensures MakeStopNode(id, stop) == MakeBusNode(id, bus, curvature)
    ensures forall q: StopQuery :: q.queryExists ==> "error_message" !in MakeStopNode(id, q).entries
    ensures forall q: BusQuery :: q.queryExists ==> "error_message" !in MakeBusNode(id, q, curvature).entries
  {
    var a, b := MakeStopNode(id, stop), MakeBusNode(id, bus, curvature);
    assert a.entries == b.entries;
  }

  // ---------------------------------------------------------------------------
  // HandleRequestType (request_handler.cpp:148-164).

  /** The stat types that get an answer. */
  predicate Answered(stat: JsonReader.Stat) {
    stat.requestType == "Stop" || stat.requestType == "Bus" || stat.requestType == "Map"
  }

  /** `stopOrder(s)` enumerates the unique buses of every stop s: the iteration orders of their hash sets. */
  ghost predicate StopOrders(catalogue: TransportCatalogue, stopOrder: nat -> seq<nat>)
    reads catalogue
    requires catalogue.Valid()
  {
    forall s :: 0 <= s < |catalogue.stops| ==> Enumerates(stopOrder(s), catalogue.GetUniqueBuses(s))
  }

  /** The iteration order stopOrder gives for the stop a query names, if any. */
  function OrderOf(catalogue: TransportCatalogue, query: string, stopOrder: nat -> seq<nat>): seq<nat>
    reads catalogue
    requires catalogue.Valid()
  {
    match catalogue.GetStop(query)
    case Some(s) => stopOrder(s)
    case None => []
  }

  /** The answer to one Stop, Bus or Map stat. */
  function Response(catalogue: TransportCatalogue, stat: JsonReader.Stat, stopOrder: nat -> seq<nat>,
                    curvature: string -> real, svg: string): Node
    reads catalogue
    requires catalogue.Valid() && StopOrders(catalogue, stopOrder) && Answered(stat)
  {
    if stat.requestType == "Stop" then
      MakeStopNode(stat.id, catalogue.GetStopQuery(stat.name, OrderOf(catalogue, stat.name, stopOrder)))
    else if stat.requestType == "Bus" then
      MakeBusNode(stat.id, catalogue.GetBusQuery(stat.name), curvature(stat.name))
    else
      MakeMapNode(stat.id, svg)
  }

  /** The answers to the stats, in their order, other types dropped. */
  function Responses(catalogue: TransportCatalogue, stats: seq<JsonReader.Stat>, stopOrder: nat -> seq<nat>,
                     curvature: string -> real, svg: string): seq<Node>
    reads catalogue
    requires catalogue.Valid() && StopOrders(catalogue, stopOrder)
  {
    if stats == [] then []
    else
      var last := stats[|stats| - 1];
      Responses(catalogue, stats[..|stats| - 1], stopOrder, curvature, svg) +
        if Answered(last) then [Response(catalogue, last, stopOrder, curvature, svg)] else []
  }

  /**
   * One answer per Stop, Bus or Map stat, in input order: the stat at k is
   * answered after those of the answered stats before it, under its own id.
   */
  lemma {:induction false} ResponsesInOrder(catalogue: TransportCatalogue, stats: seq<JsonReader.Stat>,
                                            stopOrder: nat -> seq<nat>, curvature: string -> real, svg: string)
    requires catalogue.Valid() && StopOrders(catalogue, stopOrder)
    ensures var r := Responses(catalogue, stats, stopOrder, curvature, svg);
            && |r| == CountIf(stats, Answered)
            && forall k :: 0 <= k < |stats| && Answered(stats[k]) ==>
                 && CountIf(stats[..k], Answered) < |r|
                 && r[CountIf(stats[..k], Answered)] == Response(catalogue, stats[k], stopOrder, curvature, svg)
                 && r[CountIf(stats[..k], Answered)].Dict?
                 && r[CountIf(stats[..k], Answered)].entries["request_id"] == Int(stats[k].id)
    decreases |stats|
  {
    if stats != [] {
      var n := |stats| - 1;
      var prefix := stats[..n];
      ResponsesInOrder(catalogue, prefix, stopOrder, curvature, svg);
      var r := Responses(catalogue, stats, stopOrder, curvature, svg);
      forall k | 0 <= k < |stats| && Answered(stats[k])
        ensures CountIf(stats[..k], Answered) < |r| &&
                r[CountIf(stats[..k], Answered)] == Response(catalogue, stats[k], stopOrder, curvature, svg)
      {
        if k < n {
          assert stats[..k] == prefix[..k];
          assert prefix[k] == stats[k];
        } else {
          assert stats[..k] == prefix;
        }
      }
    }
  }

  /** The request handler: the document of answers HandleRequestType builds. */
  class RequestHandler {
    var document: Node

    constructor ()
      ensures document == Null
    {
      document := Null;
    }

    /**
     * HandleRequestType: the answer to every Stop, Bus and Map stat pushed
     * in order, other types skipped; the document becomes their array.
     */
    method HandleRequestType(catalogue: TransportCatalogue, stats: seq<JsonReader.Stat>, stopOrder: nat -> seq<nat>,
                             curvature: string -> real, svg: string)
      requires catalogue.Valid() && StopOrders(catalogue, stopOrder)
      modifies this
      ensures document == Array(Responses(catalogue, stats, stopOrder, curvature, svg))
    {
      var result: seq<Node> := [];
      var i := 0;
      while i < |stats|
        invariant i <= |stats| && result == Responses(catalogue, stats[..i], stopOrder, curvature, svg)
      {
        assert stats[..i + 1][..i] == stats[..i];
        var stat := stats[i];
        if stat.requestType == "Stop" {
          var query := GetStopQuery(catalogue, stat.name, OrderOf(catalogue, stat.name, stopOrder));
          result := result + [MakeStopNode(stat.id, query)];
        } else if stat.requestType == "Bus" {
          result := result + [MakeBusNode(stat.id, catalogue.GetBusQuery(stat.name), curvature(stat.name))];
        } else if stat.requestType == "Map" {
          result := result + [MakeMapNode(stat.id, svg)];
        }
        i := i + 1;
      }
      assert stats[..i] == stats;
      document := Array(result);
    }
  }

  // ---------------------------------------------------------------------------
  // Render (request_handler.cpp:166-227): which buses and stops are drawn.

  /** Every key of `index` maps below n. */
  predicate IndexWithin(index: map<string, nat>, n: nat) {
    forall name :: name in index ==> index[name] < n
  }

  /** A bus name the bus loop pairs with a colour: a bus of the dictionary with at least one stop. */
  function HasStops(buses: seq<Bus>, index: map<string, nat>): string -> bool {
    name => name in index && index[name] < |buses| && |buses[index[name]].stops| > 0
  }

  /** A stop name the stop loop keeps: a stop of the dictionary with at least one bus. */
  function IsServed(stops: seq<Stop>, index: map<string, nat>): string -> bool {
    name => name in index && index[name] < |stops| && |stops[index[name]].buses| > 0
  }

  /** The entries of `index` for the given names, each with its palette index: k modulo the palette size. */
  function Numbered(index: map<string, nat>, names: seq<string>, paletteSize: nat): (r: seq<(nat, nat)>)
    requires paletteSize > 0 && forall k :: 0 <= k < |names| ==> names[k] in index
    ensures |r| == |names| && forall k :: 0 <= k < |names| ==> r[k] == (index[names[k]], k % paletteSize)
  {
    if names == [] then []
    else Numbered(index, names[..|names| - 1], paletteSize) + [(index[names[|names| - 1]], (|names| - 1) % paletteSize)]
  }

  /** The bus names the bus loop pairs with a colour, in order. */
  function Lined(buses: seq<Bus>, index: map<string, nat>, names: seq<string>): (r: seq<string>)
    ensures forall x :: x in r <==> x in names && x in index && index[x] < |buses| && |buses[index[x]].stops| > 0
  {
    FilterKeeps(names, HasStops(buses, index));
    Filter(names, HasStops(buses, index))
  }

  /**
   * The palette index after n buses as the bus loop counts it: one up per
   * bus, back to 0 on reaching the palette size.
   */
  function Cycled(n: nat, paletteSize: nat): nat
    requires paletteSize > 0
  {
    if n == 0 then 0
    else if Cycled(n - 1, paletteSize) + 1 == paletteSize then 0
    else Cycled(n - 1, paletteSize) + 1
  }

  /** The counting of the bus loop is the remainder modulo the palette size. */
  lemma {:induction false} CycledIsMod(n: nat, paletteSize: nat)
    requires paletteSize > 0
    ensures Cycled(n, paletteSize) == n % paletteSize
  {
    if n > 0 {
      CycledIsMod(n - 1, paletteSize);
      ModNext(n - 1, paletteSize);
    }
  }

  /**
   * The (bus, palette index) pairs of the bus loop over `names`: each name
   * whose bus has at least one stop is pushed with the palette index counted
   * so far.
   */
  function BusPalette(buses: seq<Bus>, index: map<string, nat>, names: seq<string>, paletteSize: nat): seq<(nat, nat)>
    requires paletteSize > 0
  {
    if names == [] then []
    else
      var before := BusPalette(buses, index, names[..|names| - 1], paletteSize);
      var last := names[|names| - 1];
      if last in index && index[last] < |buses| && |buses[index[last]].stops| > 0
      then before + [(index[last], Cycled(|before|, paletteSize))]
      else before
  }

  /** One more name for the bus loop. */
  lemma BusPaletteNext(buses: seq<Bus>, index: map<string, nat>, names: seq<string>, paletteSize: nat, i: nat)
    requires paletteSize > 0 && i < |names|
    ensures var before := BusPalette(buses, index, names[..i], paletteSize);
            BusPalette(buses, index, names[..i + 1], paletteSize) ==
              if names[i] in index && index[names[i]] < |buses| && |buses[index[names[i]]].stops| > 0
              then before + [(index[names[i]], Cycled(|before|, paletteSize))] else before
  {
    assert names[..i + 1][..i] == names[..i];
  }

  /**
   * The bus loop numbers the buses with stops, in the order of the names,
   * 0, 1, 2, ... modulo the palette size.
   */
  lemma {:induction false} BusPaletteNumbered(buses: seq<Bus>, index: map<string, nat>, names: seq<string>, paletteSize: nat)
    requires paletteSize > 0
    ensures forall k :: 0 <= k < |Lined(buses, index, names)| ==> Lined(buses, index, names)[k] in index
    ensures BusPalette(buses, index, names, paletteSize) == Numbered(index, Lined(buses, index, names), paletteSize)
  {
    var lined := Lined(buses, index, names);
    assert forall k :: 0 <= k < |lined| ==> lined[k] in lined;
    if names != [] {
      var n := |names| - 1;
      var init := names[..n];
      BusPaletteNumbered(buses, index, init, paletteSize);
      FilterNext(names, HasStops(buses, index), n);
      assert names[..n + 1] == names;
      var before := Lined(buses, index, init);
      CycledIsMod(|before|, paletteSize);
      if lined != before {
        assert (before + [names[n]])[..|before|] == before;
      }
    }
  }

  /** The names, in `order`, of the dictionary's stops that have buses, sorted. */
  function SortedServed(stops: seq<Stop>, index: map<string, nat>, order: seq<string>): (r: seq<string>)
    ensures forall x :: x in r <==> x in order && x in index && index[x] < |stops| && |stops[index[x]].buses| > 0
  {
    FilterKeeps(order, IsServed(stops, index));
    SortKeeps(Filter(order, IsServed(stops, index)));
    Sort(Filter(order, IsServed(stops, index)))
  }

  /** The stops the stop loops draw: those served by a bus, in ascending name order. */
  function DrawnStops(stops: seq<Stop>, index: map<string, nat>, order: seq<string>): seq<nat> {
    var sorted := SortedServed(stops, index, order);
    assert forall k :: 0 <= k < |sorted| ==> sorted[k] in sorted;
    seq(|sorted|, k requires 0 <= k < |sorted| => index[sorted[k]])
  }

  /** The k-th bus drawn gets colour k modulo the palette size. */
  lemma BusPaletteColors(buses: seq<Bus>, index: map<string, nat>, names: seq<string>, paletteSize: nat)
    requires paletteSize > 0
    ensures var r := BusPalette(buses, index, names, paletteSize);
            forall k :: 0 <= k < |r| ==> r[k].1 == k % paletteSize < paletteSize
  {
    BusPaletteNumbered(buses, index, names, paletteSize);
  }

  /**
   * Over the sorted bus names, exactly the buses of the dictionary with
   * stops are drawn, once each, in strictly ascending name order.
   */
  lemma BusPaletteBuses(buses: seq<Bus>, index: map<string, nat>, names: seq<string>, paletteSize: nat)
    requires paletteSize > 0 && BusIndexed(buses, index)
    requires Sorted(names) && Distinct(names) && Elements(names) == index.Keys
    ensures var r := BusPalette(buses, index, names, paletteSize);
            && (forall k :: 0 <= k < |r| ==> r[k].0 < |buses| && |buses[r[k].0].stops| > 0)
            && (forall name :: name in index && |buses[index[name]].stops| > 0 ==>
                  exists k :: 0 <= k < |r| && r[k].0 == index[name])
            && (forall i, j :: 0 <= i < j < |r| ==> Less(buses[r[i].0].name, buses[r[j].0].name))
  {
    var lined := Lined(buses, index, names);
    var r := BusPalette(buses, index, names, paletteSize);
    assert |r| == |lined| && forall k :: 0 <= k < |r| ==> r[k].0 == index[lined[k]] by {
      BusPaletteNumbered(buses, index, names, paletteSize);
    }
    LinedShape(buses, index, names);
    forall name | name in index && |buses[index[name]].stops| > 0
      ensures exists k :: 0 <= k < |r| && r[k].0 == index[name]
    {
      var k :| 0 <= k < |lined| && lined[k] == name;
      assert r[k].0 == index[name];
    }
  }

  /** The names the bus loop pairs: exactly the dictionary's buses with stops, strictly ascending. */
  lemma LinedShape(buses: seq<Bus>, index: map<string, nat>, names: seq<string>)
    requires BusIndexed(buses, index)
    requires Sorted(names) && Distinct(names) && Elements(names) == index.Keys
    ensures var lined := Lined(buses, index, names);
            && (forall k :: 0 <= k < |lined| ==>
                  lined[k] in index && index[lined[k]] < |buses| && |buses[index[lined[k]]].stops| > 0 &&
                  buses[index[lined[k]]].name == lined[k])
            && (forall name :: name in index && |buses[index[name]].stops| > 0 ==> name in lined)
            && (forall i, j :: 0 <= i < j < |lined| ==> Less(lined[i], lined[j]))
  {
    var p := HasStops(buses, index);
    var lined := Lined(buses, index, names);
    FilterSorted(names, p);
    FilterDistinct(names, p);
    SortedDistinctIsStrict(lined);
    forall k | 0 <= k < |lined| ensures lined[k] in index && index[lined[k]] < |buses| && |buses[index[lined[k]]].stops| > 0 {
      assert lined[k] in lined;
    }
    forall name | name in index && |buses[index[name]].stops| > 0 ensures name in lined {
      assert name in Elements(names);
    }
  }

  /** The names the stop loops look up: the served stops of the dictionary, strictly ascending. */
  lemma SortedServedShape(stops: seq<Stop>, index: map<string, nat>, order: seq<string>)
    requires Distinct(order) && Elements(order) == index.Keys
    ensures var sorted := SortedServed(stops, index, order);
            && (forall name :: name in index && index[name] < |stops| && |stops[index[name]].buses| > 0 ==> name in sorted)
            && (forall i, j :: 0 <= i < j < |sorted| ==> Less(sorted[i], sorted[j]))
  {
    var p := IsServed(stops, index);
    var sorted := SortedServed(stops, index, order);
    FilterDistinct(order, p);
    DistinctMultiset(Filter(order, p), sorted);
    SortedDistinctIsStrict(sorted);
    forall name | name in index && index[name] < |stops| && |stops[index[name]].buses| > 0 ensures name in sorted {
      assert name in Elements(order);
    }
  }

  /** The stops drawn are exactly the dictionary's stops served by at least one bus. */
  lemma DrawnStopsServed(stops: seq<Stop>, index: map<string, nat>, order: seq<string>)
    requires StopIndexed(stops, index) && Distinct(order) && Elements(order) == index.Keys
    ensures var d := DrawnStops(stops, index, order);
            && (forall k :: 0 <= k < |d| ==> d[k] < |stops| && |stops[d[k]].buses| > 0)
            && (forall name :: name in index && |stops[index[name]].buses| > 0 ==> index[name] in d)
  {
    var sorted := SortedServed(stops, index, order);
    var d := DrawnStops(stops, index, order);
    assert |d| == |sorted| && forall k :: 0 <= k < |d| ==> d[k] == index[sorted[k]];
    forall k | 0 <= k < |d| ensures d[k] < |stops| && |stops[d[k]].buses| > 0 {
      assert sorted[k] in sorted;
    }
    forall name | name in index && |stops[index[name]].buses| > 0
      ensures index[name] in d
    {
      assert name in sorted by {
        SortedServedShape(stops, index, order);
      }
      var k :| 0 <= k < |sorted| && sorted[k] == name;
      assert d[k] == index[name];
    }
  }

  /** The stops drawn are in strictly ascending name order. */
  lemma DrawnStopsAscending(stops: seq<Stop>, index: map<string, nat>, order: seq<string>)
    requires StopIndexed(stops, index) && Distinct(order) && Elements(order) == index.Keys
    ensures var d := DrawnStops(stops, index, order);
            && (forall k :: 0 <= k < |d| ==> d[k] < |stops|)
            && (forall i, j :: 0 <= i < j < |d| ==> Less(stops[d[i]].name, stops[d[j]].name))
  {
    var sorted := SortedServed(stops, index, order);
    var d := DrawnStops(stops, index, order);
    SortedServedShape(stops, index, order);
    assert |d| == |sorted| && forall k :: 0 <= k < |d| ==> d[k] == index[sorted[k]];
    forall k | 0 <= k < |d| ensures d[k] < |stops| && stops[d[k]].name == sorted[k] {
      assert sorted[k] in sorted;
    }
  }

  /** The stops drawn do not depend on the order the stop dictionary hands out its names. */
  lemma DrawnStopsOrderIndependent(stops: seq<Stop>, index: map<string, nat>, o1: seq<string>, o2: seq<string>)
    requires Distinct(o1) && Distinct(o2) && Elements(o1) == Elements(o2)
    ensures DrawnStops(stops, index, o1) == DrawnStops(stops, index, o2)
  {
    var p := IsServed(stops, index);
    var n1, n2 := Filter(o1, p), Filter(o2, p);
    FilterKeeps(o1, p);
    FilterKeeps(o2, p);
    FilterDistinct(o1, p);
    FilterDistinct(o2, p);
    assert Elements(n1) == Elements(n2) by {
      assert forall x :: x in o1 <==> x in Elements(o1);
      assert forall x :: x in o2 <==> x in Elements(o2);
    }
    DistinctSameElements(n1, n2);
    SortedPermutationUnique(Sort(n1), Sort(n2));
  }

  /**
   * Render: with an empty palette nothing; else the bus loop over the sorted
   * bus names and the stop loops over the served stop names.  `busOrder`
   * and `stopOrder` are the orders the two dictionaries hand out their names.
   */
  method Render(catalogue: TransportCatalogue, paletteSize: nat, busOrder: seq<string>, stopOrder: seq<string>)
      returns (pairs: seq<(nat, nat)>, drawn: seq<nat>)
    requires catalogue.Valid()
    requires Distinct(busOrder) && Elements(busOrder) == catalogue.busIndex.Keys
    requires Distinct(stopOrder) && Elements(stopOrder) == catalogue.stopIndex.Keys
    ensures paletteSize == 0 ==> pairs == [] && drawn == []
    ensures paletteSize > 0 ==>
              pairs == BusPalette(catalogue.buses, catalogue.busIndex, catalogue.GetSortedBusesNames(busOrder), paletteSize)
    ensures paletteSize > 0 ==> drawn == DrawnStops(catalogue.stops, catalogue.stopIndex, stopOrder)
  {
    if paletteSize == 0 {
      return [], [];
    }
    var names := GetSortedBusesNames(catalogue, busOrder);
    assert IndexWithin(catalogue.busIndex, |catalogue.buses|) && IndexWithin(catalogue.stopIndex, |catalogue.stops|);
    pairs := PaletteLoop(catalogue.buses, catalogue.busIndex, names, paletteSize);
    drawn := StopLoops(catalogue.stops, catalogue.stopIndex, stopOrder);
  }

  /**
   * The bus loop of Render: each name's bus (GetBus of a dictionary key is
   * its entry), those with stops pushed with a palette index that counts up
   * and returns to 0 at the palette size.
   */
  method PaletteLoop(buses: seq<Bus>, index: map<string, nat>, names: seq<string>, paletteSize: nat)
      returns (pairs: seq<(nat, nat)>)
    requires paletteSize > 0 && IndexWithin(index, |buses|)
    ensures pairs == BusPalette(buses, index, names, paletteSize)
  {
    pairs := [];
    var paletteIndex := 0;
    var i := 0;
    while i < |names|
      invariant i <= |names|
      invariant pairs == BusPalette(buses, index, names[..i], paletteSize)
      invariant paletteIndex == Cycled(|pairs|, paletteSize)
    {
      BusPaletteNext(buses, index, names, paletteSize, i);
      if names[i] in index && |buses[index[names[i]]].stops| > 0 {
        pairs := pairs + [(index[names[i]], paletteIndex)];
        paletteIndex := paletteIndex + 1;
        if paletteIndex == paletteSize {
          paletteIndex := 0;
        }
      }
      i := i + 1;
    }
    assert names[..i] == names;
  }

  /**
   * The stop loops of Render: the names of the dictionary's stops that have
   * buses collected in `order`, sorted, and each one's stop (GetStop of a
   * dictionary key is its entry).
   */
  method StopLoops(stops: seq<Stop>, index: map<string, nat>, order: seq<string>) returns (drawn: seq<nat>)
    requires IndexWithin(index, |stops|)
    ensures drawn == DrawnStops(stops, index, order)
  {
    var served := CollectServed(stops, index, order);
    var sorted := Sort(served);
    assert sorted == SortedServed(stops, index, order);
    drawn := LookUpServed(index, sorted);
  }

  /** The last stop loop of Render: the stop of each sorted name. */
  method LookUpServed(index: map<string, nat>, sorted: seq<string>) returns (drawn: seq<nat>)
    requires forall x :: x in sorted ==> x in index
    ensures |drawn| == |sorted| && forall k :: 0 <= k < |sorted| ==> drawn[k] == index[sorted[k]]
  {
    drawn := [];
    var j := 0;
    while j < |sorted|
      invariant j <= |sorted| && |drawn| == j && forall k :: 0 <= k < j ==> drawn[k] == index[sorted[k]]
    {
      assert sorted[j] in sorted;
      drawn := drawn + [index[sorted[j]]];
      j := j + 1;
    }
  }

  /** The first stop loop of Render: the names of the dictionary's stops that have buses, in `order`. */
  method CollectServed(stops: seq<Stop>, index: map<string, nat>, order: seq<string>) returns (served: seq<string>)
    requires IndexWithin(index, |stops|)
    ensures served == Filter(order, IsServed(stops, index))
  {
    ghost var p := IsServed(stops, index);
    served := [];
    var i := 0;
    while i < |order|
      invariant i <= |order| && served == Filter(order[..i], p)
    {
      FilterNext(order, p, i);
      if order[i] in index && |stops[index[order[i]]].buses| > 0 {
        served := served + [order[i]];
      }
      i := i + 1;
    }
    assert order[..i] == order;
  }
}
