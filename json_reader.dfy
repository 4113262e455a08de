/**
 * The JSON request reader (transport-catalogue/json_reader.cpp). It sorts the
 * base requests of a document into stops and buses and loads them into the
 * catalogue (all stops, then every stop's road distances, then all buses),
 * collects the statistics requests, and reads the colours of the render
 * settings. `dict.at(key)` throws out_of_range on a missing key and every
 * As* accessor throws logic_error on a wrong kind; where a try block catches
 * them the model goes on as the code after the catch does.
 */
module JsonReader {
  import opened Common
  import opened Catalogue
  import opened Json
  import Svg

  /** The dict a routed request holds; RouteRequests only keeps dicts. */
  function Fields(request: Node): map<string, Node> {
    if request.Dict? then request.entries else map[]
  }

  // ---------------------------------------------------------------------------
  // ParseNodeBase: routing the base requests (json_reader.cpp:64-90).

  /** The "type" of a base request: a string under "type" in a dict, else none. */
  function RequestType(request: Node): Option<string> {
    if request.Dict? && "type" in request.entries && request.entries["type"].String? then Some(request.entries["type"].s)
    else None
  }

  predicate IsStopRequest(request: Node) {
    RequestType(request) == Some("Stop")
  }

  predicate IsBusRequest(request: Node) {
    RequestType(request) == Some("Bus")
  }

  /**
   * The loop of ParseNodeBase that puts every dict whose "type" is "Bus" in
   * one list and every dict whose "type" is "Stop" in the other; requests of
   * any other kind, without "type" or with another type are skipped.
   */
  method RouteRequests(requests: seq<Node>) returns (stops: seq<Node>, buses: seq<Node>)
    ensures stops == Filter(requests, IsStopRequest) && buses == Filter(requests, IsBusRequest)
  {
    stops, buses := [], [];
    var i := 0;
    while i < |requests|
      invariant i <= |requests|
      invariant stops == Filter(requests[..i], IsStopRequest) && buses == Filter(requests[..i], IsBusRequest)
    {
      assert requests[..i + 1][..i] == requests[..i];
      var request := requests[i];
      if request.Dict? && "type" in request.entries {
        var node := request.entries["type"];
        if node.String? {
          if node.s == "Bus" {
            buses := buses + [request];
          } else if node.s == "Stop" {
            stops := stops + [request];
          }
        }
      }
      i := i + 1;
    }
    assert requests[..i] == requests;
  }

  /**
   * The stop list holds exactly the requests of type "Stop" and the bus list
   * exactly those of type "Bus", each in the order of the document.
   */
  lemma RequestRouting(requests: seq<Node>, k: nat)
    requires k < |requests|
    ensures forall r :: r in Filter(requests, IsStopRequest) <==> r in requests && RequestType(r) == Some("Stop")
    ensures forall r :: r in Filter(requests, IsBusRequest) <==> r in requests && RequestType(r) == Some("Bus")
    ensures IsStopRequest(requests[k]) ==>
              var at := CountIf(requests[..k], IsStopRequest);
              at < |Filter(requests, IsStopRequest)| && Filter(requests, IsStopRequest)[at] == requests[k]
    ensures IsBusRequest(requests[k]) ==>
              var at := CountIf(requests[..k], IsBusRequest);
              at < |Filter(requests, IsBusRequest)| && Filter(requests, IsBusRequest)[at] == requests[k]
  {
    FilterKeeps(requests, IsStopRequest);
    FilterKeeps(requests, IsBusRequest);
    if IsStopRequest(requests[k]) {
      FilterAt(requests, IsStopRequest, k);
    }
    if IsBusRequest(requests[k]) {
      FilterAt(requests, IsBusRequest, k);
    }
  }

  // ---------------------------------------------------------------------------
  // ParseNodeStop (json_reader.cpp:235-247).

  /** The stop a stop request describes; None where "name", "latitude" or "longitude" throws. */
  function StopOf(d: map<string, Node>): (r: Option<Stop>)
    ensures r.Some? <==> "name" in d && d["name"].String? && "latitude" in d && AsDouble(d["latitude"]).Ok? &&
                         "longitude" in d && AsDouble(d["longitude"]).Ok?
    ensures r.Some? ==> r.value == Stop(d["name"].s, Coordinates(AsDouble(d["latitude"]).value, AsDouble(d["longitude"]).value), [])
  {
    match (At(d, "name"), At(d, "latitude"), At(d, "longitude"))
    case (Some(String(name)), Some(lat), Some(lng)) =>
      if AsDouble(lat).Ok? && AsDouble(lng).Ok? then
        Some(Stop(name, Coordinates(AsDouble(lat).value, AsDouble(lng).value), []))
      else None
    case _ => None
  }

  /** dict.at(key): the value, or None where `at` throws out_of_range. */
  function At(d: map<string, Node>, key: string): (r: Option<Node>)
    ensures r.Some? <==> key in d
    ensures r.Some? ==> r.value == d[key]
  {
    if key in d then Some(d[key]) else None
  }

  // ---------------------------------------------------------------------------
  // ParseNodeDistances (json_reader.cpp:283-311).

  /**
   * The distances of a "road_distances" dict visited in the order `keys`,
   * from `from` to each key's stop as GetStop finds it, up to the first value
   * that is not an int: AsInt throws there and the catch keeps what was pushed.
   */
  function Collected(names: seq<string>, from: StopRef, road: map<string, Node>, keys: seq<string>): seq<Distance>
    requires forall k :: 0 <= k < |keys| ==> keys[k] in road
  {
    if keys == [] || !road[keys[0]].Int? then []
    else [Distance(from, IndexOf(names, keys[0]), road[keys[0]].i)] + Collected(names, from, road, keys[1..])
  }

  /**
   * ParseNodeDistances of a stop request: None where reading "name" throws
   * (outside the try block); no distances when "road_distances" is missing
   * or not a dict; else its entries in the ascending key order of std::map.
   */
  function RoadDistancesOf(names: seq<string>, d: map<string, Node>): Option<seq<Distance>> {
    if !("name" in d && d["name"].String?) then None
    else if "road_distances" in d && d["road_distances"].Dict? then
      var road := d["road_distances"].entries;
      Some(Collected(names, IndexOf(names, d["name"].s), road, Ascending(road.Keys)))
    else Some([])
  }

  /**
   * The collected distances all start at `from`; the k-th goes to the k-th
   * key's stop with that key's value; all keys are taken exactly when every
   * value is an int, and otherwise the first key not taken holds a non-int.
   */
  lemma {:induction false} CollectedShape(names: seq<string>, from: StopRef, road: map<string, Node>, keys: seq<string>)
    requires forall k :: 0 <= k < |keys| ==> keys[k] in road
    ensures var r := Collected(names, from, road, keys);
            && |r| <= |keys|
            && (forall k :: 0 <= k < |r| ==> road[keys[k]].Int? && r[k] == Distance(from, IndexOf(names, keys[k]), road[keys[k]].i))
            && (|r| < |keys| ==> !road[keys[|r|]].Int?)
  {
    if keys != [] && road[keys[0]].Int? {
      CollectedShape(names, from, road, keys[1..]);
    }
  }

  /**
   * One Distance per "road_distances" entry, all from the stop itself, in
   * ascending destination-name order, when every value is an int.
   */
  lemma RoadDistancesInKeyOrder(names: seq<string>, d: map<string, Node>)
    requires "name" in d && d["name"].String? && "road_distances" in d && d["road_distances"].Dict?
    requires forall key :: key in d["road_distances"].entries ==> d["road_distances"].entries[key].Int?
    ensures var road := d["road_distances"].entries;
            var keys := Ascending(road.Keys);
            var r := RoadDistancesOf(names, d);
            && r.Some? && |r.value| == |keys| == |road| && Sorted(keys)
            && forall k :: 0 <= k < |r.value| ==>
                 r.value[k] == Distance(IndexOf(names, d["name"].s), IndexOf(names, keys[k]), road[keys[k]].i)
  {
    var road := d["road_distances"].entries;
    var keys := Ascending(road.Keys);
    CollectedShape(names, IndexOf(names, d["name"].s), road, keys);
    ElementsCardinality(keys);
    assert Elements(keys) == road.Keys;
  }

  /** One entry of the loop: the distance at the i-th key and then the rest, or nothing from a non-int on. */
  lemma CollectedAt(names: seq<string>, from: StopRef, road: map<string, Node>, keys: seq<string>, i: nat)
    requires forall k :: 0 <= k < |keys| ==> keys[k] in road
    requires i < |keys|
    ensures Collected(names, from, road, keys[i..]) ==
              if road[keys[i]].Int? then [Distance(from, IndexOf(names, keys[i]), road[keys[i]].i)] + Collected(names, from, road, keys[i + 1..])
              else []
  {
    assert keys[i..][0] == keys[i] && keys[i..][1..] == keys[i + 1..];
  }

  /** The loop of ParseNodeDistances over the entries of "road_distances", resolving names with GetStop. */
  method ParseNodeDistances(catalogue: TransportCatalogue, d: map<string, Node>) returns (r: Option<seq<Distance>>)
    requires catalogue.Valid()
    ensures r == RoadDistancesOf(StopNames(catalogue.stops), d)
  {
    ghost var names := StopNames(catalogue.stops);
    if !("name" in d && d["name"].String?) {
      return None;
    }
    var name := d["name"].s;
    if !("road_distances" in d && d["road_distances"].Dict?) {
      return Some([]);
    }
    var road := d["road_distances"].entries;
    var keys := Ascending(road.Keys);
    var from := catalogue.FindStop(name);
    var distances := CollectDistances(catalogue, names, from, road, keys);
    return Some(distances);
  }

  /** The for loop of ParseNodeDistances: one Distance per entry in key order, until AsInt throws. */
  method CollectDistances(catalogue: TransportCatalogue, ghost names: seq<string>, from: StopRef, road: map<string, Node>,
                          keys: seq<string>) returns (distances: seq<Distance>)
    requires catalogue.Valid() && names == StopNames(catalogue.stops)
    requires forall k :: 0 <= k < |keys| ==> keys[k] in road
    ensures distances == Collected(names, from, road, keys)
  {
    distances := [];
    var i := 0;
    while i < |keys|
      invariant i <= |keys|
      invariant distances + Collected(names, from, road, keys[i..]) == Collected(names, from, road, keys)
    {
      var value := road[keys[i]];
      CollectedAt(names, from, road, keys, i);
      if !value.Int? {
        return;
      }
      var to := catalogue.FindStop(keys[i]);
      PushThenRest(distances, Distance(from, to, value.i), Collected(names, from, road, keys[i + 1..]));
      distances := distances + [Distance(from, to, value.i)];
      i := i + 1;
    }
    assert keys[i..] == [];
  }

  // ---------------------------------------------------------------------------
  // ParseNodeBus (json_reader.cpp:249-281).

  /**
   * A bus request as ParseNodeBus reads it: the name, the flag, the stop
   * names pushed before the loop ended or threw, and whether the try block
   * ran to its end ("stops" is an array of strings only).
   */
  datatype BusRequest = BusRequest(name: string, isRoundtrip: bool, listed: seq<string>, complete: bool)

  /** The strings at the front of an array: the loop pushes them until AsString throws. */
  function LeadingStrings(items: seq<Node>): seq<string> {
    if items == [] || !items[0].String? then [] else [items[0].s] + LeadingStrings(items[1..])
  }

  /** The leading strings are the items' strings, up to the first item that is not one. */
  lemma {:induction false} LeadingStringsShape(items: seq<Node>)
    ensures var r := LeadingStrings(items);
            && |r| <= |items|
            && (forall k :: 0 <= k < |r| ==> items[k].String? && r[k] == items[k].s)
            && (|r| < |items| ==> !items[|r|].String?)
  {
    if items != [] && items[0].String? {
      LeadingStringsShape(items[1..]);
    }
  }

  /** One item of the loop: its string and the rest, or nothing from a non-string on. */
  lemma LeadingStringsAt(items: seq<Node>, i: nat)
    requires i < |items|
    ensures LeadingStrings(items[i..]) == if items[i].String? then [items[i].s] + LeadingStrings(items[i + 1..]) else []
  {
    assert items[i..][0] == items[i] && items[i..][1..] == items[i + 1..];
  }

  /** The catalogue's answer for every stop name of a route, as GetStop gives it: null for a name it lacks. */
  function Refs(names: seq<string>, route: seq<string>): (r: seq<StopRef>)
    ensures |r| == |route| && forall k :: 0 <= k < |route| ==> r[k] == IndexOf(names, route[k])
  {
    seq(|route|, k requires 0 <= k < |route| => IndexOf(names, route[k]))
  }

  /** Looking the stops up and running the line back commute. */
  lemma RefsOutAndBack(names: seq<string>, route: seq<string>)
    requires |route| >= 1
    ensures Refs(names, OutAndBack(route)) == OutAndBack(Refs(names, route))
  {
    var n := |route|;
    forall k | 0 <= k < 2 * n - 1 ensures Refs(names, OutAndBack(route))[k] == OutAndBack(Refs(names, route))[k] {
      if k >= n {
        assert OutAndBack(route)[k] == route[2 * n - 2 - k];
      }
    }
  }

  /**
   * The request a bus dict holds: None where "name" or "is_roundtrip" throws
   * (outside the try block); a missing or non-array "stops" is caught with
   * no stops listed.
   */
  function BusRequestOf(d: map<string, Node>): (r: Option<BusRequest>)
    ensures r.Some? <==> "name" in d && d["name"].String? && "is_roundtrip" in d && d["is_roundtrip"].Bool?
    ensures r.Some? ==> r.value.name == d["name"].s && r.value.isRoundtrip == d["is_roundtrip"].b
    ensures r.Some? ==> (r.value.complete <==>
                           ("stops" in d && d["stops"].Array? &&
                            forall k :: 0 <= k < |d["stops"].items| ==> d["stops"].items[k].String?))
    ensures r.Some? ==> |r.value.listed| <= (if "stops" in d && d["stops"].Array? then |d["stops"].items| else 0)
    ensures r.Some? && "stops" in d && d["stops"].Array? ==>
              forall k :: 0 <= k < |r.value.listed| ==> d["stops"].items[k].String? && r.value.listed[k] == d["stops"].items[k].s
  {
    if "name" in d && d["name"].String? && "is_roundtrip" in d && d["is_roundtrip"].Bool? then
      var isArray := "stops" in d && d["stops"].Array?;
      var items := if isArray then d["stops"].items else [];
      var listed := LeadingStrings(items);
      LeadingStringsShape(items);
      Some(BusRequest(d["name"].s, d["is_roundtrip"].b, listed, isArray && |listed| == |items|))
    else None
  }

  /**
   * The stop names of the bus ParseNodeBus returns: a line that is not a
   * roundtrip runs back to its first stop once the try block has completed;
   * a roundtrip, or a try block cut short, keeps the listed stops. The
   * expansion needs a stop to start from (see RouteAsWritten).
   */
  function RouteOf(req: BusRequest): (r: seq<string>)
    ensures req.complete && !req.isRoundtrip && req.listed != [] ==>
              |r| == 2 * |req.listed| - 1 && r[..|req.listed|] == req.listed &&
              forall k :: 0 <= k < |r| ==> r[k] == r[|r| - 1 - k]
    ensures !(req.complete && !req.isRoundtrip) || req.listed == [] ==> r == req.listed
  {
    if req.complete && !req.isRoundtrip && req.listed != [] then OutAndBack(req.listed) else req.listed
  }

  /**
   * The route as json_reader.cpp:266-271 computes it: `size = stops.size() - 1u`
   * in a size_t, then stops[i - 1] is pushed for i from size down to 1. None
   * when the first read, stops[size - 1], is past the end.
   */
  function RouteAsWritten(req: BusRequest): Option<seq<string>> {
    if !(req.complete && !req.isRoundtrip) then Some(req.listed)
    else
      var size := SizeT(|req.listed| - 1);
      if size > |req.listed| then None
      else Some(req.listed + Reverse(req.listed[..size]))
  }

  /**
   * A complete request that is not a roundtrip and lists no stops: `size`
   * wraps to 2^64 - 1 and the loop reads far past the end of the empty vector.
   */
  lemma EmptyStopsOverrun(name: string)
    ensures var d := map["name" := String(name), "is_roundtrip" := Bool(false), "stops" := Array([])];
            && BusRequestOf(d) == Some(BusRequest(name, false, [], true))
            && RouteAsWritten(BusRequestOf(d).value) == None
  {
    var d := map["name" := String(name), "is_roundtrip" := Bool(false), "stops" := Array([])];
    assert d["stops"].items == [];
  }

  /** With a stop to start from, the loop as written computes RouteOf. */
  lemma RouteAsWrittenAgrees(req: BusRequest)
    requires |req.listed| <= SizeTModulus
    requires !(req.complete && !req.isRoundtrip) || req.listed != []
    ensures RouteAsWritten(req) == Some(RouteOf(req))
  {
    if req.complete && !req.isRoundtrip {
      assert SizeT(|req.listed| - 1) == |req.listed| - 1;
    }
  }

  /**
   * What ParseNodeBus returns for a bus dict, against the catalogue's stop
   * names: the name, the catalogue's answer for every stop of the route, and
   * the flag; None where it throws.
   */
  function BusRead(names: seq<string>, d: map<string, Node>): Option<(string, seq<StopRef>, bool)> {
    match BusRequestOf(d)
    case None => None
    case Some(req) => Some((req.name, Refs(names, RouteOf(req)), req.isRoundtrip))
  }

  /**
   * ParseNodeBus: the name and flag, then GetStop of every listed stop, then
   * the way back for a line that is not a roundtrip; None where it throws.
   */
  method ParseNodeBus(catalogue: TransportCatalogue, d: map<string, Node>) returns (r: Option<(string, seq<StopRef>, bool)>)
    requires catalogue.Valid()
    ensures r == BusRead(StopNames(catalogue.stops), d)
  {
    if !("name" in d && d["name"].String?) || !("is_roundtrip" in d && d["is_roundtrip"].Bool?) {
      return None;
    }
    var name := d["name"].s;
    var isRoundtrip := d["is_roundtrip"].b;
    var stops: seq<StopRef> := [];
    var complete := false;
    if "stops" in d && d["stops"].Array? {
      stops, complete := LookUpStops(catalogue, d["stops"].items);
    }
    ghost var req := BusRequestOf(d).value;
    assert stops == Refs(StopNames(catalogue.stops), req.listed) && req.complete == complete;
    if complete && !isRoundtrip && |stops| >= 1 {
      RefsOutAndBack(StopNames(catalogue.stops), req.listed);
      stops := ExpandOutAndBack(stops);
    }
    return Some((name, stops, isRoundtrip));
  }

  /**
   * The loop of ParseNodeBus over "stops": GetStop of each name until an item
   * is not a string; `complete` when every item was one.
   */
  method LookUpStops(catalogue: TransportCatalogue, items: seq<Node>) returns (stops: seq<StopRef>, complete: bool)
    requires catalogue.Valid()
    ensures stops == Refs(StopNames(catalogue.stops), LeadingStrings(items))
    ensures complete <==> |LeadingStrings(items)| == |items|
  {
    ghost var names := StopNames(catalogue.stops);
    ghost var taken: seq<string> := [];
    stops := [];
    var i := 0;
    while i < |items|
      invariant i <= |items|
      invariant taken + LeadingStrings(items[i..]) == LeadingStrings(items)
      invariant |taken| == i && stops == Refs(names, taken)
    {
      LeadingStringsAt(items, i);
      if !items[i].String? {
        LeadingStringsShape(items);
        return stops, false;
      }
      var stop := catalogue.FindStop(items[i].s);
      PushThenRest(taken, items[i].s, LeadingStrings(items[i + 1..]));
      assert Refs(names, taken + [items[i].s]) == stops + [stop];
      stops := stops + [stop];
      taken := taken + [items[i].s];
      i := i + 1;
    }
    assert items[i..] == [];
    return stops, true;
  }



  // ---------------------------------------------------------------------------
  // The three loading loops of ParseNodeBase (json_reader.cpp:92-104).

  /** AddStop of what ParseNodeStop reads; a throw leaves ParseNodeBase. */
  function StopStep(ctx: (), request: Node): Step<Stop> {
    match StopOf(Fields(request))
    case None => Ends(Thrown)
    case Some(stop) => Adds([stop])
  }

  /** AddDistance of every distance ParseNodeDistances reads; a throw leaves ParseNodeBase. */
  function DistanceStep(names: seq<string>, request: Node): Step<Distance> {
    match RoadDistancesOf(names, Fields(request))
    case None => Ends(Thrown)
    case Some(ds) => Adds(ds)
  }

  /** The stop indices of references none of which is null. */
  function Present(refs: seq<StopRef>): (r: seq<nat>)
    requires None !in refs
    ensures |r| == |refs| && forall j :: 0 <= j < |refs| ==> refs[j] == Some(r[j])
  {
    if refs == [] then [] else [refs[0].value] + Present(refs[1..])
  }

  /**
   * AddBus of what ParseNodeBus reads: a throw leaves ParseNodeBase, and a
   * stop GetStop does not find is a null pointer AddBus dereferences. A bus
   * without stops reads past the end of its route: in the way back for a
   * line that is not a roundtrip (EmptyStopsOverrun), otherwise in AddBus's
   * route measures (EmptyRouteOverruns).
   */
  function BusStep(loaded: (seq<string>, DistanceTable), request: Node): Step<Bus> {
    match BusRead(loaded.0, Fields(request))
    case None => Ends(Thrown)
    case Some((name, refs, isRoundtrip)) =>
      if refs == [] || None in refs then Ends(Undefined)
      else Adds([Bus(name, Present(refs), isRoundtrip, RouteDistance(loaded.1, Present(refs)))])
  }

  /** A bus request AddBus can take: at least one stop listed, and every stop of its route known. */
  predicate Loadable(names: seq<string>, req: BusRequest) {
    req.listed != [] && Known(names, RouteOf(req))
  }

  /** The way back as written overruns only a list without stops. */
  lemma RouteOverrunsOnlyEmpty(req: BusRequest)
    ensures RouteAsWritten(req).None? ==> req.listed == []
  {
    if req.listed != [] && req.complete && !req.isRoundtrip {
      assert SizeT(|req.listed| - 1) <= |req.listed| - 1;
    }
  }

  /** The looked-up route of a request is empty or holds a null stop exactly when the request is not Loadable. */
  lemma RefsLoadable(names: seq<string>, req: BusRequest)
    ensures var refs := Refs(names, RouteOf(req));
            && ((refs == [] || None in refs) <==> !Loadable(names, req))
            && (Loadable(names, req) ==> Present(refs) == ResolvedStops(names, RouteOf(req)))
  {
    var route := RouteOf(req);
    var refs := Refs(names, route);
    assert |refs| == |route|;
    assert route == [] <==> req.listed == [];
    if None in refs {
      var j :| 0 <= j < |refs| && refs[j] == None;
      assert route[j] !in names;
    } else if refs != [] {
      forall j | 0 <= j < |route| ensures route[j] in names {
        assert refs[j] in refs;
      }
      assert Present(refs) == ResolvedStops(names, route);
    }
  }

  /**
   * A bus request that does not throw is undefined exactly when it lists no
   * stop or its route names a stop the catalogue lacks, and otherwise adds
   * the route resolved by name and measured.
   */
  lemma BusStepResolves(names: seq<string>, table: DistanceTable, request: Node)
    requires BusRequestOf(Fields(request)).Some?
    ensures var req := BusRequestOf(Fields(request)).value;
            var step := BusStep((names, table), request);
            && (step == Ends(Undefined) <==> req.listed == [] || !Known(names, RouteOf(req)))
            && (RouteAsWritten(req).None? ==> step == Ends(Undefined))
            && (Loadable(names, req) ==> step == Adds([AddedBus(names, table, (req.name, RouteOf(req)), req.isRoundtrip)]))
  {
    var req := BusRequestOf(Fields(request)).value;
    var refs := Refs(names, RouteOf(req));
    assert BusRead(names, Fields(request)) == Some((req.name, refs, req.isRoundtrip));
    RouteOverrunsOnlyEmpty(req);
    RefsLoadable(names, req);
  }

  /**
   * A bus with an empty "stops" array ends the bus pass as undefined, whether
   * it is a roundtrip (EmptyRouteOverruns) or not (EmptyStopsOverrun).
   */
  lemma EmptyBusUndefined(names: seq<string>, table: DistanceTable, name: string, isRoundtrip: bool)
    ensures var request := Dict(map["type" := String("Bus"), "name" := String(name),
                                    "is_roundtrip" := Bool(isRoundtrip), "stops" := Array([])]);
            BusStep((names, table), request) == Ends(Undefined)
  {
    var d := map["type" := String("Bus"), "name" := String(name), "is_roundtrip" := Bool(isRoundtrip), "stops" := Array([])];
    assert d["name"] == String(name) && d["is_roundtrip"] == Bool(isRoundtrip) && d["stops"].items == [];
    BusStepResolves(names, table, Dict(d));
  }

  /**
   * The stops load exactly when every stop request has a string name and
   * numeric coordinates, and then the k-th stop added is the k-th request's.
   */
  lemma StopsLoaded(requests: seq<Node>)
    ensures Pass(requests, (), StopStep).0 == Loaded <==> forall k :: 0 <= k < |requests| ==> StopOf(Fields(requests[k])).Some?
    ensures Pass(requests, (), StopStep).0 == Loaded ==>
              var stops := Pass(requests, (), StopStep).1;
              |stops| == |requests| && forall k :: 0 <= k < |requests| ==> stops[k] == StopOf(Fields(requests[k])).value
  {
    if forall k :: 0 <= k < |requests| ==> StopOf(Fields(requests[k])).Some? {
      PassOnes(requests, (), StopStep);
    } else {
      var k :| 0 <= k < |requests| && StopOf(Fields(requests[k])).None?;
      PassEnds(requests, (), StopStep, k);
    }
  }

  /** Once the stops have loaded, reading the distances of the same requests never throws. */
  lemma DistancesAfterStops(names: seq<string>, requests: seq<Node>)
    requires Pass(requests, (), StopStep).0 == Loaded
    ensures Pass(requests, names, DistanceStep).0 == Loaded
  {
    StopsLoaded(requests);
    PassFinishes(requests, names, DistanceStep);
  }

  /**
   * The buses load exactly when every bus request has a string name and a
   * bool flag, lists a stop, and its route names only known stops; then the
   * k-th bus added is the k-th request's route, resolved and measured.
   */
  lemma BusesLoaded(names: seq<string>, table: DistanceTable, requests: seq<Node>)
    ensures var r := Pass(requests, (names, table), BusStep);
            r.0 == Loaded <==>
              forall k :: 0 <= k < |requests| ==>
                BusRequestOf(Fields(requests[k])).Some? && Loadable(names, BusRequestOf(Fields(requests[k])).value)
    ensures var r := Pass(requests, (names, table), BusStep);
            r.0 == Loaded ==>
              |r.1| == |requests| &&
              forall k :: 0 <= k < |requests| ==>
                var req := BusRequestOf(Fields(requests[k])).value;
                r.1[k] == AddedBus(names, table, (req.name, RouteOf(req)), req.isRoundtrip)
  {
    if forall k :: 0 <= k < |requests| ==>
         BusRequestOf(Fields(requests[k])).Some? && Loadable(names, BusRequestOf(Fields(requests[k])).value) {
      forall k | 0 <= k < |requests|
        ensures var req := BusRequestOf(Fields(requests[k])).value;
                BusStep((names, table), requests[k]) == Adds([AddedBus(names, table, (req.name, RouteOf(req)), req.isRoundtrip)])
      {
        BusStepResolves(names, table, requests[k]);
      }
      PassOnes(requests, (names, table), BusStep);
    } else {
      var k :| 0 <= k < |requests| &&
               !(BusRequestOf(Fields(requests[k])).Some? && Loadable(names, BusRequestOf(Fields(requests[k])).value));
      if BusRequestOf(Fields(requests[k])).Some? {
        BusStepResolves(names, table, requests[k]);
      }
      PassEnds(requests, (names, table), BusStep, k);
    }
  }

  /** How a pass goes on after a step: Loaded unless the step ends it. */
  function Finished<T>(step: Step<T>): Outcome {
    if step.Ends? then step.outcome else Loaded
  }

  /** The items a step adds: none if it ends the pass. */
  function Added<T>(step: Step<T>): seq<T> {
    if step.Ends? then [] else step.items
  }

  /** The first loading loop: AddStop of every stop request, in order, until one throws. */
  method LoadStops(catalogue: TransportCatalogue, requests: seq<Node>) returns (outcome: Outcome)
    requires catalogue.Valid()
    modifies catalogue
    ensures catalogue.Valid()
    ensures outcome == Pass(requests, (), StopStep).0
    ensures catalogue.stops == old(catalogue.stops) + Pass(requests, (), StopStep).1
    ensures catalogue.buses == old(catalogue.buses) && catalogue.busIndex == old(catalogue.busIndex)
    ensures catalogue.distances == old(catalogue.distances)
  {
    ghost var added: seq<Stop> := [];
    var i := 0;
    while i < |requests|
      invariant i <= |requests| && catalogue.Valid()
      invariant Pass(requests[..i], (), StopStep) == (Loaded, added)
      invariant catalogue.stops == old(catalogue.stops) + added
      invariant catalogue.buses == old(catalogue.buses) && catalogue.busIndex == old(catalogue.busIndex)
      invariant catalogue.distances == old(catalogue.distances)
    {
      PassNext(requests, (), StopStep, i);
      var stop := StopOf(Fields(requests[i]));
      if stop.None? {
        PassSettled(requests, (), StopStep, i + 1);
        return Thrown;
      }
      catalogue.AddStop(stop.value);
      AppendOne(old(catalogue.stops), added, stop.value);
      added := added + [stop.value];
      i := i + 1;
    }
    assert requests[..i] == requests;
    return Loaded;
  }

  /** The second loading loop: AddDistance of every distance of every stop request, in order. */
  method LoadDistances(catalogue: TransportCatalogue, requests: seq<Node>) returns (outcome: Outcome)
    requires catalogue.Valid()
    modifies catalogue
    ensures catalogue.Valid()
    ensures var r := Pass(requests, StopNames(old(catalogue.stops)), DistanceStep);
            outcome == r.0 && catalogue.distances == Recorded(old(catalogue.distances), r.1)
    ensures catalogue.stops == old(catalogue.stops) && catalogue.stopIndex == old(catalogue.stopIndex)
    ensures catalogue.buses == old(catalogue.buses) && catalogue.busIndex == old(catalogue.busIndex)
  {
    ghost var names := StopNames(catalogue.stops);
    ghost var done: seq<Distance> := [];
    var i := 0;
    while i < |requests|
      invariant i <= |requests| && catalogue.Valid()
      invariant Pass(requests[..i], names, DistanceStep) == (Loaded, done)
      invariant catalogue.distances == Recorded(old(catalogue.distances), done)
      invariant catalogue.stops == old(catalogue.stops) && catalogue.stopIndex == old(catalogue.stopIndex)
      invariant catalogue.buses == old(catalogue.buses) && catalogue.busIndex == old(catalogue.busIndex)
    {
      PassNext(requests, names, DistanceStep, i);
      var ds := ParseNodeDistances(catalogue, Fields(requests[i]));
      if ds.None? {
        PassSettled(requests, names, DistanceStep, i + 1);
        return Thrown;
      }
      RecordedConcat(old(catalogue.distances), done, ds.value);
      RecordDistances(catalogue, ds.value);
      done := done + ds.value;
      i := i + 1;
    }
    assert requests[..i] == requests;
    return Loaded;
  }

  /**
   * One pass of the third loading loop: ParseNodeBus, then AddBus unless it
   * threw, found a stop the catalogue lacks, or read no stop (the model
   * stops before the null dereference or the read past the end).
   */
  method LoadBus(catalogue: TransportCatalogue, request: Node) returns (outcome: Outcome)
    requires catalogue.Valid()
    modifies catalogue
    ensures catalogue.Valid()
    ensures var step := BusStep((StopNames(old(catalogue.stops)), old(catalogue.distances)), request);
            outcome == Finished(step) && catalogue.buses == old(catalogue.buses) + Added(step)
    ensures Places(catalogue.stops) == Places(old(catalogue.stops))
    ensures StopNames(catalogue.stops) == StopNames(old(catalogue.stops))
    ensures catalogue.distances == old(catalogue.distances)
  {
    var r := ParseNodeBus(catalogue, Fields(request));
    if r.None? {
      return Thrown;
    }
    var (name, refs, isRoundtrip) := r.value;
    if |refs| == 0 || None in refs {
      return Undefined;
    }
    var stops := Present(refs);
    ghost var before := catalogue.stops;
    catalogue.AddBus(Bus(name, stops, isRoundtrip, 0));
    WithVisitsPlaces(before, |old(catalogue.buses)|, stops);
    return Loaded;
  }

  /** The third loading loop: AddBus of every bus request, in order, until one throws or meets an unknown stop. */
  method LoadBuses(catalogue: TransportCatalogue, requests: seq<Node>) returns (outcome: Outcome)
    requires catalogue.Valid()
    modifies catalogue
    ensures catalogue.Valid()
    ensures var r := Pass(requests, (StopNames(old(catalogue.stops)), old(catalogue.distances)), BusStep);
            outcome == r.0 && catalogue.buses == old(catalogue.buses) + r.1
    ensures Places(catalogue.stops) == Places(old(catalogue.stops))
    ensures catalogue.distances == old(catalogue.distances)
  {
    ghost var ctx := (StopNames(catalogue.stops), catalogue.distances);
    ghost var loaded: seq<Bus> := [];
    var i := 0;
    while i < |requests|
      invariant i <= |requests| && catalogue.Valid()
      invariant Pass(requests[..i], ctx, BusStep) == (Loaded, loaded)
      invariant catalogue.buses == old(catalogue.buses) + loaded
      invariant Places(catalogue.stops) == Places(old(catalogue.stops)) && StopNames(catalogue.stops) == ctx.0
      invariant catalogue.distances == ctx.1
    {
      ghost var step := BusStep(ctx, requests[i]);
      outcome := LoadBus(catalogue, requests[i]);
      if outcome != Loaded {
        assert Pass(requests, ctx, BusStep) == (outcome, loaded) by {
          PassNext(requests, ctx, BusStep, i);
          PassSettled(requests, ctx, BusStep, i + 1);
        }
        return;
      }
      assert Pass(requests[..i + 1], ctx, BusStep) == (Loaded, loaded + step.items) by {
        PassNext(requests, ctx, BusStep, i);
      }
      assert catalogue.buses == old(catalogue.buses) + (loaded + step.items) by {
        AppendOne(old(catalogue.buses), loaded, step.items[0]);
      }
      loaded := loaded + step.items;
      i := i + 1;
    }
    assert requests[..i] == requests;
    return Loaded;
  }

  /**
   * What ParseNodeBase does to the catalogue: the requests routed, the stop
   * requests' stops added, then their distances recorded against the stop
   * names by then, then the buses added against those names and distances;
   * a pass that ends stops everything after it, keeping what it added.
   */
  ghost predicate BaseLoaded(stops0: seq<Stop>, table0: DistanceTable, buses0: seq<Bus>, requests: seq<Node>,
                             outcome: Outcome, stops: seq<Stop>, table: DistanceTable, buses: seq<Bus>)
  {
    var stopRequests := Filter(requests, IsStopRequest);
    var busRequests := Filter(requests, IsBusRequest);
    var (o1, added) := Pass(stopRequests, (), StopStep);
    var names := StopNames(stops0 + added);
    var (o2, ds) := Pass(stopRequests, names, DistanceStep);
    var t := Recorded(table0, ds);
    var (o3, bs) := Pass(busRequests, (names, t), BusStep);
    && Places(stops) == Places(stops0 + added)
    && (o1 != Loaded ==> outcome == o1 && table == table0 && buses == buses0)
    && (o1 == Loaded && o2 != Loaded ==> outcome == o2 && table == t && buses == buses0)
    && (o1 == Loaded && o2 == Loaded ==> outcome == o3 && table == t && buses == buses0 + bs)
  }

  /**
   * ParseNodeBase: nothing for a root that is not an array; else the requests
   * routed, then all stops, all distances and all buses loaded in that order.
   */
  method ParseNodeBase(catalogue: TransportCatalogue, root: Node) returns (outcome: Outcome)
    requires catalogue.Valid()
    modifies catalogue
    ensures catalogue.Valid()
    ensures !root.Array? ==> outcome == Loaded && catalogue.stops == old(catalogue.stops) &&
                             catalogue.distances == old(catalogue.distances) && catalogue.buses == old(catalogue.buses)
    ensures root.Array? ==> BaseLoaded(old(catalogue.stops), old(catalogue.distances), old(catalogue.buses), root.items,
                                       outcome, catalogue.stops, catalogue.distances, catalogue.buses)
  {
    if !root.Array? {
      return Loaded;
    }
    var stops, buses := RouteRequests(root.items);
    outcome := LoadStops(catalogue, stops);
    if outcome != Loaded {
      return;
    }
    outcome := LoadDistances(catalogue, stops);
    if outcome != Loaded {
      return;
    }
    outcome := LoadBuses(catalogue, buses);
  }

  // ---------------------------------------------------------------------------
  // ParseNodeStat (json_reader.cpp:112-143).

  /** A statistics request (domain.h Stat): its id, its type and the name it asks about. */
  datatype Stat = Stat(id: int, requestType: string, name: string)

  /**
   * The stat a dict describes: None where "id", "type" or, unless the type
   * is "Map", "name" throws; a "Map" request gets the empty name.
   */
  function StatOf(d: map<string, Node>): (r: Option<Stat>)
    ensures r.Some? <==> "id" in d && d["id"].Int? && "type" in d && d["type"].String? &&
                         (d["type"].s != "Map" ==> "name" in d && d["name"].String?)
    ensures r.Some? ==> r.value.id == d["id"].i && r.value.requestType == d["type"].s
    ensures r.Some? ==> r.value.name == if r.value.requestType == "Map" then "" else d["name"].s
  {
    match (At(d, "id"), At(d, "type"))
    case (Some(Int(id)), Some(String(requestType))) =>
      if requestType == "Map" then Some(Stat(id, requestType, ""))
      else if "name" in d && d["name"].String? then Some(Stat(id, requestType, d["name"].s))
      else None
    case _ => None
  }

  /** One item of the stat array: a dict adds its stat or throws, anything else is skipped. */
  function StatStep(ctx: (), item: Node): Step<Stat> {
    if !item.Dict? then Adds([])
    else match StatOf(item.entries)
      case None => Ends(Thrown)
      case Some(stat) => Adds([stat])
  }

  /**
   * ParseNodeStat: nothing for a node that is not an array; else the stat of
   * every dict pushed in order, until one throws (out of ParseNodeStat, with
   * the stats pushed so far kept).
   */
  method ParseNodeStat(stats: seq<Stat>, node: Node) returns (result: seq<Stat>, outcome: Outcome)
    ensures !node.Array? ==> result == stats && outcome == Loaded
    ensures node.Array? ==> outcome == Pass(node.items, (), StatStep).0 &&
                            result == stats + Pass(node.items, (), StatStep).1
  {
    result := stats;
    if !node.Array? {
      return result, Loaded;
    }
    var items := node.items;
    ghost var read: seq<Stat> := [];
    var i := 0;
    while i < |items|
      invariant i <= |items|
      invariant Pass(items[..i], (), StatStep) == (Loaded, read) && result == stats + read
    {
      PassNext(items, (), StatStep, i);
      if items[i].Dict? {
        var stat := StatOf(items[i].entries);
        if stat.None? {
          PassSettled(items, (), StatStep, i + 1);
          return result, Thrown;
        }
        AppendOne(stats, read, stat.value);
        result := result + [stat.value];
        read := read + [stat.value];
      } else {
        assert read + [] == read;
      }
      i := i + 1;
    }
    assert items[..i] == items;
    return result, Loaded;
  }

  /**
   * When no stat request throws, there is one stat per dict of the array, in
   * order: the dict at k gives the stat after those of the dicts before it.
   */
  lemma {:induction false} StatsInOrder(items: seq<Node>)
    requires Pass(items, (), StatStep).0 == Loaded
    ensures var read := Pass(items, (), StatStep).1;
            && |read| == CountIf(items, IsMap)
            && forall k :: 0 <= k < |items| && items[k].Dict? ==>
                 && StatOf(items[k].entries).Some?
                 && CountIf(items[..k], IsMap) < |read|
                 && read[CountIf(items[..k], IsMap)] == StatOf(items[k].entries).value
    decreases |items|
  {
    if items != [] {
      var n := |items| - 1;
      var prefix := items[..n];
      assert Pass(prefix, (), StatStep).0 == Loaded;
      StatsInOrder(prefix);
      var before := Pass(prefix, (), StatStep).1;
      var read := Pass(items, (), StatStep).1;
      assert read == before + StatStep((), items[n]).items;
      forall k | 0 <= k < |items| && items[k].Dict?
        ensures StatOf(items[k].entries).Some? && CountIf(items[..k], IsMap) < |read| &&
                read[CountIf(items[..k], IsMap)] == StatOf(items[k].entries).value
      {
        if k < n {
          assert items[..k] == prefix[..k];
          assert prefix[k] == items[k];
        } else {
          assert items[..k] == prefix;
        }
      }
    }
  }

  // ---------------------------------------------------------------------------
  // ParseNodeRender (json_reader.cpp:145-230): the colours.

  /**
   * How reading one render setting ends: a value, a throw (a missing key or
   * a node of the wrong kind), or an index past the end of an array, which
   * is undefined behaviour.
   */
  datatype Read<T> = Got(value: T) | Threw | Overran

  /** The conversion of an int to uint8_t: the value modulo 256. */
  function Byte(i: int): (b: Svg.byte)
    ensures b as int == i % 256
    ensures 0 <= i < 256 ==> b as int == i
  {
    (i % 256) as Svg.byte
  }

  /** colors[k].AsInt() stored in a uint8_t. */
  function Channel(items: seq<Node>, k: nat): Read<Svg.byte> {
    if k >= |items| then Overran
    else if !items[k].Int? then Threw
    else Got(Byte(items[k].i))
  }

  /**
   * The colour a setting node gives: a string names one; an array reads its
   * red, green and blue channels in that order, then is Rgba with four items
   * and Rgb with three; an array of any other length and any other node give
   * no colour (the setting keeps its value).
   */
  function ColorOf(node: Node): Read<Option<Svg.Color>> {
    match node
    case String(s) => Got(Some(Svg.Named(s)))
    case Array(items) =>
      (match (Channel(items, 0), Channel(items, 1), Channel(items, 2))
       case (Got(red), Got(green), Got(blue)) =>
         if |items| == 4 then
           (match AsDouble(items[3])
            case Ok(opacity) => Got(Some(Svg.Rgba(red, green, blue, opacity)))
            case Fail(_) => Threw)
         else if |items| == 3 then Got(Some(Svg.Rgb(red, green, blue)))
         else Got(None)
       case (Overran, _, _) => Overran
       case (Threw, _, _) => Threw
       case (_, Overran, _) => Overran
       case (_, Threw, _) => Threw
       case (_, _, Overran) => Overran
       case (_, _, Threw) => Threw)
    case _ => Got(None)
  }

  /**
   * The arity rule of a colour array whose first three items are ints: three
   * items make Rgb of them, four make Rgba with the fourth as opacity (a
   * throw where it is not a number), and any other length adds no colour.
   */
  lemma ColorArity(items: seq<Node>)
    requires |items| >= 3 && items[0].Int? && items[1].Int? && items[2].Int?
    ensures var red, green, blue := Byte(items[0].i), Byte(items[1].i), Byte(items[2].i);
            && (|items| == 3 ==> ColorOf(Array(items)) == Got(Some(Svg.Rgb(red, green, blue))))
            && (|items| == 4 && items[3].Double? ==> ColorOf(Array(items)) == Got(Some(Svg.Rgba(red, green, blue, items[3].d))))
            && (|items| == 4 && items[3].Int? ==> ColorOf(Array(items)) == Got(Some(Svg.Rgba(red, green, blue, items[3].i as real))))
            && (|items| == 4 && !IsDouble(items[3]) ==> ColorOf(Array(items)) == Threw)
            && (|items| > 4 ==> ColorOf(Array(items)) == Got(None))
  {
  }

  /**
   * A colour array shorter than three items indexes past its end, unless an
   * item before the end already threw: the channels are read in order.
   */
  lemma ShortColorOverruns(items: seq<Node>)
    requires |items| < 3
    ensures ColorOf(Array(items)) == if exists k :: 0 <= k < |items| && !items[k].Int? then Threw else Overran
  {
    if exists k :: 0 <= k < |items| && !items[k].Int? {
      var k :| 0 <= k < |items| && !items[k].Int?;
      if k == 1 && items[0].Int? {
        assert Channel(items, 1) == Threw;
      }
    }
  }

  /** One item of color_palette: a colour is pushed, no colour is skipped, a throw or overrun ends the loop. */
  function PaletteStep(ctx: (), item: Node): Step<Svg.Color> {
    match ColorOf(item)
    case Got(None) => Adds([])
    case Got(Some(color)) => Adds([color])
    case Threw => Ends(Thrown)
    case Overran => Ends(Undefined)
  }

  /** The palette items that push a colour. */
  predicate Colored(item: Node) {
    ColorOf(item).Got? && ColorOf(item).value.Some?
  }

  /**
   * The color_palette loop: the colour of every item that gives one pushed
   * after the palette already there, in order, until an item throws or
   * overruns (the colours pushed so far kept).
   */
  method ParsePalette(palette: seq<Svg.Color>, items: seq<Node>) returns (result: seq<Svg.Color>, outcome: Outcome)
    ensures outcome == Pass(items, (), PaletteStep).0
    ensures result == palette + Pass(items, (), PaletteStep).1
  {
    result := palette;
    ghost var read: seq<Svg.Color> := [];
    var i := 0;
    while i < |items|
      invariant i <= |items|
      invariant Pass(items[..i], (), PaletteStep) == (Loaded, read) && result == palette + read
    {
      PassNext(items, (), PaletteStep, i);
      var color := ColorOf(items[i]);
      match color {
        case Got(None) =>
          assert read + [] == read;
        case Got(Some(c)) =>
          AppendOne(palette, read, c);
          result := result + [c];
          read := read + [c];
        case Threw =>
          PassSettled(items, (), PaletteStep, i + 1);
          return result, Thrown;
        case Overran =>
          PassSettled(items, (), PaletteStep, i + 1);
          return result, Undefined;
      }
      i := i + 1;
    }
    assert items[..i] == items;
    return result, Loaded;
  }

  /**
   * When the palette loop finishes, it pushed one colour per item that gives
   * one, in order: the item at k gives the colour after those of the
   * colour-giving items before it.
   */
  lemma {:induction false} PaletteInOrder(items: seq<Node>)
    requires Pass(items, (), PaletteStep).0 == Loaded
    ensures var read := Pass(items, (), PaletteStep).1;
            && |read| == CountIf(items, Colored)
            && forall k :: 0 <= k < |items| && Colored(items[k]) ==>
                 && CountIf(items[..k], Colored) < |read|
                 && Some(read[CountIf(items[..k], Colored)]) == ColorOf(items[k]).value
    decreases |items|
  {
    if items != [] {
      var n := |items| - 1;
      var prefix := items[..n];
      assert Pass(prefix, (), PaletteStep).0 == Loaded;
      PaletteInOrder(prefix);
      var read := Pass(items, (), PaletteStep).1;
      assert read == Pass(prefix, (), PaletteStep).1 + PaletteStep((), items[n]).items;
      forall k | 0 <= k < |items| && Colored(items[k])
        ensures CountIf(items[..k], Colored) < |read| &&
                Some(read[CountIf(items[..k], Colored)]) == ColorOf(items[k]).value
      {
        if k < n {
          assert items[..k] == prefix[..k];
          assert prefix[k] == items[k];
        } else {
          assert items[..k] == prefix;
        }
      }
    }
  }

  /** The colour settings of map_renderer::RenderSettings (map_renderer.h:94-96) that ParseNodeRender reads. */
  datatype RenderColors = RenderColors(underlayerColor: Svg.Color, palette: seq<Svg.Color>)

  /** A setting read with AsDouble: a throw where the key is missing or holds no number. */
  function NumberSetting(m: map<string, Node>, key: string): Outcome {
    if key in m && IsDouble(m[key]) then Loaded else Thrown
  }

  /** A setting read with AsInt: a throw where the key is missing or holds no int. */
  function IntSetting(m: map<string, Node>, key: string): Outcome {
    if key in m && m[key].Int? then Loaded else Thrown
  }

  /**
   * A label offset: an array gives its first two items as doubles (an array
   * of fewer than two indexes past its end), any other node is ignored.
   * C++ leaves the order of `make_pair`'s arguments unspecified, so a
   * one-item array whose item is not a number may throw from `a[0]` before
   * `a[1]` is read; the model takes the read past the end as undefined.
   */
  function OffsetSetting(m: map<string, Node>, key: string): Outcome {
    if key !in m then Thrown
    else if !m[key].Array? then Loaded
    else if |m[key].items| < 2 then Undefined
    else if IsDouble(m[key].items[0]) && IsDouble(m[key].items[1]) then Loaded
    else Thrown
  }

  /** The outcome of statements run in order: the first that does not complete. */
  function FirstEnd(outcomes: seq<Outcome>): (r: Outcome)
    ensures r == Loaded <==> forall k :: 0 <= k < |outcomes| ==> outcomes[k] == Loaded
    ensures r != Loaded ==> r in outcomes
  {
    if outcomes == [] then Loaded
    else if outcomes[0] != Loaded then outcomes[0]
    else FirstEnd(outcomes[1..])
  }

  /** The settings ParseNodeRender reads before underlayer_color, in its order. */
  function ScalarsRead(m: map<string, Node>): Outcome {
    FirstEnd([NumberSetting(m, "width"), NumberSetting(m, "height"), NumberSetting(m, "padding"),
              NumberSetting(m, "line_width"), NumberSetting(m, "stop_radius"), IntSetting(m, "bus_label_font_size"),
              OffsetSetting(m, "bus_label_offset"), IntSetting(m, "stop_label_font_size"),
              OffsetSetting(m, "stop_label_offset")])
  }

  /**
   * The colours after ParseNodeRender reads a render_settings dict, and how
   * its try block ended: a throw is caught and keeps every setting made
   * before it; the underlayer colour is replaced only by a colour; the
   * palette items' colours are pushed after the palette already there.
   */
  function RenderRead(colors: RenderColors, m: map<string, Node>): (Outcome, RenderColors) {
    if ScalarsRead(m) != Loaded then (ScalarsRead(m), colors)
    else if "underlayer_color" !in m then (Thrown, colors)
    else match ColorOf(m["underlayer_color"])
      case Threw => (Thrown, colors)
      case Overran => (Undefined, colors)
      case Got(color) =>
        var updated := colors.(underlayerColor := if color.Some? then color.value else colors.underlayerColor);
        if NumberSetting(m, "underlayer_width") != Loaded || "color_palette" !in m then (Thrown, updated)
        else if !m["color_palette"].Array? then (Loaded, updated)
        else
          var (outcome, added) := Pass(m["color_palette"].items, (), PaletteStep);
          (outcome, updated.(palette := colors.palette + added))
  }

  /**
   * ParseNodeRender: nothing for a node that is not a dict; else the
   * settings read in order, the palette with the loop of ParsePalette.
   */
  method ParseNodeRender(colors: RenderColors, node: Node) returns (result: RenderColors, outcome: Outcome)
    ensures !node.Dict? ==> result == colors && outcome == Loaded
    ensures node.Dict? ==> (outcome, result) == RenderRead(colors, node.entries)
  {
    result := colors;
    if !node.Dict? {
      return result, Loaded;
    }
    var m := node.entries;
    outcome := ScalarsRead(m);
    if outcome != Loaded {
      return;
    }
    if "underlayer_color" !in m {
      return result, Thrown;
    }
    var color := ColorOf(m["underlayer_color"]);
    match color {
      case Threw =>
        return result, Thrown;
      case Overran =>
        return result, Undefined;
      case Got(c) =>
        if c.Some? {
          result := result.(underlayerColor := c.value);
        }
    }
    if NumberSetting(m, "underlayer_width") != Loaded || "color_palette" !in m {
      return result, Thrown;
    }
    if m["color_palette"].Array? {
      var palette;
      palette, outcome := ParsePalette(result.palette, m["color_palette"].items);
      result := result.(palette := palette);
    }
  }

  /**
   * ParseNodeRender only ever appends to the palette; when the palette loop
   * runs to its end, it adds exactly one colour per colour-giving item.
   */
  lemma RenderPaletteGrows(colors: RenderColors, m: map<string, Node>)
    ensures var (outcome, result) := RenderRead(colors, m);
            && colors.palette <= result.palette
            && (outcome == Loaded && "color_palette" in m && m["color_palette"].Array? ==>
                  |result.palette| == |colors.palette| + CountIf(m["color_palette"].items, Colored))
  {
    var (outcome, result) := RenderRead(colors, m);
    if outcome == Loaded && "color_palette" in m && m["color_palette"].Array? {
      PaletteInOrder(m["color_palette"].items);
    }
  }

  // ---------------------------------------------------------------------------
  // ParseNode (json_reader.cpp:23-55).

  /**
   * ParseNode: nothing for a root that is not a dict; else base_requests,
   * stat_requests and render_settings each read in its own try block, so a
   * missing section or a throw inside one leaves the others to run.  The
   * outcomes are those of the three sections; after undefined behaviour in
   * base_requests nothing more is read.
   */
  method ParseNode(catalogue: TransportCatalogue, stats: seq<Stat>, colors: RenderColors, root: Node)
    returns (statsRead: seq<Stat>, colorsRead: RenderColors, base: Outcome, stat: Outcome, render: Outcome)
    requires catalogue.Valid()
    modifies catalogue
    ensures catalogue.Valid()
    ensures !root.Dict? || "base_requests" !in root.entries || !root.entries["base_requests"].Array? ==>
              catalogue.stops == old(catalogue.stops) && catalogue.distances == old(catalogue.distances) &&
              catalogue.buses == old(catalogue.buses)
    ensures !root.Dict? ==> statsRead == stats && colorsRead == colors
    ensures root.Dict? ==> var m := root.entries;
            && ("base_requests" !in m ==> base == Thrown)
            && ("base_requests" in m && m["base_requests"].Array? ==>
                  BaseLoaded(old(catalogue.stops), old(catalogue.distances), old(catalogue.buses), m["base_requests"].items,
                             base, catalogue.stops, catalogue.distances, catalogue.buses))
    ensures root.Dict? && base != Undefined ==> var m := root.entries;
            && ("stat_requests" !in m ==> statsRead == stats && stat == Thrown)
            && ("stat_requests" in m && !m["stat_requests"].Array? ==> statsRead == stats && stat == Loaded)
            && ("stat_requests" in m && m["stat_requests"].Array? ==>
                  var (o, read) := Pass(m["stat_requests"].items, (), StatStep);
                  stat == o && statsRead == stats + read)
            && ("render_settings" !in m ==> colorsRead == colors && render == Thrown)
            && ("render_settings" in m && !m["render_settings"].Dict? ==> colorsRead == colors && render == Loaded)
            && ("render_settings" in m && m["render_settings"].Dict? ==>
                  (render, colorsRead) == RenderRead(colors, m["render_settings"].entries))
  {
    statsRead, colorsRead, base, stat, render := stats, colors, Loaded, Loaded, Loaded;
    if !root.Dict? {
      return;
    }
    var m := root.entries;
    if "base_requests" in m {
      base := ParseNodeBase(catalogue, m["base_requests"]);
    } else {
      base := Thrown;
    }
    if base == Undefined {
      return;
    }
    if "stat_requests" in m {
      statsRead, stat := ParseNodeStat(stats, m["stat_requests"]);
    } else {
      stat := Thrown;
    }
    if "render_settings" in m {
      colorsRead, render := ParseNodeRender(colors, m["render_settings"]);
    } else {
      render := Thrown;
    }
  }
}
