/**
 * The index-based encoding of the catalogue for storage: stops become ids
 * (their position), a bus becomes the list of its stops' ids, a road
 * distance becomes a pair of ids with its value, and a colour becomes a
 * tagged record. The protobuf messages are plain datatypes here.
 */
module Serialization {
  import opened Common
  import opened Catalogue
  import opened Svg
  import Router
  import Json
  import JsonReader

  const Uint32Modulus: int := 0x1_0000_0000

  datatype StopMessage = StopMessage(id: nat, name: string, latitude: real, longitude: real)
  datatype BusMessage = BusMessage(name: string, stops: seq<nat>, isRoundtrip: bool, routeLength: nat)
  datatype DistanceMessage = DistanceMessage(start: nat, end: nat, distance: int)
  datatype CatalogueMessage = CatalogueMessage(stops: seq<StopMessage>, buses: seq<BusMessage>,
                                               distances: seq<DistanceMessage>)

  datatype RgbMessage = RgbMessage(red: nat, green: nat, blue: nat)
  datatype RgbaMessage = RgbaMessage(red: nat, green: nat, blue: nat, opacity: real)
  /** The colour message: a "none" flag, optional rgb and rgba parts and a colour name. */
  datatype ColorMessage = ColorMessage(none: bool, rgb: Option<RgbMessage>, rgba: Option<RgbaMessage>, stringColor: string)

  datatype RoutingSettingsMessage = RoutingSettingsMessage(busWaitTime: real, busVelocity: real)

  // ---------------------------------------------------------------------------
  // Stop ids

  /** std::find_if by name: the position of the first stop named `name`, or the number of stops. */
  function FirstNamed(names: seq<string>, name: string): (r: nat)
    ensures r <= |names|
    ensures r < |names| ==> names[r] == name
    ensures forall k :: 0 <= k < r ==> names[k] != name
  {
    if names == [] then 0
    else if names[0] == name then 0
    else 1 + FirstNamed(names[1..], name)
  }

  /** CalculateDistance: the position FirstNamed finds, returned as a uint32_t. */
  function CalculateDistance(stops: seq<Stop>, name: string): (r: nat)
    ensures r < Uint32Modulus
    ensures |stops| < Uint32Modulus ==> r <= |stops| && (r < |stops| ==> stops[r].name == name)
    ensures |stops| < Uint32Modulus ==> forall k :: 0 <= k < r ==> stops[k].name != name
  {
    FirstNamed(StopNames(stops), name) % Uint32Modulus
  }

  /** Stop i is the one its name resolves to (the first stop under that name), as every GetStop result is. */
  predicate Canonical(names: seq<string>, i: nat)
    requires i < |names|
  {
    FirstNamed(names, names[i]) == i
  }

  /** Every stop of the route is a stop and the first under its name. */
  predicate CanonicalRoute(names: seq<string>, route: seq<nat>) {
    Within(route, |names|) && forall k :: 0 <= k < |route| ==> Canonical(names, route[k])
  }

  /** Both ends of every listed distance key are stops that are the first under their names. */
  predicate CanonicalKeys(stops: seq<Stop>, order: seq<(StopRef, StopRef)>) {
    forall k :: 0 <= k < |order| ==>
      && Resolved(order[k], |stops|)
      && Canonical(StopNames(stops), order[k].0.value)
      && Canonical(StopNames(stops), order[k].1.value)
  }

  /** GetStop finds exactly the stop FirstNamed finds. */
  lemma GetStopIsFirstNamed(c: TransportCatalogue, name: string)
    requires c.Valid()
    ensures c.GetStop(name) == if FirstNamed(StopNames(c.stops), name) < |c.stops|
                               then Some(FirstNamed(StopNames(c.stops), name)) else None
  {
    var names := StopNames(c.stops);
    var f := FirstNamed(names, name);
  }

  // ---------------------------------------------------------------------------
  // Encoding

  function EncodeStops(stops: seq<Stop>): seq<StopMessage> {
    seq(|stops|, k requires 0 <= k < |stops| =>
      StopMessage(k, stops[k].name, stops[k].coords.lat, stops[k].coords.lng))
  }

  /** Every entry of the route is below n. */
  predicate Within(route: seq<nat>, n: nat) {
    forall k :: 0 <= k < |route| ==> route[k] < n
  }

  function EncodeRoute(stops: seq<Stop>, route: seq<nat>): (r: seq<nat>)
    requires Within(route, |stops|)
    ensures |r| == |route| && (|stops| < Uint32Modulus ==> Within(r, |stops|))
  {
    seq(|route|, k requires 0 <= k < |route| => CalculateDistance(stops, stops[route[k]].name))
  }

  function EncodeBus(stops: seq<Stop>, bus: Bus): BusMessage
    requires Within(bus.stops, |stops|)
  {
    BusMessage(bus.name, EncodeRoute(stops, bus.stops), bus.isRoundtrip, bus.routeLength)
  }

  /** Both ends of a distance key are non-null stops of the catalogue (the encoder dereferences them). */
  predicate Resolved(key: (StopRef, StopRef), n: nat) {
    key.0.Some? && key.1.Some? && key.0.value < n && key.1.value < n
  }

  /**
   * A JSON stop request whose "road_distances" names a stop the catalogue
   * lacks records a distance key with a null end: the key is not Resolved,
   * and the encoder would dereference that null end.
   */
  lemma UnknownRoadEndUnresolved(names: seq<string>, table: DistanceTable, from: string, to: string, meters: int)
    requires to !in names
    requires (IndexOf(names, from), None) !in table
    ensures var request := Json.Dict(map["name" := Json.String(from),
                                         "road_distances" := Json.Dict(map[to := Json.Int(meters)])]);
            var key := (IndexOf(names, from), None);
            && JsonReader.DistanceStep(names, request) == Adds([Distance(key.0, key.1, meters)])
            && key in Recorded(table, [Distance(key.0, key.1, meters)])
            && !Resolved(key, |names|)
  {
    var road := map[to := Json.Int(meters)];
    assert Json.Ascending(road.Keys) == [to] by {
      var keys := Json.Ascending(road.Keys);
      assert road.Keys == {to};
      assert to in keys;
      assert forall k :: 0 <= k < |keys| ==> keys[k] in road.Keys;
    }
    var request := Json.Dict(map["name" := Json.String(from), "road_distances" := Json.Dict(road)]);
    var d := JsonReader.Fields(request);
    assert d["name"] == Json.String(from) && d["road_distances"] == Json.Dict(road);
    var ds := JsonReader.Collected(names, IndexOf(names, from), road, [to]);
    assert ds == [Distance(IndexOf(names, from), None, meters)] by {
      assert [to][1..] == [] && [to][0] == to && road[to].Int?;
      assert IndexOf(names, to) == None;
      assert JsonReader.Collected(names, IndexOf(names, from), road, []) == [];
    }
    assert JsonReader.RoadDistancesOf(names, d) == Some(ds);
  }

  function EncodeDistance(stops: seq<Stop>, table: DistanceTable, key: (StopRef, StopRef)): (r: DistanceMessage)
    requires key in table && Resolved(key, |stops|)
    ensures |stops| < Uint32Modulus ==> r.start <= key.0.value && r.end <= key.1.value
  {
    DistanceMessage(CalculateDistance(stops, stops[key.0.value].name),
                    CalculateDistance(stops, stops[key.1.value].name), table[key])
  }

  function EncodeDistances(stops: seq<Stop>, table: DistanceTable, order: seq<(StopRef, StopRef)>): (r: seq<DistanceMessage>)
    requires forall k :: 0 <= k < |order| ==> order[k] in table && Resolved(order[k], |stops|)
    ensures |r| == |order|
    ensures |stops| < Uint32Modulus ==> forall k :: 0 <= k < |r| ==> r[k].start < |stops| && r[k].end < |stops|
  {
    var r := seq(|order|, k requires 0 <= k < |order| => EncodeDistance(stops, table, order[k]));
    assert forall k :: 0 <= k < |order| ==> r[k] == EncodeDistance(stops, table, order[k]);
    assert forall k :: 0 <= k < |order| ==> Resolved(order[k], |stops|);
    assert forall k :: 0 <= k < |order| ==> order[k].0.Some?;
    r
  }

  /** SerializeTransportCatalogue for one bus: its stops' ids in riding order. */
  method SerializeBus(stops: seq<Stop>, bus: Bus) returns (m: BusMessage)
    requires Within(bus.stops, |stops|)
    ensures m == EncodeBus(stops, bus)
  {
    var ids: seq<nat> := [];
    var i := 0;
    while i < |bus.stops|
      invariant i <= |bus.stops|
      invariant |ids| == i && forall k :: 0 <= k < i ==> ids[k] == CalculateDistance(stops, stops[bus.stops[k]].name)
    {
      ids := ids + [CalculateDistance(stops, stops[bus.stops[i]].name)];
      i := i + 1;
    }
    m := BusMessage(bus.name, ids, bus.isRoundtrip, bus.routeLength);
  }

  /** The stop loop of SerializeTransportCatalogue, with its id counter. */
  method SerializeStops(stops: seq<Stop>) returns (messages: seq<StopMessage>)
    ensures messages == EncodeStops(stops)
  {
    messages := [];
    var id := 0;
    while id < |stops|
      invariant id <= |stops|
      invariant messages == EncodeStops(stops[..id])
    {
      messages := messages + [StopMessage(id, stops[id].name, stops[id].coords.lat, stops[id].coords.lng)];
      id := id + 1;
    }
    assert stops[..id] == stops;
  }

  /** The bus loop of SerializeTransportCatalogue. */
  method SerializeBuses(stops: seq<Stop>, buses: seq<Bus>) returns (messages: seq<BusMessage>)
    requires forall b :: 0 <= b < |buses| ==> Within(buses[b].stops, |stops|)
    ensures |messages| == |buses| && forall b :: 0 <= b < |buses| ==> messages[b] == EncodeBus(stops, buses[b])
  {
    messages := [];
    var i := 0;
    while i < |buses|
      invariant i <= |buses|
      invariant |messages| == i && forall b :: 0 <= b < i ==> messages[b] == EncodeBus(stops, buses[b])
    {
      var message := SerializeBus(stops, buses[i]);
      messages := messages + [message];
      i := i + 1;
    }
  }

  /** The distance loop of SerializeTransportCatalogue, in the order the hash map iterates. */
  method SerializeDistances(stops: seq<Stop>, table: DistanceTable, order: seq<(StopRef, StopRef)>)
      returns (messages: seq<DistanceMessage>)
    requires forall k :: 0 <= k < |order| ==> order[k] in table && Resolved(order[k], |stops|)
    ensures messages == EncodeDistances(stops, table, order)
  {
    messages := [];
    var i := 0;
    while i < |order|
      invariant i <= |order|
      invariant messages == EncodeDistances(stops, table, order[..i])
    {
      messages := messages + [EncodeDistance(stops, table, order[i])];
      i := i + 1;
    }
    assert order[..i] == order;
  }

  /**
   * SerializeTransportCatalogue: the stops with ids 0, 1, ... in catalogue
   * order, the buses in catalogue order, the distances in the order the
   * hash map iterates (`order`).
   */
  method SerializeTransportCatalogue(catalogue: TransportCatalogue, order: seq<(StopRef, StopRef)>)
      returns (m: CatalogueMessage)
    requires catalogue.Valid()
    requires Enumerates(order, catalogue.distances.Keys)
    requires forall k :: 0 <= k < |order| ==> Resolved(order[k], |catalogue.stops|)
    ensures forall b :: 0 <= b < |catalogue.buses| ==> Within(catalogue.buses[b].stops, |catalogue.stops|)
    ensures m.stops == EncodeStops(catalogue.stops)
    ensures |m.buses| == |catalogue.buses| &&
            forall b :: 0 <= b < |catalogue.buses| ==> m.buses[b] == EncodeBus(catalogue.stops, catalogue.buses[b])
    ensures m.distances == EncodeDistances(catalogue.stops, catalogue.distances, order)
  {
    forall b, k | 0 <= b < |catalogue.buses| && 0 <= k < |catalogue.buses[b].stops|
      ensures catalogue.buses[b].stops[k] < |catalogue.stops|
    {
      assert catalogue.buses[b].stops[k] in catalogue.buses[b].stops;
    }
    var stopMessages := SerializeStops(catalogue.stops);
    var busMessages := SerializeBuses(catalogue.stops, catalogue.buses);
    var distanceMessages := SerializeDistances(catalogue.stops, catalogue.distances, order);
    m := CatalogueMessage(stopMessages, busMessages, distanceMessages);
  }

  // ---------------------------------------------------------------------------
  // Decoding

  /** The names of the stops the decoder adds, in message order. */
  function MessageNames(stops: seq<StopMessage>): (r: seq<string>)
    ensures |r| == |stops| && forall k :: 0 <= k < |stops| ==> r[k] == stops[k].name
  {
    StopNames(seq(|stops|, k requires 0 <= k < |stops| => DecodeStopMessage(stops[k])))
  }

  /** Every id in the message names one of its stops (the decoder indexes the stop list unchecked). */
  predicate WellIndexed(m: CatalogueMessage) {
    && BusesWithin(m.buses, |m.stops|)
    && (forall k :: 0 <= k < |m.distances| ==> m.distances[k].start < |m.stops| && m.distances[k].end < |m.stops|)
  }

  /** A decoded id: GetStop of the name stored under that id, which is the first stop with that name. */
  function DecodeStop(names: seq<string>, id: nat): (r: nat)
    requires id < |names|
    ensures r <= id && names[r] == names[id]
  {
    FirstNamed(names, names[id])
  }

  function DecodeRoute(names: seq<string>, ids: seq<nat>): (r: seq<nat>)
    requires forall k :: 0 <= k < |ids| ==> ids[k] < |names|
    ensures |r| == |ids| && forall k :: 0 <= k < |ids| ==> r[k] < |names| && names[r[k]] == names[ids[k]]
  {
    seq(|ids|, k requires 0 <= k < |ids| => DecodeStop(names, ids[k]))
  }

  function DecodeKey(names: seq<string>, d: DistanceMessage): (StopRef, StopRef)
    requires d.start < |names| && d.end < |names|
  {
    (Some(DecodeStop(names, d.start)), Some(DecodeStop(names, d.end)))
  }

  /** The table AddDistance builds from the decoded messages, in message order, the first value for a pair winning. */
  function DecodeDistances(names: seq<string>, messages: seq<DistanceMessage>): DistanceTable
    requires forall k :: 0 <= k < |messages| ==> messages[k].start < |names| && messages[k].end < |names|
  {
    if messages == [] then map[]
    else
      var table := DecodeDistances(names, messages[..|messages| - 1]);
      var last := messages[|messages| - 1];
      var key := DecodeKey(names, last);
      if key in table then table else table[key := last.distance]
  }

  /** The bus list of a stop after the first n routes were added one after another as buses 0, 1, ... */
  function Visits(routes: seq<seq<nat>>, n: nat, stop: nat): seq<nat>
    requires n <= |routes|
  {
    if n == 0 then [] else Visits(routes, n - 1, stop) + Repeat<nat>(n - 1, Count(routes[n - 1], stop))
  }

  function DecodeRoutes(names: seq<string>, buses: seq<BusMessage>): (r: seq<seq<nat>>)
    requires BusesWithin(buses, |names|)
    ensures |r| == |buses| && forall b :: 0 <= b < |buses| ==> r[b] == DecodeRoute(names, buses[b].stops)
  {
    seq(|buses|, b requires 0 <= b < |buses| => DecodeRoute(names, buses[b].stops))
  }

  // ---------------------------------------------------------------------------
  // Round trips

  lemma {:induction false} FirstNamedOfCanonical(stops: seq<Stop>, i: nat)
    requires i < |stops| && |stops| < Uint32Modulus && Canonical(StopNames(stops), i)
    ensures CalculateDistance(stops, stops[i].name) == i
  {
  }

  /**
   * A bus's stops come back as the same stop sequence, provided each of its
   * stops is the first under its name (GetStop only ever yields those) and
   * the ids fit in 32 bits.
   */
  lemma RouteRoundTrip(stops: seq<Stop>, route: seq<nat>)
    requires |stops| < Uint32Modulus
    requires CanonicalRoute(StopNames(stops), route)
    ensures DecodeRoute(StopNames(stops), EncodeRoute(stops, route)) == route
  {
    var names := StopNames(stops);
    var ids := EncodeRoute(stops, route);
    forall k | 0 <= k < |route| ensures DecodeStop(names, ids[k]) == route[k] {
      FirstNamedOfCanonical(stops, route[k]);
    }
  }

  /** The distance messages of `order` decode to the table restricted to the keys `order` lists. */
  lemma {:induction false} DistancesRoundTripPrefix(stops: seq<Stop>, table: DistanceTable, order: seq<(StopRef, StopRef)>)
    requires |stops| < Uint32Modulus && Distinct(order)
    requires (forall k :: 0 <= k < |order| ==> order[k] in table) && CanonicalKeys(stops, order)
    ensures DecodeDistances(StopNames(stops), EncodeDistances(stops, table, order)) ==
              map key | key in table && key in order :: table[key]
  {
    var names := StopNames(stops);
    var messages := EncodeDistances(stops, table, order);
    if order != [] {
      var n := |order|;
      var front := order[..n - 1];
      assert messages[..n - 1] == EncodeDistances(stops, table, front);
      DistancesRoundTripPrefix(stops, table, front);
      var last := order[n - 1];
      FirstNamedOfCanonical(stops, last.0.value);
      FirstNamedOfCanonical(stops, last.1.value);
      assert DecodeKey(names, messages[n - 1]) == last;
      assert last !in front;
    }
  }

  /**
   * Decoding the encoded distances gives back the whole distance table,
   * whatever order the map was iterated in.
   */
  lemma DistancesRoundTrip(stops: seq<Stop>, table: DistanceTable, order: seq<(StopRef, StopRef)>)
    requires |stops| < Uint32Modulus && Enumerates(order, table.Keys)
    requires CanonicalKeys(stops, order)
    ensures DecodeDistances(StopNames(stops), EncodeDistances(stops, table, order)) == table
  {
    DistancesRoundTripPrefix(stops, table, order);
  }

  // ---------------------------------------------------------------------------
  // The decoder

  /** The stop as the decoder first adds it: name and coordinates, no buses yet. */
  function DecodeStopMessage(s: StopMessage): Stop {
    Stop(s.name, Coordinates(s.latitude, s.longitude), [])
  }

  /** DeserializeTransportCatalogue's first loop: every stop message, in order. */
  method LoadStops(catalogue: TransportCatalogue, messages: seq<StopMessage>)
    requires catalogue.Valid() && catalogue.stops == [] && catalogue.buses == []
    modifies catalogue
    ensures catalogue.Valid()
    ensures |catalogue.stops| == |messages|
    ensures forall k :: 0 <= k < |messages| ==> catalogue.stops[k] == DecodeStopMessage(messages[k])
    ensures catalogue.buses == [] && catalogue.distances == old(catalogue.distances)
  {
    var i := 0;
    while i < |messages|
      invariant i <= |messages| && catalogue.Valid()
      invariant |catalogue.stops| == i && catalogue.buses == [] && catalogue.distances == old(catalogue.distances)
      invariant forall k :: 0 <= k < i ==> catalogue.stops[k] == DecodeStopMessage(messages[k])
    {
      catalogue.AddStop(DecodeStopMessage(messages[i]));
      i := i + 1;
    }
  }

  /** The distance key a message decodes to, through GetStop of the stored names. */
  function DecodedDistance(names: seq<string>, d: DistanceMessage): Distance
    requires d.start < |names| && d.end < |names|
  {
    Distance(DecodeKey(names, d).0, DecodeKey(names, d).1, d.distance)
  }

  /** DeserializeTransportCatalogue's second loop: every distance message resolved through GetStop. */
  method ResolveDistances(catalogue: TransportCatalogue, names: seq<string>, messages: seq<DistanceMessage>)
      returns (distances: seq<Distance>)
    requires catalogue.Valid() && StopNames(catalogue.stops) == names
    requires forall k :: 0 <= k < |messages| ==> messages[k].start < |names| && messages[k].end < |names|
    ensures |distances| == |messages|
    ensures forall k :: 0 <= k < |messages| ==> distances[k] == DecodedDistance(names, messages[k])
  {
    distances := [];
    var i := 0;
    while i < |messages|
      invariant i <= |messages| && |distances| == i
      invariant forall k :: 0 <= k < i ==> distances[k] == DecodedDistance(names, messages[k])
    {
      var distance := ResolveDistance(catalogue, names, messages[i]);
      distances := distances + [distance];
      i := i + 1;
    }
  }

  /** One iteration of that loop: both ends looked up by the name stored under their id. */
  method ResolveDistance(catalogue: TransportCatalogue, names: seq<string>, message: DistanceMessage)
      returns (distance: Distance)
    requires catalogue.Valid() && StopNames(catalogue.stops) == names
    requires message.start < |names| && message.end < |names|
    ensures distance == DecodedDistance(names, message)
  {
    GetStopIsFirstNamed(catalogue, names[message.start]);
    GetStopIsFirstNamed(catalogue, names[message.end]);
    var from := catalogue.GetStop(catalogue.stops[message.start].name);
    var to := catalogue.GetStop(catalogue.stops[message.end].name);
    distance := Distance(from, to, message.distance);
  }

  /** DeserializeTransportCatalogue's second and third loops: resolve every distance message, then add them in order. */
  method LoadDistances(catalogue: TransportCatalogue, names: seq<string>, messages: seq<DistanceMessage>)
    requires catalogue.Valid() && catalogue.distances == map[] && StopNames(catalogue.stops) == names
    requires forall k :: 0 <= k < |messages| ==> messages[k].start < |names| && messages[k].end < |names|
    modifies catalogue
    ensures catalogue.Valid()
    ensures catalogue.stops == old(catalogue.stops) && catalogue.buses == old(catalogue.buses)
    ensures catalogue.distances == DecodeDistances(names, messages)
  {
    var distances := ResolveDistances(catalogue, names, messages);
    var i := 0;
    while i < |distances|
      invariant i <= |distances| && catalogue.Valid()
      invariant catalogue.stops == old(catalogue.stops) && catalogue.buses == old(catalogue.buses)
      invariant catalogue.distances == DecodeDistances(names, messages[..i])
    {
      assert messages[..i + 1][..i] == messages[..i];
      catalogue.AddDistance(distances[i]);
      i := i + 1;
    }
    assert messages[..i] == messages;
  }

  /** The inner loop of the bus loop: each stored id resolved through GetStop of its name. */
  method ResolveRoute(catalogue: TransportCatalogue, names: seq<string>, ids: seq<nat>) returns (route: seq<nat>)
    requires catalogue.Valid() && StopNames(catalogue.stops) == names && Within(ids, |names|)
    ensures route == DecodeRoute(names, ids)
  {
    route := [];
    var i := 0;
    while i < |ids|
      invariant i <= |ids| && route == DecodeRoute(names, ids[..i])
    {
      GetStopIsFirstNamed(catalogue, names[ids[i]]);
      var stop := catalogue.GetStop(catalogue.stops[ids[i]].name);
      route := route + [stop.value];
      i := i + 1;
    }
    assert ids[..i] == ids;
  }

  /** The bus the decoder adds for a message: stops resolved by name, the stored length replaced by the recomputed one. */
  function DecodeBus(names: seq<string>, message: BusMessage, table: DistanceTable): Bus
    requires Within(message.stops, |names|)
  {
    var route := DecodeRoute(names, message.stops);
    Bus(message.name, route, message.isRoundtrip, RouteDistance(table, route))
  }

  predicate BusesWithin(buses: seq<BusMessage>, n: nat) {
    forall b :: 0 <= b < |buses| ==> Within(buses[b].stops, n)
  }

  function DecodeBuses(names: seq<string>, buses: seq<BusMessage>, table: DistanceTable): (r: seq<Bus>)
    requires BusesWithin(buses, |names|)
    ensures |r| == |buses| && forall b :: 0 <= b < |buses| ==> r[b] == DecodeBus(names, buses[b], table)
  {
    if buses == [] then []
    else DecodeBuses(names, buses[..|buses| - 1], table) + [DecodeBus(names, buses[|buses| - 1], table)]
  }

  /** One iteration of the bus loop: resolve the ids, then AddBus. */
  method LoadBus(catalogue: TransportCatalogue, names: seq<string>, message: BusMessage)
    requires catalogue.Valid() && StopNames(catalogue.stops) == names
    requires Within(message.stops, |names|)
    modifies catalogue
    ensures catalogue.Valid() && StopNames(catalogue.stops) == names
    ensures catalogue.distances == old(catalogue.distances)
    ensures catalogue.buses == old(catalogue.buses) + [DecodeBus(names, message, catalogue.distances)]
    ensures catalogue.stops == WithVisits(old(catalogue.stops), |old(catalogue.buses)|, DecodeRoute(names, message.stops))
  {
    var route := ResolveRoute(catalogue, names, message.stops);
    catalogue.AddBus(Bus(message.name, route, message.isRoundtrip, message.routeLength));
  }

  /** One more bus recorded along its route extends every stop's bus list as Visits says. */
  lemma VisitsStep(initial: seq<Stop>, before: seq<Stop>, after: seq<Stop>, routes: seq<seq<nat>>, n: nat, k: nat)
    requires n < |routes| && |before| == |initial| && k < |before|
    requires after == WithVisits(before, n, routes[n])
    requires before[k] == initial[k].(buses := Visits(routes, n, k))
    ensures after[k] == initial[k].(buses := Visits(routes, n + 1, k))
  {
    var w := WithVisits(before, n, routes[n]);
    assert w[k] == before[k].(buses := before[k].buses + Repeat<nat>(n, Count(routes[n], k)));
    assert Visits(routes, n + 1, k) == Visits(routes, n, k) + Repeat<nat>(n, Count(routes[n], k));
  }

  /** One more decoded bus appended keeps the buses in step with the messages. */
  lemma DecodedBusesStep(names: seq<string>, messages: seq<BusMessage>, table: DistanceTable,
                         before: seq<Bus>, after: seq<Bus>, i: nat)
    requires i < |messages| && |before| == i && BusesWithin(messages, |names|)
    requires forall b :: 0 <= b < i ==> before[b] == DecodeBus(names, messages[b], table)
    requires after == before + [DecodeBus(names, messages[i], table)]
    ensures |after| == i + 1
    ensures forall b :: 0 <= b < i + 1 ==> after[b] == DecodeBus(names, messages[b], table)
  {
  }

  /** DeserializeTransportCatalogue's last loop: the buses, in message order. */
  method LoadBuses(catalogue: TransportCatalogue, names: seq<string>, messages: seq<BusMessage>)
    requires catalogue.Valid() && catalogue.buses == [] && StopNames(catalogue.stops) == names
    requires forall k :: 0 <= k < |catalogue.stops| ==> catalogue.stops[k].buses == []
    requires BusesWithin(messages, |names|)
    modifies catalogue
    ensures catalogue.Valid() && StopNames(catalogue.stops) == names
    ensures catalogue.distances == old(catalogue.distances)
    ensures catalogue.buses == DecodeBuses(names, messages, catalogue.distances)
    ensures forall k :: 0 <= k < |names| ==>
              catalogue.stops[k] == old(catalogue.stops[k]).(buses := Visits(DecodeRoutes(names, messages), |messages|, k))
  {
    ghost var initial := catalogue.stops;
    ghost var routes := DecodeRoutes(names, messages);
    ghost var table := catalogue.distances;
    var i := 0;
    while i < |messages|
      invariant i <= |messages| && catalogue.Valid() && StopNames(catalogue.stops) == names
      invariant catalogue.distances == table && |catalogue.stops| == |initial|
      invariant |catalogue.buses| == i
      invariant forall b :: 0 <= b < i ==> catalogue.buses[b] == DecodeBus(names, messages[b], table)
      invariant forall k :: 0 <= k < |names| ==> catalogue.stops[k] == initial[k].(buses := Visits(routes, i, k))
    {
      ghost var before := catalogue.stops;
      ghost var busesBefore := catalogue.buses;
      LoadBus(catalogue, names, messages[i]);
      DecodedBusesStep(names, messages, table, busesBefore, catalogue.buses, i);
      forall k | 0 <= k < |names|
        ensures catalogue.stops[k] == initial[k].(buses := Visits(routes, i + 1, k))
      {
        VisitsStep(initial, before, catalogue.stops, routes, i, k);
      }
      i := i + 1;
    }
  }

  /**
   * DeserializeTransportCatalogue: a new catalogue holding the stops, then
   * the distances, then the buses of the message. Because every distance is
   * in place before the first bus, each bus's length is its route distance
   * over the complete table, whatever length the message stored.
   */
  method DeserializeTransportCatalogue(m: CatalogueMessage) returns (c: TransportCatalogue)
    requires WellIndexed(m)
    ensures fresh(c) && c.Valid()
    ensures StopNames(c.stops) == MessageNames(m.stops)
    ensures forall k :: 0 <= k < |m.stops| ==>
              c.stops[k] == DecodeStopMessage(m.stops[k]).(buses := Visits(DecodeRoutes(MessageNames(m.stops), m.buses), |m.buses|, k))
    ensures c.distances == DecodeDistances(MessageNames(m.stops), m.distances)
    ensures c.buses == DecodeBuses(MessageNames(m.stops), m.buses, c.distances)
  {
    var names := MessageNames(m.stops);
    c := new TransportCatalogue();
    LoadStops(c, m.stops);
    assert StopNames(c.stops) == names;
    LoadDistances(c, names, m.distances);
    LoadBuses(c, names, m.buses);
  }

  /**
   * Storing and loading a catalogue keeps its stops' names and positions, its
   * buses' names, stop sequences and kinds, and its distance table, provided
   * every route stop and distance end is the first stop under its name.
   */
  lemma CatalogueRoundTrip(stops: seq<Stop>, buses: seq<Bus>, table: DistanceTable,
                           order: seq<(StopRef, StopRef)>, m: CatalogueMessage)
    requires |stops| < Uint32Modulus && Enumerates(order, table.Keys)
    requires CanonicalKeys(stops, order)
    requires forall b :: 0 <= b < |buses| ==>
               Within(buses[b].stops, |stops|) && CanonicalRoute(StopNames(stops), buses[b].stops)
    requires m.stops == EncodeStops(stops) && m.distances == EncodeDistances(stops, table, order)
    requires |m.buses| == |buses| && forall b :: 0 <= b < |buses| ==> m.buses[b] == EncodeBus(stops, buses[b])
    ensures WellIndexed(m)
    ensures MessageNames(m.stops) == StopNames(stops)
    ensures DecodeDistances(MessageNames(m.stops), m.distances) == table
    ensures forall b :: 0 <= b < |buses| ==>
              var decoded := DecodeBuses(MessageNames(m.stops), m.buses, table)[b];
              decoded == buses[b].(routeLength := RouteDistance(table, buses[b].stops))
  {
    var names := StopNames(stops);
    assert MessageNames(m.stops) == names;
    DistancesRoundTrip(stops, table, order);
    forall b | 0 <= b < |buses|
      ensures DecodeRoute(names, m.buses[b].stops) == buses[b].stops
    {
      RouteRoundTrip(stops, buses[b].stops);
    }
    forall k | 0 <= k < |m.distances| ensures m.distances[k].start < |m.stops| && m.distances[k].end < |m.stops| {
      FirstNamedOfCanonical(stops, order[k].0.value);
      FirstNamedOfCanonical(stops, order[k].1.value);
    }
  }

  // ---------------------------------------------------------------------------
  // Colours and routing settings

  /** What a colour reads back as after a store and load: "none" comes back as the empty colour name. */
  function ReadBackColor(color: Color): Color {
    if color.NoColor? then Named("") else color
  }

  /** uint32 -> uint8_t. */
  function Uint8(x: nat): byte {
    (x % 256) as byte
  }

  /** DeserializeColor: the rgb part if present, else the rgba part, else the colour name. */
  function DeserializeColor(m: ColorMessage): (r: Color)
    ensures m.rgb.Some? ==> r.Rgb?
    ensures m.rgb.None? && m.rgba.Some? ==> r.Rgba? && r.opacity == m.rgba.value.opacity
    ensures m.rgb.None? && m.rgba.None? ==> r == Named(m.stringColor)
  {
    match (m.rgb, m.rgba)
    case (Some(c), _) => Rgb(Uint8(c.red), Uint8(c.green), Uint8(c.blue))
    case (None, Some(c)) => Rgba(Uint8(c.red), Uint8(c.green), Uint8(c.blue), c.opacity)
    case (None, None) => Named(m.stringColor)
  }

  /**
   * SerializeColor: "none" sets the flag, Rgb and Rgba fill their part, a
   * name fills the colour name. Loading gives the colour back, except that
   * "none" becomes the empty colour name.
   */
  function SerializeColor(color: Color): (r: ColorMessage)
    ensures r.none <==> color.NoColor?
    ensures DeserializeColor(r) == ReadBackColor(color)
  {
    var empty := ColorMessage(false, None, None, "");
    match color
    case NoColor => empty.(none := true)
    case Rgb(red, green, blue) => empty.(rgb := Some(RgbMessage(red as nat, green as nat, blue as nat)))
    case Rgba(red, green, blue, opacity) =>
      empty.(rgba := Some(RgbaMessage(red as nat, green as nat, blue as nat, opacity)))
    case Named(name) => empty.(stringColor := name)
  }

  /** The colour palette loop of SerializeRenderSettings. */
  function SerializePalette(palette: seq<Color>): (r: seq<ColorMessage>)
    ensures |r| == |palette| && forall k :: 0 <= k < |palette| ==> DeserializeColor(r[k]) == ReadBackColor(palette[k])
  {
    seq(|palette|, k requires 0 <= k < |palette| => SerializeColor(palette[k]))
  }

  /** DeserializeRoutingSettings: both fields copied. */
  function DeserializeRoutingSettings(m: RoutingSettingsMessage): (r: Router.RoutingSettings)
    ensures r.busWaitTime == m.busWaitTime && r.busVelocity == m.busVelocity
  {
    Router.RoutingSettings(m.busWaitTime, m.busVelocity)
  }

  /** SerializeRoutingSettings: both fields copied, so loading gives the settings back. */
  function SerializeRoutingSettings(settings: Router.RoutingSettings): (r: RoutingSettingsMessage)
    ensures DeserializeRoutingSettings(r) == settings
  {
    RoutingSettingsMessage(settings.busWaitTime, settings.busVelocity)
  }
}
