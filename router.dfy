/**
 * The journey-planning graph built over a transport catalogue. Every
 * registered stop owns two vertices, a wait-start and a wait-end; a wait edge
 * joins them and ride edges join the wait-end of one stop to the wait-start of
 * a later stop on the same bus. Every edge id maps back to its metadata.
 */
module Router {
  import opened Common
  import opened Catalogue

  type VertexId = nat
  type EdgeId = nat

  datatype Edge = Edge(from: VertexId, to: VertexId, weight: real)

  datatype WaitRange = WaitRange(busWaitStart: VertexId, busWaitEnd: VertexId)

  /** What an edge means to a passenger: waiting at a stop, or riding a bus over spanCount stops. */
  datatype EdgeInfo = StopEdge(name: string, time: real) | BusEdge(name: string, spanCount: nat, time: real)

  /** Waiting time in minutes and bus speed in km/h. */
  datatype RoutingSettings = RoutingSettings(busWaitTime: real, busVelocity: real)

  /** What the shortest-path router answers: the total weight and the edge ids of the path. */
  datatype RouteInfo = RouteInfo(weight: real, edges: seq<EdgeId>)

  datatype RouteGraphInfo = RouteGraphInfo(totalTime: real, edges: seq<EdgeInfo>)

  /** An edge as stored in the graph together with the metadata stored under its id. */
  datatype Labelled = Labelled(edge: Edge, info: EdgeInfo)

  /** The directed weighted graph: an append-only edge list over a fixed number of vertices. */
  class Graph {
    const vertexCount: nat
    var edges: seq<Edge>

    constructor (vertexCount: nat)
      ensures this.vertexCount == vertexCount && edges == []
    {
      this.vertexCount := vertexCount;
      edges := [];
    }

    /** Appends an edge; its id is the number of edges before it. */
    method AddEdge(edge: Edge) returns (id: EdgeId)
      modifies this
      ensures edges == old(edges) + [edge]
      ensures id == |old(edges)| && edges[id] == edge
    {
      id := |edges|;
      edges := edges + [edge];
    }

    function GetEdge(id: EdgeId): Edge
      reads this
      requires id < |edges|
    {
      edges[id]
    }
  }

  // ---------------------------------------------------------------------------
  // Vertex numbering

  /**
   * stop_to_route_ after the constructor's loop: the stop at position k of the
   * iteration order gets the wait range (2k, 2k + 1).
   */
  function WaitRanges(order: seq<nat>): map<nat, WaitRange> {
    if order == [] then map[]
    else
      var k := |order| - 1;
      WaitRanges(order[..k])[order[k] := WaitRange(2 * k, 2 * k + 1)]
  }

  /** `waits` holds exactly the stops of `order`, the one at position k with the range (2k, 2k + 1). */
  ghost predicate Numbered(waits: map<nat, WaitRange>, order: seq<nat>) {
    && Distinct(order)
    && (forall s :: s in waits ==> s in order)
    && (forall k :: 0 <= k < |order| ==> order[k] in waits && waits[order[k]] == WaitRange(2 * k, 2 * k + 1))
  }

  /** Numbering a sequence without repetitions gives position k the range (2k, 2k + 1), and nothing else. */
  lemma {:induction false} WaitRangesNumbered(order: seq<nat>)
    requires Distinct(order)
    ensures Numbered(WaitRanges(order), order)
  {
    if order != [] {
      var k := |order| - 1;
      var init := order[..k];
      assert Distinct(init);
      WaitRangesNumbered(init);
      assert order[k] !in init;
      assert order == init + [order[k]];
      forall s | s in WaitRanges(order) ensures s in order {
        if s != order[k] {
          assert s in WaitRanges(init);
        }
      }
    }
  }

  /**
   * The constructor's first loop: hands out two consecutive vertex ids, a
   * wait-start and a wait-end, to each stop in turn.
   */
  method NumberStops(order: seq<nat>) returns (waits: map<nat, WaitRange>)
    ensures waits == WaitRanges(order)
  {
    waits := map[];
    var cnt := 0;
    var i := 0;
    while i < |order|
      invariant 0 <= i <= |order|
      invariant cnt == 2 * i
      invariant waits == WaitRanges(order[..i])
    {
      var busWaitStart := cnt;
      cnt := cnt + 1;
      var busWaitEnd := cnt;
      cnt := cnt + 1;
      WaitRangesStep(order, i);
      waits := waits[order[i] := WaitRange(busWaitStart, busWaitEnd)];
      i := i + 1;
    }
    assert order[..i] == order;
  }

  /** One more turn of the constructor's numbering loop. */
  lemma WaitRangesStep(order: seq<nat>, i: nat)
    requires i < |order|
    ensures WaitRanges(order[..i + 1]) == WaitRanges(order[..i])[order[i] := WaitRange(2 * i, 2 * i + 1)]
  {
    assert order[..i + 1][..i] == order[..i];
  }

  /** Every registered stop's range is (2k, 2k + 1) for some position k of the order. */
  lemma WaitRangeShape(waits: map<nat, WaitRange>, order: seq<nat>, s: nat)
    requires Numbered(waits, order) && s in waits
    ensures exists k :: 0 <= k < |order| && order[k] == s && waits[s] == WaitRange(2 * k, 2 * k + 1)
  {
    var k :| 0 <= k < |order| && order[k] == s;
  }

  /** Ranges of different stops share no vertex, and all vertices are below 2 * |order|. */
  lemma WaitRangesDisjoint(waits: map<nat, WaitRange>, order: seq<nat>, s: nat, t: nat)
    requires Numbered(waits, order) && s in waits && t in waits
    ensures waits[s].busWaitStart < waits[s].busWaitEnd < 2 * |order|
    ensures s != t ==>
              var a, b := waits[s], waits[t];
              a.busWaitStart != b.busWaitStart && a.busWaitStart != b.busWaitEnd &&
              a.busWaitEnd != b.busWaitStart && a.busWaitEnd != b.busWaitEnd
  {
    WaitRangeShape(waits, order, s);
    WaitRangeShape(waits, order, t);
  }

  // ---------------------------------------------------------------------------
  // The edges the router adds, as sequences

  /** What the edge builders read: the distances, stop_to_route_ and the settings. */
  datatype Setup = Setup(table: DistanceTable, waits: map<nat, WaitRange>, settings: RoutingSettings)

  /** Every stop of `route` is registered and the velocity is positive. */
  predicate Covers(g: Setup, route: seq<nat>) {
    g.settings.busVelocity > 0.0 && forall k :: 0 <= k < |route| ==> route[k] in g.waits
  }

  /** Minutes needed to ride `dist` metres at busVelocity km/h. */
  function RideTime(settings: RoutingSettings, dist: nat): real
    requires settings.busVelocity > 0.0
  {
    (dist as real) / (settings.busVelocity * 1000.0 / 60.0)
  }

  /** The ride time multiplied back by the speed in metres per minute gives the distance. */
  lemma RideTimeScales(settings: RoutingSettings, dist: nat)
    requires settings.busVelocity > 0.0
    ensures RideTime(settings, dist) * (settings.busVelocity * 1000.0 / 60.0) == dist as real
  {
    var speed := settings.busVelocity * 1000.0 / 60.0;
    assert speed > 0.0;
  }

  /** The wait edge AddEdgeToStops adds for stop s. */
  function WaitEdge(stops: seq<Stop>, g: Setup, s: nat): Labelled
    requires s in g.waits && s < |stops|
  {
    var range := g.waits[s];
    Labelled(Edge(range.busWaitStart, range.busWaitEnd, g.settings.busWaitTime),
             StopEdge(stops[s].name, g.settings.busWaitTime))
  }

  /** The wait edges, one per stop of stop_to_route_'s iteration order. */
  function WaitEdges(stops: seq<Stop>, g: Setup, order: seq<nat>): (r: seq<Labelled>)
    requires forall k :: 0 <= k < |order| ==> order[k] in g.waits && order[k] < |stops|
  {
    if order == [] then []
    else WaitEdges(stops, g, order[..|order| - 1]) + [WaitEdge(stops, g, order[|order| - 1])]
  }

  /** The ride edge from route[i] to route[j] of bus `name`: span j - i, distance summed in a size_t. */
  function RideEdge(g: Setup, name: string, route: seq<nat>, i: nat, j: nat): Labelled
    requires Covers(g, route) && i < j < |route|
  {
    var time := RideTime(g.settings, SizeT(SegmentDistance(g.table, route, i, j)));
    Labelled(Edge(g.waits[route[i]].busWaitEnd, g.waits[route[j]].busWaitStart, time),
             BusEdge(name, j - i, time))
  }

  /** The ride edges from route[i] to route[i+1], ..., route[last], in this order. */
  function RideRow(g: Setup, name: string, route: seq<nat>, i: nat, last: nat): seq<Labelled>
    requires Covers(g, route) && i <= last < |route|
  {
    seq(last - i, k requires 0 <= k < last - i => RideEdge(g, name, route, i, i + 1 + k))
  }

  /** The rows of start positions 0 .. count-1, each running to the end of the route. */
  function RideRows(g: Setup, name: string, route: seq<nat>, count: nat): seq<Labelled>
    requires Covers(g, route) && count <= |route|
  {
    if count == 0 then [] else RideRows(g, name, route, count - 1) + RideRow(g, name, route, count - 1, |route| - 1)
  }

  /** MakeEdgesFromBuses over one direction of a route. */
  function DirectionEdges(g: Setup, name: string, route: seq<nat>): seq<Labelled>
    requires Covers(g, route)
  {
    RideRows(g, name, route, |route|)
  }

  lemma ReverseCovers(g: Setup, route: seq<nat>)
    requires Covers(g, route)
    ensures Covers(g, Reverse(route))
  {
  }

  /** AddEdgeToBuses for one bus: the forward direction, then the reverse one unless it is a roundtrip. */
  function BusEdges(g: Setup, bus: Bus): seq<Labelled>
    requires Covers(g, bus.stops)
  {
    ReverseCovers(g, bus.stops);
    DirectionEdges(g, bus.name, bus.stops) +
      if bus.isRoundtrip then [] else DirectionEdges(g, bus.name, Reverse(bus.stops))
  }

  /** Every bus in the order has its stops registered. */
  predicate CoversBuses(g: Setup, buses: seq<Bus>, order: seq<nat>) {
    forall k :: 0 <= k < |order| ==> order[k] < |buses| && Covers(g, buses[order[k]].stops)
  }

  function AllBusEdges(g: Setup, buses: seq<Bus>, order: seq<nat>): seq<Labelled>
    requires CoversBuses(g, buses, order)
  {
    if order == [] then []
    else AllBusEdges(g, buses, order[..|order| - 1]) + BusEdges(g, buses[order[|order| - 1]])
  }

  // ---------------------------------------------------------------------------
  // Counting and ordering of the ride edges

  /** Offset of row i among the rows of a route with n stops: (n-1) + (n-2) + ... over the rows before i. */
  function RowStart(n: nat, i: nat): nat
    requires i <= n
  {
    if i == 0 then 0 else RowStart(n, i - 1) + (n - i)
  }

  /** Position of the ride edge for the pair (i, j) among one direction's edges. */
  function Position(n: nat, i: nat, j: nat): nat
    requires i < j < n
  {
    RowStart(n, i) + (j - i - 1)
  }

  lemma {:induction false} RideRowsLength(g: Setup, name: string, route: seq<nat>, count: nat)
    requires Covers(g, route) && count <= |route|
    ensures |RideRows(g, name, route, count)| == RowStart(|route|, count)
  {
    if count > 0 {
      RideRowsLength(g, name, route, count - 1);
    }
  }

  lemma {:induction false} RowStartClosedForm(n: nat, i: nat)
    requires i <= n
    ensures 2 * RowStart(n, i) == i * (2 * n - 1 - i)
  {
    if i > 0 {
      RowStartClosedForm(n, i - 1);
      assert (i - 1) * (2 * n - i) == i * (2 * n - i) - (2 * n - i);
      assert i * (2 * n - i) == i * (2 * n - 1 - i) + i;
    }
  }

  /** One direction of a route with n stops yields n(n-1)/2 ride edges. */
  lemma DirectionEdgeCount(g: Setup, name: string, route: seq<nat>)
    requires Covers(g, route)
    ensures 2 * |DirectionEdges(g, name, route)| == |route| * (|route| - 1)
  {
    RideRowsLength(g, name, route, |route|);
    RowStartClosedForm(|route|, |route|);
  }

  /** The rows up to `count` extend the rows up to count - 1 by row count - 1. */
  lemma RideRowsSplit(g: Setup, name: string, route: seq<nat>, count: nat, p: nat)
    requires Covers(g, route) && 0 < count <= |route|
    requires p < |RideRows(g, name, route, count)|
    ensures |RideRows(g, name, route, count - 1)| == RowStart(|route|, count - 1)
    ensures p < RowStart(|route|, count - 1) ==>
              RideRows(g, name, route, count)[p] == RideRows(g, name, route, count - 1)[p]
    ensures p >= RowStart(|route|, count - 1) ==>
              p - RowStart(|route|, count - 1) < |route| - count &&
              RideRows(g, name, route, count)[p] ==
                RideRow(g, name, route, count - 1, |route| - 1)[p - RowStart(|route|, count - 1)]
  {
    RideRowsLength(g, name, route, count - 1);
  }

  /** The edge at Position(n, i, j) is the ride edge for the pair (i, j). */
  lemma {:induction false} DirectionEdgeAt(g: Setup, name: string, route: seq<nat>, count: nat, i: nat, j: nat)
    requires Covers(g, route) && count <= |route| && i < count && i < j < |route|
    ensures Position(|route|, i, j) < |RideRows(g, name, route, count)|
    ensures RideRows(g, name, route, count)[Position(|route|, i, j)] == RideEdge(g, name, route, i, j)
  {
    var n := |route|;
    RideRowsLength(g, name, route, count);
    RowStartMonotone(n, i, count);
    RideRowsSplit(g, name, route, count, Position(n, i, j));
    if i == count - 1 {
      assert RideRows(g, name, route, count)[Position(n, i, j)] == RideRow(g, name, route, i, n - 1)[j - i - 1];
    } else {
      RowStartMonotone(n, i, count - 1);
      DirectionEdgeAt(g, name, route, count - 1, i, j);
    }
  }

  /** Every edge of the rows is the ride edge of some pair (i, j) at Position(n, i, j). */
  lemma {:induction false} DirectionEdgeOnly(g: Setup, name: string, route: seq<nat>, count: nat, p: nat)
    requires Covers(g, route) && count <= |route| && p < |RideRows(g, name, route, count)|
    ensures exists i: nat, j: nat :: i < count && i < j < |route| && p == Position(|route|, i, j)
  {
    var n := |route|;
    RideRowsLength(g, name, route, count - 1);
    if p < RowStart(n, count - 1) {
      DirectionEdgeOnly(g, name, route, count - 1, p);
      var i: nat, j: nat :| i < count - 1 && i < j < n && p == Position(n, i, j);
    } else {
      var i := count - 1;
      var j := p - RowStart(n, i) + i + 1;
      assert p == Position(n, i, j);
    }
  }

  lemma {:induction false} RowStartMonotone(n: nat, i: nat, k: nat)
    requires i < k <= n
    ensures RowStart(n, i) + (n - 1 - i) <= RowStart(n, k)
    decreases k - i
  {
    if k > i + 1 {
      RowStartMonotone(n, i, k - 1);
    }
  }

  /** Edges are added ordered by start index, then by end index. */
  lemma PositionOrdered(n: nat, i: nat, j: nat, i': nat, j': nat)
    requires i < j < n && i' < j' < n
    requires i < i' || (i == i' && j < j')
    ensures Position(n, i, j) < Position(n, i', j')
  {
    if i < i' {
      RowStartMonotone(n, i, i');
    }
  }

  /** The span of the ride edge (i, j) is j - i, its time equals its weight, and its weight is the distance over the speed. */
  lemma RideEdgeMeasures(g: Setup, name: string, route: seq<nat>, i: nat, j: nat)
    requires Covers(g, route) && i < j < |route|
    ensures var e := RideEdge(g, name, route, i, j);
            && e.info == BusEdge(name, j - i, e.edge.weight)
            && e.edge.weight * (g.settings.busVelocity * 1000.0 / 60.0) == SizeT(SegmentDistance(g.table, route, i, j)) as real
            && e.edge.from == g.waits[route[i]].busWaitEnd && e.edge.to == g.waits[route[j]].busWaitStart
  {
  }

  /** For a fixed start stop, the ride gets no shorter as the end stop moves on (while the size_t sum does not wrap). */
  lemma RideWeightMonotone(g: Setup, name: string, route: seq<nat>, i: nat, j: nat, k: nat)
    requires Covers(g, route) && i < j <= k < |route|
    requires SegmentDistance(g.table, route, i, k) < SizeTModulus
    ensures RideEdge(g, name, route, i, j).edge.weight <= RideEdge(g, name, route, i, k).edge.weight
  {
    SegmentDistanceMonotone(g.table, route, i, j, k);
    var a, b := SegmentDistance(g.table, route, i, j), SegmentDistance(g.table, route, i, k);
    assert SizeT(a) == a && SizeT(b) == b;
    DivideMonotone(a as real, b as real, g.settings.busVelocity * 1000.0 / 60.0);
  }

  lemma DivideMonotone(a: real, b: real, v: real)
    requires a <= b && v > 0.0
    ensures a / v <= b / v
  {
  }

  /** A roundtrip bus gets one direction of ride edges, any other bus two. */
  lemma BusEdgeCount(g: Setup, bus: Bus)
    requires Covers(g, bus.stops)
    ensures var n := |bus.stops|;
            2 * |BusEdges(g, bus)| == (if bus.isRoundtrip then 1 else 2) * n * (n - 1)
  {
    DirectionEdgeCount(g, bus.name, bus.stops);
    ReverseCovers(g, bus.stops);
    DirectionEdgeCount(g, bus.name, Reverse(bus.stops));
  }

  // ---------------------------------------------------------------------------
  // Shape of the edges: the alternation forced by the endpoints

  /**
   * An edge leaving a wait-start vertex (even) is a wait edge to the matching
   * wait-end; an edge leaving a wait-end vertex (odd) is a ride edge to a
   * wait-start. Both endpoints lie below the vertex count and the metadata's
   * time is the edge's weight.
   */
  predicate WellFormed(l: Labelled, vertexCount: nat) {
    && l.edge.from < vertexCount && l.edge.to < vertexCount
    && l.info.time == l.edge.weight
    && (l.info.StopEdge? <==> l.edge.from % 2 == 0)
    && (l.info.StopEdge? ==> l.edge.to == l.edge.from + 1)
    && (l.info.BusEdge? ==> l.edge.to % 2 == 0)
  }

  predicate AllWellFormed(ls: seq<Labelled>, vertexCount: nat) {
    forall k :: 0 <= k < |ls| ==> WellFormed(ls[k], vertexCount)
  }

  /** A registered stop's wait-start is even, its wait-end the next (odd) vertex, both below 2 * |order|. */
  lemma WaitRangeParity(waits: map<nat, WaitRange>, order: seq<nat>, s: nat)
    requires Numbered(waits, order) && s in waits
    ensures var w := waits[s];
            && w.busWaitStart % 2 == 0 && w.busWaitEnd == w.busWaitStart + 1 && w.busWaitEnd % 2 == 1
            && w.busWaitEnd < 2 * |order|
  {
    WaitRangeShape(waits, order, s);
    var k :| 0 <= k < |order| && order[k] == s && waits[s] == WaitRange(2 * k, 2 * k + 1);
    Parity(k);
  }

  lemma Parity(k: nat)
    ensures (2 * k) % 2 == 0 && (2 * k + 1) % 2 == 1
  {
  }

  lemma WaitEdgeWellFormed(stops: seq<Stop>, g: Setup, order: seq<nat>, s: nat)
    requires Numbered(g.waits, order) && s in g.waits && s < |stops|
    ensures WellFormed(WaitEdge(stops, g, s), 2 * |order|)
  {
    WaitRangeParity(g.waits, order, s);
  }

  lemma RideEdgeWellFormed(g: Setup, order: seq<nat>, name: string, route: seq<nat>, i: nat, j: nat)
    requires Numbered(g.waits, order)
    requires Covers(g, route) && i < j < |route|
    ensures WellFormed(RideEdge(g, name, route, i, j), 2 * |order|)
  {
    var a, b := g.waits[route[i]], g.waits[route[j]];
    WaitRangeParity(g.waits, order, route[i]);
    WaitRangeParity(g.waits, order, route[j]);
    var t := RideTime(g.settings, SizeT(SegmentDistance(g.table, route, i, j)));
    assert RideEdge(g, name, route, i, j) == Labelled(Edge(a.busWaitEnd, b.busWaitStart, t), BusEdge(name, j - i, t));
  }

  // ---------------------------------------------------------------------------
  // The stored graph and metadata, as functions of the labelled edges

  function EdgesOf(ls: seq<Labelled>): (r: seq<Edge>)
    ensures |r| == |ls| && forall k :: 0 <= k < |ls| ==> r[k] == ls[k].edge
  {
    seq(|ls|, k requires 0 <= k < |ls| => ls[k].edge)
  }

  function InfoOf(ls: seq<Labelled>): (r: map<EdgeId, EdgeInfo>)
    ensures forall k :: k in r <==> 0 <= k < |ls|
    ensures forall k :: 0 <= k < |ls| ==> r[k] == ls[k].info
  {
    map k | 0 <= k < |ls| :: ls[k].info
  }

  lemma NothingTracked()
    ensures EdgesOf([]) == [] && InfoOf([]) == map[]
  {
  }

  /** Appending a labelled edge appends its edge and files its metadata under the next id. */
  lemma Track(ls: seq<Labelled>, l: Labelled, vertexCount: nat)
    requires AllWellFormed(ls, vertexCount) && WellFormed(l, vertexCount)
    ensures EdgesOf(ls + [l]) == EdgesOf(ls) + [l.edge]
    ensures InfoOf(ls + [l]) == InfoOf(ls)[|ls| := l.info]
    ensures AllWellFormed(ls + [l], vertexCount)
  {
    assert forall k :: 0 <= k < |ls| ==> (ls + [l])[k] == ls[k];
  }

  /** A sequence of edge ids forming a walk from `source` to `target` in `edges`. */
  predicate IsPath(edges: seq<Edge>, source: VertexId, target: VertexId, path: seq<EdgeId>) {
    && (forall k :: 0 <= k < |path| ==> path[k] < |edges|)
    && (|path| == 0 ==> source == target)
    && (|path| > 0 ==> edges[path[0]].from == source && edges[path[|path| - 1]].to == target)
    && (forall k :: 0 <= k < |path| - 1 ==> edges[path[k]].to == edges[path[k + 1]].from)
  }

  function PathWeight(edges: seq<Edge>, path: seq<EdgeId>): real
    requires forall k :: 0 <= k < |path| ==> path[k] < |edges|
  {
    if path == [] then 0.0 else PathWeight(edges, path[..|path| - 1]) + edges[path[|path| - 1]].weight
  }

  /** The contract of Router::BuildRoute: none, or a path whose weights sum to the reported weight. */
  predicate IsRoute(edges: seq<Edge>, source: VertexId, target: VertexId, route: RouteInfo) {
    IsPath(edges, source, target, route.edges) && route.weight == PathWeight(edges, route.edges)
  }

  function TotalTime(itinerary: seq<EdgeInfo>): real {
    if itinerary == [] then 0.0 else TotalTime(itinerary[..|itinerary| - 1]) + itinerary[|itinerary| - 1].time
  }

  /** Waiting and riding alternate, starting with a wait. */
  predicate Alternates(itinerary: seq<EdgeInfo>) {
    forall k :: 0 <= k < |itinerary| ==> (itinerary[k].StopEdge? <==> k % 2 == 0)
  }

  class TransportRouter {
    var settings: RoutingSettings
    var stopToRoute: map<nat, WaitRange>
    var edgeInfo: map<EdgeId, EdgeInfo>
    var graph: Graph
    /** The stops in the order the constructor numbered them. */
    ghost var registered: seq<nat>
    /** Every edge added so far with its metadata, in id order. */
    ghost var labelled: seq<Labelled>

    ghost predicate Valid()
      reads this, graph
    {
      && Numbered(stopToRoute, registered)
      && graph.vertexCount == 2 * |registered|
      && graph.edges == EdgesOf(labelled)
      && edgeInfo == InfoOf(labelled)
      && AllWellFormed(labelled, graph.vertexCount)
    }

    function SetupOf(catalogue: TransportCatalogue): Setup
      reads this, catalogue
    {
      Setup(catalogue.distances, stopToRoute, settings)
    }

    /**
     * The constructor: numbers the stops of stopOrder (the stop dictionary's
     * iteration order), sizes the graph at two vertices per stop, then adds
     * the wait edges in routeOrder (stop_to_route_'s iteration order) and the
     * ride edges of the buses in busOrder (the bus dictionary's order).
     */
    constructor (catalogue: TransportCatalogue, settings: RoutingSettings,
                 stopOrder: seq<nat>, routeOrder: seq<nat>, busOrder: seq<nat>)
      requires catalogue.Valid()
      requires settings.busVelocity > 0.0
      requires Enumerates(stopOrder, catalogue.stopIndex.Values)
      requires Enumerates(routeOrder, Elements(stopOrder))
      requires Enumerates(busOrder, catalogue.busIndex.Values)
      requires forall b, s :: b in busOrder && s in catalogue.buses[b].stops ==> s in stopOrder
      ensures registered == stopOrder && stopToRoute == WaitRanges(stopOrder) && this.settings == settings
      ensures graph.vertexCount == 2 * |stopOrder|
      ensures Valid()
      ensures var g := Setup(catalogue.distances, WaitRanges(stopOrder), settings);
              && (forall k :: 0 <= k < |routeOrder| ==> routeOrder[k] in g.waits && routeOrder[k] < |catalogue.stops|)
              && CoversBuses(g, catalogue.buses, busOrder)
              && labelled == WaitEdges(catalogue.stops, g, routeOrder) + AllBusEdges(g, catalogue.buses, busOrder)
    {
      var waits := NumberStops(stopOrder);
      WaitRangesNumbered(stopOrder);
      ghost var g := Setup(catalogue.distances, waits, settings);
      OrdersCovered(catalogue, g, stopOrder, routeOrder, busOrder);
      this.settings := settings;
      stopToRoute := waits;
      edgeInfo := map[];
      graph := new Graph(2 * |stopOrder|);
      registered := stopOrder;
      labelled := [];
      new;
      NothingTracked();
      AddEdgeToStops(catalogue, routeOrder);
      assert labelled == WaitEdges(catalogue.stops, g, routeOrder) by {
        assert [] + WaitEdges(catalogue.stops, g, routeOrder) == WaitEdges(catalogue.stops, g, routeOrder);
      }
      AddEdgeToBuses(catalogue, busOrder);
    }

    /**
     * Adds an edge to the graph and files its metadata under the id the graph
     * hands out, as both edge builders do.
     */
    method AddLabelled(edge: Edge, info: EdgeInfo) returns (id: EdgeId)
      requires Valid() && WellFormed(Labelled(edge, info), graph.vertexCount)
      modifies this, graph
      ensures graph == old(graph) && settings == old(settings)
      ensures stopToRoute == old(stopToRoute) && registered == old(registered)
      ensures Valid()
      ensures labelled == old(labelled) + [Labelled(edge, info)]
      ensures id == |old(labelled)| && edgeInfo[id] == info && graph.edges[id] == edge
    {
      Track(labelled, Labelled(edge, info), graph.vertexCount);
      id := graph.AddEdge(edge);
      edgeInfo := edgeInfo[id := info];
      labelled := labelled + [Labelled(edge, info)];
    }

    /** AddEdgeToStops: one wait edge per registered stop, in the given order. */
    method AddEdgeToStops(catalogue: TransportCatalogue, order: seq<nat>)
      requires Valid()
      requires forall k :: 0 <= k < |order| ==> order[k] in stopToRoute && order[k] < |catalogue.stops|
      modifies this, graph
      ensures graph == old(graph) && settings == old(settings)
      ensures stopToRoute == old(stopToRoute) && registered == old(registered)
      ensures Valid()
      ensures labelled == old(labelled) + WaitEdges(catalogue.stops, SetupOf(catalogue), order)
    {
      ghost var g := SetupOf(catalogue);
      var i := 0;
      while i < |order|
        invariant 0 <= i <= |order|
        invariant graph == old(graph) && settings == old(settings)
        invariant stopToRoute == old(stopToRoute) && registered == old(registered)
        invariant Valid() && SetupOf(catalogue) == g
        invariant labelled == old(labelled) + WaitEdges(catalogue.stops, g, order[..i])
      {
        var stop := order[i];
        var route := stopToRoute[stop];
        ghost var before := labelled;
        WaitEdgeWellFormed(catalogue.stops, g, registered, stop);
        var id := AddLabelled(Edge(route.busWaitStart, route.busWaitEnd, settings.busWaitTime),
                              StopEdge(catalogue.stops[stop].name, settings.busWaitTime));
        WaitEdgesStep(catalogue.stops, g, order, i, old(labelled), before, labelled);
        i := i + 1;
      }
      assert order[..i] == order;
    }

    /** AddEdgeToBuses: the ride edges of every bus in the given order. */
    method AddEdgeToBuses(catalogue: TransportCatalogue, order: seq<nat>)
      requires Valid()
      requires CoversBuses(SetupOf(catalogue), catalogue.buses, order)
      modifies this, graph
      ensures graph == old(graph) && settings == old(settings)
      ensures stopToRoute == old(stopToRoute) && registered == old(registered)
      ensures Valid()
      ensures labelled == old(labelled) + AllBusEdges(SetupOf(catalogue), catalogue.buses, order)
    {
      ghost var g := SetupOf(catalogue);
      var i := 0;
      while i < |order|
        invariant 0 <= i <= |order|
        invariant graph == old(graph) && settings == old(settings)
        invariant stopToRoute == old(stopToRoute) && registered == old(registered)
        invariant Valid() && SetupOf(catalogue) == g
        invariant labelled == old(labelled) + AllBusEdges(g, catalogue.buses, order[..i])
      {
        ghost var before := labelled;
        AddBus(catalogue, order[i]);
        AllBusEdgesStep(g, catalogue.buses, order, i, old(labelled), before, labelled);
        i := i + 1;
      }
      assert order[..i] == order;
    }

    /** One turn of AddEdgeToBuses's loop: the ride edges of one bus, forward and, unless it is a roundtrip, backward. */
    method AddBus(catalogue: TransportCatalogue, b: nat)
      requires Valid()
      requires b < |catalogue.buses| && Covers(SetupOf(catalogue), catalogue.buses[b].stops)
      modifies this, graph
      ensures graph == old(graph) && settings == old(settings)
      ensures stopToRoute == old(stopToRoute) && registered == old(registered)
      ensures Valid()
      ensures labelled == old(labelled) + BusEdges(SetupOf(catalogue), catalogue.buses[b])
    {
      var bus := catalogue.buses[b];
      MakeEdgesFromBuses(catalogue, bus.name, bus.stops);
      ghost var forward := labelled;
      if !bus.isRoundtrip {
        ReverseCovers(SetupOf(catalogue), bus.stops);
        MakeEdgesFromBuses(catalogue, bus.name, Reverse(bus.stops));
      }
    }

    /** CreateRouteFromStops: the ride edge from start's wait-end to end's wait-start. */
    function CreateRouteFromStops(start: nat, end: nat, distance: nat): (e: Edge)
      reads this, graph
      requires Valid() && settings.busVelocity > 0.0
      requires start in stopToRoute && end in stopToRoute
      ensures e.from == stopToRoute[start].busWaitEnd && e.to == stopToRoute[end].busWaitStart
      ensures e.from % 2 == 1 && e.to % 2 == 0
      ensures e.from < graph.vertexCount && e.to < graph.vertexCount
      ensures e.weight == RideTime(settings, distance)
    {
      WaitRangeParity(stopToRoute, registered, start);
      WaitRangeParity(stopToRoute, registered, end);
      Edge(stopToRoute[start].busWaitEnd, stopToRoute[end].busWaitStart, RideTime(settings, distance))
    }

    /**
     * MakeEdgesFromBuses: for every start position, walks on to the end of the
     * route adding one ride edge per end position.
     */
    method MakeEdgesFromBuses(catalogue: TransportCatalogue, name: string, route: seq<nat>)
      requires Valid()
      requires Covers(SetupOf(catalogue), route)
      modifies this, graph
      ensures graph == old(graph) && settings == old(settings)
      ensures stopToRoute == old(stopToRoute) && registered == old(registered)
      ensures Valid()
      ensures labelled == old(labelled) + DirectionEdges(SetupOf(catalogue), name, route)
    {
      ghost var g := SetupOf(catalogue);
      var i := 0;
      assert labelled == old(labelled) + RideRows(g, name, route, 0) by {
        assert RideRows(g, name, route, 0) == [];
      }
      while i < |route|
        invariant 0 <= i <= |route|
        invariant graph == old(graph) && settings == old(settings)
        invariant stopToRoute == old(stopToRoute) && registered == old(registered)
        invariant Valid() && SetupOf(catalogue) == g
        invariant labelled == old(labelled) + RideRows(g, name, route, i)
      {
        ghost var before := labelled;
        MakeRow(catalogue, name, route, i);
        RideRowsStep(g, name, route, i, old(labelled), before, labelled);
        i := i + 1;
      }
      assert labelled == old(labelled) + DirectionEdges(g, name, route);
    }

    /**
     * The inner loop of MakeEdgesFromBuses for start position i: accumulates
     * the distance in a size_t and the span, one ride edge per later stop.
     */
    method MakeRow(catalogue: TransportCatalogue, name: string, route: seq<nat>, i: nat)
      requires Valid()
      requires Covers(SetupOf(catalogue), route) && i < |route|
      modifies this, graph
      ensures graph == old(graph) && settings == old(settings)
      ensures stopToRoute == old(stopToRoute) && registered == old(registered)
      ensures Valid()
      ensures labelled == old(labelled) + RideRow(SetupOf(catalogue), name, route, i, |route| - 1)
    {
      ghost var g := SetupOf(catalogue);
      var dist := 0;
      var span := 0;
      var j := i + 1;
      while j < |route|
        invariant i + 1 <= j <= |route|
        invariant graph == old(graph) && settings == old(settings)
        invariant stopToRoute == old(stopToRoute) && registered == old(registered)
        invariant Valid() && SetupOf(catalogue) == g
        invariant dist == SizeT(SegmentDistance(g.table, route, i, j - 1)) && span == j - 1 - i
        invariant labelled == old(labelled) + RideRow(g, name, route, i, j - 1)
      {
        span := span + 1;
        ghost var before := labelled;
        dist := AddRide(catalogue, name, route, i, j, dist, span);
        RideRowStep(g, name, route, i, j, old(labelled), before, labelled);
        j := j + 1;
      }
      assert labelled == old(labelled) + RideRow(g, name, route, i, |route| - 1);
    }

    /**
     * One turn of MakeRow's loop: adds the next hop to the size_t sum and
     * the ride edge from route[i] to route[j] over `span` stops.
     */
    method AddRide(catalogue: TransportCatalogue, name: string, route: seq<nat>, i: nat, j: nat,
                   dist: nat, span: nat) returns (next: nat)
      requires Valid()
      requires Covers(SetupOf(catalogue), route) && i < j < |route| && span == j - i
      requires dist == SizeT(SegmentDistance(catalogue.distances, route, i, j - 1))
      modifies this, graph
      ensures graph == old(graph) && settings == old(settings)
      ensures stopToRoute == old(stopToRoute) && registered == old(registered)
      ensures Valid()
      ensures next == SizeT(SegmentDistance(catalogue.distances, route, i, j))
      ensures labelled == old(labelled) + [RideEdge(SetupOf(catalogue), name, route, i, j)]
    {
      AccumulateStep(catalogue.distances, route, i, j, dist);
      next := SizeT(dist + DistanceBetween(catalogue.distances, route[j - 1], route[j]));
      var edge := CreateRouteFromStops(route[i], route[j], next);
      RideEdgeWellFormed(SetupOf(catalogue), registered, name, route, i, j);
      assert Labelled(edge, BusEdge(name, span, edge.weight)) == RideEdge(SetupOf(catalogue), name, route, i, j);
      var id := AddLabelled(edge, BusEdge(name, span, edge.weight));
    }

    /** GetRouteAtStop: the wait range of a registered stop, none for any other. */
    function GetRouteAtStop(stop: nat): (r: Option<WaitRange>)
      reads this, graph
      requires Valid()
      ensures r.None? <==> stop !in registered
      ensures r.Some? ==> exists k :: 0 <= k < |registered| && registered[k] == stop &&
                                      r.value == WaitRange(2 * k, 2 * k + 1)
    {
      if stop in stopToRoute then
        WaitRangeShape(stopToRoute, registered, stop);
        Some(stopToRoute[stop])
      else None
    }

    /** GetEdgeAt: the metadata of an edge id; None where `at` would throw. */
    function GetEdgeAt(id: EdgeId): (r: Option<EdgeInfo>)
      reads this, graph
      requires Valid()
      ensures r.Some? <==> id < |graph.edges|
      ensures r.Some? ==> r.value.time == graph.edges[id].weight
      ensures r.Some? ==> (r.value.StopEdge? <==> graph.edges[id].from % 2 == 0)
    {
      if id in edgeInfo then Some(edgeInfo[id]) else None
    }

    /**
     * GetRouteGraphInfo; `built` is what the shortest-path router answers for
     * the wait-start vertices of `from` and `to`.
     */
    function GetRouteGraphInfo(from: nat, to: nat, built: Option<RouteInfo>): (r: Option<RouteGraphInfo>)
      reads this, graph
      requires Valid()
      requires from in registered && to in registered
      requires built.Some? ==>
                 IsRoute(graph.edges, stopToRoute[from].busWaitStart, stopToRoute[to].busWaitStart, built.value)
      ensures r.Some? <==> built.Some?
      ensures r.Some? ==>
                && r.value.totalTime == built.value.weight
                && |r.value.edges| == |built.value.edges|
                && (forall k :: 0 <= k < |r.value.edges| ==> r.value.edges[k] == edgeInfo[built.value.edges[k]])
                && TotalTime(r.value.edges) == r.value.totalTime
                && Alternates(r.value.edges)
    {
      match built
      case None => None
      case Some(route) =>
        var itinerary := Itinerary(route.edges);
        WaitRangeParity(stopToRoute, registered, from);
        ItineraryTime(route.edges);
        ItineraryAlternates(route.edges, stopToRoute[from].busWaitStart, stopToRoute[to].busWaitStart);
        Some(RouteGraphInfo(route.weight, itinerary))
    }

    /** The metadata of a path's edges, in path order. */
    function Itinerary(path: seq<EdgeId>): (r: seq<EdgeInfo>)
      reads this, graph
      requires Valid() && forall k :: 0 <= k < |path| ==> path[k] < |graph.edges|
      ensures |r| == |path| && forall k :: 0 <= k < |path| ==> r[k] == edgeInfo[path[k]]
    {
      if path == [] then [] else Itinerary(path[..|path| - 1]) + [edgeInfo[path[|path| - 1]]]
    }

    lemma {:induction false} ItineraryTime(path: seq<EdgeId>)
      requires Valid() && forall k :: 0 <= k < |path| ==> path[k] < |graph.edges|
      ensures TotalTime(Itinerary(path)) == PathWeight(graph.edges, path)
    {
      if path != [] {
        var init := path[..|path| - 1];
        ItineraryTime(init);
        assert Itinerary(path)[..|path| - 1] == Itinerary(init);
        assert WellFormed(labelled[path[|path| - 1]], graph.vertexCount);
      }
    }

    /** A path leaving a wait-start vertex alternates wait and ride edges. */
    lemma ItineraryAlternates(path: seq<EdgeId>, source: VertexId, target: VertexId)
      requires Valid() && IsPath(graph.edges, source, target, path) && source % 2 == 0
      ensures Alternates(Itinerary(path))
    {
      var it := Itinerary(path);
      forall k | 0 <= k < |path| ensures graph.edges[path[k]].from % 2 == k % 2 {
        PathParity(path, source, target, k);
      }
      forall k | 0 <= k < |path| ensures it[k].StopEdge? <==> k % 2 == 0 {
        assert WellFormed(labelled[path[k]], graph.vertexCount);
      }
    }

    lemma {:induction false} PathParity(path: seq<EdgeId>, source: VertexId, target: VertexId, k: nat)
      requires Valid() && IsPath(graph.edges, source, target, path) && source % 2 == 0
      requires k < |path|
      ensures graph.edges[path[k]].from % 2 == k % 2
    {
      if k > 0 {
        PathParity(path, source, target, k - 1);
        assert WellFormed(labelled[path[k - 1]], graph.vertexCount);
      }
    }
  }

  // Loop steps of the edge builders: the edges added so far (`after`, which
  // extends `before`, which extends `start`) are the specified prefix.

  lemma WaitEdgesStep(stops: seq<Stop>, g: Setup, order: seq<nat>, i: nat,
                      start: seq<Labelled>, before: seq<Labelled>, after: seq<Labelled>)
    requires forall k :: 0 <= k < |order| ==> order[k] in g.waits && order[k] < |stops|
    requires i < |order|
    requires before == start + WaitEdges(stops, g, order[..i])
    requires after == before + [WaitEdge(stops, g, order[i])]
    ensures after == start + WaitEdges(stops, g, order[..i + 1])
  {
    assert order[..i + 1][..i] == order[..i];
    assert WaitEdges(stops, g, order[..i + 1]) == WaitEdges(stops, g, order[..i]) + [WaitEdge(stops, g, order[i])];
  }

  lemma AllBusEdgesStep(g: Setup, buses: seq<Bus>, order: seq<nat>, i: nat,
                        start: seq<Labelled>, before: seq<Labelled>, after: seq<Labelled>)
    requires CoversBuses(g, buses, order) && i < |order|
    requires before == start + AllBusEdges(g, buses, order[..i])
    requires after == before + BusEdges(g, buses[order[i]])
    ensures after == start + AllBusEdges(g, buses, order[..i + 1])
  {
    assert order[..i + 1][..i] == order[..i];
  }

  /** Adding the next hop to the size_t sum of the hops so far gives the size_t sum up to the next stop. */
  lemma AccumulateStep(table: DistanceTable, route: seq<nat>, i: nat, j: nat, dist: nat)
    requires i < j < |route| && dist == SizeT(SegmentDistance(table, route, i, j - 1))
    ensures SizeT(dist + DistanceBetween(table, route[j - 1], route[j])) == SizeT(SegmentDistance(table, route, i, j))
  {
    SizeTAdd(SegmentDistance(table, route, i, j - 1), DistanceBetween(table, route[j - 1], route[j]));
  }

  lemma RideRowsStep(g: Setup, name: string, route: seq<nat>, i: nat,
                     start: seq<Labelled>, before: seq<Labelled>, after: seq<Labelled>)
    requires Covers(g, route) && i < |route|
    requires before == start + RideRows(g, name, route, i)
    requires after == before + RideRow(g, name, route, i, |route| - 1)
    ensures after == start + RideRows(g, name, route, i + 1)
  {
    assert RideRows(g, name, route, i + 1) == RideRows(g, name, route, i) + RideRow(g, name, route, i, |route| - 1);
  }

  lemma RideRowStep(g: Setup, name: string, route: seq<nat>, i: nat, j: nat,
                    start: seq<Labelled>, before: seq<Labelled>, after: seq<Labelled>)
    requires Covers(g, route) && i < j < |route|
    requires before == start + RideRow(g, name, route, i, j - 1)
    requires after == before + [RideEdge(g, name, route, i, j)]
    ensures after == start + RideRow(g, name, route, i, j)
  {
    assert RideRow(g, name, route, i, j) == RideRow(g, name, route, i, j - 1) + [RideEdge(g, name, route, i, j)];
  }

  /**
   * What the constructor's iteration orders guarantee the edge builders:
   * every stop of the route order is numbered and indexes the stop vector,
   * and every bus of the bus order indexes the bus vector and has its stops
   * numbered.
   */
  lemma OrdersCovered(catalogue: TransportCatalogue, g: Setup, stopOrder: seq<nat>, routeOrder: seq<nat>, busOrder: seq<nat>)
    requires catalogue.Valid()
    requires g.settings.busVelocity > 0.0 && g.waits == WaitRanges(stopOrder)
    requires Enumerates(stopOrder, catalogue.stopIndex.Values)
    requires Enumerates(routeOrder, Elements(stopOrder))
    requires Enumerates(busOrder, catalogue.busIndex.Values)
    requires forall b, s :: b in busOrder && s in catalogue.buses[b].stops ==> s in stopOrder
    ensures forall k :: 0 <= k < |routeOrder| ==> routeOrder[k] in g.waits && routeOrder[k] < |catalogue.stops|
    ensures CoversBuses(g, catalogue.buses, busOrder)
  {
    StopOrderWithin(catalogue, stopOrder, routeOrder);
    BusOrderCovered(catalogue, g, stopOrder, busOrder);
  }

  lemma StopOrderWithin(catalogue: TransportCatalogue, stopOrder: seq<nat>, routeOrder: seq<nat>)
    requires catalogue.Valid()
    requires Enumerates(stopOrder, catalogue.stopIndex.Values)
    requires Enumerates(routeOrder, Elements(stopOrder))
    ensures forall k :: 0 <= k < |routeOrder| ==> routeOrder[k] in WaitRanges(stopOrder) && routeOrder[k] < |catalogue.stops|
  {
    WaitRangesNumbered(stopOrder);
    forall k | 0 <= k < |routeOrder|
      ensures routeOrder[k] in WaitRanges(stopOrder) && routeOrder[k] < |catalogue.stops|
    {
      var s := routeOrder[k];
      assert s in Elements(stopOrder);
      var m :| 0 <= m < |stopOrder| && stopOrder[m] == s;
      assert s in catalogue.stopIndex.Values;
      var name :| name in catalogue.stopIndex && catalogue.stopIndex[name] == s;
    }
  }

  /** Every bus of the bus order indexes the bus vector and has its stops numbered. */
  lemma BusOrderCovered(catalogue: TransportCatalogue, g: Setup, stopOrder: seq<nat>, busOrder: seq<nat>)
    requires catalogue.Valid()
    requires g.settings.busVelocity > 0.0 && g.waits == WaitRanges(stopOrder)
    requires Enumerates(busOrder, catalogue.busIndex.Values)
    requires forall b, s :: b in busOrder && s in catalogue.buses[b].stops ==> s in stopOrder
    ensures CoversBuses(g, catalogue.buses, busOrder)
    requires Distinct(stopOrder)
  {
    WaitRangesNumbered(stopOrder);
    forall k | 0 <= k < |busOrder|
      ensures busOrder[k] < |catalogue.buses| && Covers(g, catalogue.buses[busOrder[k]].stops)
    {
      var b := busOrder[k];
      assert b in catalogue.busIndex.Values;
      var name :| name in catalogue.busIndex && catalogue.busIndex[name] == b;
      var route := catalogue.buses[b].stops;
      forall m | 0 <= m < |route| ensures route[m] in g.waits {
        assert route[m] in route;
        assert route[m] in stopOrder;
        var p :| 0 <= p < |stopOrder| && stopOrder[p] == route[m];
      }
    }
  }

  /** In the constructed graph the wait edges take the first ids and the ride edges the rest. */
  lemma {:induction false} WaitEdgesFirst(stops: seq<Stop>, g: Setup, routeOrder: seq<nat>, buses: seq<Bus>, busOrder: seq<nat>)
    requires forall k :: 0 <= k < |routeOrder| ==> routeOrder[k] in g.waits && routeOrder[k] < |stops|
    requires CoversBuses(g, buses, busOrder)
    ensures var ls := WaitEdges(stops, g, routeOrder) + AllBusEdges(g, buses, busOrder);
            forall k :: 0 <= k < |ls| ==> (ls[k].info.StopEdge? <==> k < |routeOrder|)
  {
    WaitEdgesAreStopEdges(stops, g, routeOrder);
    AllBusEdgesAreBusEdges(g, buses, busOrder);
  }

  lemma {:induction false} WaitEdgesAreStopEdges(stops: seq<Stop>, g: Setup, order: seq<nat>)
    requires forall k :: 0 <= k < |order| ==> order[k] in g.waits && order[k] < |stops|
    ensures |WaitEdges(stops, g, order)| == |order|
    ensures forall k :: 0 <= k < |order| ==> WaitEdges(stops, g, order)[k].info.StopEdge?
  {
    if order != [] {
      WaitEdgesAreStopEdges(stops, g, order[..|order| - 1]);
    }
  }

  predicate AllBusKind(ls: seq<Labelled>) {
    forall k :: 0 <= k < |ls| ==> ls[k].info.BusEdge?
  }

  lemma {:induction false} RideRowsBusKind(g: Setup, name: string, route: seq<nat>, count: nat)
    requires Covers(g, route) && count <= |route|
    ensures AllBusKind(RideRows(g, name, route, count))
  {
    if count > 0 {
      RideRowsBusKind(g, name, route, count - 1);
      var row := RideRow(g, name, route, count - 1, |route| - 1);
      forall k | 0 <= k < |row| ensures row[k].info.BusEdge? {
        assert row[k] == RideEdge(g, name, route, count - 1, count + k);
      }
    }
  }

  lemma {:induction false} AllBusEdgesAreBusEdges(g: Setup, buses: seq<Bus>, order: seq<nat>)
    requires CoversBuses(g, buses, order)
    ensures AllBusKind(AllBusEdges(g, buses, order))
  {
    if order != [] {
      var bus := buses[order[|order| - 1]];
      AllBusEdgesAreBusEdges(g, buses, order[..|order| - 1]);
      RideRowsBusKind(g, bus.name, bus.stops, |bus.stops|);
      ReverseCovers(g, bus.stops);
      RideRowsBusKind(g, bus.name, Reverse(bus.stops), |bus.stops|);
    }
  }
}
