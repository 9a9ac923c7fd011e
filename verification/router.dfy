/**
 * The routing graph: every line contributes, for each ordered pair of stops of its traversal,
 * an edge whose weight is one boarding wait plus the riding time between them, and one
 * zero-span "transfer" edge from its first to its last stop. A shortest-path answer (a list of
 * edge ids and a total weight) is turned into alternating wait and ride items.
 *
 * The shortest-path engine itself is not part of this model: it is a parameter.
 */
module TransportRouter {
  import opened Wrappers
  import opened Catalogue

  /** Minutes to wait at a stop and the bus speed in km/h. */
  datatype RoutingSettings = RoutingSettings(busWaitTime: real, busVelocity: real)

  /** A graph edge; `bus` is the position of the line in the catalogue's line list. */
  datatype Edge = Edge(from: nat, to: nat, weight: real, count: nat, bus: nat)

  /** Minutes per hour. */
  const TimeSpan: real := 60.0

  // ---------------------------------------------------------------- weights

  /** Riding time in minutes between two stop records: road metres to km, over the speed, to minutes. */
  function TakeWeightEdge(c: Catalogue, rs: RoutingSettings, a: nat, b: nat): (w: real)
    requires rs.busVelocity != 0.0
    ensures rs.busVelocity > 0.0 && Road(c, a, b) >= 0 ==> w >= 0.0
    ensures Road(c, a, b) == 0 ==> w == 0.0
  {
    var distance := (Road(c, a, b) as real) / 1000.0;
    (distance / rs.busVelocity) * TimeSpan
  }

  /** Wait plus the riding time from position `i` to position `j` of the traversal `s`. */
  function PathWeight(c: Catalogue, rs: RoutingSettings, s: seq<nat>, i: nat, j: nat): real
    requires i <= j < |s| && rs.busVelocity != 0.0
    decreases j - i
  {
    if j == i then rs.busWaitTime
    else PathWeight(c, rs, s, i, j - 1) + TakeWeightEdge(c, rs, s[j - 1], s[j])
  }

  /** Wait plus the riding time from position `j` back to position `i`, over the reversed hops. */
  function BackWeight(c: Catalogue, rs: RoutingSettings, s: seq<nat>, i: nat, j: nat): real
    requires i <= j < |s| && rs.busVelocity != 0.0
    decreases j - i
  {
    if j == i then rs.busWaitTime
    else BackWeight(c, rs, s, i, j - 1) + TakeWeightEdge(c, rs, s[j], s[j - 1])
  }

  /** With non-negative road distances and a positive speed no edge is cheaper than the wait. */
  lemma {:induction false} PathWeightAtLeastWait(c: Catalogue, rs: RoutingSettings, s: seq<nat>, i: nat, j: nat)
    requires i <= j < |s| && rs.busVelocity > 0.0
    requires forall k | i < k <= j :: Road(c, s[k - 1], s[k]) >= 0 && Road(c, s[k], s[k - 1]) >= 0
    ensures PathWeight(c, rs, s, i, j) >= rs.busWaitTime
    ensures BackWeight(c, rs, s, i, j) >= rs.busWaitTime
    decreases j - i
  {
    if j > i {
      PathWeightAtLeastWait(c, rs, s, i, j - 1);
    }
  }

  /**
   * Riding from `i` to `k` and on from `k` to `j` takes as long as riding from `i` to `j`:
   * only the one wait differs.
   */
  lemma {:induction false} PathWeightSplit(c: Catalogue, rs: RoutingSettings, s: seq<nat>, i: nat, k: nat, j: nat)
    requires i <= k <= j < |s| && rs.busVelocity != 0.0
    ensures PathWeight(c, rs, s, i, j) == PathWeight(c, rs, s, i, k) + PathWeight(c, rs, s, k, j) - rs.busWaitTime
    ensures BackWeight(c, rs, s, i, j) == BackWeight(c, rs, s, i, k) + BackWeight(c, rs, s, k, j) - rs.busWaitTime
    decreases j - k
  {
    if j > k {
      PathWeightSplit(c, rs, s, i, k, j - 1);
    }
  }

  // ---------------------------------------------------------------- edges of one line

  function Fwd(c: Catalogue, rs: RoutingSettings, s: seq<nat>, bus: nat, i: nat, j: nat): Edge
    requires i <= j < |s| && rs.busVelocity != 0.0
  {
    Edge(s[i], s[j], PathWeight(c, rs, s, i, j), j - i, bus)
  }

  function Back(c: Catalogue, rs: RoutingSettings, s: seq<nat>, bus: nat, i: nat, j: nat): Edge
    requires i <= j < |s| && rs.busVelocity != 0.0
  {
    Edge(s[j], s[i], BackWeight(c, rs, s, i, j), j - i, bus)
  }

  /** The edges drawn for the pair (i, j): forward only on a ring line, both ways otherwise. */
  function Pair(c: Catalogue, rs: RoutingSettings, s: seq<nat>, isRing: bool, bus: nat, i: nat, j: nat): seq<Edge>
    requires i <= j < |s| && rs.busVelocity != 0.0
  {
    if isRing then [Fwd(c, rs, s, bus, i, j)] else [Fwd(c, rs, s, bus, i, j), Back(c, rs, s, bus, i, j)]
  }

  /** The edges of row `i` for the targets i+1 .. j-1, in drawing order. */
  function RowUpTo(c: Catalogue, rs: RoutingSettings, s: seq<nat>, isRing: bool, bus: nat, i: nat, j: nat): seq<Edge>
    requires i < j <= |s| && rs.busVelocity != 0.0
    decreases j
  {
    if j == i + 1 then [] else RowUpTo(c, rs, s, isRing, bus, i, j - 1) + Pair(c, rs, s, isRing, bus, i, j - 1)
  }

  /** The complete rows 0 .. k-1. */
  function Rows(c: Catalogue, rs: RoutingSettings, s: seq<nat>, isRing: bool, bus: nat, k: nat): seq<Edge>
    requires k < |s| && rs.busVelocity != 0.0
  {
    if k == 0 then [] else Rows(c, rs, s, isRing, bus, k - 1) + RowUpTo(c, rs, s, isRing, bus, k - 1, |s|)
  }

  /** The zero-span edge from the first to the last stop of the traversal, weighted by the wait alone. */
  function Terminal(rs: RoutingSettings, s: seq<nat>, bus: nat): Edge
    requires |s| >= 1
  {
    Edge(s[0], s[|s| - 1], rs.busWaitTime, 0, bus)
  }

  /** Every edge one line contributes, in drawing order. */
  function LineEdges(c: Catalogue, rs: RoutingSettings, s: seq<nat>, isRing: bool, bus: nat): seq<Edge>
    requires |s| >= 1 && rs.busVelocity != 0.0
  {
    Rows(c, rs, s, isRing, bus, |s| - 1) + [Terminal(rs, s, bus)]
  }

  /** `e` is an edge drawn for the pair i < j: the forward edge, or on an out-and-back line also the backward one. */
  ghost predicate Drawn(c: Catalogue, rs: RoutingSettings, s: seq<nat>, isRing: bool, bus: nat, i: nat, j: nat, e: Edge) {
    && i < j < |s| && rs.busVelocity != 0.0
    && (e == Fwd(c, rs, s, bus, i, j) || (!isRing && e == Back(c, rs, s, bus, i, j)))
  }

  /** The independent description of a line's edges: a pair edge for some i < j, or the terminal edge. */
  ghost predicate IsLineEdge(c: Catalogue, rs: RoutingSettings, s: seq<nat>, isRing: bool, bus: nat, e: Edge)
    requires |s| >= 1
  {
    || e == Terminal(rs, s, bus)
    || exists i: nat, j: nat :: Drawn(c, rs, s, isRing, bus, i, j, e)
  }

  lemma {:induction false} RowUpToMembers(c: Catalogue, rs: RoutingSettings, s: seq<nat>, isRing: bool, bus: nat, i: nat, j: nat, e: Edge)
    requires i < j <= |s| && rs.busVelocity != 0.0
    ensures e in RowUpTo(c, rs, s, isRing, bus, i, j) <==> exists k: nat | k < j :: Drawn(c, rs, s, isRing, bus, i, k, e)
    decreases j
  {
    if j > i + 1 {
      RowUpToMembers(c, rs, s, isRing, bus, i, j - 1, e);
      if e in Pair(c, rs, s, isRing, bus, i, j - 1) {
        assert Drawn(c, rs, s, isRing, bus, i, j - 1, e);
      }
    }
  }

  lemma {:induction false} RowsMembers(c: Catalogue, rs: RoutingSettings, s: seq<nat>, isRing: bool, bus: nat, k: nat, e: Edge)
    requires k < |s| && rs.busVelocity != 0.0
    ensures e in Rows(c, rs, s, isRing, bus, k) <==> exists i: nat, j: nat | i < k :: Drawn(c, rs, s, isRing, bus, i, j, e)
  {
    if k > 0 {
      var r := k - 1;
      RowsMembers(c, rs, s, isRing, bus, r, e);
      RowUpToMembers(c, rs, s, isRing, bus, r, |s|, e);
      if exists j: nat | j < |s| :: Drawn(c, rs, s, isRing, bus, r, j, e) {
        var j: nat :| j < |s| && Drawn(c, rs, s, isRing, bus, r, j, e);
        assert r < k;
      }
      if exists i: nat, j: nat | i < k :: Drawn(c, rs, s, isRing, bus, i, j, e) {
        var i: nat, j: nat :| i < k && Drawn(c, rs, s, isRing, bus, i, j, e);
        if i == r {
          assert j < |s|;
        }
      }
    }
  }

  /** The drawn edges of a line are exactly the pair edges for i < j and the terminal edge. */
  lemma LineEdgesMembers(c: Catalogue, rs: RoutingSettings, s: seq<nat>, isRing: bool, bus: nat, e: Edge)
    requires |s| >= 1 && rs.busVelocity != 0.0
    ensures e in LineEdges(c, rs, s, isRing, bus) <==> IsLineEdge(c, rs, s, isRing, bus, e)
  {
    RowsMembers(c, rs, s, isRing, bus, |s| - 1, e);
  }

  lemma {:induction false} RowUpToLength(c: Catalogue, rs: RoutingSettings, s: seq<nat>, isRing: bool, bus: nat, i: nat, j: nat)
    requires i < j <= |s| && rs.busVelocity != 0.0
    ensures |RowUpTo(c, rs, s, isRing, bus, i, j)| == (if isRing then 1 else 2) * (j - i - 1)
    decreases j
  {
    if j > i + 1 {
      RowUpToLength(c, rs, s, isRing, bus, i, j - 1);
    }
  }

  lemma RowsArith(n: int, k: int)
    ensures k * (2 * n - k - 1) == (k - 1) * (2 * n - k) + 2 * (n - k)
  {
  }

  lemma {:induction false} RowsLength(c: Catalogue, rs: RoutingSettings, s: seq<nat>, isRing: bool, bus: nat, k: nat)
    requires k < |s| && rs.busVelocity != 0.0
    ensures 2 * |Rows(c, rs, s, isRing, bus, k)| == (if isRing then 1 else 2) * (k * (2 * |s| - k - 1))
  {
    if k > 0 {
      RowsLength(c, rs, s, isRing, bus, k - 1);
      RowUpToLength(c, rs, s, isRing, bus, k - 1, |s|);
      RowsArith(|s|, k);
    }
  }

  /** A ring line of n stops draws n(n-1)/2 + 1 edges, an out-and-back traversal n(n-1) + 1. */
  lemma LineEdgesCount(c: Catalogue, rs: RoutingSettings, s: seq<nat>, isRing: bool, bus: nat)
    requires |s| >= 1 && rs.busVelocity != 0.0
    ensures 2 * (|LineEdges(c, rs, s, isRing, bus)| - 1) == (if isRing then 1 else 2) * (|s| * (|s| - 1))
  {
    RowsLength(c, rs, s, isRing, bus, |s| - 1);
    assert (|s| - 1) * (2 * |s| - (|s| - 1) - 1) == |s| * (|s| - 1);
  }

  /** Every edge of a line starts and ends at a stop of the catalogue and names that line. */
  ghost predicate EdgesFit(c: Catalogue, graph: seq<Edge>) {
    forall k | 0 <= k < |graph| ::
      graph[k].from < |c.stops| && graph[k].to < |c.stops| && graph[k].bus < |c.buses|
  }

  /** The only zero-span edges are transfer edges, and they weigh exactly the wait. */
  ghost predicate ZeroSpanIsWait(rs: RoutingSettings, graph: seq<Edge>) {
    forall k | 0 <= k < |graph| :: graph[k].count == 0 ==> graph[k].weight == rs.busWaitTime
  }

  lemma LineEdgesShape(c: Catalogue, rs: RoutingSettings, s: seq<nat>, isRing: bool, bus: nat)
    requires InRange(s, |c.stops|) && |s| >= 1 && rs.busVelocity != 0.0 && bus < |c.buses|
    ensures EdgesFit(c, LineEdges(c, rs, s, isRing, bus))
    ensures ZeroSpanIsWait(rs, LineEdges(c, rs, s, isRing, bus))
    ensures forall k | 0 <= k < |LineEdges(c, rs, s, isRing, bus)| :: LineEdges(c, rs, s, isRing, bus)[k].bus == bus
  {
    var es := LineEdges(c, rs, s, isRing, bus);
    forall k | 0 <= k < |es|
      ensures es[k].from < |c.stops| && es[k].to < |c.stops| && es[k].bus == bus
      ensures es[k].count == 0 ==> es[k].weight == rs.busWaitTime
    {
      assert es[k] in es;
      LineEdgesMembers(c, rs, s, isRing, bus, es[k]);
    }
  }

  // ---------------------------------------------------------------- drawing

  /** The traversal of line `b` can be drawn: it has a stop and every stop is in the catalogue. */
  ghost predicate Drawable(c: Catalogue, rs: RoutingSettings, b: nat) {
    b < |c.buses| && |c.buses[b].stops| >= 1 && rs.busVelocity != 0.0
  }

  /** Draws an out-and-back line: for each i < j, the forward edge then the backward edge, then the transfer edge. */
  method DrawEdgeForSimpleRoute(c: Catalogue, rs: RoutingSettings, b: nat) returns (edges: seq<Edge>)
    requires Drawable(c, rs, b)
    ensures edges == LineEdges(c, rs, c.buses[b].stops, false, b)
  {
    var stops := c.buses[b].stops;
    var n := |stops|;
    edges := [];
    var i := 0;
    while i < n - 1
      invariant 0 <= i <= n - 1
      invariant edges == Rows(c, rs, stops, false, b, i)
    {
      var weightFrom := rs.busWaitTime;
      var weightTo := weightFrom;
      var count := 0;
      var j := i + 1;
      while j < n
        invariant i + 1 <= j <= n
        invariant count == j - i - 1
        invariant weightFrom == PathWeight(c, rs, stops, i, j - 1)
        invariant weightTo == BackWeight(c, rs, stops, i, j - 1)
        invariant edges == Rows(c, rs, stops, false, b, i) + RowUpTo(c, rs, stops, false, b, i, j)
      {
        weightFrom := weightFrom + TakeWeightEdge(c, rs, stops[j - 1], stops[j]);
        weightTo := weightTo + TakeWeightEdge(c, rs, stops[j], stops[j - 1]);
        count := count + 1;
        edges := edges + [Edge(stops[i], stops[j], weightFrom, count, b)];
        edges := edges + [Edge(stops[j], stops[i], weightTo, count, b)];
        j := j + 1;
      }
      i := i + 1;
    }
    edges := edges + [Edge(stops[0], stops[n - 1], rs.busWaitTime, 0, b)];
  }

  /** Draws a ring line: for each i < j only the forward edge, then the transfer edge. */
  method DrawEdgeForRoundRoute(c: Catalogue, rs: RoutingSettings, b: nat) returns (edges: seq<Edge>)
    requires Drawable(c, rs, b)
    ensures edges == LineEdges(c, rs, c.buses[b].stops, true, b)
  {
    var stops := c.buses[b].stops;
    var n := |stops|;
    edges := [];
    var i := 0;
    while i < n - 1
      invariant 0 <= i <= n - 1
      invariant edges == Rows(c, rs, stops, true, b, i)
    {
      var weight := rs.busWaitTime;
      var count := 0;
      var j := i + 1;
      while j < n
        invariant i + 1 <= j <= n
        invariant count == j - i - 1
        invariant weight == PathWeight(c, rs, stops, i, j - 1)
        invariant edges == Rows(c, rs, stops, true, b, i) + RowUpTo(c, rs, stops, true, b, i, j)
      {
        weight := weight + TakeWeightEdge(c, rs, stops[j - 1], stops[j]);
        count := count + 1;
        edges := edges + [Edge(stops[i], stops[j], weight, count, b)];
        j := j + 1;
      }
      i := i + 1;
    }
    edges := edges + [Edge(stops[0], stops[n - 1], rs.busWaitTime, 0, b)];
  }

  /** The edges line `b` contributes, by its own kind. */
  function BusEdges(c: Catalogue, rs: RoutingSettings, b: nat): seq<Edge>
    requires Drawable(c, rs, b)
  {
    LineEdges(c, rs, c.buses[b].stops, c.buses[b].isRing, b)
  }

  /** The edges of the lines named by `order`, concatenated in that order. */
  function AllEdges(c: Catalogue, rs: RoutingSettings, order: seq<nat>): seq<Edge>
    requires forall k | 0 <= k < |order| :: Drawable(c, rs, order[k])
  {
    if order == [] then [] else AllEdges(c, rs, order[..|order| - 1]) + BusEdges(c, rs, order[|order| - 1])
  }

  /** Drawing one more line appends exactly that line's edges. */
  lemma AllEdgesStep(c: Catalogue, rs: RoutingSettings, ids: seq<nat>, k: nat)
    requires forall j | 0 <= j < |ids| :: Drawable(c, rs, ids[j])
    requires k < |ids|
    ensures AllEdges(c, rs, ids[..k + 1]) == AllEdges(c, rs, ids[..k]) + BusEdges(c, rs, ids[k])
  {
    assert ids[..k + 1][..k] == ids[..k];
  }

  /** An edge of a drawn line is an edge of the whole graph. */
  lemma {:induction false} LineEdgeInGraph(c: Catalogue, rs: RoutingSettings, order: seq<nat>, k: nat, e: Edge)
    requires forall j | 0 <= j < |order| :: Drawable(c, rs, order[j])
    requires k < |order| && e in BusEdges(c, rs, order[k])
    ensures e in AllEdges(c, rs, order)
  {
    var init := order[..|order| - 1];
    if k < |init| {
      assert init[k] == order[k];
      LineEdgeInGraph(c, rs, init, k, e);
    }
  }

  /** An edge of the whole graph comes from one of the lines drawn; `k` names that line's place. */
  lemma {:induction false} GraphEdgeInLine(c: Catalogue, rs: RoutingSettings, order: seq<nat>, e: Edge) returns (k: nat)
    requires forall j | 0 <= j < |order| :: Drawable(c, rs, order[j])
    requires e in AllEdges(c, rs, order)
    ensures k < |order| && e in BusEdges(c, rs, order[k])
  {
    var init := order[..|order| - 1];
    if e in AllEdges(c, rs, init) {
      k := GraphEdgeInLine(c, rs, init, e);
      assert init[k] == order[k];
    } else {
      k := |order| - 1;
    }
  }

  /** An edge of the whole graph is exactly an edge of one of the lines drawn. */
  lemma AllEdgesMembers(c: Catalogue, rs: RoutingSettings, order: seq<nat>, e: Edge)
    requires forall k | 0 <= k < |order| :: Drawable(c, rs, order[k])
    ensures e in AllEdges(c, rs, order) <==> exists k | 0 <= k < |order| :: e in BusEdges(c, rs, order[k])
  {
    if e in AllEdges(c, rs, order) {
      var k := GraphEdgeInLine(c, rs, order, e);
    }
    if exists k | 0 <= k < |order| :: e in BusEdges(c, rs, order[k]) {
      var k :| 0 <= k < |order| && e in BusEdges(c, rs, order[k]);
      LineEdgeInGraph(c, rs, order, k, e);
    }
  }

  /** The whole graph's edges stay inside the catalogue, and its zero-span edges weigh the wait. */
  lemma {:induction false} AllEdgesShape(c: Catalogue, rs: RoutingSettings, order: seq<nat>)
    requires BusStopsInRange(c.buses, |c.stops|)
    requires forall k | 0 <= k < |order| :: Drawable(c, rs, order[k])
    ensures EdgesFit(c, AllEdges(c, rs, order)) && ZeroSpanIsWait(rs, AllEdges(c, rs, order))
  {
    if order != [] {
      var init := order[..|order| - 1];
      var b := order[|order| - 1];
      AllEdgesShape(c, rs, init);
      LineEdgesShape(c, rs, c.buses[b].stops, c.buses[b].isRing, b);
      var front := AllEdges(c, rs, init);
      var last: seq<Edge> := BusEdges(c, rs, b);
      var all: seq<Edge> := front + last;
      forall k: nat | k < |all|
        ensures all[k].from < |c.stops| && all[k].to < |c.stops| && all[k].bus < |c.buses|
        ensures all[k].count == 0 ==> all[k].weight == rs.busWaitTime
      {
        if k >= |front| {
          assert all[k] == last[k - |front|];
        } else {
          assert all[k] == front[k];
        }
      }
    }
  }

  /** Draws the lines named by `ids`, in that order, each by its own kind. */
  method DrawLines(c: Catalogue, rs: RoutingSettings, ids: seq<nat>) returns (graph: seq<Edge>)
    requires forall k | 0 <= k < |ids| :: Drawable(c, rs, ids[k])
    ensures graph == AllEdges(c, rs, ids)
  {
    graph := [];
    var k := 0;
    while k < |ids|
      invariant 0 <= k <= |ids|
      invariant graph == AllEdges(c, rs, ids[..k])
    {
      var b := ids[k];
      var edges;
      if !c.buses[b].isRing {
        edges := DrawEdgeForSimpleRoute(c, rs, b);
      } else {
        edges := DrawEdgeForRoundRoute(c, rs, b);
      }
      AllEdgesStep(c, rs, ids, k);
      graph := graph + edges;
      k := k + 1;
    }
    assert ids[..k] == ids;
  }

  /**
   * Builds the graph from every line, visiting the lines in `order` (the iteration order of the
   * line index, which the source leaves unspecified). Every line needs at least one stop.
   */
  method BuildGraph(c: Catalogue, rs: RoutingSettings, order: seq<string>) returns (graph: seq<Edge>)
    requires Valid(c) && rs.busVelocity != 0.0
    requires forall n :: n in c.busIndex <==> n in order
    requires forall i, j | 0 <= i < j < |order| :: order[i] != order[j]
    requires forall n | n in c.busIndex :: |c.buses[c.busIndex[n]].stops| >= 1
    ensures graph == AllEdges(c, rs, seq(|order|, k requires 0 <= k < |order| => c.busIndex[order[k]]))
    ensures EdgesFit(c, graph) && ZeroSpanIsWait(rs, graph)
    ensures forall n, e | n in c.busIndex && e in BusEdges(c, rs, c.busIndex[n]) :: e in graph
    ensures forall e | e in graph :: exists n | n in c.busIndex :: e in BusEdges(c, rs, c.busIndex[n])
  {
    var ids := seq(|order|, k requires 0 <= k < |order| => c.busIndex[order[k]]);
    assert forall k | 0 <= k < |order| :: order[k] in c.busIndex;
    graph := DrawLines(c, rs, ids);
    AllEdgesShape(c, rs, ids);
    forall n, e | n in c.busIndex && e in BusEdges(c, rs, c.busIndex[n]) ensures e in graph {
      var k :| 0 <= k < |order| && order[k] == n;
      LineEdgeInGraph(c, rs, ids, k, e);
    }
    forall e | e in graph ensures exists n | n in c.busIndex :: e in BusEdges(c, rs, c.busIndex[n]) {
      var k := GraphEdgeInLine(c, rs, ids, e);
      assert order[k] in c.busIndex && e in BusEdges(c, rs, c.busIndex[order[k]]);
    }
  }

  // ---------------------------------------------------------------- route items

  /** The shortest-path answer: total weight and the edge ids taken. */
  datatype RouteInfo = RouteInfo(weight: real, edges: seq<nat>)

  datatype Item =
    | Wait(time: real, stopName: string)
    | Ride(busName: string, time: real, spanCount: nat)
    | NoWay

  datatype Route = Route(items: seq<Item>, totalTime: real)

  /** Every edge id of the answer names an edge of the graph. */
  ghost predicate IdsFit(graph: seq<Edge>, ids: seq<nat>) {
    forall k | 0 <= k < |ids| :: ids[k] < |graph|
  }

  /** The items for one edge: a wait at its start, then the ride unless it is a transfer edge. */
  function EdgeItems(c: Catalogue, rs: RoutingSettings, e: Edge): seq<Item>
    requires e.from < |c.stops| && e.bus < |c.buses|
  {
    var wait := Wait(rs.busWaitTime, c.stops[e.from].name);
    if e.count > 0 then [wait, Ride(c.buses[e.bus].name, e.weight - rs.busWaitTime, e.count)] else [wait]
  }

  function ItemsOf(c: Catalogue, rs: RoutingSettings, graph: seq<Edge>, ids: seq<nat>): seq<Item>
    requires EdgesFit(c, graph) && IdsFit(graph, ids)
  {
    if ids == [] then [] else ItemsOf(c, rs, graph, ids[..|ids| - 1]) + EdgeItems(c, rs, graph[ids[|ids| - 1]])
  }

  function CountWaits(items: seq<Item>): nat {
    if items == [] then 0 else CountWaits(items[..|items| - 1]) + (if items[|items| - 1].Wait? then 1 else 0)
  }

  function CountRides(items: seq<Item>): nat {
    if items == [] then 0 else CountRides(items[..|items| - 1]) + (if items[|items| - 1].Ride? then 1 else 0)
  }

  function ItemTime(it: Item): real {
    match it
    case Wait(t, _) => t
    case Ride(_, t, _) => t
    case NoWay => 0.0
  }

  function TotalTime(items: seq<Item>): real {
    if items == [] then 0.0 else TotalTime(items[..|items| - 1]) + ItemTime(items[|items| - 1])
  }

  /** Number of edges of the answer that ride a line. */
  function RideEdges(graph: seq<Edge>, ids: seq<nat>): nat
    requires IdsFit(graph, ids)
  {
    if ids == [] then 0 else RideEdges(graph, ids[..|ids| - 1]) + (if graph[ids[|ids| - 1]].count > 0 then 1 else 0)
  }

  /** Sum of the weights of the edges of the answer. */
  function EdgeWeights(graph: seq<Edge>, ids: seq<nat>): real
    requires IdsFit(graph, ids)
  {
    if ids == [] then 0.0 else EdgeWeights(graph, ids[..|ids| - 1]) + graph[ids[|ids| - 1]].weight
  }

  lemma CountsAppend(a: seq<Item>, b: seq<Item>)
    ensures CountWaits(a + b) == CountWaits(a) + CountWaits(b)
    ensures CountRides(a + b) == CountRides(a) + CountRides(b)
    ensures TotalTime(a + b) == TotalTime(a) + TotalTime(b)
    decreases |b|
  {
    if b == [] {
      assert a + b == a;
    } else {
      assert (a + b)[..|a + b| - 1] == a + b[..|b| - 1];
      assert (a + b)[|a + b| - 1] == b[|b| - 1];
      CountsAppend(a, b[..|b| - 1]);
    }
  }

  lemma EdgeItemsCounts(c: Catalogue, rs: RoutingSettings, e: Edge)
    requires e.from < |c.stops| && e.bus < |c.buses|
    ensures CountWaits(EdgeItems(c, rs, e)) == 1
    ensures CountRides(EdgeItems(c, rs, e)) == if e.count > 0 then 1 else 0
    ensures TotalTime(EdgeItems(c, rs, e)) == if e.count > 0 then e.weight else rs.busWaitTime
    ensures NoWay !in EdgeItems(c, rs, e)
  {
    var w := Wait(rs.busWaitTime, c.stops[e.from].name);
    assert [w][..0] == [];
    assert CountWaits([w]) == 1 && CountRides([w]) == 0 && TotalTime([w]) == rs.busWaitTime;
    if e.count > 0 {
      var r := Ride(c.buses[e.bus].name, e.weight - rs.busWaitTime, e.count);
      assert [w, r][..1] == [w];
    }
  }

  /**
   * The items of an answer: one wait per edge, one ride per riding edge, no "no way" marker,
   * every ride directly after a wait, and — when transfer edges weigh the wait — as much time
   * in total as the edges weigh.
   */
  lemma {:induction false} ItemsOfShape(c: Catalogue, rs: RoutingSettings, graph: seq<Edge>, ids: seq<nat>)
    requires EdgesFit(c, graph) && IdsFit(graph, ids)
    ensures CountWaits(ItemsOf(c, rs, graph, ids)) == |ids|
    ensures CountRides(ItemsOf(c, rs, graph, ids)) == RideEdges(graph, ids)
    ensures NoWay !in ItemsOf(c, rs, graph, ids)
    ensures forall k | 0 <= k < |ItemsOf(c, rs, graph, ids)| && ItemsOf(c, rs, graph, ids)[k].Ride? ::
      k > 0 && ItemsOf(c, rs, graph, ids)[k - 1].Wait?
    ensures ZeroSpanIsWait(rs, graph) ==> TotalTime(ItemsOf(c, rs, graph, ids)) == EdgeWeights(graph, ids)
  {
    if ids != [] {
      var init := ids[..|ids| - 1];
      ItemsOfShape(c, rs, graph, init);
      var e := graph[ids[|ids| - 1]];
      CountsAppend(ItemsOf(c, rs, graph, init), EdgeItems(c, rs, e));
      EdgeItemsCounts(c, rs, e);
      var front := ItemsOf(c, rs, graph, init);
      var all := ItemsOf(c, rs, graph, ids);
      forall k | 0 <= k < |all| && all[k].Ride? ensures k > 0 && all[k - 1].Wait? {
        if k < |front| {
          assert all[k] == front[k] && all[k - 1] == front[k - 1];
        } else {
          assert all[k] == EdgeItems(c, rs, e)[k - |front|];
          assert all[k - 1] == EdgeItems(c, rs, e)[k - 1 - |front|];
        }
      }
      if ZeroSpanIsWait(rs, graph) {
        assert ids[|ids| - 1] < |graph|;
        assert e.count == 0 ==> e.weight == rs.busWaitTime;
      }
    }
  }

  /** One step of a route read back from its items: the wait at a stop, then the ride taken from it, if any. */
  datatype Leg = Leg(waitTime: real, stopName: string, ride: Option<(string, real, nat)>)

  /**
   * Reads items back into legs, from the end: a ride together with the wait just before it, or
   * a wait alone; anything else (the "no way" marker) is skipped.
   */
  function Legs(items: seq<Item>): seq<Leg>
    decreases |items|
  {
    if items == [] then []
    else
      var n := |items|;
      var last := items[n - 1];
      if last.Ride? && n >= 2 && items[n - 2].Wait? then
        Legs(items[..n - 2]) + [Leg(items[n - 2].time, items[n - 2].stopName, Some((last.busName, last.time, last.spanCount)))]
      else if last.Wait? then Legs(items[..n - 1]) + [Leg(last.time, last.stopName, None)]
      else Legs(items[..n - 1])
  }

  /**
   * What taking edge `e` means to the passenger: wait the bus wait time at the stop the edge
   * leaves from, then, unless it is a transfer edge, ride its line for the rest of its weight
   * over its span of stops.
   */
  function EdgeLeg(c: Catalogue, rs: RoutingSettings, e: Edge): Leg
    requires e.from < |c.stops| && e.bus < |c.buses|
  {
    Leg(rs.busWaitTime, c.stops[e.from].name,
        if e.count > 0 then Some((c.buses[e.bus].name, e.weight - rs.busWaitTime, e.count)) else None)
  }

  /** Reading back the items of one more edge gives one more leg, that edge's. */
  lemma LegsStep(c: Catalogue, rs: RoutingSettings, front: seq<Item>, e: Edge)
    requires e.from < |c.stops| && e.bus < |c.buses|
    ensures Legs(front + EdgeItems(c, rs, e)) == Legs(front) + [EdgeLeg(c, rs, e)]
  {
    var all := front + EdgeItems(c, rs, e);
    if e.count > 0 {
      assert all[..|all| - 2] == front;
    } else {
      assert all[..|all| - 1] == front;
    }
  }

  /** The items of an answer read back into exactly one leg per edge, in the answer's order. */
  lemma {:induction false} ItemsOfLegs(c: Catalogue, rs: RoutingSettings, graph: seq<Edge>, ids: seq<nat>)
    requires EdgesFit(c, graph) && IdsFit(graph, ids)
    ensures |Legs(ItemsOf(c, rs, graph, ids))| == |ids|
    ensures forall k | 0 <= k < |ids| :: Legs(ItemsOf(c, rs, graph, ids))[k] == EdgeLeg(c, rs, graph[ids[k]])
  {
    if ids != [] {
      var init := ids[..|ids| - 1];
      ItemsOfLegs(c, rs, graph, init);
      var front := ItemsOf(c, rs, graph, init);
      var all := ItemsOf(c, rs, graph, ids);
      LegsStep(c, rs, front, graph[ids[|ids| - 1]]);
      forall k | 0 <= k < |ids| ensures Legs(all)[k] == EdgeLeg(c, rs, graph[ids[k]]) {
        if k < |init| {
          assert init[k] == ids[k];
        }
      }
    }
  }

  /** The counts of the items of an answer, with the "no way" marker appended when `marked`. */
  lemma MarkedItemsCounts(c: Catalogue, rs: RoutingSettings, graph: seq<Edge>, ids: seq<nat>, marked: bool)
    requires EdgesFit(c, graph) && IdsFit(graph, ids)
    ensures var items := ItemsOf(c, rs, graph, ids) + (if marked then [NoWay] else []);
      && CountWaits(items) == |ids|
      && CountRides(items) == RideEdges(graph, ids)
      && (NoWay in items <==> marked)
      && (forall k | 0 <= k < |items| - 1 :: items[k] != NoWay)
  {
    var front := ItemsOf(c, rs, graph, ids);
    ItemsOfShape(c, rs, graph, ids);
    CountsAppend(front, if marked then [NoWay] else []);
    var items := front + (if marked then [NoWay] else []);
    assert forall k | 0 <= k < |items| - 1 :: items[k] == front[k];
  }

  /** The legs of the items of an answer, with the "no way" marker appended when `marked`. */
  lemma MarkedItemsLegs(c: Catalogue, rs: RoutingSettings, graph: seq<Edge>, ids: seq<nat>, marked: bool)
    requires EdgesFit(c, graph) && IdsFit(graph, ids)
    ensures var items := ItemsOf(c, rs, graph, ids) + (if marked then [NoWay] else []);
      && |Legs(items)| == |ids|
      && forall k | 0 <= k < |ids| :: Legs(items)[k] == EdgeLeg(c, rs, graph[ids[k]])
  {
    var front := ItemsOf(c, rs, graph, ids);
    ItemsOfLegs(c, rs, graph, ids);
    var items := front + (if marked then [NoWay] else []);
    if marked {
      assert items[..|items| - 1] == front;
    } else {
      assert items == front;
    }
  }

  /**
   * Turns a shortest-path answer into a route: no answer gives no route; otherwise the items of
   * every edge, the answer's total weight, and a "no way" marker when that total is zero.
   */
  function GetItemsFromRouteInfo(c: Catalogue, rs: RoutingSettings, graph: seq<Edge>, info: Option<RouteInfo>): (r: Option<Route>)
    requires EdgesFit(c, graph) && (info.Some? ==> IdsFit(graph, info.value.edges))
    ensures r.None? <==> info.None?
    ensures r.Some? ==> r.value.totalTime == info.value.weight
    ensures r.Some? ==> (NoWay in r.value.items <==> info.value.weight == 0.0)
    ensures r.Some? ==> CountWaits(r.value.items) == |info.value.edges|
    ensures r.Some? ==> CountRides(r.value.items) == RideEdges(graph, info.value.edges)
    ensures r.Some? ==> |Legs(r.value.items)| == |info.value.edges|
    ensures r.Some? ==> forall k | 0 <= k < |info.value.edges| ::
      Legs(r.value.items)[k] == EdgeLeg(c, rs, graph[info.value.edges[k]])
    ensures r.Some? ==> forall k | 0 <= k < |r.value.items| - 1 :: r.value.items[k] != NoWay
  {
    if info.None? then None
    else
      var marked := info.value.weight == 0.0;
      MarkedItemsCounts(c, rs, graph, info.value.edges, marked);
      MarkedItemsLegs(c, rs, graph, info.value.edges, marked);
      Some(Route(ItemsOf(c, rs, graph, info.value.edges) + (if marked then [NoWay] else []), info.value.weight))
  }

  /**
   * A route between two stop names: none if either name is unknown, otherwise whatever the
   * shortest-path engine `router` answers for their stop records, turned into items.
   */
  function BuildRoute(c: Catalogue, rs: RoutingSettings, graph: seq<Edge>,
                      router: (nat, nat) -> Option<RouteInfo>, from: string, to: string): (r: Option<Route>)
    requires Valid(c) && EdgesFit(c, graph)
    requires from in c.stopIndex && to in c.stopIndex ==>
      var info := router(c.stopIndex[from], c.stopIndex[to]);
      info.Some? ==> IdsFit(graph, info.value.edges)
    ensures from !in c.stopIndex || to !in c.stopIndex ==> r.None?
    ensures from in c.stopIndex && to in c.stopIndex ==>
      (r.Some? <==> router(c.stopIndex[from], c.stopIndex[to]).Some?)
    ensures r.Some? ==> r.value.totalTime == router(c.stopIndex[from], c.stopIndex[to]).value.weight
  {
    if from in c.stopIndex && to in c.stopIndex then
      GetItemsFromRouteInfo(c, rs, graph, router(c.stopIndex[from], c.stopIndex[to]))
    else None
  }
}
