/**
 * The persistence mapping between the in-memory records (interned names, stops, lines,
 * road distances, render and routing settings, the routing graph and the router's table)
 * and the records of the stored database message.
 *
 * Pointers of the source (`Stop*`, `Bus*`) are modelled by the record they point at; the
 * stored form replaces them by the record's explicit id, and loading looks the id up again.
 * The wire format and the file itself are not modelled: `Save` yields the database record and
 * `Load` receives one, or nothing when the file could not be opened or parsed.
 */
module Serialization {
  import opened Wrappers

  // ---------------------------------------------------------------- in-memory records

  datatype StopRec = StopRec(name: string, lat: real, lon: real, isRaw: bool, isFinal: bool, id: nat)

  datatype BusRec = BusRec(name: string, isRing: bool, stops: seq<StopRec>, secondFinal: Option<StopRec>,
                           geo: real, road: real, id: nat)

  /** A directed road distance between two stop ids. */
  datatype StopDistance = StopDistance(a: nat, b: nat, distance: nat)

  datatype Offset = Offset(dx: real, dy: real)

  datatype SvgSettings = SvgSettings(
    width: real, height: real, padding: real, lineWidth: real, stopRadius: real,
    busLabelFontSize: int, busLabelOffset: Offset, stopLabelOffset: Offset, stopLabelFontSize: int,
    underlayerColor: string, underlayerWidth: real, palette: seq<string>)

  datatype RoutingSettings = RoutingSettings(busWaitTime: real, busVelocity: real)

  datatype GraphEdge = GraphEdge(from: nat, to: nat, weight: real, count: nat, bus: BusRec)

  datatype Graph = Graph(edges: seq<GraphEdge>, incidence: seq<seq<nat>>)

  /** One cell of the router's all-pairs table: best weight and the last edge, if any. */
  datatype RouteData = RouteData(weight: real, prevEdge: Option<nat>)

  type RouterTable = seq<seq<Option<RouteData>>>

  /** The catalogue contents that are stored: name -> string id, and the record lists. */
  datatype Database = Database(strings: map<string, nat>, stops: seq<StopRec>, buses: seq<BusRec>,
                               distances: seq<StopDistance>)

  // ---------------------------------------------------------------- stored records

  datatype PbString = PbString(text: string, id: nat)
  datatype PbStop = PbStop(nameId: nat, lat: real, lon: real, isRaw: bool, isFinal: bool, stopId: nat)
  datatype PbBus = PbBus(stopIds: seq<nat>, nameId: nat, secondFinalId: Option<nat>, isRing: bool,
                         geo: real, road: real, busId: nat)
  datatype PbDistance = PbDistance(a: nat, b: nat, distance: nat)
  datatype PbPoint = PbPoint(dx: real, dy: real)
  datatype PbSvg = PbSvg(
    width: real, height: real, padding: real, lineWidth: real, stopRadius: real,
    busLabelFontSize: int, busLabelOffset: PbPoint, stopLabelOffset: PbPoint, stopLabelFontSize: int,
    underlayerColor: string, underlayerWidth: real, palette: seq<string>)
  datatype PbRouting = PbRouting(busWaitTime: real, busVelocity: real)
  datatype PbEdge = PbEdge(busId: nat, count: nat, from: nat, to: nat, weight: real)
  datatype PbGraph = PbGraph(edges: seq<PbEdge>, incidence: seq<seq<nat>>)

  /** The `edgeId` one-of of a stored table cell: a previous edge, an explicit null, or unset. */
  datatype PbPrev = PrevEdge(edge: nat) | PrevIsNull | PrevNotSet
  datatype PbRouteData = PbRouteData(weight: real, prev: PbPrev)
  /** The one-of of a stored optional cell: data, an explicit null, or unset. */
  datatype PbCell = CellData(data: PbRouteData) | CellIsNull | CellNotSet

  datatype PbDatabase = PbDatabase(
    strings: seq<PbString>, stops: seq<PbStop>, buses: seq<PbBus>, distances: seq<PbDistance>,
    svg: Option<PbSvg>, routing: Option<PbRouting>, graph: Option<PbGraph>, router: Option<seq<seq<PbCell>>>)

  // ---------------------------------------------------------------- generic helpers

  /** Applies a fallible decoder to every element; the first failure is the result. */
  function MapResult<A, B>(f: A -> Result<B>, xs: seq<A>): (r: Result<seq<B>>)
    ensures r.Success? <==> forall i | 0 <= i < |xs| :: f(xs[i]).Success?
    ensures r.Success? ==> |r.value| == |xs| && forall i | 0 <= i < |xs| :: r.value[i] == f(xs[i]).value
  {
    if xs == [] then Success([])
    else
      var init :- MapResult(f, xs[..|xs| - 1]);
      var last :- f(xs[|xs| - 1]);
      Success(init + [last])
  }

  /** Decoding what was encoded gives the original list back when every element round-trips. */
  lemma MapResultRoundTrip<A, B>(f: A -> Result<B>, xs: seq<A>, ys: seq<B>)
    requires |xs| == |ys| && forall i | 0 <= i < |xs| :: f(xs[i]) == Success(ys[i])
    ensures MapResult(f, xs) == Success(ys)
  {
    var r := MapResult(f, xs);
    assert r.Success?;
    assert r.value == ys;
  }

  // ---------------------------------------------------------------- lookups by id

  function StopId(s: StopRec): nat { s.id }

  function BusId(b: BusRec): nat { b.id }

  /** The first record whose id, as `key` reads it, is the given one. */
  function FindById<T(==)>(xs: seq<T>, id: nat, key: T -> nat): (r: Option<T>)
    ensures r.Some? ==> r.value in xs && key(r.value) == id
    ensures r.None? <==> forall i | 0 <= i < |xs| :: key(xs[i]) != id
  {
    if xs == [] then None
    else if key(xs[0]) == id then Some(xs[0])
    else FindById(xs[1..], id, key)
  }

  ghost predicate UniqueIds<T>(xs: seq<T>, key: T -> nat) {
    forall i, j | 0 <= i < |xs| && 0 <= j < |xs| && key(xs[i]) == key(xs[j]) :: i == j
  }

  /** With unique ids, looking up a listed record's id finds that record. */
  lemma {:induction false} FindByIdFinds<T>(xs: seq<T>, key: T -> nat, x: T)
    requires UniqueIds(xs, key) && x in xs
    ensures FindById(xs, key(x), key) == Some(x)
  {
    if xs[0] != x {
      var k :| 0 <= k < |xs| && xs[k] == x;
      assert k != 0;
      assert xs[1..][k - 1] == x;
      FindByIdFinds(xs[1..], key, x);
    }
  }


  // ---------------------------------------------------------------- strings

  /** Stores the interned names in the iteration order `order` of the name -> id map. */
  function EncodeStrings(strings: map<string, nat>, order: seq<string>): (r: seq<PbString>)
    requires forall k | 0 <= k < |order| :: order[k] in strings
    ensures |r| == |order|
    ensures forall k | 0 <= k < |order| :: r[k] == PbString(order[k], strings[order[k]])
  {
    seq(|order|, k requires 0 <= k < |order| => PbString(order[k], strings[order[k]]))
  }

  /** Loading the names: every stored entry maps its id to its text; a later entry overwrites. */
  function DecodeStringIds(ids: map<nat, string>, pbs: seq<PbString>): (r: map<nat, string>)
    ensures r.Keys == ids.Keys + set k | 0 <= k < |pbs| :: pbs[k].id
  {
    if pbs == [] then ids
    else DecodeStringIds(ids, pbs[..|pbs| - 1])[pbs[|pbs| - 1].id := pbs[|pbs| - 1].text]
  }

  /** The catalogue side of loading the names: each text is interned with its id. */
  function InsertStrings(strings: map<string, nat>, pbs: seq<PbString>): (r: map<string, nat>)
    ensures r.Keys == strings.Keys + set k | 0 <= k < |pbs| :: pbs[k].text
  {
    if pbs == [] then strings
    else InsertStrings(strings, pbs[..|pbs| - 1])[pbs[|pbs| - 1].text := pbs[|pbs| - 1].id]
  }

  /** Distinct names have distinct ids. */
  ghost predicate Injective(strings: map<string, nat>) {
    forall a, b | a in strings && b in strings && strings[a] == strings[b] :: a == b
  }

  /** `order` enumerates the names of the map. */
  ghost predicate Enumerates(strings: map<string, nat>, order: seq<string>) {
    && (forall k | 0 <= k < |order| :: order[k] in strings)
    && (forall n | n in strings :: exists k | 0 <= k < |order| :: order[k] == n)
  }

  lemma {:induction false} DecodeStringIdsLast(ids: map<nat, string>, pbs: seq<PbString>, k: nat)
    requires k < |pbs|
    requires forall j | k < j < |pbs| :: pbs[j].id == pbs[k].id ==> pbs[j].text == pbs[k].text
    ensures pbs[k].id in DecodeStringIds(ids, pbs) && DecodeStringIds(ids, pbs)[pbs[k].id] == pbs[k].text
  {
    if k < |pbs| - 1 {
      DecodeStringIdsLast(ids, pbs[..|pbs| - 1], k);
    }
  }

  lemma {:induction false} InsertStringsLast(strings: map<string, nat>, pbs: seq<PbString>, k: nat)
    requires k < |pbs|
    requires forall j | k < j < |pbs| :: pbs[j].text == pbs[k].text ==> pbs[j].id == pbs[k].id
    ensures pbs[k].text in InsertStrings(strings, pbs) && InsertStrings(strings, pbs)[pbs[k].text] == pbs[k].id
  {
    if k < |pbs| - 1 {
      InsertStringsLast(strings, pbs[..|pbs| - 1], k);
    }
  }

  /**
   * Storing the names and loading them into an empty state gives the same name -> id map back,
   * and, for an injective map, the inverse id -> name map the loader resolves ids with.
   */
  lemma StringsRoundTrip(strings: map<string, nat>, order: seq<string>)
    requires Enumerates(strings, order)
    ensures InsertStrings(map[], EncodeStrings(strings, order)) == strings
    ensures Injective(strings) ==>
      forall n | n in strings :: strings[n] in DecodeStringIds(map[], EncodeStrings(strings, order))
        && DecodeStringIds(map[], EncodeStrings(strings, order))[strings[n]] == n
  {
    var pbs := EncodeStrings(strings, order);
    var m := InsertStrings(map[], pbs);
    assert m.Keys == strings.Keys by {
      forall n | n in strings ensures n in m.Keys {
        var k :| 0 <= k < |order| && order[k] == n;
        assert pbs[k].text == n;
      }
    }
    forall n | n in strings ensures m[n] == strings[n] {
      var k :| 0 <= k < |order| && order[k] == n;
      InsertStringsLast(map[], pbs, k);
    }
    if Injective(strings) {
      forall n | n in strings
        ensures strings[n] in DecodeStringIds(map[], pbs) && DecodeStringIds(map[], pbs)[strings[n]] == n
      {
        var k :| 0 <= k < |order| && order[k] == n;
        DecodeStringIdsLast(map[], pbs, k);
      }
    }
  }

  // ---------------------------------------------------------------- stops

  /** A stop is stored with its name's id, its coordinates, both flags and its explicit id. */
  function EncodeStop(strings: map<string, nat>, s: StopRec): (r: PbStop)
    requires s.name in strings
    ensures r.nameId == strings[s.name] && r.stopId == s.id
    ensures r.lat == s.lat && r.lon == s.lon && r.isRaw == s.isRaw && r.isFinal == s.isFinal
  {
    PbStop(strings[s.name], s.lat, s.lon, s.isRaw, s.isFinal, s.id)
  }

  /** Loading a stop resolves its name id; the stop id is taken as stored, not from the position. */
  function DecodeStop(ids: map<nat, string>, p: PbStop): (r: Result<StopRec>)
    ensures r.Success? <==> p.nameId in ids
    ensures r.Success? ==> r.value == StopRec(ids[p.nameId], p.lat, p.lon, p.isRaw, p.isFinal, p.stopId)
  {
    if p.nameId !in ids then Failure("unknown string id")
    else Success(StopRec(ids[p.nameId], p.lat, p.lon, p.isRaw, p.isFinal, p.stopId))
  }

  lemma StopRoundTrip(strings: map<string, nat>, ids: map<nat, string>, s: StopRec)
    requires s.name in strings && strings[s.name] in ids && ids[strings[s.name]] == s.name
    ensures DecodeStop(ids, EncodeStop(strings, s)) == Success(s)
  {
  }

  // ---------------------------------------------------------------- buses

  /** A line is stored with the ids of its traversal, its name's id and the terminus id only when set. */
  function EncodeBus(strings: map<string, nat>, b: BusRec): (r: PbBus)
    requires b.name in strings
    ensures |r.stopIds| == |b.stops| && forall i | 0 <= i < |b.stops| :: r.stopIds[i] == b.stops[i].id
    ensures r.secondFinalId.Some? <==> b.secondFinal.Some?
    ensures r.secondFinalId.Some? ==> r.secondFinalId.value == b.secondFinal.value.id
    ensures r.nameId == strings[b.name] && r.busId == b.id
    ensures r.isRing == b.isRing && r.geo == b.geo && r.road == b.road
  {
    PbBus(seq(|b.stops|, i requires 0 <= i < |b.stops| => b.stops[i].id), strings[b.name],
          if b.secondFinal.Some? then Some(b.secondFinal.value.id) else None,
          b.isRing, b.geo, b.road, b.id)
  }

  function LookupStop(stops: seq<StopRec>, id: nat): Result<StopRec> {
    match FindById(stops, id, StopId)
    case Some(s) => Success(s)
    case None => Failure("unknown stop id")
  }

  /**
   * Loading a line resolves its name id and every stop id against the loaded stops; an absent
   * terminus decodes to none.
   */
  function DecodeBus(ids: map<nat, string>, stops: seq<StopRec>, p: PbBus): (r: Result<BusRec>)
    ensures r.Success? <==>
      && p.nameId in ids
      && (forall i | 0 <= i < |p.stopIds| :: FindById(stops, p.stopIds[i], StopId).Some?)
      && (p.secondFinalId.Some? ==> FindById(stops, p.secondFinalId.value, StopId).Some?)
    ensures r.Success? ==>
      && r.value.name == ids[p.nameId] && r.value.id == p.busId
      && |r.value.stops| == |p.stopIds|
      && (forall i | 0 <= i < |p.stopIds| :: r.value.stops[i].id == p.stopIds[i] && r.value.stops[i] in stops)
      && (r.value.secondFinal.None? <==> p.secondFinalId.None?)
  {
    if p.nameId !in ids then Failure("unknown string id")
    else
      var traversal :- MapResult((id: nat) => LookupStop(stops, id), p.stopIds);
      var second :- if p.secondFinalId.None? then Success(None)
                    else var s :- LookupStop(stops, p.secondFinalId.value); Success(Some(s));
      Success(BusRec(ids[p.nameId], p.isRing, traversal, second, p.geo, p.road, p.busId))
  }

  /** Every stop a line refers to is one of the stored stops. */
  ghost predicate BusResolvable(stops: seq<StopRec>, b: BusRec) {
    && (forall i | 0 <= i < |b.stops| :: b.stops[i] in stops)
    && (b.secondFinal.Some? ==> b.secondFinal.value in stops)
  }

  lemma BusRoundTrip(strings: map<string, nat>, ids: map<nat, string>, stops: seq<StopRec>, b: BusRec)
    requires b.name in strings && strings[b.name] in ids && ids[strings[b.name]] == b.name
    requires UniqueIds(stops, StopId) && BusResolvable(stops, b)
    ensures DecodeBus(ids, stops, EncodeBus(strings, b)) == Success(b)
  {
    var p := EncodeBus(strings, b);
    forall i | 0 <= i < |b.stops| ensures LookupStop(stops, p.stopIds[i]) == Success(b.stops[i]) {
      FindByIdFinds(stops, StopId, b.stops[i]);
    }
    MapResultRoundTrip((id: nat) => LookupStop(stops, id), p.stopIds, b.stops);
    if b.secondFinal.Some? {
      FindByIdFinds(stops, StopId, b.secondFinal.value);
    }
  }

  // ---------------------------------------------------------------- distances and settings

  function EncodeDistance(d: StopDistance): PbDistance {
    PbDistance(d.a, d.b, d.distance)
  }

  function DecodeDistance(p: PbDistance): StopDistance {
    StopDistance(p.a, p.b, p.distance)
  }

  function EncodeSvg(s: SvgSettings): PbSvg {
    PbSvg(s.width, s.height, s.padding, s.lineWidth, s.stopRadius, s.busLabelFontSize,
          PbPoint(s.busLabelOffset.dx, s.busLabelOffset.dy), PbPoint(s.stopLabelOffset.dx, s.stopLabelOffset.dy),
          s.stopLabelFontSize, s.underlayerColor, s.underlayerWidth, s.palette)
  }

  function DecodeSvg(p: PbSvg): SvgSettings {
    SvgSettings(p.width, p.height, p.padding, p.lineWidth, p.stopRadius, p.busLabelFontSize,
                Offset(p.busLabelOffset.dx, p.busLabelOffset.dy), Offset(p.stopLabelOffset.dx, p.stopLabelOffset.dy),
                p.stopLabelFontSize, p.underlayerColor, p.underlayerWidth, p.palette)
  }

  // ---------------------------------------------------------------- graph

  /** An edge is stored with its endpoints, weight, span count and the id of its line. */
  function EncodeEdge(e: GraphEdge): PbEdge {
    PbEdge(e.bus.id, e.count, e.from, e.to, e.weight)
  }

  /** Loading an edge resolves its line id against the loaded lines. */
  function DecodeEdge(buses: seq<BusRec>, p: PbEdge): (r: Result<GraphEdge>)
    ensures r.Success? <==> FindById(buses, p.busId, BusId).Some?
    ensures r.Success? ==>
      && r.value.from == p.from && r.value.to == p.to && r.value.weight == p.weight
      && r.value.count == p.count && r.value.bus.id == p.busId && r.value.bus in buses
  {
    match FindById(buses, p.busId, BusId)
    case Some(b) => Success(GraphEdge(p.from, p.to, p.weight, p.count, b))
    case None => Failure("unknown bus id")
  }

  function EncodeGraph(g: Graph): (r: PbGraph)
    ensures |r.edges| == |g.edges| && forall i | 0 <= i < |g.edges| :: r.edges[i] == EncodeEdge(g.edges[i])
    ensures r.incidence == g.incidence
  {
    PbGraph(seq(|g.edges|, i requires 0 <= i < |g.edges| => EncodeEdge(g.edges[i])), g.incidence)
  }

  lemma EdgesRoundTrip(buses: seq<BusRec>, g: Graph)
    requires UniqueIds(buses, BusId) && forall i | 0 <= i < |g.edges| :: g.edges[i].bus in buses
    ensures MapResult((p: PbEdge) => DecodeEdge(buses, p), EncodeGraph(g).edges) == Success(g.edges)
  {
    var pg := EncodeGraph(g);
    forall i | 0 <= i < |g.edges| ensures DecodeEdge(buses, pg.edges[i]) == Success(g.edges[i]) {
      FindByIdFinds(buses, BusId, g.edges[i].bus);
    }
    MapResultRoundTrip((p: PbEdge) => DecodeEdge(buses, p), pg.edges, g.edges);
  }

  // ---------------------------------------------------------------- router table

  /** An absent cell is stored as an explicit null; a present one with its weight and previous edge or null. */
  function EncodeCell(cell: Option<RouteData>): (r: PbCell)
    ensures r != CellNotSet
    ensures cell.None? <==> r == CellIsNull
    ensures cell.Some? ==> r.CellData? && r.data.weight == cell.value.weight
    ensures cell.Some? && cell.value.prevEdge.Some? ==> r.data.prev == PrevEdge(cell.value.prevEdge.value)
    ensures cell.Some? && cell.value.prevEdge.None? ==> r.data.prev == PrevIsNull
  {
    match cell
    case None => CellIsNull
    case Some(d) =>
      CellData(PbRouteData(d.weight, if d.prevEdge.Some? then PrevEdge(d.prevEdge.value) else PrevIsNull))
  }

  /** Only a cell holding data is present; its previous edge is present only when that case is set. */
  function DecodeCell(p: PbCell): (r: Option<RouteData>)
    ensures r.Some? <==> p.CellData?
    ensures r.Some? ==> r.value.weight == p.data.weight && (r.value.prevEdge.Some? <==> p.data.prev.PrevEdge?)
    ensures r.Some? && p.data.prev.PrevEdge? ==> r.value.prevEdge.value == p.data.prev.edge
  {
    match p
    case CellData(d) => Some(RouteData(d.weight, if d.prev.PrevEdge? then Some(d.prev.edge) else None))
    case _ => None
  }

  lemma CellRoundTrip(cell: Option<RouteData>)
    ensures DecodeCell(EncodeCell(cell)) == cell
  {
  }

  function EncodeRouter(t: RouterTable): (r: seq<seq<PbCell>>)
    ensures |r| == |t| && forall i | 0 <= i < |t| :: |r[i]| == |t[i]|
  {
    seq(|t|, i requires 0 <= i < |t| => seq(|t[i]|, j requires 0 <= j < |t[i]| => EncodeCell(t[i][j])))
  }

  /**
   * Loading the table: one row per stored row; a row with stored cells gets exactly those cells
   * decoded, a row without cells keeps what the table had there before (it is never resized).
   */
  function DecodeRouter(old_: RouterTable, p: seq<seq<PbCell>>): (r: RouterTable)
    ensures |r| == |p|
    ensures forall i | 0 <= i < |p| && |p[i]| > 0 ::
      |r[i]| == |p[i]| && forall j | 0 <= j < |p[i]| :: r[i][j] == DecodeCell(p[i][j])
    ensures forall i | 0 <= i < |p| && |p[i]| == 0 :: r[i] == if i < |old_| then old_[i] else []
  {
    seq(|p|, i requires 0 <= i < |p| =>
      if |p[i]| == 0 then (if i < |old_| then old_[i] else [])
      else seq(|p[i]|, j requires 0 <= j < |p[i]| => DecodeCell(p[i][j])))
  }

  /** Into an empty table, the stored table loads back cell for cell. */
  lemma RouterRoundTrip(t: RouterTable)
    ensures DecodeRouter([], EncodeRouter(t)) == t
  {
    var r := DecodeRouter([], EncodeRouter(t));
    forall i | 0 <= i < |t| ensures r[i] == t[i] {
      forall j | 0 <= j < |t[i]| ensures r[i][j] == t[i][j] {
        CellRoundTrip(t[i][j]);
      }
    }
  }

  // ---------------------------------------------------------------- save and load

  /** What the saver holds: the catalogue, the name order of its map, and the optional parts set on it. */
  datatype Saver = Saver(db: Database, order: seq<string>, svg: Option<SvgSettings>,
                         routing: Option<RoutingSettings>, graph: Option<Graph>, router: Option<RouterTable>)

  /** The names every stored record needs to find in the name map. */
  ghost predicate NamesInterned(db: Database) {
    && (forall i | 0 <= i < |db.stops| :: db.stops[i].name in db.strings)
    && (forall i | 0 <= i < |db.buses| :: db.buses[i].name in db.strings)
  }

  /**
   * Stores the database: names, stops, lines and distances always; the render and routing
   * settings, the graph and the router table only when they were set.
   */
  function Save(s: Saver): (r: PbDatabase)
    requires NamesInterned(s.db) && forall k | 0 <= k < |s.order| :: s.order[k] in s.db.strings
    ensures |r.strings| == |s.order| && |r.stops| == |s.db.stops| && |r.buses| == |s.db.buses|
    ensures |r.distances| == |s.db.distances|
    ensures forall i | 0 <= i < |s.db.stops| :: r.stops[i] == EncodeStop(s.db.strings, s.db.stops[i])
    ensures forall i | 0 <= i < |s.db.buses| :: r.buses[i] == EncodeBus(s.db.strings, s.db.buses[i])
    ensures r.svg.Some? <==> s.svg.Some?
    ensures r.routing.Some? <==> s.routing.Some?
    ensures r.graph.Some? <==> s.graph.Some?
    ensures r.router.Some? <==> s.router.Some?
  {
    var db := s.db;
    PbDatabase(
      EncodeStrings(db.strings, s.order),
      seq(|db.stops|, i requires 0 <= i < |db.stops| => EncodeStop(db.strings, db.stops[i])),
      seq(|db.buses|, i requires 0 <= i < |db.buses| => EncodeBus(db.strings, db.buses[i])),
      seq(|db.distances|, i requires 0 <= i < |db.distances| => EncodeDistance(db.distances[i])),
      if s.svg.Some? then Some(EncodeSvg(s.svg.value)) else None,
      if s.routing.Some? then Some(PbRouting(s.routing.value.busWaitTime, s.routing.value.busVelocity)) else None,
      if s.graph.Some? then Some(EncodeGraph(s.graph.value)) else None,
      if s.router.Some? then Some(EncodeRouter(s.router.value)) else None)
  }

  /** What the loader holds: the id -> name map, the catalogue, and the parts it hands out afterwards. */
  datatype Loader = Loader(ids: map<nat, string>, db: Database, svg: Option<SvgSettings>,
                           routing: Option<RoutingSettings>, edges: seq<GraphEdge>, incidence: seq<seq<nat>>,
                           router: RouterTable)

  const FreshLoader: Loader := Loader(map[], Database(map[], [], [], []), None, None, [], [], [])

  /**
   * The catalogue part of loading: names first, then stops, then lines (resolved against all
   * stops), then distances, each appended to what the catalogue already holds. An id that
   * resolves to nothing is an error here (the source dereferences it).
   */
  function LoadCatalogue(l: Loader, pb: PbDatabase): (r: Result<Loader>)
    ensures r.Success? ==>
      && r.value.db.strings == InsertStrings(l.db.strings, pb.strings)
      && r.value.ids == DecodeStringIds(l.ids, pb.strings)
      && |r.value.db.stops| == |l.db.stops| + |pb.stops| && r.value.db.stops[..|l.db.stops|] == l.db.stops
      && |r.value.db.buses| == |l.db.buses| + |pb.buses| && r.value.db.buses[..|l.db.buses|] == l.db.buses
      && |r.value.db.distances| == |l.db.distances| + |pb.distances|
      && r.value == l.(ids := r.value.ids, db := r.value.db)
  {
    var ids := DecodeStringIds(l.ids, pb.strings);
    var strings := InsertStrings(l.db.strings, pb.strings);
    var newStops :- MapResult((p: PbStop) => DecodeStop(ids, p), pb.stops);
    var stops := l.db.stops + newStops;
    var newBuses :- MapResult((p: PbBus) => DecodeBus(ids, stops, p), pb.buses);
    var distances := seq(|pb.distances|, i requires 0 <= i < |pb.distances| => DecodeDistance(pb.distances[i]));
    Success(l.(ids := ids, db := Database(strings, stops, l.db.buses + newBuses, l.db.distances + distances)))
  }

  /**
   * The optional parts of loading, each only when present in the record: settings replace the
   * held ones, graph edges (resolved against the loaded lines) and incidence lists are appended,
   * and the router table is loaded row by row.
   */
  function LoadParts(l: Loader, pb: PbDatabase): (r: Result<Loader>)
    ensures r.Success? ==>
      && r.value.ids == l.ids && r.value.db == l.db
      && (r.value.svg.Some? <==> l.svg.Some? || pb.svg.Some?)
      && (r.value.routing.Some? <==> l.routing.Some? || pb.routing.Some?)
      && (pb.graph.None? ==> r.value.edges == l.edges && r.value.incidence == l.incidence)
      && (pb.graph.Some? ==> |r.value.edges| == |l.edges| + |pb.graph.value.edges|)
      && (pb.router.None? ==> r.value.router == l.router)
      && (pb.router.Some? ==> |r.value.router| == |pb.router.value|)
    ensures pb.graph.None? ==> r.Success?
  {
    var svg := if pb.svg.Some? then Some(DecodeSvg(pb.svg.value)) else l.svg;
    var routing := if pb.routing.Some? then Some(RoutingSettings(pb.routing.value.busWaitTime, pb.routing.value.busVelocity)) else l.routing;
    var newEdges :- if pb.graph.Some? then MapResult((p: PbEdge) => DecodeEdge(l.db.buses, p), pb.graph.value.edges) else Success([]);
    var incidence := if pb.graph.Some? then l.incidence + pb.graph.value.incidence else l.incidence;
    var router := if pb.router.Some? then DecodeRouter(l.router, pb.router.value) else l.router;
    Success(l.(svg := svg, routing := routing, edges := l.edges + newEdges, incidence := incidence, router := router))
  }

  /** Loads a stored database, or leaves everything untouched when there is none (the file could not be opened or parsed). */
  function Load(l: Loader, file: Option<PbDatabase>): (r: Result<Loader>)
    ensures file.None? ==> r == Success(l)
    ensures file.Some? ==> r == (var c :- LoadCatalogue(l, file.value); LoadParts(c, file.value))
  {
    if file.None? then Success(l)
    else
      var c :- LoadCatalogue(l, file.value);
      LoadParts(c, file.value)
  }

  /** Everything a consistent saver holds can be stored and loaded back. */
  ghost predicate Consistent(s: Saver) {
    && NamesInterned(s.db) && Enumerates(s.db.strings, s.order) && Injective(s.db.strings)
    && UniqueIds(s.db.stops, StopId) && UniqueIds(s.db.buses, BusId)
    && (forall i | 0 <= i < |s.db.buses| :: BusResolvable(s.db.stops, s.db.buses[i]))
    && (s.graph.Some? ==> forall i | 0 <= i < |s.graph.value.edges| :: s.graph.value.edges[i].bus in s.db.buses)
  }

  /** Every stored stop decodes back to the stop it was stored from. */
  lemma StopsRoundTrip(s: Saver, ids: map<nat, string>)
    requires Consistent(s)
    requires forall n | n in s.db.strings :: s.db.strings[n] in ids && ids[s.db.strings[n]] == n
    ensures MapResult((p: PbStop) => DecodeStop(ids, p), Save(s).stops) == Success(s.db.stops)
  {
    var pb := Save(s);
    forall i | 0 <= i < |s.db.stops| ensures DecodeStop(ids, pb.stops[i]) == Success(s.db.stops[i]) {
      StopRoundTrip(s.db.strings, ids, s.db.stops[i]);
    }
    MapResultRoundTrip((p: PbStop) => DecodeStop(ids, p), pb.stops, s.db.stops);
  }

  /** Every stored line decodes back, against the restored stops, to the line it was stored from. */
  lemma BusesRoundTrip(s: Saver, ids: map<nat, string>)
    requires Consistent(s)
    requires forall n | n in s.db.strings :: s.db.strings[n] in ids && ids[s.db.strings[n]] == n
    ensures MapResult((p: PbBus) => DecodeBus(ids, s.db.stops, p), Save(s).buses) == Success(s.db.buses)
  {
    var pb := Save(s);
    forall i | 0 <= i < |s.db.buses| ensures DecodeBus(ids, s.db.stops, pb.buses[i]) == Success(s.db.buses[i]) {
      BusRoundTrip(s.db.strings, ids, s.db.stops, s.db.buses[i]);
    }
    MapResultRoundTrip((p: PbBus) => DecodeBus(ids, s.db.stops, p), pb.buses, s.db.buses);
  }

  /** Once stops and lines decode, loading the catalogue appends them, with the distances, to what was held. */
  lemma LoadCatalogueOf(l: Loader, pb: PbDatabase, stops: seq<StopRec>, buses: seq<BusRec>)
    requires MapResult((p: PbStop) => DecodeStop(DecodeStringIds(l.ids, pb.strings), p), pb.stops) == Success(stops)
    requires MapResult((p: PbBus) => DecodeBus(DecodeStringIds(l.ids, pb.strings), l.db.stops + stops, p), pb.buses) == Success(buses)
    ensures LoadCatalogue(l, pb) == Success(l.(ids := DecodeStringIds(l.ids, pb.strings),
      db := Database(InsertStrings(l.db.strings, pb.strings), l.db.stops + stops, l.db.buses + buses,
                     l.db.distances + seq(|pb.distances|, i requires 0 <= i < |pb.distances| => DecodeDistance(pb.distances[i])))))
  {
  }

  /** Distances are stored field for field, so decoding them gives them back. */
  lemma DistancesRoundTrip(s: Saver)
    requires Consistent(s)
    ensures seq(|Save(s).distances|, i requires 0 <= i < |Save(s).distances| => DecodeDistance(Save(s).distances[i])) == s.db.distances
  {
  }

  lemma CatalogueRoundTrip(s: Saver)
    requires Consistent(s)
    ensures LoadCatalogue(FreshLoader, Save(s)).Success?
    ensures LoadCatalogue(FreshLoader, Save(s)).value.db == s.db
  {
    var pb := Save(s);
    StringsRoundTrip(s.db.strings, s.order);
    var ids := DecodeStringIds(map[], pb.strings);
    StopsRoundTrip(s, ids);
    assert [] + s.db.stops == s.db.stops;
    BusesRoundTrip(s, ids);
    LoadCatalogueOf(FreshLoader, pb, s.db.stops, s.db.buses);
    assert [] + s.db.buses == s.db.buses;
    DistancesRoundTrip(s);
  }

  lemma PartsRoundTrip(s: Saver, l: Loader)
    requires Consistent(s) && l.db == s.db
    requires l.svg.None? && l.routing.None? && l.edges == [] && l.incidence == [] && l.router == []
    ensures LoadParts(l, Save(s)).Success?
    ensures var r := LoadParts(l, Save(s)).value;
      && r.svg == s.svg && r.routing == s.routing
      && r.edges == (if s.graph.Some? then s.graph.value.edges else [])
      && r.incidence == (if s.graph.Some? then s.graph.value.incidence else [])
      && r.router == (if s.router.Some? then s.router.value else [])
  {
    var pb := Save(s);
    if s.graph.Some? {
      EdgesRoundTrip(s.db.buses, s.graph.value);
      assert [] + s.graph.value.edges == s.graph.value.edges;
      assert [] + s.graph.value.incidence == s.graph.value.incidence;
    }
    if s.router.Some? {
      RouterRoundTrip(s.router.value);
    }
  }

  /**
   * Saving and loading into a fresh loader restores the catalogue exactly (names, stops with
   * their explicit ids, lines with their traversals and termini, distances) and every optional
   * part that was set, and only those.
   */
  lemma SaveLoadRoundTrip(s: Saver)
    requires Consistent(s)
    ensures Load(FreshLoader, Some(Save(s))).Success?
    ensures var l := Load(FreshLoader, Some(Save(s))).value;
      && l.db == s.db
      && l.svg == s.svg && l.routing == s.routing
      && l.edges == (if s.graph.Some? then s.graph.value.edges else [])
      && l.incidence == (if s.graph.Some? then s.graph.value.incidence else [])
      && l.router == (if s.router.Some? then s.router.value else [])
  {
    CatalogueRoundTrip(s);
    var c := LoadCatalogue(FreshLoader, Save(s)).value;
    PartsRoundTrip(s, c);
  }
}
