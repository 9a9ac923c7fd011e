/**
 * The transport catalogue: interned names, stops (with placeholder stops created from
 * road-distance references), directed road distances, and lines whose effective traversal
 * and cached lengths are computed once when the line is added.
 *
 * A `Stop*` of the source is modelled by the stop's position in the insertion-ordered stop
 * list, so a name that is defined twice owns two records, as in the source.
 */
module Catalogue {
  import opened Wrappers

  datatype Coord = Coord(lat: real, lng: real)

  datatype Stop = Stop(name: string, coord: Coord)

  /** A line; `stops` is its effective traversal as positions in the stop list. */
  datatype Bus = Bus(name: string, isRing: bool, stops: seq<nat>, geoLength: real, roadLength: int)

  datatype DistanceTo = DistanceTo(stopName: string, distance: int)

  /** The parsed form of one stop definition. */
  datatype StopToAdd = StopToAdd(name: string, coord: Coord, distances: seq<DistanceTo>)

  datatype Catalogue = Catalogue(
    strings: set<string>,                      // interned names
    stops: seq<Stop>,                          // insertion order, never reordered
    stopIndex: map<string, nat>,               // name -> current record of that name
    buses: seq<Bus>,
    busIndex: map<string, nat>,
    stopBuses: map<nat, set<string>>,          // stop record -> names of the lines through it
    placeholders: set<string>,                 // stops known only as distance targets
    distances: map<(string, string), int>)     // directed road distances, keyed by names

  const Empty: Catalogue := Catalogue({}, [], map[], [], map[], map[], {}, map[])

  /** Every name maps to a record of that name. */
  ghost predicate StopsIndexed(stopIndex: map<string, nat>, stops: seq<Stop>) {
    forall n | n in stopIndex :: stopIndex[n] < |stops| && stops[stopIndex[n]].name == n
  }

  ghost predicate BusesIndexed(busIndex: map<string, nat>, buses: seq<Bus>) {
    forall n | n in busIndex :: busIndex[n] < |buses| && buses[busIndex[n]].name == n
  }

  /** Every element of `s` is a position in a stop list of length `count`. */
  ghost predicate InRange(s: seq<nat>, count: nat) {
    forall i | 0 <= i < |s| :: s[i] < count
  }

  ghost predicate BusStopsInRange(buses: seq<Bus>, count: nat) {
    forall i | 0 <= i < |buses| :: InRange(buses[i].stops, count)
  }

  ghost predicate StopBusesInRange(stopBuses: map<nat, set<string>>, count: nat) {
    forall k | k in stopBuses :: k < count && stopBuses[k] != {}
  }

  /** The invariant every public operation keeps. */
  ghost predicate Valid(c: Catalogue) {
    && StopsIndexed(c.stopIndex, c.stops)
    && c.placeholders <= c.stopIndex.Keys
    && BusesIndexed(c.busIndex, c.buses)
    && BusStopsInRange(c.buses, |c.stops|)
    && StopBusesInRange(c.stopBuses, |c.stops|)
  }

  /** Appending stop records keeps every line and every stop-to-lines entry in range. */
  lemma RangesGrow(c: Catalogue, count: nat)
    requires BusStopsInRange(c.buses, |c.stops|) && StopBusesInRange(c.stopBuses, |c.stops|)
    requires |c.stops| <= count
    ensures BusStopsInRange(c.buses, count) && StopBusesInRange(c.stopBuses, count)
  {
    forall i | 0 <= i < |c.buses| ensures InRange(c.buses[i].stops, count) {
      assert InRange(c.buses[i].stops, |c.stops|);
    }
  }

  lemma EmptyIsValid()
    ensures Valid(Empty)
  {
  }

  // ---------------------------------------------------------------- interning

  /** Interns `name`: the view handed out equals the name, the pool gains it if it was new. */
  function PlaceStringName(pool: set<string>, name: string): (r: (set<string>, string))
    ensures r.1 == name && name in r.0 && pool <= r.0
    ensures |r.0| == if name in pool then |pool| else |pool| + 1
  {
    assert name in pool ==> pool + {name} == pool;
    (pool + {name}, name)
  }

  /** Interning the same name twice gives equal views and leaves the pool as the first call left it. */
  lemma InternTwice(pool: set<string>, name: string)
    ensures PlaceStringName(PlaceStringName(pool, name).0, name) == PlaceStringName(pool, name)
  {
  }

  // ---------------------------------------------------------------- road distances

  /** Directed lookup with fallback to the reverse direction, then to 0. */
  function DistanceByRoad(c: Catalogue, a: string, b: string): (d: int)
    ensures (a, b) in c.distances ==> d == c.distances[(a, b)]
    ensures (a, b) !in c.distances && (b, a) in c.distances ==> d == c.distances[(b, a)]
    ensures (a, b) !in c.distances && (b, a) !in c.distances ==> d == 0
  {
    if (a, b) in c.distances then c.distances[(a, b)]
    else if (b, a) in c.distances then c.distances[(b, a)]
    else 0
  }

  /** When only one direction is recorded, both directions read the same distance. */
  lemma DistanceOneSidedIsSymmetric(c: Catalogue, a: string, b: string)
    requires (a, b) in c.distances && (b, a) !in c.distances
    ensures DistanceByRoad(c, b, a) == DistanceByRoad(c, a, b) == c.distances[(a, b)]
  {
  }

  /** Two recorded directions are independent: each lookup reads its own entry. */
  lemma DistanceBothSidedIsDirected(c: Catalogue, a: string, b: string)
    requires (a, b) in c.distances && (b, a) in c.distances
    ensures DistanceByRoad(c, a, b) == c.distances[(a, b)]
    ensures DistanceByRoad(c, b, a) == c.distances[(b, a)]
  {
  }

  /**
   * Road distance between two stop records (compared by name, as the source's key equality
   * does); a position past the stop list has no distance.
   */
  function Road(c: Catalogue, i: nat, j: nat): int {
    if i < |c.stops| && j < |c.stops| then DistanceByRoad(c, c.stops[i].name, c.stops[j].name) else 0
  }

  /** Geographic distance between two stop records; a position past the stop list has none. */
  function Geo(c: Catalogue, geo: (Coord, Coord) -> real, i: nat, j: nat): real {
    if i < |c.stops| && j < |c.stops| then geo(c.stops[i].coord, c.stops[j].coord) else 0.0
  }

  // ---------------------------------------------------------------- adding stops

  /** Looks up the stop currently registered under `name`. */
  function FindStop(c: Catalogue, name: string): (r: Option<Stop>)
    requires Valid(c)
    ensures r.Some? <==> name in c.stopIndex
    ensures r.Some? ==> r.value.name == name && r.value in c.stops
  {
    if name in c.stopIndex then Some(c.stops[c.stopIndex[name]]) else None
  }

  /** Appending a record for `name` and pointing the name at it keeps the catalogue valid. */
  lemma AppendStopValid(c: Catalogue, name: string, coord: Coord, placeholders: set<string>)
    requires Valid(c)
    requires placeholders <= c.stopIndex.Keys + {name}
    ensures Valid(c.(stops := c.stops + [Stop(name, coord)], stopIndex := c.stopIndex[name := |c.stops|],
                     placeholders := placeholders))
  {
    RangesGrow(c, |c.stops| + 1);
  }

  /** Overwrites the coordinates of the current record of `name` and takes it off the placeholder set. */
  function PatchPlaceholder(c: Catalogue, name: string, coord: Coord): (r: Catalogue)
    requires Valid(c) && name in c.placeholders
    ensures Valid(r)
    ensures r.stopIndex == c.stopIndex && |r.stops| == |c.stops|
    ensures r.stops == c.stops[c.stopIndex[name] := Stop(name, coord)]
    ensures r.placeholders == c.placeholders - {name}
    ensures r.strings == c.strings && r.distances == c.distances
    ensures r.buses == c.buses && r.busIndex == c.busIndex && r.stopBuses == c.stopBuses
  {
    var k := c.stopIndex[name];
    c.(stops := c.stops[k := Stop(name, coord)], placeholders := c.placeholders - {name})
  }

  /** The first half of AddStop: patch a placeholder of that name, or append a new record. */
  function PlaceStop(c: Catalogue, name: string, coord: Coord): (r: Catalogue)
    requires Valid(c)
    ensures Valid(r)
    ensures name in r.stopIndex && r.stops[r.stopIndex[name]] == Stop(name, coord)
    ensures name !in r.placeholders
    ensures name in c.placeholders ==> r.stopIndex == c.stopIndex && |r.stops| == |c.stops|
    ensures name !in c.placeholders ==>
      r.stopIndex == c.stopIndex[name := |c.stops|] && r.stops == c.stops + [Stop(name, coord)]
    ensures forall n | n in c.stopIndex && n != name :: r.stopIndex[n] == c.stopIndex[n]
    ensures forall n | n in c.stopIndex && n != name :: r.stops[r.stopIndex[n]] == c.stops[c.stopIndex[n]]
    ensures r.placeholders == c.placeholders - {name}
    ensures r.strings == c.strings + {name} && r.distances == c.distances
    ensures r.buses == c.buses && r.busIndex == c.busIndex && r.stopBuses == c.stopBuses
  {
    var pool := PlaceStringName(c.strings, name).0;
    if name in c.placeholders then
      PatchPlaceholder(c, name, coord).(strings := pool)
    else
      AppendStopValid(c, name, coord, c.placeholders);
      c.(strings := pool, stops := c.stops + [Stop(name, coord)], stopIndex := c.stopIndex[name := |c.stops|])
  }

  /** A distance entry naming a stop that is already known. */
  function AddKnownDistance(c: Catalogue, from: string, coord: Coord, d: DistanceTo): (r: Catalogue)
    requires Valid(c) && d.stopName in c.stopIndex
    ensures Valid(r)
    ensures r.stopIndex == c.stopIndex
    ensures d.stopName in c.placeholders ==> r.stops == c.stops[c.stopIndex[d.stopName] := Stop(d.stopName, coord)]
    ensures d.stopName !in c.placeholders ==> r.stops == c.stops
    ensures r.placeholders == c.placeholders - {d.stopName}
    ensures r.distances == c.distances[(from, d.stopName) := d.distance]
    ensures r.strings == c.strings + {d.stopName}
    ensures r.buses == c.buses && r.busIndex == c.busIndex && r.stopBuses == c.stopBuses
  {
    var pool := PlaceStringName(c.strings, d.stopName).0;
    var c1 := if d.stopName in c.placeholders then PatchPlaceholder(c, d.stopName, coord) else c;
    c1.(strings := pool, distances := c1.distances[(from, d.stopName) := d.distance])
  }

  /** A distance entry naming an unknown stop: it becomes a placeholder at (0, 0). */
  function AddUnknownDistance(c: Catalogue, from: string, d: DistanceTo): (r: Catalogue)
    requires Valid(c) && d.stopName !in c.stopIndex
    ensures Valid(r)
    ensures r.stops == c.stops + [Stop(d.stopName, Coord(0.0, 0.0))]
    ensures r.stopIndex == c.stopIndex[d.stopName := |c.stops|]
    ensures r.placeholders == c.placeholders + {d.stopName}
    ensures r.distances == c.distances[(from, d.stopName) := d.distance]
    ensures r.strings == c.strings + {d.stopName}
    ensures r.buses == c.buses && r.busIndex == c.busIndex && r.stopBuses == c.stopBuses
  {
    var pool := PlaceStringName(c.strings, d.stopName).0;
    AppendStopValid(c, d.stopName, Coord(0.0, 0.0), c.placeholders + {d.stopName});
    c.(strings := pool,
       stops := c.stops + [Stop(d.stopName, Coord(0.0, 0.0))],
       stopIndex := c.stopIndex[d.stopName := |c.stops|],
       distances := c.distances[(from, d.stopName) := d.distance],
       placeholders := c.placeholders + {d.stopName})
  }

  /**
   * One road-distance entry of a stop definition `from` at `coord`. A known neighbour gets the
   * directed entry recorded or overwritten, and if it is still a placeholder it receives the
   * coordinates of the stop being defined. An unknown neighbour becomes a placeholder at (0, 0).
   */
  function AddDistance(c: Catalogue, from: string, coord: Coord, d: DistanceTo): (r: Catalogue)
    requires Valid(c)
    ensures Valid(r)
    ensures r.distances == c.distances[(from, d.stopName) := d.distance]
    ensures d.stopName in r.stopIndex && r.strings == c.strings + {d.stopName}
    ensures d.stopName !in c.stopIndex ==>
      && FindStop(r, d.stopName) == Some(Stop(d.stopName, Coord(0.0, 0.0)))
      && r.placeholders == c.placeholders + {d.stopName}
    ensures d.stopName in c.placeholders ==>
      && FindStop(r, d.stopName) == Some(Stop(d.stopName, coord))
      && r.placeholders == c.placeholders - {d.stopName}
    ensures d.stopName in c.stopIndex && d.stopName !in c.placeholders ==>
      r.stops == c.stops && r.placeholders == c.placeholders
    ensures forall n | n in c.stopIndex :: n in r.stopIndex && r.stopIndex[n] == c.stopIndex[n]
    ensures forall n | n in c.stopIndex && n !in c.placeholders :: r.stops[r.stopIndex[n]] == c.stops[c.stopIndex[n]]
    ensures forall n | n in c.stopIndex && n !in c.placeholders :: n !in r.placeholders
    ensures r.buses == c.buses && r.busIndex == c.busIndex && r.stopBuses == c.stopBuses
  {
    if d.stopName in c.stopIndex then AddKnownDistance(c, from, coord, d)
    else AddUnknownDistance(c, from, d)
  }

  /** The entries of a stop definition, applied in input order. */
  function AddDistances(c: Catalogue, from: string, coord: Coord, ds: seq<DistanceTo>): (r: Catalogue)
    requires Valid(c)
    ensures Valid(r)
    ensures forall n | n in c.stopIndex :: n in r.stopIndex && r.stopIndex[n] == c.stopIndex[n]
    ensures forall n | n in c.stopIndex && n !in c.placeholders :: r.stops[r.stopIndex[n]] == c.stops[c.stopIndex[n]]
    ensures r.placeholders <= c.placeholders + set d | d in ds :: d.stopName
    ensures forall n | n in c.stopIndex && n !in c.placeholders :: n !in r.placeholders
    ensures forall d | d in ds :: d.stopName in r.stopIndex
    ensures r.buses == c.buses && r.busIndex == c.busIndex && r.stopBuses == c.stopBuses
    ensures r.strings == c.strings + set d | d in ds :: d.stopName
    decreases |ds|
  {
    if ds == [] then c
    else AddDistances(AddDistance(c, from, coord, ds[0]), from, coord, ds[1..])
  }

  /**
   * Adds a stop definition. Afterwards the stop found under its name carries its coordinates and
   * is no placeholder; a placeholder of that name keeps its record (its id is stable); every
   * neighbour named by a distance entry is known; defined stops other than patched placeholders
   * keep their records.
   */
  function AddStop(c: Catalogue, s: StopToAdd): (r: Catalogue)
    requires Valid(c)
    ensures Valid(r)
    ensures FindStop(r, s.name) == Some(Stop(s.name, s.coord))
    ensures s.name !in r.placeholders
    ensures s.name in c.placeholders ==> r.stopIndex[s.name] == c.stopIndex[s.name]
    ensures s.name !in c.placeholders ==> r.stopIndex[s.name] == |c.stops|
    ensures forall d | d in s.distances :: d.stopName in r.stopIndex
    ensures forall n | n in c.stopIndex && n !in c.placeholders && n != s.name :: FindStop(r, n) == FindStop(c, n)
    ensures r.strings == c.strings + {s.name} + set d | d in s.distances :: d.stopName
    ensures r.buses == c.buses && r.busIndex == c.busIndex && r.stopBuses == c.stopBuses
  {
    var c1 := PlaceStop(c, s.name, s.coord);
    var r := AddDistances(c1, s.name, s.coord, s.distances);
    assert s.name in c1.stopIndex && s.name !in c1.placeholders;
    assert r.stops[r.stopIndex[s.name]] == c1.stops[c1.stopIndex[s.name]];
    r
  }

  /** The distance entry for a neighbour named once in a definition is the directed entry afterwards. */
  lemma {:induction false} AddDistancesRecords(c: Catalogue, from: string, coord: Coord, ds: seq<DistanceTo>, i: nat)
    requires Valid(c) && i < |ds|
    requires forall j | 0 <= j < |ds| && j != i :: ds[j].stopName != ds[i].stopName
    ensures (from, ds[i].stopName) in AddDistances(c, from, coord, ds).distances
    ensures AddDistances(c, from, coord, ds).distances[(from, ds[i].stopName)] == ds[i].distance
    ensures DistanceByRoad(AddDistances(c, from, coord, ds), from, ds[i].stopName) == ds[i].distance
    decreases |ds|
  {
    var c1 := AddDistance(c, from, coord, ds[0]);
    if i == 0 {
      AddDistancesKeepsOtherEntries(c1, from, coord, ds[1..], ds[0].stopName);
    } else {
      AddDistancesRecords(c1, from, coord, ds[1..], i - 1);
    }
  }

  /** Entries for neighbours that a definition does not name are left alone. */
  lemma {:induction false} AddDistancesKeepsOtherEntries(c: Catalogue, from: string, coord: Coord, ds: seq<DistanceTo>, nb: string)
    requires Valid(c)
    requires forall d | d in ds :: d.stopName != nb
    ensures (from, nb) in c.distances ==> (from, nb) in AddDistances(c, from, coord, ds).distances
    ensures (from, nb) in c.distances ==>
      AddDistances(c, from, coord, ds).distances[(from, nb)] == c.distances[(from, nb)]
    decreases |ds|
  {
    if ds != [] {
      AddDistancesKeepsOtherEntries(AddDistance(c, from, coord, ds[0]), from, coord, ds[1..], nb);
    }
  }

  /**
   * A stop defined after a placeholder was created for it keeps the placeholder's record (stable
   * id) and ends with the coordinates of its own definition.
   */
  lemma PlaceholderThenDefinition(c: Catalogue, a: string, aCoord: Coord, b: string, d: int, bCoord: Coord)
    requires Valid(c) && a != b && b !in c.stopIndex
    ensures var c1 := AddStop(c, StopToAdd(a, aCoord, [DistanceTo(b, d)]));
            && b in c1.placeholders
            && FindStop(c1, b) == Some(Stop(b, Coord(0.0, 0.0)))
            && var c2 := AddStop(c1, StopToAdd(b, bCoord, []));
               && c2.stopIndex[b] == c1.stopIndex[b]
               && FindStop(c2, b) == Some(Stop(b, bCoord))
               && b !in c2.placeholders
  {
    var c0 := PlaceStop(c, a, aCoord);
    assert b !in c0.stopIndex;
    var ds := [DistanceTo(b, d)];
    assert ds[1..] == [];
    var c1 := AddStop(c, StopToAdd(a, aCoord, ds));
    assert c1 == AddDistances(c0, a, aCoord, ds);
    assert c1 == AddDistances(AddDistance(c0, a, aCoord, ds[0]), a, aCoord, ds[1..]);
  }

  // ---------------------------------------------------------------- lines

  function Reverse<T>(s: seq<T>): (r: seq<T>)
    ensures |r| == |s|
    ensures forall i | 0 <= i < |s| :: r[i] == s[|s| - 1 - i]
  {
    if s == [] then [] else Reverse(s[1..]) + [s[0]]
  }

  /**
   * The effective traversal of a line: a ring line as given; an out-and-back line is the list
   * followed by its reverse without the turnaround stop.
   */
  function Expand<T>(s: seq<T>, isRing: bool): (r: seq<T>)
    requires isRing || |s| >= 1
    ensures |r| == if isRing then |s| else 2 * |s| - 1
    ensures r[..|s|] == s
    ensures !isRing ==> forall i | |s| <= i < |r| :: r[i] == s[2 * |s| - 2 - i]
  {
    if isRing then s else s + Reverse(s[..|s| - 1])
  }

  /** An out-and-back traversal visits exactly the stops of its one-way list. */
  lemma ExpandSameElements<T>(s: seq<T>, isRing: bool)
    requires isRing || |s| >= 1
    ensures forall i | 0 <= i < |Expand(s, isRing)| :: Expand(s, isRing)[i] in s
    ensures forall i | 0 <= i < |s| :: Expand(s, isRing)[i] == s[i]
  {
    var e := Expand(s, isRing);
    assert e[..|s|] == s;
    forall i | 0 <= i < |e| ensures e[i] in s {
      if i >= |s| {
        assert e[i] == s[2 * |s| - 2 - i];
      } else {
        assert e[..|s|][i] == e[i];
      }
    }
  }

  /** A traversal over positions in range stays in range. */
  lemma ExpandInRange(s: seq<nat>, isRing: bool, count: nat)
    requires isRing || |s| >= 1
    requires InRange(s, count)
    ensures InRange(Expand(s, isRing), count)
  {
    ExpandSameElements(s, isRing);
    var e := Expand(s, isRing);
    forall i | 0 <= i < |e| ensures e[i] < count {
      assert e[i] in s;
    }
  }

  /** Sum of `Road` over the consecutive pairs of a traversal. */
  function PairRoad(c: Catalogue, s: seq<nat>): int
    decreases |s|
  {
    if |s| <= 1 then 0 else PairRoad(c, s[..|s| - 1]) + Road(c, s[|s| - 2], s[|s| - 1])
  }

  /** Sum of the geographic distance over the consecutive pairs of a list of stops. */
  function PairGeo(c: Catalogue, geo: (Coord, Coord) -> real, s: seq<nat>): real
    decreases |s|
  {
    if |s| <= 1 then 0.0 else PairGeo(c, geo, s[..|s| - 1]) + Geo(c, geo, s[|s| - 2], s[|s| - 1])
  }

  /**
   * The cached road length of a line with one-way list `fwd`: the first stop's self-distance,
   * the consecutive pairs of the whole traversal, and for an out-and-back line the turnaround
   * stop's self-distance.
   */
  function RoadLength(c: Catalogue, fwd: seq<nat>, isRing: bool): int
    requires isRing || |fwd| >= 1
    requires InRange(fwd, |c.stops|)
  {
    ExpandInRange(fwd, isRing, |c.stops|);
    var first := if |fwd| == 0 then 0 else Road(c, fwd[0], fwd[0]);
    var turn := if isRing then 0 else Road(c, fwd[|fwd| - 1], fwd[|fwd| - 1]);
    first + turn + PairRoad(c, Expand(fwd, isRing))
  }

  /** The cached geographic length: the one-way sum, doubled for an out-and-back line. */
  function GeoLength(c: Catalogue, geo: (Coord, Coord) -> real, fwd: seq<nat>, isRing: bool): real
    requires InRange(fwd, |c.stops|)
  {
    if isRing then PairGeo(c, geo, fwd) else 2.0 * PairGeo(c, geo, fwd)
  }

  /** Resolves stop names to their current records. */
  function Resolve(c: Catalogue, names: seq<string>): (r: seq<nat>)
    requires Valid(c)
    requires forall n | n in names :: n in c.stopIndex
    ensures |r| == |names|
    ensures forall i | 0 <= i < |names| :: r[i] == c.stopIndex[names[i]] && r[i] < |c.stops|
    ensures InRange(r, |c.stops|)
  {
    seq(|names|, i requires 0 <= i < |names| => c.stopIndex[names[i]])
  }

  /** The stop-to-lines map after `name` is registered for every record in `ids`. */
  ghost predicate LinesRegistered(before: map<nat, set<string>>, after: map<nat, set<string>>, ids: seq<nat>, name: string)
  {
    && (forall k :: k in after <==> k in before || k in ids)
    && (forall k | k in after ::
          after[k] == (if k in before then before[k] else {}) + (if k in ids then {name} else {}))
  }

  function AddLineToStop(m: map<nat, set<string>>, k: nat, name: string): map<nat, set<string>>
  {
    m[k := (if k in m then m[k] else {}) + {name}]
  }

  lemma LinesRegisteredStep(before: map<nat, set<string>>, after: map<nat, set<string>>, ids: seq<nat>, name: string, k: nat)
    requires LinesRegistered(before, after, ids, name)
    ensures LinesRegistered(before, AddLineToStop(after, k, name), ids + [k], name)
  {
    var after' := AddLineToStop(after, k, name);
    forall j ensures j in after' <==> j in before || j in ids + [k] {
      assert j in ids + [k] <==> j in ids || j == k;
    }
    forall j | j in after'
      ensures after'[j] == (if j in before then before[j] else {}) + (if j in ids + [k] then {name} else {})
    {
      assert j in ids + [k] <==> j in ids || j == k;
    }
  }

  /** Registering the line at the next element of `ids` extends the registered prefix by one. */
  lemma LinesPrefixStep(before: map<nat, set<string>>, after: map<nat, set<string>>, ids: seq<nat>, name: string, f: nat)
    requires f < |ids| && LinesRegistered(before, after, ids[..f], name)
    ensures LinesRegistered(before, AddLineToStop(after, ids[f], name), ids[..f + 1], name)
  {
    assert ids[..f + 1] == ids[..f] + [ids[f]];
    LinesRegisteredStep(before, after, ids[..f], name, ids[f]);
  }

  lemma PairRoadSnoc(c: Catalogue, s: seq<nat>, k: nat)
    requires |s| >= 1
    ensures PairRoad(c, s + [k]) == PairRoad(c, s) + Road(c, s[|s| - 1], k)
  {
    assert (s + [k])[..|s|] == s;
  }

  /** Appending a stop adds the geographic distance of the new last pair. */
  lemma PairGeoSnoc(c: Catalogue, geo: (Coord, Coord) -> real, s: seq<nat>, k: nat)
    requires |s| >= 1
    ensures PairGeo(c, geo, s + [k]) == PairGeo(c, geo, s) + Geo(c, geo, s[|s| - 1], k)
  {
    assert (s + [k])[..|s|] == s;
  }

  /** The pair sums over a prefix grow by the pair that ends at the next element. */
  lemma PairPrefixStep(c: Catalogue, geo: (Coord, Coord) -> real, ids: seq<nat>, f: nat)
    requires f < |ids|
    ensures PairRoad(c, ids[..f + 1]) == PairRoad(c, ids[..f]) + (if f == 0 then 0 else Road(c, ids[f - 1], ids[f]))
    ensures PairGeo(c, geo, ids[..f + 1]) == PairGeo(c, geo, ids[..f]) + (if f == 0 then 0.0 else Geo(c, geo, ids[f - 1], ids[f]))
  {
    assert ids[..f + 1] == ids[..f] + [ids[f]];
    if f != 0 {
      PairRoadSnoc(c, ids[..f], ids[f]);
      PairGeoSnoc(c, geo, ids[..f], ids[f]);
    }
  }

  /**
   * The forward pass over the one-way list: the first stop's self-distance plus the consecutive
   * pairs, the geographic sum of the pairs, and the line registered at every stop.
   */
  method ForwardPass(c: Catalogue, ids: seq<nat>, name: string, geo: (Coord, Coord) -> real)
    returns (road: int, geoSum: real, stopBuses: map<nat, set<string>>)
    requires InRange(ids, |c.stops|)
    ensures road == (if |ids| == 0 then 0 else Road(c, ids[0], ids[0])) + PairRoad(c, ids)
    ensures geoSum == PairGeo(c, geo, ids)
    ensures LinesRegistered(c.stopBuses, stopBuses, ids, name)
  {
    road := 0;
    geoSum := 0.0;
    stopBuses := c.stopBuses;
    var forward := 0;
    while forward < |ids|
      invariant 0 <= forward <= |ids|
      invariant road == (if forward == 0 then 0 else Road(c, ids[0], ids[0])) + PairRoad(c, ids[..forward])
      invariant geoSum == PairGeo(c, geo, ids[..forward])
      invariant LinesRegistered(c.stopBuses, stopBuses, ids[..forward], name)
    {
      var b := ids[forward];
      var a := if forward == 0 then b else ids[forward - 1];
      PairPrefixStep(c, geo, ids, forward);
      if forward != 0 {
        geoSum := geoSum + Geo(c, geo, a, b);
      }
      road := road + Road(c, a, b);
      LinesPrefixStep(c.stopBuses, stopBuses, ids, name, forward);
      stopBuses := AddLineToStop(stopBuses, b, name);
      forward := forward + 1;
    }
    assert ids[..forward] == ids;
  }

  /**
   * The backward pass of an out-and-back line: appends the one-way list in reverse without the
   * turnaround stop, adding the road distance of every new pair.
   */
  method BackwardPass(c: Catalogue, ids: seq<nat>) returns (eff: seq<nat>, road: int)
    requires InRange(ids, |c.stops|) && |ids| >= 1
    ensures eff == Expand(ids, false)
    ensures InRange(eff, |c.stops|)
    ensures road == PairRoad(c, eff) - PairRoad(c, ids)
  {
    var n := |ids|;
    eff := ids;
    road := 0;
    var backward := n - 1;
    while backward > 0
      invariant 0 <= backward <= n - 1
      invariant eff == ids + Reverse(ids[backward..n - 1]) && |eff| >= 1
      invariant road == PairRoad(c, eff) - PairRoad(c, ids)
    {
      var k := ids[backward - 1];
      ReverseStep(ids, backward - 1, n - 1);
      PairRoadSnoc(c, eff, k);
      road := road + Road(c, eff[|eff| - 1], k);
      eff := eff + [k];
      backward := backward - 1;
    }
    assert ids[0..n - 1] == ids[..n - 1];
    ExpandInRange(ids, false, |c.stops|);
  }

  /** Growing a reversed slice by one element at its front appends that element. */
  lemma ReverseStep<T>(s: seq<T>, i: nat, j: nat)
    requires i < j <= |s|
    ensures Reverse(s[i..j]) == Reverse(s[i + 1..j]) + [s[i]]
  {
    assert s[i..j] == [s[i]] + s[i + 1..j];
    ReverseCons(s[i], s[i + 1..j]);
  }

  lemma ReverseCons<T>(x: T, s: seq<T>)
    ensures Reverse([x] + s) == Reverse(s) + [x]
  {
    assert ([x] + s)[1..] == s;
  }

  /**
   * Builds the line record: the effective traversal, the road length and the geographic length,
   * and registers the line at every stop of its one-way list.
   */
  method AddStopToBus(c: Catalogue, name: string, stopNames: seq<string>, isRing: bool, geo: (Coord, Coord) -> real)
    returns (bus: Bus, stopBuses: map<nat, set<string>>)
    requires Valid(c)
    requires forall n | n in stopNames :: n in c.stopIndex
    requires isRing || |stopNames| >= 1
    ensures bus.name == name && bus.isRing == isRing
    ensures bus.stops == Expand(Resolve(c, stopNames), isRing)
    ensures bus.roadLength == RoadLength(c, Resolve(c, stopNames), isRing)
    ensures bus.geoLength == GeoLength(c, geo, Resolve(c, stopNames), isRing)
    ensures LinesRegistered(c.stopBuses, stopBuses, Resolve(c, stopNames), name)
  {
    var ids := Resolve(c, stopNames);
    var road, geoSum;
    road, geoSum, stopBuses := ForwardPass(c, ids, name, geo);
    var eff := ids;
    if !isRing {
      var back;
      eff, back := BackwardPass(c, ids);
      road := road + Road(c, ids[|ids| - 1], ids[|ids| - 1]) + back;
      geoSum := geoSum * 2.0;
    }
    bus := Bus(name, isRing, eff, geoSum, road);
  }

  /** Appending a line whose traversal is in range, with the stop-to-lines map extended for it, keeps validity. */
  lemma AppendBusValid(c: Catalogue, bus: Bus, stopBuses: map<nat, set<string>>, ids: seq<nat>, pool: set<string>)
    requires Valid(c)
    requires InRange(bus.stops, |c.stops|) && InRange(ids, |c.stops|)
    requires LinesRegistered(c.stopBuses, stopBuses, ids, bus.name)
    ensures Valid(c.(strings := pool, buses := c.buses + [bus], busIndex := c.busIndex[bus.name := |c.buses|],
                     stopBuses := stopBuses))
  {
    forall k | k in stopBuses ensures k < |c.stops| && stopBuses[k] != {} {
      if k !in c.stopBuses {
        var i :| 0 <= i < |ids| && ids[i] == k;
      }
    }
    var buses := c.buses + [bus];
    forall i | 0 <= i < |buses| ensures InRange(buses[i].stops, |c.stops|) {
      if i < |c.buses| {
        assert buses[i] == c.buses[i];
      }
    }
  }

  /**
   * Adds a line. The record registered under its name has the effective traversal and the
   * cached lengths; every stop named by the line lists the line.
   */
  method AddBus(c: Catalogue, name: string, stopNames: seq<string>, isRing: bool, geo: (Coord, Coord) -> real)
    returns (r: Catalogue)
    requires Valid(c)
    requires forall n | n in stopNames :: n in c.stopIndex
    requires isRing || |stopNames| >= 1
    ensures Valid(r)
    ensures name in r.busIndex
    ensures r.buses[r.busIndex[name]]
         == Bus(name, isRing, Expand(Resolve(c, stopNames), isRing),
                GeoLength(c, geo, Resolve(c, stopNames), isRing), RoadLength(c, Resolve(c, stopNames), isRing))
    ensures forall n | n in stopNames :: BusesInStop(r, n).Buses? && name in BusesInStop(r, n).names
    ensures BusInfo(r, name).stopCount == if isRing then |stopNames| else 2 * |stopNames| - 1
    ensures BusInfo(r, name).uniqueStopCount == |set n | n in stopNames|
    ensures BusInfo(r, name).length == RoadLength(c, Resolve(c, stopNames), isRing)
    ensures r.strings == c.strings + {name}
    ensures r.stops == c.stops && r.stopIndex == c.stopIndex && r.distances == c.distances
  {
    var pool := PlaceStringName(c.strings, name).0;
    var bus, stopBuses := AddStopToBus(c, name, stopNames, isRing, geo);
    var ids := Resolve(c, stopNames);
    ExpandInRange(ids, isRing, |c.stops|);
    AppendBusValid(c, bus, stopBuses, ids, pool);
    r := c.(strings := pool, buses := c.buses + [bus], busIndex := c.busIndex[name := |c.buses|],
            stopBuses := stopBuses);
    assert r.buses[r.busIndex[name]] == bus;
    forall n | n in stopNames
      ensures BusesInStop(r, n).Buses? && name in BusesInStop(r, n).names
    {
      var i :| 0 <= i < |stopNames| && stopNames[i] == n;
      assert ids[i] == c.stopIndex[n];
    }
    UniqueNames(c, stopNames, isRing);
  }

  /** The names visited by a line's traversal are exactly the names it was given. */
  lemma UniqueNames(c: Catalogue, stopNames: seq<string>, isRing: bool)
    requires Valid(c)
    requires forall n | n in stopNames :: n in c.stopIndex
    requires isRing || |stopNames| >= 1
    ensures var e := Expand(Resolve(c, stopNames), isRing);
            (set i | 0 <= i < |e| :: c.stops[e[i]].name) == set n | n in stopNames
  {
    var ids := Resolve(c, stopNames);
    var e := Expand(ids, isRing);
    ExpandInRange(ids, isRing, |c.stops|);
    TraversalNamesGiven(c, stopNames, ids, e);
    GivenNamesTraversed(c, stopNames, ids, e);
  }

  /** Every name the traversal visits was given. */
  lemma TraversalNamesGiven(c: Catalogue, stopNames: seq<string>, ids: seq<nat>, e: seq<nat>)
    requires StopsIndexed(c.stopIndex, c.stops) && InRange(e, |c.stops|)
    requires |ids| == |stopNames|
    requires forall j | 0 <= j < |stopNames| :: stopNames[j] in c.stopIndex && ids[j] == c.stopIndex[stopNames[j]]
    requires forall i | 0 <= i < |e| :: e[i] in ids
    ensures forall x | x in (set i | 0 <= i < |e| :: c.stops[e[i]].name) :: x in stopNames
  {
    forall x | x in (set i | 0 <= i < |e| :: c.stops[e[i]].name) ensures x in stopNames {
      var i :| 0 <= i < |e| && c.stops[e[i]].name == x;
      var j :| 0 <= j < |ids| && ids[j] == e[i];
      assert c.stops[c.stopIndex[stopNames[j]]].name == stopNames[j];
    }
  }

  /** Every given name is visited by the traversal, which starts with the one-way list. */
  lemma GivenNamesTraversed(c: Catalogue, stopNames: seq<string>, ids: seq<nat>, e: seq<nat>)
    requires StopsIndexed(c.stopIndex, c.stops) && InRange(e, |c.stops|)
    requires |ids| == |stopNames| <= |e| && e[..|ids|] == ids
    requires forall j | 0 <= j < |stopNames| :: stopNames[j] in c.stopIndex && ids[j] == c.stopIndex[stopNames[j]]
    ensures forall x | x in stopNames :: x in (set i | 0 <= i < |e| :: c.stops[e[i]].name)
  {
    forall x | x in stopNames ensures x in (set i | 0 <= i < |e| :: c.stops[e[i]].name) {
      var j :| 0 <= j < |stopNames| && stopNames[j] == x;
      assert e[..|ids|][j] == ids[j];
      assert c.stops[e[j]].name == x;
    }
  }

  // ---------------------------------------------------------------- queries

  /** Line statistics; the zero-initialised result stands for an unknown line. */
  datatype BusStat = BusStat(name: string, stopCount: nat, uniqueStopCount: nat, length: int, curvature: real)

  /** IEEE division is not modelled: a zero divisor (infinity or NaN in the source) reads as 0. */
  function Ratio(a: real, b: real): real
  {
    if b == 0.0 then 0.0 else a / b
  }

  function BusInfo(c: Catalogue, name: string): (r: BusStat)
    requires Valid(c)
    ensures name !in c.busIndex ==> r == BusStat("", 0, 0, 0, 0.0)
    ensures name in c.busIndex ==>
      var b := c.buses[c.busIndex[name]];
      && r.name == name
      && r.stopCount == |b.stops|
      && r.uniqueStopCount == |set i | 0 <= i < |b.stops| :: c.stops[b.stops[i]].name|
      && r.length == b.roadLength
      && (b.geoLength != 0.0 ==> r.curvature * b.geoLength == b.roadLength as real)
  {
    if name in c.busIndex then
      var b := c.buses[c.busIndex[name]];
      assert forall i | 0 <= i < |b.stops| :: b.stops[i] in b.stops;
      var unique := set i | 0 <= i < |b.stops| :: c.stops[b.stops[i]].name;
      BusStat(b.name, |b.stops|, |unique|, b.roadLength, Ratio(b.roadLength as real, b.geoLength))
    else
      BusStat("", 0, 0, 0, 0.0)
  }

  /** The three outcomes of the lines-at-stop query. */
  datatype StopInfo = NotFound | NoBuses | Buses(names: set<string>)

  function BusesInStop(c: Catalogue, name: string): (r: StopInfo)
    requires Valid(c)
    ensures r.NotFound? <==> name !in c.stopIndex
    ensures r.NoBuses? <==> name in c.stopIndex && c.stopIndex[name] !in c.stopBuses
    ensures r.Buses? ==> r.names == c.stopBuses[c.stopIndex[name]] && r.names != {}
  {
    if name !in c.stopIndex then NotFound
    else if c.stopIndex[name] in c.stopBuses then Buses(c.stopBuses[c.stopIndex[name]])
    else NoBuses
  }

  /** A stop that only ever appeared as a distance target is found, but no line serves it. */
  lemma PlaceholderHasNoBuses(c: Catalogue, a: string, b: string, d: int, coord: Coord)
    requires Valid(c) && a != b && b !in c.stopIndex
    ensures BusesInStop(AddStop(c, StopToAdd(a, coord, [DistanceTo(b, d)])), b) == NoBuses
  {
    var c0 := PlaceStop(c, a, coord);
    assert c0.stopBuses == c.stopBuses;
    var ds := [DistanceTo(b, d)];
    assert ds[1..] == [];
    var c1 := AddStop(c, StopToAdd(a, coord, ds));
    assert c1 == AddDistances(c0, a, coord, ds);
    assert c1 == AddDistances(AddDistance(c0, a, coord, ds[0]), a, coord, ds[1..]);
    assert c1.stopIndex[b] == |c0.stops|;
  }
}
