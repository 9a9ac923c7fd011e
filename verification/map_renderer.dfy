/**
 * The map renderer: which lines, line labels, stop circles and stop labels are drawn, in
 * which order and in which palette colour. The sphere projector, fitted to the stops of
 * the call, is a parameter mapping coordinates to SVG points.
 */
module MapRenderer {
  import opened Wrappers
  import opened Svg
  import Catalogue

  /** A stop as the renderer reads it; a raw stop is known only from a distance reference. */
  datatype MapStop = MapStop(name: string, coord: Catalogue.Coord, isRaw: bool)

  /**
   * A line: its effective traversal (an entry may be a null pointer), whether it is a ring,
   * and its second terminus.
   */
  datatype MapBus = MapBus(name: string, isRing: bool, stops: seq<Option<MapStop>>, secondFinal: Option<MapStop>)

  datatype Offset = Offset(dx: real, dy: real)

  datatype Settings = Settings(
    width: real, height: real, padding: real,
    lineWidth: real, stopRadius: real,
    busLabelFontSize: int, busLabelOffset: Offset,
    stopLabelFontSize: int, stopLabelOffset: Offset,
    underlayerColor: string, underlayerWidth: real,
    palette: seq<string>)

  /** An `int` setting passed where a `uint32_t` is expected: taken modulo 2^32. */
  function ToU32(x: int): (r: U32)
    ensures 0 <= x < 0x1_0000_0000 ==> r == x
    ensures -0x1_0000_0000 <= x < 0 ==> r == x + 0x1_0000_0000
  {
    x % 0x1_0000_0000
  }

  function OffsetPoint(o: Offset): Point {
    Point(o.dx, o.dy)
  }

  // ---------------------------------------------------------------- palette

  /** The palette counter: last index handed out, palette size, and whether none was handed out yet. */
  datatype Palette = Palette(index: int, size: int, first: bool)

  /** The counter after construction, and after the reset that starts the line labels. */
  function NewPalette(size: nat): Palette {
    Palette(0, size, true)
  }

  /** The counter's index stays a valid palette position while the palette is non-empty. */
  predicate PaletteOk(p: Palette, size: nat) {
    p.size == size && 0 <= p.index && (size > 0 ==> p.index < size)
  }

  /**
   * The next palette index: 0 on the first request (and always for an empty palette),
   * otherwise the last index plus one, wrapping to 0 after the last colour.
   */
  function NextPaletteIndex(p: Palette): (r: (int, Palette))
    ensures r.1.size == p.size && !r.1.first
    ensures p.first || p.size <= 0 ==> r.0 == 0
    ensures !p.first && p.size > 0 && 0 <= p.index < p.size - 1 ==> r.0 == p.index + 1
    ensures !p.first && p.size > 0 && p.index >= p.size - 1 ==> r.0 == 0
    ensures p.size >= 0 && PaletteOk(p, p.size) ==> PaletteOk(r.1, p.size) && (p.size > 0 ==> 0 <= r.0 < p.size)
  {
    if !p.first && p.size > 0 then
      var i := if p.index < p.size - 1 then p.index + 1 else 0;
      (i, p.(index := i))
    else
      (0, p.(first := false))
  }

  /** The counter after `k` requests from a fresh start. */
  function PaletteAfter(size: nat, k: nat): Palette
    requires size > 0
  {
    if k == 0 then NewPalette(size) else Palette((k - 1) % size, size, false)
  }

  lemma {:induction false} MulAtLeast(a: int, b: int)
    requires a >= 1 && b >= 0
    ensures a * b >= b
  {
    if a > 1 {
      MulAtLeast(a - 1, b);
      assert a * b == (a - 1) * b + b;
    }
  }

  lemma ModUnique(k: int, size: int, q: int, r: int)
    requires size > 0 && 0 <= r < size && k == q * size + r
    ensures k % size == r
  {
    var q2, r2 := k / size, k % size;
    assert q * size - q2 * size == r2 - r;
    assert (q - q2) * size == q * size - q2 * size;
    if q > q2 {
      MulAtLeast(q - q2, size);
    } else if q < q2 {
      assert (q2 - q) * size == q2 * size - q * size;
      MulAtLeast(q2 - q, size);
    }
  }

  lemma ModStep(k: nat, size: nat)
    requires size > 0 && k > 0
    ensures k % size == if (k - 1) % size < size - 1 then (k - 1) % size + 1 else 0
  {
    var q, r := (k - 1) / size, (k - 1) % size;
    assert k - 1 == q * size + r;
    if r < size - 1 {
      ModUnique(k, size, q, r + 1);
    } else {
      assert k == (q + 1) * size;
      ModUnique(k, size, q + 1, 0);
    }
  }

  /** The `k`-th request after a fresh start (counting from 0) yields `k mod size`. */
  lemma PaletteCycles(size: nat, k: nat)
    requires size > 0
    ensures NextPaletteIndex(PaletteAfter(size, k)) == (k % size, PaletteAfter(size, k + 1))
  {
    if k > 0 {
      ModStep(k, size);
    }
  }

  /** The indices handed out by the next `n` requests, and the counter after them. */
  function Requests(p: Palette, n: nat): (r: (seq<int>, Palette))
    decreases n
    ensures |r.0| == n && r.1.size == p.size
    ensures p.size > 0 && PaletteOk(p, p.size) ==> PaletteOk(r.1, p.size) && forall i | 0 <= i < n :: 0 <= r.0[i] < p.size
  {
    if n == 0 then ([], p)
    else
      var (i, next) := NextPaletteIndex(p);
      var (rest, last) := Requests(next, n - 1);
      ([i] + rest, last)
  }

  /** From a fresh start, successive requests cycle through the palette: `k, k + 1, ...` mod its size. */
  lemma {:induction false} RequestsCycle(size: nat, k: nat, n: nat)
    requires size > 0
    ensures var r := Requests(PaletteAfter(size, k), n);
      (forall i | 0 <= i < n :: r.0[i] == (k + i) % size) && r.1 == PaletteAfter(size, k + n)
    decreases n
  {
    if n > 0 {
      PaletteCycles(size, k);
      RequestsCycle(size, k + 1, n - 1);
      var r := Requests(PaletteAfter(size, k), n);
      var rest := Requests(PaletteAfter(size, k + 1), n - 1);
      ConsIndex(k % size, rest.0, r.0);
    }
  }

  // ---------------------------------------------------------------- shown stops

  /** A stop that is drawn: not a null pointer and not raw. */
  predicate Shown(s: Option<MapStop>) {
    s.Some? && !s.value.isRaw
  }

  /** The shown stops of a traversal, in traversal order. */
  function ShownStops(stops: seq<Option<MapStop>>): (r: seq<MapStop>)
    ensures |r| <= |stops|
  {
    if stops == [] then [] else (if Shown(stops[0]) then [stops[0].value] else []) + ShownStops(stops[1..])
  }

  /** Exactly the shown stops are kept: every kept stop is a shown entry, and every shown entry is kept. */
  lemma {:induction false} ShownStopsMembers(stops: seq<Option<MapStop>>)
    ensures forall x :: x in ShownStops(stops) <==> Some(x) in stops && !x.isRaw
  {
    if stops != [] {
      ShownStopsMembers(stops[1..]);
      assert stops == [stops[0]] + stops[1..];
    }
  }

  /** Filtering keeps the order: the shown stops of two parts, one after the other. */
  lemma {:induction false} ShownAppend(a: seq<Option<MapStop>>, b: seq<Option<MapStop>>)
    ensures ShownStops(a + b) == ShownStops(a) + ShownStops(b)
  {
    if a != [] {
      assert (a + b)[1..] == a[1..] + b;
      ShownAppend(a[1..], b);
    } else {
      assert a + b == b;
    }
  }

  function Projected(stops: seq<MapStop>, proj: Catalogue.Coord -> Point): (r: seq<Point>)
    ensures |r| == |stops| && forall i | 0 <= i < |stops| :: r[i] == proj(stops[i].coord)
  {
    seq(|stops|, i requires 0 <= i < |stops| => proj(stops[i].coord))
  }

  // ---------------------------------------------------------------- route lines

  /** The attributes of a route line in colour `color`. */
  function LineProps(s: Settings, color: string): (r: PathProps)
    ensures r == PathProps(Some("none"), Some(color), Some(s.lineWidth), Some(RoundCap), Some(RoundJoin))
  {
    SetStrokeLineJoin(SetStrokeLineCap(SetStrokeWidth(SetStrokeColor(SetFillColor(Unset, "none"), color),
      s.lineWidth), RoundCap), RoundJoin)
  }

  /**
   * The polyline through the shown stops of `b`, in traversal order, stroked in `color`
   * with rounded caps and joins and not filled.
   */
  function LineOf(b: MapBus, s: Settings, proj: Catalogue.Coord -> Point, color: string): Object {
    Polyline(Projected(ShownStops(b.stops), proj), LineProps(s, color))
  }

  /** The line is what adding its projected stops one by one to a new polyline gives. */
  lemma LineOfAdded(b: MapBus, s: Settings, proj: Catalogue.Coord -> Point, color: string)
    ensures LineOf(b, s, proj, color) == WithProps(AddPoints(NewPolyline, Projected(ShownStops(b.stops), proj)), LineProps(s, color))
  {
  }

  /** A line is drawn when it has at least two shown stops. */
  predicate HasRoute(b: MapBus) {
    |b.stops| > 0 && |ShownStops(b.stops)| > 1
  }

  /**
   * One line's contribution: a polyline through its shown stops, in order, in the next
   * palette colour, exactly when it has at least two shown stops; only then does the
   * palette advance.
   */
  function RouteLine(b: MapBus, s: Settings, proj: Catalogue.Coord -> Point, pal: Palette): (r: (seq<Object>, Palette))
    requires PaletteOk(pal, |s.palette|)
    requires HasRoute(b) ==> |s.palette| > 0
    ensures PaletteOk(r.1, |s.palette|)
    ensures HasRoute(b) <==> |r.0| == 1
    ensures !HasRoute(b) ==> r == ([], pal)
    ensures HasRoute(b) ==>
      r == ([LineOf(b, s, proj, s.palette[NextPaletteIndex(pal).0])], NextPaletteIndex(pal).1)
  {
    if HasRoute(b) then
      var (i, next) := NextPaletteIndex(pal);
      ([LineOf(b, s, proj, s.palette[i])], next)
    else
      ([], pal)
  }

  /** The number of lines that get a polyline. */
  function RouteCount(buses: seq<MapBus>): (n: nat)
    ensures n <= |buses|
  {
    if buses == [] then 0 else (if HasRoute(buses[0]) then 1 else 0) + RouteCount(buses[1..])
  }

  /** Every line gets a polyline exactly when every line has at least two shown stops. */
  lemma {:induction false} AllRouted(buses: seq<MapBus>)
    ensures RouteCount(buses) == |buses| <==> forall i | 0 <= i < |buses| :: HasRoute(buses[i])
  {
    if buses != [] {
      AllRouted(buses[1..]);
      assert forall i | 1 <= i < |buses| :: buses[1..][i - 1] == buses[i];
    }
  }

  /** The elements after the head of `[x] + rest` are those of `rest`. */
  lemma ConsIndex<T>(x: T, rest: seq<T>, all: seq<T>)
    requires all == [x] + rest
    ensures forall j | 1 <= j < |all| :: all[j] == rest[j - 1]
  {
  }

  /** The polylines of all lines in the given (name) order; every element is a polyline. */
  function RouteLines(buses: seq<MapBus>, s: Settings, proj: Catalogue.Coord -> Point, pal: Palette): (r: (seq<Object>, Palette))
    requires PaletteOk(pal, |s.palette|)
    requires forall i | 0 <= i < |buses| :: HasRoute(buses[i]) ==> |s.palette| > 0
    ensures PaletteOk(r.1, |s.palette|)
    ensures |r.0| == RouteCount(buses)
    ensures forall i | 0 <= i < |r.0| :: r.0[i].Polyline?
  {
    if buses == [] then ([], pal)
    else
      var (line, p1) := RouteLine(buses[0], s, proj, pal);
      var (rest, p2) := RouteLines(buses[1..], s, proj, p1);
      (line + rest, p2)
  }

  /**
   * When every line has at least two shown stops, each line gets a polyline, the line at
   * position `i` in the colour of the `i`-th palette request.
   */
  lemma {:induction false} RouteColours(buses: seq<MapBus>, s: Settings, proj: Catalogue.Coord -> Point, pal: Palette)
    requires |s.palette| > 0 && PaletteOk(pal, |s.palette|)
    requires RouteCount(buses) == |buses|
    ensures var r := RouteLines(buses, s, proj, pal);
      var colours := Requests(pal, |buses|);
      && |r.0| == |buses|
      && (forall i | 0 <= i < |buses| :: r.0[i] == LineOf(buses[i], s, proj, s.palette[colours.0[i]]))
      && r.1 == colours.1
    decreases |buses|
  {
    if buses != [] {
      var (c, next) := NextPaletteIndex(pal);
      RouteColours(buses[1..], s, proj, next);
      var r := RouteLines(buses, s, proj, pal);
      var rest := RouteLines(buses[1..], s, proj, next);
      var colours := Requests(pal, |buses|);
      var later := Requests(next, |buses| - 1);
      ConsIndex(LineOf(buses[0], s, proj, s.palette[c]), rest.0, r.0);
      ConsIndex(c, later.0, colours.0);
      ConsIndex(buses[0], buses[1..], buses);
    }
  }

  // ---------------------------------------------------------------- line labels

  /** The attributes of an underlayer: everything in the underlayer colour, rounded. */
  function Underlayer(s: Settings, p: PathProps): PathProps {
    SetStrokeLineJoin(SetStrokeLineCap(SetStrokeWidth(SetStrokeColor(SetFillColor(p, s.underlayerColor),
      s.underlayerColor), s.underlayerWidth), RoundCap), RoundJoin)
  }

  /** A label with its underlayer: the underlayer is added first, then the label on top. */
  function WithUnderlayer(s: Settings, o: Object): seq<Object> {
    [WithProps(o, Underlayer(s, o.props)), o]
  }

  /** The line's name at stop `at`, in bold Verdana, filled with `color`. */
  function BusLabel(name: string, at: MapStop, s: Settings, proj: Catalogue.Coord -> Point, color: string): (r: Object)
    ensures r.Text? && r.data == name && r.pos == proj(at.coord) && r.props.fill == Some(color)
  {
    NewText.(data := name, pos := proj(at.coord), offset := OffsetPoint(s.busLabelOffset),
             fontSize := ToU32(s.busLabelFontSize), fontFamily := "Verdana", fontWeight := "bold",
             props := SetFillColor(Unset, color))
  }

  /** A non-empty line's labels need its first stop, and (not a ring) its second terminus. */
  predicate Labelable(b: MapBus) {
    |b.stops| > 0 ==> b.stops[0].Some? && (!b.isRing ==> b.secondFinal.Some?)
  }

  /** Whether a second label is drawn: not a ring, and the terminus differs from the first stop. */
  predicate SecondLabel(b: MapBus)
    requires |b.stops| > 0 && Labelable(b)
  {
    !b.isRing && b.stops[0].value.name != b.secondFinal.value.name
  }

  /** The label pairs of a non-empty line in colour `color`. */
  function LabelsOf(b: MapBus, s: Settings, proj: Catalogue.Coord -> Point, color: string): (r: seq<Object>)
    requires |b.stops| > 0 && Labelable(b)
    ensures |r| == if SecondLabel(b) then 4 else 2
    ensures forall i | 0 <= i < |r| :: r[i].Text? && r[i].data == b.name
    ensures r[1].props.fill == Some(color) && r[1].pos == proj(b.stops[0].value.coord)
    ensures r[0] == WithProps(r[1], Underlayer(s, r[1].props))
    ensures SecondLabel(b) ==>
      r[3].props.fill == Some(color) && r[3].pos == proj(b.secondFinal.value.coord)
      && r[2] == WithProps(r[3], Underlayer(s, r[3].props))
  {
    var first := WithUnderlayer(s, BusLabel(b.name, b.stops[0].value, s, proj, color));
    if SecondLabel(b) then first + WithUnderlayer(s, BusLabel(b.name, b.secondFinal.value, s, proj, color))
    else first
  }

  /**
   * One line's labels: nothing for a line without stops; otherwise an underlayer and label
   * at its first stop, and a second pair at its terminus when `SecondLabel` holds, all in
   * the next palette colour.
   */
  function BusLabels(b: MapBus, s: Settings, proj: Catalogue.Coord -> Point, pal: Palette): (r: (seq<Object>, Palette))
    requires PaletteOk(pal, |s.palette|) && Labelable(b)
    requires |b.stops| > 0 ==> |s.palette| > 0
    ensures PaletteOk(r.1, |s.palette|)
    ensures |b.stops| == 0 ==> r == ([], pal)
    ensures |b.stops| > 0 ==>
      r == (LabelsOf(b, s, proj, s.palette[NextPaletteIndex(pal).0]), NextPaletteIndex(pal).1)
  {
    if |b.stops| > 0 then
      var (i, next) := NextPaletteIndex(pal);
      (LabelsOf(b, s, proj, s.palette[i]), next)
    else
      ([], pal)
  }

  /** How many labels and underlayers the lines get. */
  function LabelCount(buses: seq<MapBus>): nat
    requires forall i | 0 <= i < |buses| :: Labelable(buses[i])
  {
    if buses == [] then 0
    else (if |buses[0].stops| == 0 then 0 else if SecondLabel(buses[0]) then 4 else 2) + LabelCount(buses[1..])
  }

  /** The labels of all lines in the given (name) order; every element is a text. */
  function AllBusLabels(buses: seq<MapBus>, s: Settings, proj: Catalogue.Coord -> Point, pal: Palette): (r: (seq<Object>, Palette))
    requires PaletteOk(pal, |s.palette|)
    requires forall i | 0 <= i < |buses| :: Labelable(buses[i]) && (|buses[i].stops| > 0 ==> |s.palette| > 0)
    ensures PaletteOk(r.1, |s.palette|)
    ensures |r.0| == LabelCount(buses)
    ensures forall i | 0 <= i < |r.0| :: r.0[i].Text?
  {
    if buses == [] then ([], pal)
    else
      var (labels, p1) := BusLabels(buses[0], s, proj, pal);
      var (rest, p2) := AllBusLabels(buses[1..], s, proj, p1);
      (labels + rest, p2)
  }

  function Flatten(groups: seq<seq<Object>>): seq<Object> {
    if groups == [] then [] else groups[0] + Flatten(groups[1..])
  }

  /**
   * When every line has stops, the labels of the line at position `i` are drawn in the
   * colour of the `i`-th palette request: they are `groups[i]`, one group after the other.
   */
  lemma {:induction false} LabelColours(buses: seq<MapBus>, s: Settings, proj: Catalogue.Coord -> Point, pal: Palette, groups: seq<seq<Object>>)
    requires |s.palette| > 0 && PaletteOk(pal, |s.palette|)
    requires forall i | 0 <= i < |buses| :: |buses[i].stops| > 0 && Labelable(buses[i])
    requires |groups| == |buses|
    requires forall i | 0 <= i < |buses| :: groups[i] == LabelsOf(buses[i], s, proj, s.palette[Requests(pal, |buses|).0[i]])
    ensures AllBusLabels(buses, s, proj, pal).0 == Flatten(groups)
    ensures AllBusLabels(buses, s, proj, pal).1 == Requests(pal, |buses|).1
    decreases |buses|
  {
    if buses != [] {
      var (c, next) := NextPaletteIndex(pal);
      var colours := Requests(pal, |buses|);
      var later := Requests(next, |buses| - 1);
      assert colours.0 == [c] + later.0;
      forall i | 0 <= i < |buses| - 1
        ensures groups[1..][i] == LabelsOf(buses[1..][i], s, proj, s.palette[later.0[i]])
      {
        assert groups[1..][i] == groups[i + 1] && buses[1..][i] == buses[i + 1];
        assert colours.0[i + 1] == later.0[i];
      }
      LabelColours(buses[1..], s, proj, next, groups[1..]);
    }
  }

  // ---------------------------------------------------------------- stops by name

  /** The order of `std::map` keys: lexicographic by character code, a proper prefix first. */
  predicate Less(a: string, b: string) {
    if a == [] then b != []
    else if b == [] then false
    else a[0] < b[0] || (a[0] == b[0] && Less(a[1..], b[1..]))
  }

  lemma {:induction false} LessIrreflexive(a: string)
    ensures !Less(a, a)
  {
    if a != [] {
      LessIrreflexive(a[1..]);
    }
  }

  lemma {:induction false} LessTransitive(a: string, b: string, c: string)
    requires Less(a, b) && Less(b, c)
    ensures Less(a, c)
  {
    if a != [] && b != [] && c != [] && a[0] == b[0] && b[0] == c[0] {
      LessTransitive(a[1..], b[1..], c[1..]);
    }
  }

  lemma {:induction false} LessTotal(a: string, b: string)
    requires a != b
    ensures Less(a, b) || Less(b, a)
  {
    if a != [] && b != [] && a[0] == b[0] {
      assert a == [a[0]] + a[1..] && b == [b[0]] + b[1..];
      LessTotal(a[1..], b[1..]);
    }
  }

  /** A name-to-coordinates map kept as its entries in key order, like `std::map`. */
  type StopMap = seq<(string, Catalogue.Coord)>

  predicate Sorted(m: StopMap) {
    forall i, j | 0 <= i < j < |m| :: Less(m[i].0, m[j].0)
  }

  /** A sorted map holds each name once. */
  lemma SortedDistinct(m: StopMap)
    requires Sorted(m)
    ensures forall i, j | 0 <= i < j < |m| :: m[i].0 != m[j].0
  {
    forall i, j | 0 <= i < j < |m|
      ensures m[i].0 != m[j].0
    {
      LessIrreflexive(m[i].0);
    }
  }

  function Find(m: StopMap, name: string): Option<Catalogue.Coord> {
    if m == [] then None else if m[0].0 == name then Some(m[0].1) else Find(m[1..], name)
  }

  function Names(m: StopMap): set<string> {
    set i | 0 <= i < |m| :: m[i].0
  }

  lemma NamesCons(e: (string, Catalogue.Coord), m: StopMap)
    ensures Names([e] + m) == {e.0} + Names(m)
  {
    var r := [e] + m;
    assert r[0] == e;
    assert forall i | 0 <= i < |m| :: m[i] == r[i + 1];
  }

  predicate Above(name: string, m: StopMap) {
    forall i | 0 <= i < |m| :: Less(name, m[i].0)
  }

  lemma {:induction false} FindAbove(m: StopMap, name: string)
    requires Above(name, m)
    ensures Find(m, name) == None
  {
    if m != [] {
      LessIrreflexive(name);
      FindAbove(m[1..], name);
    }
  }

  /**
   * `map[name] = coord`: the entry of `name` now holds `coord`, every other entry is kept,
   * and the entries stay in strictly ascending key order.
   */
  function Assign(m: StopMap, name: string, coord: Catalogue.Coord): (r: StopMap)
    requires Sorted(m)
    ensures Sorted(r)
    ensures Names(r) == Names(m) + {name}
    ensures forall x :: Find(r, x) == if x == name then Some(coord) else Find(m, x)
    ensures forall x | Less(x, name) && Above(x, m) :: Above(x, r)
    decreases |m|
  {
    if m == [] then
      NamesCons((name, coord), []);
      [(name, coord)]
    else if m[0].0 == name then
      AssignHere(m, name, coord);
      [(name, coord)] + m[1..]
    else if Less(name, m[0].0) then
      AssignFront(m, name, coord);
      [(name, coord)] + m
    else
      LessTotal(name, m[0].0);
      var rest := Assign(m[1..], name, coord);
      AssignBehind(m, name, coord, rest);
      [m[0]] + rest
  }

  lemma AssignHere(m: StopMap, name: string, coord: Catalogue.Coord)
    requires Sorted(m) && m != [] && m[0].0 == name
    ensures var r := [(name, coord)] + m[1..];
      Sorted(r) && Names(r) == Names(m) + {name}
      && (forall x :: Find(r, x) == if x == name then Some(coord) else Find(m, x))
      && (forall x | Less(x, name) && Above(x, m) :: Above(x, r))
  {
    var r := [(name, coord)] + m[1..];
    assert forall i | 0 <= i < |r| :: r[i].0 == m[i].0;
    assert Above(name, m[1..]);
    assert m == [m[0]] + m[1..];
    NamesCons(m[0], m[1..]);
    NamesCons((name, coord), m[1..]);
    FindAbove(m[1..], name);
  }

  lemma AssignFront(m: StopMap, name: string, coord: Catalogue.Coord)
    requires Sorted(m) && m != [] && Less(name, m[0].0)
    ensures var r := [(name, coord)] + m;
      Sorted(r) && Names(r) == Names(m) + {name}
      && (forall x :: Find(r, x) == if x == name then Some(coord) else Find(m, x))
      && (forall x | Less(x, name) && Above(x, m) :: Above(x, r))
  {
    var r := [(name, coord)] + m;
    forall j | 0 <= j < |m| ensures Less(name, m[j].0) {
      if j > 0 {
        LessTransitive(name, m[0].0, m[j].0);
      }
    }
    assert r[1..] == m;
    FindAbove(m, name);
    NamesCons((name, coord), m);
  }

  lemma AssignBehind(m: StopMap, name: string, coord: Catalogue.Coord, rest: StopMap)
    requires Sorted(m) && m != [] && Less(m[0].0, name) && m[0].0 != name
    requires Sorted(rest) && Names(rest) == Names(m[1..]) + {name}
    requires forall x :: Find(rest, x) == if x == name then Some(coord) else Find(m[1..], x)
    requires forall x | Less(x, name) && Above(x, m[1..]) :: Above(x, rest)
    ensures var r := [m[0]] + rest;
      Sorted(r) && Names(r) == Names(m) + {name}
      && (forall x :: Find(r, x) == if x == name then Some(coord) else Find(m, x))
      && (forall x | Less(x, name) && Above(x, m) :: Above(x, r))
  {
    var r := [m[0]] + rest;
    assert Above(m[0].0, m[1..]);
    assert Above(m[0].0, rest);
    assert r[1..] == rest;
    forall x | Less(x, name) && Above(x, m) ensures Above(x, r) {
      assert Above(x, m[1..]);
    }
    NamesCons(m[0], rest);
    assert m == [m[0]] + m[1..];
    NamesCons(m[0], m[1..]);
  }

  /** The names of the shown stops of the given lines. */
  function ShownNames(buses: seq<MapBus>): set<string> {
    if buses == [] then {}
    else (set i | 0 <= i < |ShownStops(buses[0].stops)| :: ShownStops(buses[0].stops)[i].name) + ShownNames(buses[1..])
  }

  /** The coordinates of the last stop named `name` in `stops`. */
  function LastCoord(stops: seq<MapStop>, name: string): Option<Catalogue.Coord> {
    if stops == [] then None
    else if stops[|stops| - 1].name == name then Some(stops[|stops| - 1].coord)
    else LastCoord(stops[..|stops| - 1], name)
  }

  /** The last occurrence, read from the front: a later occurrence hides the first stop. */
  lemma {:induction false} LastCoordCons(stops: seq<MapStop>)
    requires stops != []
    ensures forall x ::
              LastCoord(stops, x) ==
                if LastCoord(stops[1..], x).Some? then LastCoord(stops[1..], x)
                else if stops[0].name == x then Some(stops[0].coord) else None
    decreases |stops|
  {
    if |stops| > 1 {
      var init := stops[..|stops| - 1];
      LastCoordCons(init);
      assert init[1..] == stops[1..][..|stops[1..]| - 1];
    }
  }

  /** Records the coordinates of every stop in `stops`, in order; a later record of a name wins. */
  function RecordStops(m: StopMap, stops: seq<MapStop>): (r: StopMap)
    requires Sorted(m)
    ensures Sorted(r)
    ensures Names(r) == Names(m) + set i | 0 <= i < |stops| :: stops[i].name
    ensures forall x :: Find(r, x) == if LastCoord(stops, x).Some? then LastCoord(stops, x) else Find(m, x)
    decreases |stops|
  {
    if stops == [] then m
    else
      var r := RecordStops(Assign(m, stops[0].name, stops[0].coord), stops[1..]);
      assert (set i | 0 <= i < |stops| :: stops[i].name) == {stops[0].name} + set i | 0 <= i < |stops[1..]| :: stops[1..][i].name;
      LastCoordCons(stops);
      r
  }

  /** Looking a name up in the stops of two runs: the second run's last occurrence wins over the first's. */
  lemma {:induction false} LastCoordAppend(a: seq<MapStop>, b: seq<MapStop>, x: string)
    ensures LastCoord(a + b, x) == if LastCoord(b, x).Some? then LastCoord(b, x) else LastCoord(a, x)
    decreases |b|
  {
    if b == [] {
      assert a + b == a;
    } else {
      var init := b[..|b| - 1];
      assert (a + b)[..|a + b| - 1] == a + init;
      assert (a + b)[|a + b| - 1] == b[|b| - 1];
      LastCoordAppend(a, init, x);
    }
  }

  /** The shown stops of the given lines, one line after another. */
  function AllShown(buses: seq<MapBus>): seq<MapStop> {
    if buses == [] then [] else ShownStops(buses[0].stops) + AllShown(buses[1..])
  }

  /**
   * The stop map as the projector preparation leaves it: every shown stop of every line
   * recorded under its name, in line order; raw stops and null entries are skipped. A name
   * maps to the coordinates of its last shown occurrence, or keeps what it had.
   */
  function CollectStops(m: StopMap, buses: seq<MapBus>): (r: StopMap)
    requires Sorted(m)
    ensures Sorted(r)
    ensures Names(r) == Names(m) + ShownNames(buses)
    ensures forall x :: Find(r, x) == if LastCoord(AllShown(buses), x).Some? then LastCoord(AllShown(buses), x) else Find(m, x)
    decreases |buses|
  {
    if buses == [] then m
    else
      var first := ShownStops(buses[0].stops);
      var r := CollectStops(RecordStops(m, first), buses[1..]);
      assert forall x :: LastCoord(AllShown(buses), x) == LastCoord(first + AllShown(buses[1..]), x);
      forall x ensures LastCoord(AllShown(buses), x) ==
        if LastCoord(AllShown(buses[1..]), x).Some? then LastCoord(AllShown(buses[1..]), x) else LastCoord(first, x)
      {
        LastCoordAppend(first, AllShown(buses[1..]), x);
      }
      r
  }

  /** In a sorted map, looking up the name at a position finds the coordinates at that position. */
  lemma {:induction false} FindEntry(m: StopMap, i: nat)
    requires Sorted(m) && i < |m|
    ensures Find(m, m[i].0) == Some(m[i].1)
    decreases i
  {
    if i > 0 {
      SortedDistinct(m);
      assert m[0].0 != m[i].0;
      assert m[1..][i - 1] == m[i];
      FindEntry(m[1..], i - 1);
    }
  }

  // ---------------------------------------------------------------- stops

  /** A white circle per recorded stop, in name order. */
  function StopCircles(m: StopMap, s: Settings, proj: Catalogue.Coord -> Point): (r: seq<Object>)
    ensures |r| == |m|
    ensures forall i | 0 <= i < |m| ::
      r[i].Circle? && r[i].center == proj(m[i].1) && r[i].radius == s.stopRadius && r[i].props.fill == Some("white")
  {
    seq(|m|, i requires 0 <= i < |m| =>
      NewCircle.(center := proj(m[i].1), radius := s.stopRadius, props := SetFillColor(Unset, "white")))
  }

  /** The name of a recorded stop at its position, in Verdana, with attributes `props`. */
  function StopText(e: (string, Catalogue.Coord), s: Settings, proj: Catalogue.Coord -> Point, props: PathProps): (r: Object)
    ensures r.Text? && r.data == e.0 && r.pos == proj(e.1) && r.props == props
  {
    Text(proj(e.1), OffsetPoint(s.stopLabelOffset), ToU32(s.stopLabelFontSize), "Verdana", "", e.0, props)
  }

  /** A stop label is filled black. */
  function StopFill(): (r: PathProps)
    ensures r.fill == Some("black") && r.(fill := None) == Unset
  {
    SetFillColor(Unset, "black")
  }

  /** An underlayer and a label per recorded stop, in name order. */
  function StopLabels(m: StopMap, s: Settings, proj: Catalogue.Coord -> Point): (r: seq<Object>)
    ensures |r| == 2 * |m|
  {
    if m == [] then []
    else [StopText(m[0], s, proj, Underlayer(s, StopFill())), StopText(m[0], s, proj, StopFill())] + StopLabels(m[1..], s, proj)
  }

  /**
   * The stop at position `i` of the map owns positions `2 i` and `2 i + 1`: its name over an
   * underlayer in the underlayer attributes, then its name filled black.
   */
  lemma {:induction false} StopLabelsAt(m: StopMap, s: Settings, proj: Catalogue.Coord -> Point, i: nat)
    requires i < |m|
    ensures StopLabels(m, s, proj)[2 * i + 1] == StopText(m[i], s, proj, StopFill())
    ensures StopLabels(m, s, proj)[2 * i] == StopText(m[i], s, proj, Underlayer(s, StopFill()))
    decreases i
  {
    if i > 0 {
      StopLabelsAt(m[1..], s, proj, i - 1);
      var rest := StopLabels(m[1..], s, proj);
      assert StopLabels(m, s, proj)[2 * i] == rest[2 * (i - 1)];
      assert StopLabels(m, s, proj)[2 * i + 1] == rest[2 * (i - 1) + 1];
      assert m[1..][i - 1] == m[i];
    }
  }

  /** Every odd position holds the label of the corresponding stop. */
  lemma StopLabelsNamed(m: StopMap, s: Settings, proj: Catalogue.Coord -> Point)
    ensures forall i | 0 <= i < |m| ::
      StopLabels(m, s, proj)[2 * i + 1].Text? && StopLabels(m, s, proj)[2 * i + 1].data == m[i].0
  {
    forall i | 0 <= i < |m|
      ensures StopLabels(m, s, proj)[2 * i + 1].Text? && StopLabels(m, s, proj)[2 * i + 1].data == m[i].0
    {
      StopLabelsAt(m, s, proj, i);
    }
  }

  // ---------------------------------------------------------------- the whole map

  /** The renderer's state: its settings, the palette counter, and the stops seen so far. */
  datatype Renderer = Renderer(settings: Settings, palette: Palette, stops: StopMap)

  predicate Valid(r: Renderer) {
    PaletteOk(r.palette, |r.settings.palette|) && Sorted(r.stops)
  }

  function NewRenderer(s: Settings): (r: Renderer)
    ensures Valid(r) && r.settings == s && r.stops == []
    ensures NextPaletteIndex(r.palette).0 == 0
  {
    Renderer(s, NewPalette(|s.palette|), [])
  }

  /** What drawing needs of the lines: labels can be placed, and a colour exists when one is used. */
  predicate Drawable(s: Settings, buses: seq<MapBus>) {
    forall i | 0 <= i < |buses| :: Labelable(buses[i]) && (|buses[i].stops| > 0 ==> |s.palette| > 0)
  }

  /**
   * The order of a drawn map: polylines before `a`, texts from `a` to `b`, then a circle per
   * stop of `m` at its projection, then an underlayer and a label with its name per stop.
   */
  predicate Layout(doc: Document, a: nat, b: nat, m: StopMap, proj: Catalogue.Coord -> Point) {
    && a <= b
    && |doc| == b + 3 * |m|
    && (forall i | 0 <= i < a :: doc[i].Polyline?)
    && (forall i | a <= i < b :: doc[i].Text?)
    && (forall i | 0 <= i < |m| :: doc[b + i].Circle? && doc[b + i].center == proj(m[i].1))
    && (forall i | 0 <= i < |m| :: doc[b + |m| + 2 * i + 1].Text? && doc[b + |m| + 2 * i + 1].data == m[i].0)
  }

  /** The drawn map: lines, labels, then a circle and a label pair per recorded stop. */
  function Assemble(lines: seq<Object>, labels: seq<Object>, m: StopMap, s: Settings, proj: Catalogue.Coord -> Point,
                    a: nat, b: nat): (doc: Document)
    requires a == |lines| && b == a + |labels|
    requires forall i | 0 <= i < |lines| :: lines[i].Polyline?
    requires forall i | 0 <= i < |labels| :: labels[i].Text?
    ensures Layout(doc, a, b, m, proj)
    ensures doc == lines + labels + StopCircles(m, s, proj) + StopLabels(m, s, proj)
  {
    var circles := StopCircles(m, s, proj);
    var names := StopLabels(m, s, proj);
    StopLabelsNamed(m, s, proj);
    LayoutOf(lines, labels, circles, names, m, proj, a, b);
    lines + labels + circles + names
  }

  lemma LayoutOf(lines: seq<Object>, labels: seq<Object>, circles: seq<Object>, names: seq<Object>, m: StopMap,
                  proj: Catalogue.Coord -> Point, a: nat, b: nat)
    requires a == |lines| && b == a + |labels|
    requires forall i | 0 <= i < |lines| :: lines[i].Polyline?
    requires forall i | 0 <= i < |labels| :: labels[i].Text?
    requires |circles| == |m| && forall i | 0 <= i < |m| :: circles[i].Circle? && circles[i].center == proj(m[i].1)
    requires |names| == 2 * |m| && forall i | 0 <= i < |m| :: names[2 * i + 1].Text? && names[2 * i + 1].data == m[i].0
    ensures Layout(lines + labels + circles + names, a, b, m, proj)
  {
    var doc := lines + labels + circles + names;
    assert forall i | 0 <= i < |m| :: doc[b + i] == circles[i];
    assert forall i | 0 <= i < |m| :: doc[b + |m| + 2 * i + 1] == names[2 * i + 1];
  }

  /**
   * The map of the lines, given in name order: the route polylines, then the line labels
   * (the palette counter restarted), then one circle per recorded stop, then one label pair
   * per recorded stop, the stops in name order.
   */
  function DrawMap(r: Renderer, buses: seq<MapBus>, proj: Catalogue.Coord -> Point): (res: (Document, Renderer))
    requires Valid(r) && Drawable(r.settings, buses)
    ensures Valid(res.1) && res.1.settings == r.settings
    ensures Names(res.1.stops) == Names(r.stops) + ShownNames(buses)
    ensures Layout(res.0, RouteCount(buses), RouteCount(buses) + LabelCount(buses), res.1.stops, proj)
    ensures forall i | 0 <= i < |res.1.stops| ::
      Some(res.1.stops[i].1) ==
        if LastCoord(AllShown(buses), res.1.stops[i].0).Some? then LastCoord(AllShown(buses), res.1.stops[i].0)
        else Find(r.stops, res.1.stops[i].0)
    ensures var labelled := AllBusLabels(buses, r.settings, proj, NewPalette(|r.settings.palette|));
      && res.0 == RouteLines(buses, r.settings, proj, r.palette).0 + labelled.0
                  + StopCircles(res.1.stops, r.settings, proj) + StopLabels(res.1.stops, r.settings, proj)
      && res.1.palette == labelled.1
  {
    var s := r.settings;
    var stops := CollectStops(r.stops, buses);
    forall i | 0 <= i < |stops|
      ensures Some(stops[i].1) ==
        if LastCoord(AllShown(buses), stops[i].0).Some? then LastCoord(AllShown(buses), stops[i].0)
        else Find(r.stops, stops[i].0)
    {
      FindEntry(stops, i);
    }
    var lines := RouteLines(buses, s, proj, r.palette).0;
    var labelled := AllBusLabels(buses, s, proj, NewPalette(|s.palette|));
    var doc := Assemble(lines, labelled.0, stops, s, proj, RouteCount(buses), RouteCount(buses) + LabelCount(buses));
    (doc, Renderer(s, labelled.1, stops))
  }

  /**
   * On a fresh renderer, when every line has at least two shown stops, the line at
   * position `i` and its labels are drawn in the same colour, palette entry `i mod size`.
   */
  lemma LineAndLabelsShareColour(s: Settings, buses: seq<MapBus>, proj: Catalogue.Coord -> Point, groups: seq<seq<Object>>)
    requires |s.palette| > 0
    requires forall i | 0 <= i < |buses| :: |buses[i].stops| > 0 && HasRoute(buses[i]) && Labelable(buses[i])
    requires |groups| == |buses|
    requires forall i | 0 <= i < |buses| :: groups[i] == LabelsOf(buses[i], s, proj, s.palette[i % |s.palette|])
    ensures var lines := RouteLines(buses, s, proj, NewPalette(|s.palette|)).0;
      |lines| == |buses| && forall i | 0 <= i < |buses| :: lines[i] == LineOf(buses[i], s, proj, s.palette[i % |s.palette|])
    ensures AllBusLabels(buses, s, proj, NewPalette(|s.palette|)).0 == Flatten(groups)
  {
    var size := |s.palette|;
    RequestsCycle(size, 0, |buses|);
    assert PaletteAfter(size, 0) == NewPalette(size);
    AllRouted(buses);
    RouteColours(buses, s, proj, NewPalette(size));
    LabelColours(buses, s, proj, NewPalette(size), groups);
  }
}
