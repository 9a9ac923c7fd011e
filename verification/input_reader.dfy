/**
 * The line-format input parser: splitting a `Stop` line into a name,
 * coordinates and road distances, and a `Bus` line into a name, a ring flag
 * and stop names.
 *
 * The parser works with `std::string` positions: `find` returns `npos` when
 * nothing is found, `substr` throws when its start is past the end and clips
 * its count, and position arithmetic wraps around modulo 2^64. All of this is
 * written out here. Text-to-number conversion (`stod`, `stoi`) is a parameter.
 */
module InputReader {
  import opened Wrappers

  /** Positions and counts are 64-bit unsigned integers. */
  const SizeMod: int := 0x1_0000_0000_0000_0000
  const Npos: nat := 0xFFFF_FFFF_FFFF_FFFF

  /**
   * Unsigned 64-bit arithmetic: the value reduced modulo 2^64. Every position
   * expression of the parser lies within one period of the range, so a single
   * correction suffices.
   */
  function SizeT(x: int): nat
    requires -SizeMod <= x < 2 * SizeMod
  {
    if x < 0 then x + SizeMod else if x >= SizeMod then x - SizeMod else x
  }

  /** `SizeT` agrees with reduction modulo 2^64 on its whole domain. */
  lemma SizeTIsModular(x: int)
    requires -SizeMod <= x < 2 * SizeMod
    ensures SizeT(x) == x % SizeMod
  {
  }

  function Min(a: nat, b: nat): nat {
    if a <= b then a else b
  }

  /** A line is far shorter than `npos`, as every `std::string` is. */
  predicate Line(line: string) {
    |line| < Npos
  }

  /** `find` / `find_first_of`: the first position at or after `pos` holding one of `cs`, or `npos`. */
  function FindFirstOf(line: string, cs: set<char>, pos: nat): (r: nat)
    requires Line(line)
    ensures r == Npos || (pos <= r < |line| && line[r] in cs)
    decreases |line| - pos
  {
    if pos >= |line| then Npos
    else if line[pos] in cs then pos
    else FindFirstOf(line, cs, pos + 1)
  }

  /** `substr`: at most `count` characters from `pos`; a start past the end throws. */
  function Substr(line: string, pos: nat, count: nat): (r: Result<string>)
    ensures r.Success? <==> pos <= |line|
    ensures r.Success? ==> r.value == SubstrIn(line, pos, count)
  {
    if pos > |line| then Failure("out_of_range") else Success(SubstrIn(line, pos, count))
  }

  /** `substr` from a start known to be within the line. */
  function SubstrIn(line: string, pos: nat, count: nat): (r: string)
    requires pos <= |line|
    ensures |r| <= count && pos + |r| <= |line| && (|r| < count ==> pos + |r| == |line|)
    ensures r == line[pos..pos + |r|]
  {
    line[pos..pos + Min(count, |line| - pos)]
  }

  // ---------------------------------------------------------------------------
  // Facts about searching written text
  //
  // Positions in these lemmas are always built by the same chain of additions
  // the parser uses, and split points are passed explicitly, so that the
  // searches the parser performs and the facts below talk about the same terms.
  // ---------------------------------------------------------------------------

  /** `w` is written in `line` from position `a` on, character by character. */
  predicate WrittenAt(line: string, a: nat, w: string)
    decreases |w|
  {
    a + |w| <= |line| && (|w| == 0 || (line[a] == w[0] && WrittenAt(line, a + 1, w[1..])))
  }

  /** No character of `w` is in `cs`. */
  predicate Avoids(w: string, cs: set<char>) {
    forall i | 0 <= i < |w| :: w[i] !in cs
  }

  lemma {:induction false} WrittenSuffix(line: string, a: nat)
    requires a <= |line|
    ensures WrittenAt(line, a, line[a..])
    decreases |line| - a
  {
    if a < |line| {
      assert line[a..][1..] == line[a + 1..];
      WrittenSuffix(line, a + 1);
    }
  }

  lemma {:induction false} WrittenWhole(line: string)
    ensures WrittenAt(line, 0, line)
  {
    WrittenSuffix(line, 0);
    assert line[0..] == line;
  }

  /** Text written at `a` is its first part written at `a` followed by its second part, written at `b`. */
  lemma {:induction false} WrittenAtSplit(line: string, a: nat, u: string, v: string, b: nat)
    requires WrittenAt(line, a, u + v) && b == a + |u|
    ensures WrittenAt(line, a, u) && WrittenAt(line, b, v)
    decreases |u|
  {
    if u == [] {
      assert u + v == v;
    } else {
      assert (u + v)[0] == u[0];
      assert (u + v)[1..] == u[1..] + v;
      WrittenAtSplit(line, a + 1, u[1..], v, b);
    }
  }

  /** The character at `k` is the `i`-th of the text written at `a`. */
  lemma {:induction false} WrittenChar(line: string, a: nat, w: string, i: nat, k: nat)
    requires WrittenAt(line, a, w) && i < |w| && k == a + i
    ensures line[k] == w[i]
    decreases i
  {
    if i > 0 {
      WrittenChar(line, a + 1, w[1..], i - 1, k);
    }
  }

  /** Text written at `a` is the slice of the line there. */
  lemma {:induction false} WrittenSlice(line: string, a: nat, w: string)
    requires WrittenAt(line, a, w)
    ensures line[a..a + |w|] == w
  {
    forall i | 0 <= i < |w|
      ensures line[a..a + |w|][i] == w[i]
    {
      WrittenChar(line, a, w, i, a + i);
    }
  }

  /** `substr` of text written at `pos`, with a count that reaches its end or the end of the line, is that text. */
  lemma {:induction false} SubstrOf(line: string, pos: nat, count: nat, w: string)
    requires WrittenAt(line, pos, w)
    requires count == |w| || (count >= |w| && pos + |w| == |line|)
    ensures Substr(line, pos, count) == Success(w)
  {
    WrittenSlice(line, pos, w);
  }

  lemma {:induction false} FindFirstOfAt(line: string, cs: set<char>, pos: nat, q: nat)
    requires Line(line)
    requires pos <= q < |line| && line[q] in cs
    requires forall k | pos <= k < q :: line[k] !in cs
    ensures FindFirstOf(line, cs, pos) == q
    decreases q - pos
  {
    if pos < q {
      FindFirstOfAt(line, cs, pos + 1, q);
    }
  }

  /** Characters outside `cs` do not change where the search lands. */
  lemma {:induction false} FindSkip(line: string, cs: set<char>, j: nat, q: nat)
    requires Line(line) && j <= q <= |line|
    requires forall k | j <= k < q :: line[k] !in cs
    ensures FindFirstOf(line, cs, j) == FindFirstOf(line, cs, q)
    decreases q - j
  {
    if j < q {
      FindSkip(line, cs, j + 1, q);
    }
  }

  /** A word free of `cs` written at `a` and ending at `b` is skipped by the search. */
  lemma {:induction false} WordSkipped(line: string, a: nat, w: string, cs: set<char>, b: nat)
    requires Line(line) && WrittenAt(line, a, w) && Avoids(w, cs) && b == a + |w|
    ensures FindFirstOf(line, cs, a) == FindFirstOf(line, cs, b)
  {
    forall k | a <= k < b
      ensures line[k] !in cs
    {
      WrittenChar(line, a, w, k - a, k);
    }
    FindSkip(line, cs, a, b);
  }

  /** The search from a position holding one of `cs` stops there. */
  lemma {:induction false} FoundAt(line: string, a: nat, w: string, cs: set<char>)
    requires Line(line) && WrittenAt(line, a, w) && |w| > 0 && w[0] in cs
    ensures FindFirstOf(line, cs, a) == a < |line|
  {
    WrittenChar(line, a, w, 0, a);
  }

  /** `x` in front of a successful list; a failure stays as it is. */
  function Prepend<T>(x: T, r: Result<seq<T>>): Result<seq<T>> {
    match r
    case Success(v) => Success([x] + v)
    case Failure(e) => Failure(e)
  }

  // ---------------------------------------------------------------------------
  // Bus lines
  // ---------------------------------------------------------------------------

  /** A parsed `Bus` line. */
  datatype BusLine = BusLine(name: string, stops: seq<string>, isRing: bool)

  const Separators: set<char> := {'>', '-'}

  /** Where the stop list starts: two characters after the first colon. */
  function StopListStart(line: string): nat
    requires Line(line)
  {
    SizeT(FindFirstOf(line, {':'}, 0) + 2)
  }

  /**
   * Splits a `Bus` line whose command word ends before `start`. The source
   * reads the character at the first separator to decide the ring flag, so a
   * line with no separator after the colon is outside its domain.
   */
  function ParseBus(line: string, start: nat): (r: Result<BusLine>)
    requires Line(line) && start < SizeMod
    requires FindFirstOf(line, Separators, StopListStart(line)) != Npos
    ensures r.Success? <==> start <= |line| && BusStops(line, StopListStart(line), FindFirstOf(line, Separators, StopListStart(line))).Success?
    ensures r.Success? && start <= FindFirstOf(line, {':'}, 0) < |line| ==> r.value.name == line[start..FindFirstOf(line, {':'}, 0)]
    ensures r.Success? ==> (r.value.isRing <==> line[FindFirstOf(line, Separators, StopListStart(line))] == '>')
  {
    var posName := FindFirstOf(line, {':'}, 0);
    var name :- Substr(line, start, SizeT(posName - start));
    var pos1 := StopListStart(line);
    var pos2 := FindFirstOf(line, Separators, pos1);
    var isRing := line[pos2] == '>';
    var stops :- BusStops(line, pos1, pos2);
    Success(BusLine(name, stops, isRing))
  }

  /**
   * The loop over separators: the name before each separator drops the one
   * character before it, the next name starts two characters after it, and the
   * last name runs to the end of the line.
   */
  function BusStops(line: string, pos1: nat, pos2: nat): (r: Result<seq<string>>)
    requires Line(line)
    requires pos2 == Npos || pos1 <= pos2 < |line|
    decreases if pos2 < |line| then |line| - pos2 else 0
  {
    if pos2 == Npos then
      var last :- Substr(line, pos1, Npos);
      Success([last])
    else
      var piece := SubstrIn(line, pos1, SizeT(pos2 - (pos1 + 1)));
      var next := pos2 + 2;
      var rest :- BusStops(line, next, FindFirstOf(line, Separators, next));
      Success([piece] + rest)
  }

  /** A stop list written with one separator between names. */
  function Join(names: seq<string>, sep: string): string
    requires |names| >= 1
  {
    if |names| == 1 then names[0] else names[0] + sep + Join(names[1..], sep)
  }

  /** A stop name the bus format can carry: no separator character in it. */
  predicate StopNameFits(name: string) {
    Avoids(name, Separators)
  }

  function BusSeparator(isRing: bool): string {
    if isRing then " > " else " - "
  }

  /** The line `Bus <name>: <stop> > <stop> ...` (or with ` - ` for a line that is not a ring). */
  function FormatBus(b: BusLine): string
    requires |b.stops| >= 1
  {
    "Bus " + b.name + ": " + Join(b.stops, BusSeparator(b.isRing))
  }

  /**
   * `names` are written in `line` from position `a` on, separated by the
   * three-character separator of the ring flag and running to its end; the
   * separator character proper sits one after the end of each name but the last.
   */
  predicate JoinedAt(line: string, a: nat, names: seq<string>, isRing: bool)
    decreases |names|
  {
    && |names| >= 1
    && WrittenAt(line, a, names[0])
    && if |names| == 1 then a + |names[0]| == |line|
       else WrittenAt(line, a + |names[0]|, BusSeparator(isRing)) && JoinedAt(line, a + |names[0]| + 1 + 2, names[1..], isRing)
  }

  lemma {:induction false} JoinedAtWritten(line: string, a: nat, names: seq<string>, isRing: bool)
    requires |names| >= 1
    requires WrittenAt(line, a, Join(names, BusSeparator(isRing))) && a + |Join(names, BusSeparator(isRing))| == |line|
    ensures JoinedAt(line, a, names, isRing)
    decreases |names|
  {
    if |names| >= 2 {
      var sep := BusSeparator(isRing);
      var tail := Join(names[1..], sep);
      WrittenAtSplit(line, a, names[0] + sep, tail, a + |names[0]| + 1 + 2);
      WrittenAtSplit(line, a, names[0], sep, a + |names[0]|);
      JoinedAtWritten(line, a + |names[0]| + 1 + 2, names[1..], isRing);
    }
  }

  /** One turn of the separator loop at a separator that follows `name` and one more character. */
  lemma {:induction false} BusStopsAt(line: string, a: nat, name: string)
    requires Line(line) && a + |name| + 1 < |line|
    requires WrittenAt(line, a, name)
    ensures BusStops(line, a, a + |name| + 1)
      == Prepend(name, BusStops(line, a + |name| + 1 + 2, FindFirstOf(line, Separators, a + |name| + 1 + 2)))
  {
    WrittenSlice(line, a, name);
    assert SubstrIn(line, a, SizeT(a + |name| + 1 - (a + 1))) == name;
  }

  lemma {:induction false} JoinedStopsLast(line: string, a: nat, names: seq<string>, isRing: bool)
    requires Line(line) && JoinedAt(line, a, names, isRing) && |names| == 1
    requires StopNameFits(names[0])
    ensures FindFirstOf(line, Separators, a) == Npos
    ensures BusStops(line, a, Npos) == Success(names)
  {
    WordSkipped(line, a, names[0], Separators, a + |names[0]|);
    WrittenSlice(line, a, names[0]);
    assert SubstrIn(line, a, Npos) == names[0];
    assert [names[0]] == names;
  }

  /** A name followed by a separator is one turn of the separator loop. */
  lemma {:induction false} JoinedStopsNext(line: string, a: nat, name: string, isRing: bool)
    requires Line(line) && WrittenAt(line, a, name) && StopNameFits(name)
    requires WrittenAt(line, a + |name|, BusSeparator(isRing))
    ensures FindFirstOf(line, Separators, a) == a + |name| + 1 < |line|
    ensures BusStops(line, a, a + |name| + 1)
      == Prepend(name, BusStops(line, a + |name| + 1 + 2, FindFirstOf(line, Separators, a + |name| + 1 + 2)))
  {
    SeparatorFound(line, a, name, isRing, a + |name|);
    BusStopsAt(line, a, name);
  }

  /** The search for a separator character skips a fitting name and the blank after it. */
  lemma {:induction false} SeparatorFound(line: string, a: nat, name: string, isRing: bool, b: nat)
    requires Line(line) && WrittenAt(line, a, name) && StopNameFits(name) && b == a + |name|
    requires WrittenAt(line, b, BusSeparator(isRing))
    ensures FindFirstOf(line, Separators, a) == b + 1 < |line|
    ensures line[b + 1] == BusSeparator(isRing)[1]
  {
    var sep := BusSeparator(isRing);
    WordSkipped(line, a, name, Separators, b);
    WrittenChar(line, b, sep, 0, b);
    WrittenChar(line, b, sep, 1, b + 1);
    FindFirstOfAt(line, Separators, b, b + 1);
  }

  /** A joined list is read as its first name in front of what the rest of the list reads as. */
  lemma {:induction false} JoinedStopsCons(line: string, a: nat, names: seq<string>, isRing: bool)
    requires Line(line) && JoinedAt(line, a, names, isRing) && |names| >= 2
    requires StopNameFits(names[0])
    requires FindFirstOf(line, Separators, a + |names[0]| + 1 + 2) == Npos
      || a + |names[0]| + 1 + 2 <= FindFirstOf(line, Separators, a + |names[0]| + 1 + 2) < |line|
    requires BusStops(line, a + |names[0]| + 1 + 2, FindFirstOf(line, Separators, a + |names[0]| + 1 + 2)) == Success(names[1..])
    ensures BusStops(line, a, FindFirstOf(line, Separators, a)) == Success(names)
  {
    JoinedStopsNext(line, a, names[0], isRing);
    BusStopsCons(line, a, names, FindFirstOf(line, Separators, a + |names[0]| + 1 + 2));
  }

  /** Puts a turn of the separator loop in front of the rest of the loop. */
  lemma {:induction false} BusStopsCons(line: string, a: nat, names: seq<string>, p: nat)
    requires Line(line) && |names| >= 2
    requires FindFirstOf(line, Separators, a) == a + |names[0]| + 1 < |line|
    requires p == Npos || a + |names[0]| + 1 + 2 <= p < |line|
    requires BusStops(line, a, a + |names[0]| + 1)
      == Prepend(names[0], BusStops(line, a + |names[0]| + 1 + 2, p))
    requires BusStops(line, a + |names[0]| + 1 + 2, p) == Success(names[1..])
    ensures BusStops(line, a, FindFirstOf(line, Separators, a)) == Success(names)
  {
    assert [names[0]] + names[1..] == names;
  }

  /** The separator loop over a joined stop list yields the names in order. */
  lemma {:induction false} JoinedStopsSplit(line: string, a: nat, names: seq<string>, isRing: bool)
    requires Line(line) && JoinedAt(line, a, names, isRing)
    requires forall i | 0 <= i < |names| :: StopNameFits(names[i])
    ensures FindFirstOf(line, Separators, a) == Npos || a <= FindFirstOf(line, Separators, a) < |line|
    ensures BusStops(line, a, FindFirstOf(line, Separators, a)) == Success(names)
    decreases |names|
  {
    if |names| == 1 {
      JoinedStopsLast(line, a, names, isRing);
    } else {
      JoinedStopsSplit(line, a + |names[0]| + 1 + 2, names[1..], isRing);
      JoinedStopsCons(line, a, names, isRing);
    }
  }

  /** Where the parts of a formatted bus line sit. */
  lemma {:induction false} BusLayout(b: BusLine)
    requires |b.stops| >= 1 && Avoids(b.name, {':'}) && Line(FormatBus(b))
    ensures WrittenAt(FormatBus(b), 4, b.name)
    ensures FindFirstOf(FormatBus(b), {':'}, 0) == 4 + |b.name| < |FormatBus(b)|
    ensures StopListStart(FormatBus(b)) == 4 + |b.name| + 2
    ensures JoinedAt(FormatBus(b), 4 + |b.name| + 2, b.stops, b.isRing)
  {
    var line := FormatBus(b);
    var sep := BusSeparator(b.isRing);
    var colon := 4 + |b.name|;
    WrittenWhole(line);
    WrittenAtSplit(line, 0, "Bus " + b.name + ": ", Join(b.stops, sep), colon + 2);
    WrittenAtSplit(line, 0, "Bus " + b.name, ": ", colon);
    WrittenAtSplit(line, 0, "Bus ", b.name, 4);
    assert FindFirstOf(line, {':'}, 0) == colon < |line| by {
      WordSkipped(line, 0, "Bus ", {':'}, 4);
      WordSkipped(line, 4, b.name, {':'}, colon);
      FoundAt(line, colon, ": ", {':'});
    }
    JoinedAtWritten(line, colon + 2, b.stops, b.isRing);
  }

  /** What `ParseBus` yields once the colon, the first separator and the separator loop are known. */
  lemma {:induction false} ParseBusFrom(line: string, start: nat, name: string, stops: seq<string>, isRing: bool)
    requires Line(line) && start < SizeMod
    requires FindFirstOf(line, {':'}, 0) == start + |name| < |line| && WrittenAt(line, start, name)
    requires FindFirstOf(line, Separators, StopListStart(line)) != Npos
    requires line[FindFirstOf(line, Separators, StopListStart(line))] == '>' <==> isRing
    requires BusStops(line, StopListStart(line), FindFirstOf(line, Separators, StopListStart(line))) == Success(stops)
    ensures ParseBus(line, start) == Success(BusLine(name, stops, isRing))
  {
    WrittenSlice(line, start, name);
    assert SubstrIn(line, start, SizeT(start + |name| - start)) == name;
  }

  /**
   * A bus line written in the format, with at least two stops, no colon in the
   * bus name and no separator character in any stop name, parses back to the
   * same name, stops and ring flag.
   */
  lemma {:induction false} BusRoundTrip(b: BusLine)
    requires |b.stops| >= 2 && forall i | 0 <= i < |b.stops| :: StopNameFits(b.stops[i])
    requires Avoids(b.name, {':'})
    requires Line(FormatBus(b))
    ensures FindFirstOf(FormatBus(b), Separators, StopListStart(FormatBus(b))) != Npos
    ensures ParseBus(FormatBus(b), 4) == Success(b)
  {
    var line := FormatBus(b);
    var first := 4 + |b.name| + 2;
    var p := first + |b.stops[0]| + 1;
    BusLayout(b);
    assert FindFirstOf(line, Separators, first) == p < |line| && (line[p] == '>' <==> b.isRing) by {
      SeparatorFound(line, first, b.stops[0], b.isRing, first + |b.stops[0]|);
    }
    assert BusStops(line, first, p) == Success(b.stops) by {
      JoinedStopsSplit(line, first, b.stops, b.isRing);
    }
    ParseBusFrom(line, 4, b.name, b.stops, b.isRing);
  }

  // ---------------------------------------------------------------------------
  // Stop lines
  // ---------------------------------------------------------------------------

  /** A road distance to a neighbouring stop, as listed on a `Stop` line. */
  datatype DistanceToStop = DistanceToStop(stopName: string, distance: int)

  /** A parsed `Stop` line. */
  datatype StopLine = StopLine(name: string, latitude: real, longitude: real, distances: seq<DistanceToStop>)

  /**
   * Splits a `Stop` line whose command word ends before `start`: the name runs
   * to the colon; latitude and longitude are the two comma-separated fields
   * after it; each further comma starts a distance entry.
   */
  function ParseStop(line: string, start: nat, stod: string -> Result<real>, stoi: string -> Result<int>): (r: Result<StopLine>)
    requires Line(line) && start < SizeMod
    ensures r.Success? ==> start <= |line|
    ensures r.Success? && start <= FindFirstOf(line, {':'}, 0) < |line| ==> r.value.name == line[start..FindFirstOf(line, {':'}, 0)]
  {
    var header :- StopHeader(line, start, stod);
    var distances :- StopDistances(line, header.distancesFrom, false, stoi);
    Success(StopLine(header.name, header.latitude, header.longitude, distances))
  }

  /** The part of a `Stop` line before its distances, and the position of the comma that starts them (or `npos`). */
  datatype Header = Header(name: string, latitude: real, longitude: real, distancesFrom: nat)

  function StopHeader(line: string, start: nat, stod: string -> Result<real>): (r: Result<Header>)
    requires Line(line) && start < SizeMod
    ensures r.Success? ==> start <= |line|
    ensures r.Success? ==> r.value.distancesFrom == Npos || r.value.distancesFrom < |line|
    ensures r.Success? && start <= FindFirstOf(line, {':'}, 0) < |line| ==> r.value.name == line[start..FindFirstOf(line, {':'}, 0)]
  {
    var posName := FindFirstOf(line, {':'}, 0);
    var name :- Substr(line, start, SizeT(posName - start));
    StopCoordinates(line, posName, name, stod)
  }

  /** The coordinates after the colon at `posName`: up to the next comma, then up to the one after it. */
  function StopCoordinates(line: string, posName: nat, name: string, stod: string -> Result<real>): (r: Result<Header>)
    requires Line(line) && (posName == Npos || posName < |line|)
    ensures r.Success? ==> r.value.name == name
    ensures r.Success? ==> r.value.distancesFrom == Npos || r.value.distancesFrom < |line|
  {
    var pos1 := FindFirstOf(line, {','}, posName);
    var latText :- Substr(line, SizeT(posName + 2), SizeT(pos1 - SizeT(posName + 2)));
    var latitude :- stod(latText);
    StopLongitude(line, pos1, name, latitude, stod)
  }

  /** The longitude after the comma at `pos1`, up to the comma that starts the distances (if any). */
  function StopLongitude(line: string, pos1: nat, name: string, latitude: real, stod: string -> Result<real>): (r: Result<Header>)
    requires Line(line) && (pos1 == Npos || pos1 < |line|)
    ensures r.Success? ==> r.value.name == name && r.value.latitude == latitude
    ensures r.Success? ==> r.value.distancesFrom == Npos || r.value.distancesFrom < |line|
  {
    var pos2 := FindFirstOf(line, {','}, SizeT(pos1 + 1));
    var lonText :- Substr(line, SizeT(pos1 + 2), SizeT(pos2 - SizeT(pos1 + 2)));
    var longitude :- stod(lonText);
    Success(Header(name, latitude, longitude, pos2))
  }

  /**
   * The loop over distance entries from the comma at `pos2`: the distance is the
   * text from two characters after the comma up to the next `m`, and the stop
   * name starts five characters after that `m` and runs to the next comma.
   *
   * When no `m` follows, the search for the next comma restarts at the start
   * of the line (`npos + 1` wraps to 0), which always lands on the same comma.
   * A second such restart therefore repeats the same iterations for ever;
   * `wrapped` records the first restart and the second is reported as an error.
   */
  function StopDistances(line: string, pos2: nat, wrapped: bool, stoi: string -> Result<int>): (r: Result<seq<DistanceToStop>>)
    requires Line(line)
    requires pos2 == Npos || pos2 < |line|
    ensures pos2 == Npos ==> r == Success([])
    decreases if wrapped then 0 else 1, if pos2 < |line| then |line| - pos2 else 0
  {
    if pos2 == Npos then Success([])
    else
      var turn :- DistanceTurn(line, pos2, stoi);
      if turn.metres == Npos && wrapped then Failure("the distance loop does not terminate")
      else
        var rest :- StopDistances(line, turn.next, wrapped || turn.metres == Npos, stoi);
        Success([turn.entry] + rest)
  }

  /** One turn of the distance loop: the entry read, where its `m` was found and where the next comma is. */
  datatype Turn = Turn(entry: DistanceToStop, metres: nat, next: nat)

  /** The body of the distance loop for the comma at `pos2`. */
  function DistanceTurn(line: string, pos2: nat, stoi: string -> Result<int>): (r: Result<Turn>)
    requires Line(line) && pos2 < |line|
    ensures r.Success? ==> r.value.metres == Npos || pos2 <= r.value.metres < |line|
    ensures r.Success? ==> r.value.next == Npos || r.value.next < |line|
    ensures r.Success? && r.value.metres != Npos ==> r.value.next == Npos || r.value.metres < r.value.next
  {
    var pos1 := FindFirstOf(line, {'m'}, pos2);
    var distanceText :- Substr(line, pos2 + 2, SizeT(pos1 - (pos2 + 2)));
    var distance :- stoi(distanceText);
    NameTurn(line, pos1, distance)
  }

  /** The second half of a turn: the stop name five characters after the `m` at `pos1`, up to the next comma. */
  function NameTurn(line: string, pos1: nat, distance: int): (r: Result<Turn>)
    requires Line(line) && (pos1 == Npos || pos1 < |line|)
    ensures r.Success? ==> r.value.metres == pos1 && r.value.entry.distance == distance
    ensures r.Success? ==> r.value.next == Npos || r.value.next < |line|
    ensures r.Success? && pos1 != Npos ==> r.value.next == Npos || pos1 < r.value.next
  {
    var next := FindFirstOf(line, {','}, SizeT(pos1 + 1));
    var stopName :- Substr(line, SizeT(pos1 + 5), SizeT(next - SizeT(pos1 + 5)));
    Success(Turn(DistanceToStop(stopName, distance), pos1, next))
  }

  /** One distance entry as written: the distance text and the neighbouring stop's name. */
  datatype DistanceEntry = DistanceEntry(distanceText: string, stopName: string)

  /** An entry the line format can carry: no `m` or comma in the distance, no comma in the name. */
  predicate EntryFits(e: DistanceEntry) {
    Avoids(e.distanceText, {'m', ','}) && Avoids(e.stopName, {','})
  }

  /** The distance entries as written after the coordinates: `, <d>m to <stop>` each. */
  function DistancesText(es: seq<DistanceEntry>): string {
    if es == [] then "" else ", " + es[0].distanceText + "m to " + es[0].stopName + DistancesText(es[1..])
  }

  /** The line `Stop <name>: <lat>, <lng>, <d>m to <stop>, ...`. */
  function FormatStop(name: string, latText: string, lonText: string, es: seq<DistanceEntry>): string {
    "Stop " + name + ": " + latText + ", " + lonText + DistancesText(es)
  }

  /** The distances the entries denote, converting each distance text in order. */
  function ReadDistances(es: seq<DistanceEntry>, stoi: string -> Result<int>): (r: Result<seq<DistanceToStop>>)
    ensures r.Success? ==> |r.value| == |es|
  {
    if es == [] then Success([])
    else PrependDistance(es[0].stopName, stoi(es[0].distanceText), ReadDistances(es[1..], stoi))
  }

  /** The distance to `name` in front of the rest, once both conversions have succeeded. */
  function PrependDistance(name: string, d: Result<int>, rest: Result<seq<DistanceToStop>>): (r: Result<seq<DistanceToStop>>)
    ensures r.Success? <==> d.Success? && rest.Success?
    ensures r.Success? ==> r.value == [DistanceToStop(name, d.value)] + rest.value
  {
    match d
    case Failure(e) => Failure(e)
    case Success(v) => Prepend(DistanceToStop(name, v), rest)
  }

  /** One loop turn's result once the distance conversion is known. */
  function TurnFor(name: string, d: Result<int>, metres: nat, next: nat): Result<Turn> {
    match d
    case Failure(e) => Failure(e)
    case Success(v) => Success(Turn(DistanceToStop(name, v), metres, next))
  }

  /** A header from its name, conversions and distance start: the first conversion that failed, or the header. */
  function HeaderFrom(name: string, latitude: Result<real>, longitude: Result<real>, distancesFrom: nat): Result<Header> {
    match latitude
    case Failure(e) => Failure(e)
    case Success(lat) =>
      match longitude
      case Failure(e) => Failure(e)
      case Success(lon) => Success(Header(name, lat, lon, distancesFrom))
  }

  /** A stop line from its name and conversions: the first conversion that failed, or the whole line. */
  function StopFrom(name: string, latitude: Result<real>, longitude: Result<real>, distances: Result<seq<DistanceToStop>>): Result<StopLine> {
    match latitude
    case Failure(e) => Failure(e)
    case Success(lat) =>
      match longitude
      case Failure(e) => Failure(e)
      case Success(lon) =>
        match distances
        case Failure(e) => Failure(e)
        case Success(ds) => Success(StopLine(name, lat, lon, ds))
  }

  /** Where the entry after `e`, written at `a`, starts. */
  function EntryEnd(a: nat, e: DistanceEntry): nat {
    a + 2 + |e.distanceText| + 5 + |e.stopName|
  }

  /** The entries are written in `line` from position `a` on and run to its end. */
  predicate DistancesAt(line: string, a: nat, es: seq<DistanceEntry>)
    decreases |es|
  {
    if es == [] then a == |line|
    else
      && WrittenAt(line, a, ", ")
      && WrittenAt(line, a + 2, es[0].distanceText)
      && WrittenAt(line, a + 2 + |es[0].distanceText|, "m")
      && WrittenAt(line, a + 2 + |es[0].distanceText| + 1, " to ")
      && WrittenAt(line, a + 2 + |es[0].distanceText| + 5, es[0].stopName)
      && DistancesAt(line, EntryEnd(a, es[0]), es[1..])
  }

  lemma {:induction false} DistancesAtWritten(line: string, a: nat, es: seq<DistanceEntry>)
    requires WrittenAt(line, a, DistancesText(es)) && a + |DistancesText(es)| == |line|
    ensures DistancesAt(line, a, es)
    decreases |es|
  {
    if es != [] {
      var t := es[0].distanceText;
      var n := es[0].stopName;
      var m := a + 2 + |t|;
      WrittenAtSplit(line, a, ", " + t + "m to " + n, DistancesText(es[1..]), EntryEnd(a, es[0]));
      WrittenAtSplit(line, a, ", " + t + "m to ", n, m + 5);
      WrittenAtSplit(line, a, ", " + t, "m to ", m);
      WrittenAtSplit(line, a, ", ", t, a + 2);
      assert "m to " == "m" + " to ";
      WrittenAtSplit(line, m, "m", " to ", m + 1);
      DistancesAtWritten(line, EntryEnd(a, es[0]), es[1..]);
    }
  }

  /** The comma search from the start of the entries lands on the first entry, if any. */
  lemma {:induction false} DistancesStart(line: string, a: nat, es: seq<DistanceEntry>)
    requires Line(line) && DistancesAt(line, a, es)
    ensures FindFirstOf(line, {','}, a) == if es == [] then Npos else a
    ensures if FindFirstOf(line, {','}, a) == Npos then a == |line| else FindFirstOf(line, {','}, a) == a < |line|
  {
    if es != [] {
      FoundAt(line, a, ", ", {','});
    }
  }

  /** One turn of the distance loop, once the `m` ending the distance and the comma ending the stop name (or its absence) are known. */
  lemma {:induction false} DistanceTurnAt(line: string, a: nat, t: string, n: string, next: nat, stoi: string -> Result<int>)
    requires Line(line) && a < |line|
    requires WrittenAt(line, a + 2, t) && FindFirstOf(line, {'m'}, a) == a + 2 + |t| < |line|
    requires WrittenAt(line, a + 2 + |t| + 5, n) && FindFirstOf(line, {','}, a + 2 + |t| + 1) == next
    requires if next == Npos then a + 2 + |t| + 5 + |n| == |line| else next == a + 2 + |t| + 5 + |n| < |line|
    ensures DistanceTurn(line, a, stoi)
      == TurnFor(n, stoi(t), a + 2 + |t|, next)
  {
    var m := a + 2 + |t|;
    assert SizeT(m + 1) == m + 1 && SizeT(m + 5) == m + 5;
    SubstrOf(line, a + 2, SizeT(m - (a + 2)), t);
    SubstrOf(line, SizeT(m + 5), SizeT(next - SizeT(m + 5)), n);
    DistanceTurnOf(line, a, m, t, stoi);
    NameTurnOf(line, m, next, n, stoi(t));
  }

  /** `DistanceTurn` once its `m` and the distance's `substr` result are known. */
  lemma {:induction false} DistanceTurnOf(line: string, a: nat, m: nat, t: string, stoi: string -> Result<int>)
    requires Line(line) && a < |line| && m < |line|
    requires FindFirstOf(line, {'m'}, a) == m
    requires Substr(line, a + 2, SizeT(m - (a + 2))) == Success(t)
    ensures DistanceTurn(line, a, stoi) == (match stoi(t) case Failure(e) => Failure(e) case Success(v) => NameTurn(line, m, v))
  {
  }

  /** `NameTurn` once the comma after the name and the name's `substr` result are known. */
  lemma {:induction false} NameTurnOf(line: string, m: nat, next: nat, n: string, d: Result<int>)
    requires Line(line) && m < |line| && (next == Npos || next < |line|)
    requires FindFirstOf(line, {','}, SizeT(m + 1)) == next
    requires Substr(line, SizeT(m + 5), SizeT(next - SizeT(m + 5))) == Success(n)
    ensures (match d case Failure(e) => Failure(e) case Success(v) => NameTurn(line, m, v)) == TurnFor(n, d, m, next)
  {
  }

  /** The distance loop at a turn that reads `t` and `n` and finds its `m`. */
  lemma {:induction false} StopDistancesStep(line: string, a: nat, t: string, n: string, next: nat, stoi: string -> Result<int>)
    requires Line(line) && a < |line| && (next == Npos || next < |line|)
    requires DistanceTurn(line, a, stoi) == TurnFor(n, stoi(t), a + 2 + |t|, next)
    requires a + 2 + |t| < |line|
    ensures StopDistances(line, a, false, stoi)
      == PrependDistance(n, stoi(t), StopDistances(line, next, false, stoi))
  {
  }

  /** Where the searches of one turn of the distance loop land on a written entry. */
  lemma {:induction false} DistanceEntryLayout(line: string, a: nat, es: seq<DistanceEntry>)
    requires Line(line) && DistancesAt(line, a, es) && es != [] && EntryFits(es[0])
    ensures FindFirstOf(line, {'m'}, a) == a + 2 + |es[0].distanceText| < |line|
    ensures FindFirstOf(line, {','}, a + 2 + |es[0].distanceText| + 1) == FindFirstOf(line, {','}, EntryEnd(a, es[0]))
    ensures FindFirstOf(line, {','}, EntryEnd(a, es[0])) == if es[1..] == [] then Npos else EntryEnd(a, es[0])
    ensures es[1..] == [] ==> EntryEnd(a, es[0]) == |line|
    ensures es[1..] != [] ==> EntryEnd(a, es[0]) < |line|
  {
    var t := es[0].distanceText;
    var n := es[0].stopName;
    var m := a + 2 + |t|;
    assert FindFirstOf(line, {'m'}, a) == m < |line| by {
      assert ", "[0] != 'm' && ", "[1] != 'm';
      WordSkipped(line, a, ", ", {'m'}, a + 2);
      assert Avoids(t, {'m'});
      WordSkipped(line, a + 2, t, {'m'}, m);
      FoundAt(line, m, "m", {'m'});
    }
    assert FindFirstOf(line, {','}, m + 1) == FindFirstOf(line, {','}, EntryEnd(a, es[0])) by {
      WordSkipped(line, m + 1, " to ", {','}, m + 5);
      WordSkipped(line, m + 5, n, {','}, EntryEnd(a, es[0]));
    }
    DistancesStart(line, EntryEnd(a, es[0]), es[1..]);
    if es[1..] != [] {
      FoundAt(line, EntryEnd(a, es[0]), ", ", {','});
    }
  }

  /** One turn of the distance loop over a written entry reads that entry. */
  lemma {:induction false} DistanceEntryNext(line: string, a: nat, es: seq<DistanceEntry>, stoi: string -> Result<int>)
    requires Line(line) && DistancesAt(line, a, es) && es != [] && EntryFits(es[0])
    ensures StopDistances(line, a, false, stoi)
      == PrependDistance(es[0].stopName, stoi(es[0].distanceText), StopDistances(line, FindFirstOf(line, {','}, EntryEnd(a, es[0])), false, stoi))
  {
    var next := FindFirstOf(line, {','}, EntryEnd(a, es[0]));
    DistanceEntryLayout(line, a, es);
    DistanceTurnAt(line, a, es[0].distanceText, es[0].stopName, next, stoi);
    StopDistancesStep(line, a, es[0].distanceText, es[0].stopName, next, stoi);
  }

  /** The distance loop over written entries reads them all, in order. */
  lemma {:induction false} DistancesLoad(line: string, a: nat, es: seq<DistanceEntry>, stoi: string -> Result<int>)
    requires Line(line) && DistancesAt(line, a, es)
    requires forall i | 0 <= i < |es| :: EntryFits(es[i])
    ensures FindFirstOf(line, {','}, a) == Npos || FindFirstOf(line, {','}, a) < |line|
    ensures StopDistances(line, FindFirstOf(line, {','}, a), false, stoi) == ReadDistances(es, stoi)
    decreases |es|
  {
    DistancesStart(line, a, es);
    if es != [] {
      FoundAt(line, a, ", ", {','});
      DistanceEntryNext(line, a, es, stoi);
      DistancesLoad(line, EntryEnd(a, es[0]), es[1..], stoi);
    }
  }

  /** Where the parts of a stop line sit, and where the header's searches land. */
  lemma {:induction false} StopLayout(line: string, name: string, latText: string, lonText: string, rest: string)
    requires line == "Stop " + name + ": " + latText + ", " + lonText + rest
    requires Avoids(name, {':'}) && Avoids(latText, {','}) && Avoids(lonText, {','}) && Line(line)
    ensures WrittenAt(line, 5, name)
    ensures FindFirstOf(line, {':'}, 0) == 5 + |name|
    ensures WrittenAt(line, 5 + |name| + 2, latText)
    ensures FindFirstOf(line, {','}, 5 + |name|) == 5 + |name| + 2 + |latText| < |line|
    ensures WrittenAt(line, 5 + |name| + 2 + |latText| + 2, lonText)
    ensures FindFirstOf(line, {','}, 5 + |name| + 2 + |latText| + 1)
      == FindFirstOf(line, {','}, 5 + |name| + 2 + |latText| + 2 + |lonText|)
    ensures WrittenAt(line, 5 + |name| + 2 + |latText| + 2 + |lonText|, rest)
    ensures 5 + |name| + 2 + |latText| + 2 + |lonText| + |rest| == |line|
  {
    StopWritten(line, name, latText, lonText, rest);
    StopNameFound(line, name);
    StopLatitudeFound(line, 5 + |name|, latText);
    StopLongitudeSkipped(line, 5 + |name| + 2 + |latText|, lonText);
  }

  /** Where the parts of a stop line are written. */
  lemma {:induction false} StopWritten(line: string, name: string, latText: string, lonText: string, rest: string)
    requires line == "Stop " + name + ": " + latText + ", " + lonText + rest
    ensures WrittenAt(line, 0, "Stop ") && WrittenAt(line, 5, name) && WrittenAt(line, 5 + |name|, ": ")
    ensures WrittenAt(line, 5 + |name| + 2, latText) && WrittenAt(line, 5 + |name| + 2 + |latText|, ",")
    ensures WrittenAt(line, 5 + |name| + 2 + |latText| + 1, " ") && WrittenAt(line, 5 + |name| + 2 + |latText| + 2, lonText)
    ensures WrittenAt(line, 5 + |name| + 2 + |latText| + 2 + |lonText|, rest)
    ensures 5 + |name| + 2 + |latText| + 2 + |lonText| + |rest| == |line|
  {
    var colon := 5 + |name|;
    var comma := colon + 2 + |latText|;
    var entries := comma + 2 + |lonText|;
    WrittenWhole(line);
    WrittenAtSplit(line, 0, "Stop " + name + ": " + latText + ", " + lonText, rest, entries);
    WrittenAtSplit(line, 0, "Stop " + name + ": " + latText + ", ", lonText, comma + 2);
    WrittenAtSplit(line, 0, "Stop " + name + ": " + latText, ", ", comma);
    WrittenAtSplit(line, 0, "Stop " + name + ": ", latText, colon + 2);
    WrittenAtSplit(line, 0, "Stop " + name, ": ", colon);
    WrittenAtSplit(line, 0, "Stop ", name, 5);
    assert ", " == "," + " ";
    WrittenAtSplit(line, comma, ",", " ", comma + 1);
  }

  /** The search for the colon skips `Stop ` and the name. */
  lemma {:induction false} StopNameFound(line: string, name: string)
    requires Line(line) && Avoids(name, {':'})
    requires WrittenAt(line, 0, "Stop ") && WrittenAt(line, 5, name) && WrittenAt(line, 5 + |name|, ": ")
    ensures FindFirstOf(line, {':'}, 0) == 5 + |name|
  {
    WordSkipped(line, 0, "Stop ", {':'}, 5);
    WordSkipped(line, 5, name, {':'}, 5 + |name|);
    FoundAt(line, 5 + |name|, ": ", {':'});
  }

  /** The search for the comma from the colon skips `: ` and the latitude. */
  lemma {:induction false} StopLatitudeFound(line: string, colon: nat, latText: string)
    requires Line(line) && Avoids(latText, {','})
    requires WrittenAt(line, colon, ": ") && WrittenAt(line, colon + 2, latText) && WrittenAt(line, colon + 2 + |latText|, ",")
    ensures FindFirstOf(line, {','}, colon) == colon + 2 + |latText| < |line|
  {
    WordSkipped(line, colon, ": ", {','}, colon + 2);
    WordSkipped(line, colon + 2, latText, {','}, colon + 2 + |latText|);
    FoundAt(line, colon + 2 + |latText|, ",", {','});
  }

  /** The search for a comma after the latitude's comma skips the blank and the longitude. */
  lemma {:induction false} StopLongitudeSkipped(line: string, comma: nat, lonText: string)
    requires Line(line) && Avoids(lonText, {','})
    requires WrittenAt(line, comma + 1, " ") && WrittenAt(line, comma + 2, lonText)
    ensures FindFirstOf(line, {','}, comma + 1) == FindFirstOf(line, {','}, comma + 2 + |lonText|)
  {
    WordSkipped(line, comma + 1, " ", {','}, comma + 2);
    WordSkipped(line, comma + 2, lonText, {','}, comma + 2 + |lonText|);
  }

  /** What `StopHeader` yields once the colon and the two commas after it are known. */
  lemma {:induction false} StopHeaderAt(line: string, start: nat, name: string, header: Result<Header>, stod: string -> Result<real>)
    requires Line(line) && start < SizeMod
    requires WrittenAt(line, start, name) && FindFirstOf(line, {':'}, 0) == start + |name| < |line|
    requires StopCoordinates(line, start + |name|, name, stod) == header
    ensures StopHeader(line, start, stod) == header
  {
    assert Substr(line, start, SizeT(start + |name| - start)) == Success(name) by {
      SubstrOf(line, start, SizeT(start + |name| - start), name);
    }
    StopHeaderOf(line, start, start + |name|, name, header, stod);
  }

  /** What `StopCoordinates` yields once the comma after the latitude and the one after the longitude are known. */
  lemma {:induction false} StopCoordinatesAt(line: string, colon: nat, name: string, latText: string, lonText: string, p: nat,
                                             stod: string -> Result<real>)
    requires Line(line) && colon < |line|
    requires WrittenAt(line, colon + 2, latText)
    requires FindFirstOf(line, {','}, colon) == colon + 2 + |latText| < |line|
    requires WrittenAt(line, colon + 2 + |latText| + 2, lonText)
    requires FindFirstOf(line, {','}, colon + 2 + |latText| + 1) == p
    requires if p == Npos then colon + 2 + |latText| + 2 + |lonText| == |line|
             else p == colon + 2 + |latText| + 2 + |lonText| < |line|
    ensures StopCoordinates(line, colon, name, stod) == HeaderFrom(name, stod(latText), stod(lonText), p)
  {
    var comma := colon + 2 + |latText|;
    assert SizeT(colon + 2) == colon + 2 && SizeT(comma + 1) == comma + 1 && SizeT(comma + 2) == comma + 2;
    SubstrOf(line, SizeT(colon + 2), SizeT(comma - SizeT(colon + 2)), latText);
    SubstrOf(line, SizeT(comma + 2), SizeT(p - SizeT(comma + 2)), lonText);
    StopCoordinatesOf(line, colon, comma, p, name, latText, lonText, stod);
  }

  /** `StopHeader` in terms of the name's `substr` result and the coordinates after the colon. */
  lemma {:induction false} StopHeaderOf(line: string, start: nat, posName: nat, name: string, header: Result<Header>,
                                        stod: string -> Result<real>)
    requires Line(line) && start < SizeMod && posName < |line|
    requires FindFirstOf(line, {':'}, 0) == posName
    requires Substr(line, start, SizeT(posName - start)) == Success(name)
    requires StopCoordinates(line, posName, name, stod) == header
    ensures StopHeader(line, start, stod) == header
  {
  }

  /** `StopCoordinates` in terms of its two `substr` results. */
  lemma {:induction false} StopCoordinatesOf(line: string, posName: nat, pos1: nat, p: nat,
                                             name: string, latText: string, lonText: string, stod: string -> Result<real>)
    requires Line(line) && posName < |line| && pos1 < |line| && (p == Npos || p < |line|)
    requires FindFirstOf(line, {','}, posName) == pos1
    requires FindFirstOf(line, {','}, SizeT(pos1 + 1)) == p
    requires Substr(line, SizeT(posName + 2), SizeT(pos1 - SizeT(posName + 2))) == Success(latText)
    requires Substr(line, SizeT(pos1 + 2), SizeT(p - SizeT(pos1 + 2))) == Success(lonText)
    ensures StopCoordinates(line, posName, name, stod) == HeaderFrom(name, stod(latText), stod(lonText), p)
  {
    StopLatitudeOf(line, posName, pos1, name, latText, stod);
    StopLongitudeOf(line, pos1, p, name, stod(latText), lonText, stod);
  }

  /** `StopCoordinates` once the latitude's comma and `substr` result are known. */
  lemma {:induction false} StopLatitudeOf(line: string, posName: nat, pos1: nat, name: string, latText: string, stod: string -> Result<real>)
    requires Line(line) && posName < |line| && pos1 < |line|
    requires FindFirstOf(line, {','}, posName) == pos1
    requires Substr(line, SizeT(posName + 2), SizeT(pos1 - SizeT(posName + 2))) == Success(latText)
    ensures StopCoordinates(line, posName, name, stod)
      == (match stod(latText) case Failure(e) => Failure(e) case Success(v) => StopLongitude(line, pos1, name, v, stod))
  {
  }

  /** `StopLongitude` once the comma after the longitude and its `substr` result are known. */
  lemma {:induction false} StopLongitudeOf(line: string, pos1: nat, p: nat, name: string, latitude: Result<real>, lonText: string,
                                           stod: string -> Result<real>)
    requires Line(line) && pos1 < |line| && (p == Npos || p < |line|)
    requires FindFirstOf(line, {','}, SizeT(pos1 + 1)) == p
    requires Substr(line, SizeT(pos1 + 2), SizeT(p - SizeT(pos1 + 2))) == Success(lonText)
    ensures (match latitude case Failure(e) => Failure(e) case Success(v) => StopLongitude(line, pos1, name, v, stod))
      == HeaderFrom(name, latitude, stod(lonText), p)
  {
  }

  /** `ParseStop` is the header followed by the distance loop from where the header ends. */
  lemma {:induction false} ParseStopFrom(line: string, start: nat, name: string, latitude: Result<real>, longitude: Result<real>, p: nat,
                                         stod: string -> Result<real>, stoi: string -> Result<int>)
    requires Line(line) && start < SizeMod && (p == Npos || p < |line|)
    requires StopHeader(line, start, stod) == HeaderFrom(name, latitude, longitude, p)
    ensures ParseStop(line, start, stod, stoi) == StopFrom(name, latitude, longitude, StopDistances(line, p, false, stoi))
  {
  }

  /**
   * A stop line written in the format, with no colon in the stop name, no comma
   * in the coordinates and entries the format can carry, parses back to its
   * name, the converted coordinates and the converted distances in order; a
   * conversion that fails makes the parse fail with the same error.
   */
  lemma {:induction false} StopRoundTrip(name: string, latText: string, lonText: string, es: seq<DistanceEntry>, stod: string -> Result<real>, stoi: string -> Result<int>)
    requires Avoids(name, {':'}) && Avoids(latText, {','}) && Avoids(lonText, {','})
    requires forall i | 0 <= i < |es| :: EntryFits(es[i])
    requires Line(FormatStop(name, latText, lonText, es))
    ensures ParseStop(FormatStop(name, latText, lonText, es), 5, stod, stoi)
      == StopFrom(name, stod(latText), stod(lonText), ReadDistances(es, stoi))
  {
    var line := FormatStop(name, latText, lonText, es);
    StopLayout(line, name, latText, lonText, DistancesText(es));
    DistancesAtWritten(line, 5 + |name| + 2 + |latText| + 2 + |lonText|, es);
    StopParsed(line, name, latText, lonText, es, stod, stoi);
  }

  /** A line laid out as a stop line parses to the stop it lays out. */
  lemma {:induction false} StopParsed(line: string, name: string, latText: string, lonText: string, es: seq<DistanceEntry>,
                                      stod: string -> Result<real>, stoi: string -> Result<int>)
    requires Line(line) && forall i | 0 <= i < |es| :: EntryFits(es[i])
    requires WrittenAt(line, 5, name) && FindFirstOf(line, {':'}, 0) == 5 + |name|
    requires WrittenAt(line, 5 + |name| + 2, latText)
    requires FindFirstOf(line, {','}, 5 + |name|) == 5 + |name| + 2 + |latText| < |line|
    requires WrittenAt(line, 5 + |name| + 2 + |latText| + 2, lonText)
    requires FindFirstOf(line, {','}, 5 + |name| + 2 + |latText| + 1)
      == FindFirstOf(line, {','}, 5 + |name| + 2 + |latText| + 2 + |lonText|)
    requires DistancesAt(line, 5 + |name| + 2 + |latText| + 2 + |lonText|, es)
    ensures ParseStop(line, 5, stod, stoi) == StopFrom(name, stod(latText), stod(lonText), ReadDistances(es, stoi))
  {
    var entries := 5 + |name| + 2 + |latText| + 2 + |lonText|;
    var p := FindFirstOf(line, {','}, entries);
    DistancesStart(line, entries, es);
    StopCoordinatesAt(line, 5 + |name|, name, latText, lonText, p, stod);
    StopHeaderAt(line, 5, name, HeaderFrom(name, stod(latText), stod(lonText), p), stod);
    ParseStopFrom(line, 5, name, stod(latText), stod(lonText), p, stod, stoi);
    DistancesLoad(line, entries, es, stoi);
  }
}
