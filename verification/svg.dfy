/**
 * The SVG object model: points, the five optional path attributes every shape shares,
 * circles, polylines and text elements, and a document that renders its objects in the
 * order they were added. How the output stream writes a number is a parameter.
 */
module Svg {
  import opened Wrappers

  datatype Point = Point(x: real, y: real)

  const Origin := Point(0.0, 0.0)

  /** How the output stream writes a `double` and an unsigned integer. */
  datatype Numerals = Numerals(decimal: real -> string, whole: nat -> string)

  type U32 = n: nat | n < 0x1_0000_0000

  // ---------------------------------------------------------------- splitting text

  /** Cuts `s` at the first `c`: the text before it and the text after it. */
  function SplitAt(s: string, c: char): (r: Option<(string, string)>)
    ensures r.Some? <==> c in s
    ensures r.Some? ==> s == r.value.0 + [c] + r.value.1 && c !in r.value.0
  {
    if s == [] then None
    else if s[0] == c then Some(([], s[1..]))
    else match SplitAt(s[1..], c)
      case None => None
      case Some(cut) =>
        assert s == [s[0]] + s[1..];
        Some(([s[0]] + cut.0, cut.1))
  }

  /** A cut is determined by the text before the first separator. */
  lemma {:induction false} SplitAtOf(a: string, c: char, b: string)
    requires c !in a
    ensures SplitAt(a + [c] + b, c) == Some((a, b))
  {
    if a == [] {
      assert a + [c] + b == [c] + b;
    } else {
      SplitAtOf(a[1..], c, b);
      assert (a + [c] + b)[1..] == a[1..] + [c] + b;
      assert [a[0]] + a[1..] == a;
    }
  }

  /** The pieces of `fs` written one after another with `sep` between neighbours. */
  function Join(fs: seq<string>, sep: char): string
    requires |fs| >= 1
  {
    if |fs| == 1 then fs[0] else fs[0] + [sep] + Join(fs[1..], sep)
  }

  /** `s` cut at every `sep`; the inverse of `Join` for pieces that do not contain `sep`. */
  function Fields(s: string, sep: char): (r: seq<string>)
    ensures |r| >= 1
    decreases |s|
  {
    match SplitAt(s, sep)
      case None => [s]
      case Some(cut) => [cut.0] + Fields(cut.1, sep)
  }

  lemma {:induction false} FieldsOfJoin(fs: seq<string>, sep: char)
    requires |fs| >= 1
    requires forall i | 0 <= i < |fs| :: sep !in fs[i]
    ensures Fields(Join(fs, sep), sep) == fs
  {
    if |fs| > 1 {
      SplitAtOf(fs[0], sep, Join(fs[1..], sep));
      FieldsOfJoin(fs[1..], sep);
    }
  }

  /** Joining two non-empty lists puts one separator between them. */
  lemma {:induction false} JoinAppend(a: seq<string>, b: seq<string>, sep: char)
    requires |a| >= 1 && |b| >= 1
    ensures Join(a + b, sep) == Join(a, sep) + [sep] + Join(b, sep)
  {
    if |a| > 1 {
      assert (a + b)[1..] == a[1..] + b;
      JoinAppend(a[1..], b, sep);
    } else {
      assert (a + b)[1..] == b;
    }
  }

  // ---------------------------------------------------------------- line caps and joins

  datatype LineCap = Butt | RoundCap | Square

  datatype LineJoin = Arcs | Bevel | Miter | MiterClip | RoundJoin

  const CapNames: seq<string> := ["butt", "round", "square"]

  const JoinNames: seq<string> := ["arcs", "bevel", "miter", "miter-clip", "round"]

  /** The enumerator's position in its declaration. */
  function CapIndex(c: LineCap): (i: nat)
    ensures i < |CapNames|
  {
    match c
      case Butt => 0
      case RoundCap => 1
      case Square => 2
  }

  function JoinIndex(j: LineJoin): (i: nat)
    ensures i < |JoinNames|
  {
    match j
      case Arcs => 0
      case Bevel => 1
      case Miter => 2
      case MiterClip => 3
      case RoundJoin => 4
  }

  /** The SVG keyword read back as a line cap. */
  function ParseCap(s: string): Option<LineCap> {
    if s == "butt" then Some(Butt)
    else if s == "round" then Some(RoundCap)
    else if s == "square" then Some(Square)
    else None
  }

  function ParseJoin(s: string): Option<LineJoin> {
    if s == "arcs" then Some(Arcs)
    else if s == "bevel" then Some(Bevel)
    else if s == "miter" then Some(Miter)
    else if s == "miter-clip" then Some(MiterClip)
    else if s == "round" then Some(RoundJoin)
    else None
  }

  /** A line cap renders as its table entry, which is the SVG keyword naming exactly that cap. */
  function CapName(c: LineCap): (r: string)
    ensures r in CapNames && ParseCap(r) == Some(c)
  {
    CapNames[CapIndex(c)]
  }

  function JoinName(j: LineJoin): (r: string)
    ensures r in JoinNames && ParseJoin(r) == Some(j)
  {
    JoinNames[JoinIndex(j)]
  }

  // ---------------------------------------------------------------- path attributes

  /** The optional presentation attributes of a shape; `None` is an attribute never set. */
  datatype PathProps = PathProps(
    fill: Option<string>,
    stroke: Option<string>,
    strokeWidth: Option<real>,
    lineCap: Option<LineCap>,
    lineJoin: Option<LineJoin>)

  const Unset := PathProps(None, None, None, None, None)

  /** The attribute names in the order they are written; an attribute is known by its position here. */
  const AttrOrder: seq<string> := ["fill", "stroke", "stroke-width", "stroke-linecap", "stroke-linejoin"]

  const Fill := 0
  const Stroke := 1
  const StrokeWidth := 2
  const StrokeLineCap := 3
  const StrokeLineJoin := 4

  /** ` name="value"` */
  function Attr(name: string, value: string): string {
    " " + name + "=\"" + value + "\""
  }

  /** The attributes that have been set, taken one by one in the fixed order. */
  function RenderAttrs(p: PathProps, n: Numerals): string {
    AttrsText(AttrValues(p, n), Fill)
  }

  /** The text of each attribute in the fixed order, `None` for one not set. */
  function AttrValues(p: PathProps, n: Numerals): (vs: seq<Option<string>>)
    ensures |vs| == |AttrOrder|
  {
    [p.fill,
     p.stroke,
     if p.strokeWidth.Some? then Some(n.decimal(p.strokeWidth.value)) else None,
     if p.lineCap.Some? then Some(CapName(p.lineCap.value)) else None,
     if p.lineJoin.Some? then Some(JoinName(p.lineJoin.value)) else None]
  }

  /** The set attributes from position `k` of the fixed order on, as written. */
  function AttrsText(vs: seq<Option<string>>, k: nat): string
    requires |vs| == |AttrOrder| && k <= |vs|
    decreases |vs| - k
  {
    if k == |vs| then ""
    else (if vs[k].Some? then Attr(AttrOrder[k], vs[k].value) else "") + AttrsText(vs, k + 1)
  }

  /** The value stored under the first occurrence of key `k`. */
  function Lookup(pairs: seq<(nat, string)>, k: nat): Option<string> {
    if pairs == [] then None
    else if pairs[0].0 == k then Some(pairs[0].1)
    else Lookup(pairs[1..], k)
  }

  predicate Ascending(pairs: seq<(nat, string)>) {
    forall i, j | 0 <= i < j < |pairs| :: pairs[i].0 < pairs[j].0
  }

  /** The set values from position `k` on, as (position, value) pairs. */
  function Present(vs: seq<Option<string>>, k: nat): (r: seq<(nat, string)>)
    requires k <= |vs|
    ensures forall i | 0 <= i < |r| :: k <= r[i].0 < |vs|
    ensures Ascending(r)
    decreases |vs| - k
  {
    if k == |vs| then []
    else if vs[k].Some? then [(k, vs[k].value)] + Present(vs, k + 1)
    else Present(vs, k + 1)
  }

  /** Each position from `k` on is listed with its value exactly when it is set. */
  lemma {:induction false} PresentLookup(vs: seq<Option<string>>, k: nat, j: nat)
    requires k <= j < |vs|
    ensures Lookup(Present(vs, k), j) == vs[j]
    decreases |vs| - k
  {
    var r := Present(vs, k);
    if j > k {
      PresentLookup(vs, k + 1, j);
    } else if vs[k].None? {
      LookupAbsent(r, k);
    }
  }

  lemma {:induction false} LookupAbsent(pairs: seq<(nat, string)>, k: nat)
    requires forall i | 0 <= i < |pairs| :: pairs[i].0 != k
    ensures Lookup(pairs, k) == None
  {
    if pairs != [] {
      LookupAbsent(pairs[1..], k);
    }
  }

  /**
   * The set attributes of `p` as (position in the fixed order, value) pairs, in the order they
   * are written: positions strictly ascending, and each attribute present exactly when set.
   */
  function AttrList(p: PathProps, n: Numerals): (r: seq<(nat, string)>)
    ensures forall i | 0 <= i < |r| :: r[i].0 < |AttrOrder|
    ensures Ascending(r)
    ensures Lookup(r, Fill) == p.fill && Lookup(r, Stroke) == p.stroke
    ensures Lookup(r, StrokeWidth).Some? <==> p.strokeWidth.Some?
    ensures p.strokeWidth.Some? ==> Lookup(r, StrokeWidth) == Some(n.decimal(p.strokeWidth.value))
    ensures Lookup(r, StrokeLineCap).Some? <==> p.lineCap.Some?
    ensures p.lineCap.Some? ==> ParseCap(Lookup(r, StrokeLineCap).value) == p.lineCap
    ensures Lookup(r, StrokeLineJoin).Some? <==> p.lineJoin.Some?
    ensures p.lineJoin.Some? ==> ParseJoin(Lookup(r, StrokeLineJoin).value) == p.lineJoin
  {
    var vs := AttrValues(p, n);
    PresentLookup(vs, 0, Fill);
    PresentLookup(vs, 0, Stroke);
    PresentLookup(vs, 0, StrokeWidth);
    PresentLookup(vs, 0, StrokeLineCap);
    PresentLookup(vs, 0, StrokeLineJoin);
    Present(vs, 0)
  }

  /** The pairs with each position replaced by the attribute's name. */
  function Named(pairs: seq<(nat, string)>): (r: seq<(string, string)>)
    requires forall i | 0 <= i < |pairs| :: pairs[i].0 < |AttrOrder|
    ensures |r| == |pairs|
    ensures forall i | 0 <= i < |pairs| :: r[i] == (AttrOrder[pairs[i].0], pairs[i].1)
  {
    seq(|pairs|, i requires 0 <= i < |pairs| => (AttrOrder[pairs[i].0], pairs[i].1))
  }

  /** Named pairs written as attributes, one after another. */
  function JoinAttrs(pairs: seq<(string, string)>): string {
    if pairs == [] then "" else Attr(pairs[0].0, pairs[0].1) + JoinAttrs(pairs[1..])
  }

  /** Reads back a run of ` name="value"` attributes. */
  function ParseAttrs(s: string): Option<seq<(string, string)>>
    decreases |s|
  {
    if s == [] then Some([])
    else if s[0] != ' ' then None
    else match SplitAt(s[1..], '=')
      case None => None
      case Some(named) =>
        if named.1 == [] || named.1[0] != '"' then None
        else match SplitAt(named.1[1..], '"')
          case None => None
          case Some(valued) =>
            match ParseAttrs(valued.1)
              case None => None
              case Some(more) => Some([(named.0, valued.0)] + more)
  }

  lemma ParseAttr(name: string, value: string, rest: string)
    requires '=' !in name && '"' !in value
    ensures ParseAttrs(Attr(name, value) + rest) ==
      match ParseAttrs(rest) case None => None case Some(more) => Some([(name, value)] + more)
  {
    var s := Attr(name, value) + rest;
    assert s[1..] == name + ['='] + ("\"" + value + "\"" + rest);
    SplitAtOf(name, '=', "\"" + value + "\"" + rest);
    assert ("\"" + value + "\"" + rest)[1..] == value + ['"'] + rest;
    SplitAtOf(value, '"', rest);
  }

  /** Attributes whose names have no `=` and whose values have no `"` read back as written. */
  lemma {:induction false} AttrsReadBack(pairs: seq<(string, string)>)
    requires forall i | 0 <= i < |pairs| :: '=' !in pairs[i].0 && '"' !in pairs[i].1
    ensures ParseAttrs(JoinAttrs(pairs)) == Some(pairs)
  {
    if pairs != [] {
      AttrsReadBack(pairs[1..]);
      ParseAttr(pairs[0].0, pairs[0].1, JoinAttrs(pairs[1..]));
      assert [pairs[0]] + pairs[1..] == pairs;
    }
  }

  lemma {:induction false} JoinAttrsAppend(a: seq<(string, string)>, b: seq<(string, string)>)
    ensures JoinAttrs(a + b) == JoinAttrs(a) + JoinAttrs(b)
  {
    if a != [] {
      assert (a + b)[1..] == a[1..] + b;
      JoinAttrsAppend(a[1..], b);
    } else {
      assert a + b == b;
    }
  }

  lemma NamedAppend(a: seq<(nat, string)>, b: seq<(nat, string)>)
    requires forall i | 0 <= i < |a| :: a[i].0 < |AttrOrder|
    requires forall i | 0 <= i < |b| :: b[i].0 < |AttrOrder|
    ensures Named(a + b) == Named(a) + Named(b)
  {
  }

  /** What `Present` lists is exactly what the rendering writes from position `k` on. */
  lemma {:induction false} PresentRendered(vs: seq<Option<string>>, k: nat)
    requires |vs| == |AttrOrder| && k <= |vs|
    ensures JoinAttrs(Named(Present(vs, k))) == AttrsText(vs, k)
    decreases |vs| - k
  {
    if k < |vs| {
      PresentRendered(vs, k + 1);
      if vs[k].Some? {
        var head := [(k, vs[k].value)];
        NamedAppend(head, Present(vs, k + 1));
        JoinAttrsAppend(Named(head), Named(Present(vs, k + 1)));
      }
    }
  }

  /** No attribute name holds `=`, and no keyword value holds `"`. */
  lemma AttrTextsClean(p: PathProps, n: Numerals, k: nat)
    requires k < |AttrOrder|
    requires p.fill.Some? ==> '"' !in p.fill.value
    requires p.stroke.Some? ==> '"' !in p.stroke.value
    requires p.strokeWidth.Some? ==> '"' !in n.decimal(p.strokeWidth.value)
    ensures '=' !in AttrOrder[k]
    ensures AttrValues(p, n)[k].Some? ==> '"' !in AttrValues(p, n)[k].value
  {
    if k == StrokeLineCap && p.lineCap.Some? {
      match p.lineCap.value
        case Butt => assert CapName(Butt) == "butt";
        case RoundCap => assert CapName(RoundCap) == "round";
        case Square => assert CapName(Square) == "square";
    } else if k == StrokeLineJoin && p.lineJoin.Some? {
      match p.lineJoin.value
        case Arcs => assert JoinName(Arcs) == "arcs";
        case Bevel => assert JoinName(Bevel) == "bevel";
        case Miter => assert JoinName(Miter) == "miter";
        case MiterClip => assert JoinName(MiterClip) == "miter-clip";
        case RoundJoin => assert JoinName(RoundJoin) == "round";
    }
  }

  /**
   * The rendered attributes read back as exactly the set attributes, named, in the fixed
   * order, whenever no colour and no number text contains a double quote.
   */
  lemma AttrsRoundTrip(p: PathProps, n: Numerals)
    requires p.fill.Some? ==> '"' !in p.fill.value
    requires p.stroke.Some? ==> '"' !in p.stroke.value
    requires p.strokeWidth.Some? ==> '"' !in n.decimal(p.strokeWidth.value)
    ensures ParseAttrs(RenderAttrs(p, n)) == Some(Named(AttrList(p, n)))
  {
    var vs := AttrValues(p, n);
    var r := AttrList(p, n);
    var named := Named(r);
    PresentRendered(vs, 0);
    forall i | 0 <= i < |named| ensures '=' !in named[i].0 && '"' !in named[i].1 {
      var k := r[i].0;
      PresentLookup(vs, 0, k);
      LookupDistinct(r, i);
      AttrTextsClean(p, n, k);
    }
    AttrsReadBack(named);
  }

  /** In an ascending list a position is found at its only index. */
  lemma {:induction false} LookupDistinct(pairs: seq<(nat, string)>, i: nat)
    requires i < |pairs| && Ascending(pairs)
    ensures Lookup(pairs, pairs[i].0) == Some(pairs[i].1)
  {
    if i > 0 {
      assert pairs[0].0 < pairs[i].0;
      LookupDistinct(pairs[1..], i - 1);
    }
  }

  // ---------------------------------------------------------------- setters

  /** Each setter writes only its own attribute; the owner is otherwise returned unchanged. */
  function SetFillColor(p: PathProps, color: string): (r: PathProps)
    ensures r.fill == Some(color) && r.(fill := p.fill) == p
  {
    p.(fill := Some(color))
  }

  function SetStrokeColor(p: PathProps, color: string): (r: PathProps)
    ensures r.stroke == Some(color) && r.(stroke := p.stroke) == p
  {
    p.(stroke := Some(color))
  }

  function SetStrokeWidth(p: PathProps, width: real): (r: PathProps)
    ensures r.strokeWidth == Some(width) && r.(strokeWidth := p.strokeWidth) == p
  {
    p.(strokeWidth := Some(width))
  }

  function SetStrokeLineCap(p: PathProps, cap: LineCap): (r: PathProps)
    ensures r.lineCap == Some(cap) && r.(lineCap := p.lineCap) == p
  {
    p.(lineCap := Some(cap))
  }

  function SetStrokeLineJoin(p: PathProps, join: LineJoin): (r: PathProps)
    ensures r.lineJoin == Some(join) && r.(lineJoin := p.lineJoin) == p
  {
    p.(lineJoin := Some(join))
  }

  /** The last write of an attribute wins, and writes of different attributes commute. */
  lemma SettersCommute(p: PathProps, a: string, b: string, w: real, cap: LineCap, join: LineJoin)
    ensures SetFillColor(SetFillColor(p, a), b) == SetFillColor(p, b)
    ensures SetStrokeColor(SetStrokeColor(p, a), b) == SetStrokeColor(p, b)
    ensures SetFillColor(SetStrokeColor(p, a), b) == SetStrokeColor(SetFillColor(p, b), a)
    ensures SetStrokeWidth(SetStrokeLineCap(p, cap), w) == SetStrokeLineCap(SetStrokeWidth(p, w), cap)
    ensures SetStrokeLineJoin(SetFillColor(p, a), join) == SetFillColor(SetStrokeLineJoin(p, join), a)
  {
  }

  /** A colour that has been set is written, and reads back, under its own name. */
  lemma SetFillRendered(p: PathProps, n: Numerals, color: string)
    ensures Lookup(AttrList(SetFillColor(p, color), n), Fill) == Some(color)
    ensures Lookup(AttrList(SetFillColor(p, color), n), Stroke) == p.stroke
  {
  }

  // ---------------------------------------------------------------- objects

  datatype Object =
    | Circle(center: Point, radius: real, props: PathProps)
    | Polyline(points: seq<Point>, props: PathProps)
    | Text(pos: Point, offset: Point, fontSize: U32, fontFamily: string, fontWeight: string,
           data: string, props: PathProps)

  const NewCircle := Circle(Origin, 1.0, Unset)

  const NewPolyline := Polyline([], Unset)

  const NewText := Text(Origin, Origin, 1, "", "", "", Unset)

  /** Appends a vertex; the earlier vertices and the attributes are kept. */
  function AddPoint(o: Object, p: Point): (r: Object)
    requires o.Polyline?
    ensures r.Polyline? && r.props == o.props
    ensures |r.points| == |o.points| + 1 && r.points[..|o.points|] == o.points && r.points[|o.points|] == p
  {
    o.(points := o.points + [p])
  }

  /** Adding vertices one at a time leaves them in the order they were added. */
  function AddPoints(o: Object, ps: seq<Point>): (r: Object)
    requires o.Polyline?
    ensures r.Polyline? && r.props == o.props
    ensures r.points == o.points + ps
    decreases |ps|
  {
    if ps == [] then o
    else
      var r := AddPoints(AddPoint(o, ps[0]), ps[1..]);
      assert o.points + [ps[0]] + ps[1..] == o.points + ps;
      r
  }

  /** The owner with new path attributes. */
  function WithProps(o: Object, p: PathProps): (r: Object)
    ensures r.props == p && r.(props := o.props) == o
  {
    o.(props := p)
  }

  // ---------------------------------------------------------------- XML character data

  predicate Markup(c: char) {
    c == '"' || c == '\'' || c == '<' || c == '>' || c == '&'
  }

  function EscapeXml(c: char): string {
    if c == '"' then "&quot;"
    else if c == '\'' then "&apos;"
    else if c == '<' then "&lt;"
    else if c == '>' then "&gt;"
    else if c == '&' then "&amp;"
    else [c]
  }

  /** `s` holds `c` at position `i`. */
  predicate At(s: string, i: nat, c: char) {
    i < |s| && s[i] == c
  }

  /** The character an entity at the front of `s` stands for, and the entity's length. */
  function EntityAt(s: string): Option<(char, nat)> {
    if !At(s, 0, '&') then None
    else if At(s, 1, 'q') && At(s, 2, 'u') && At(s, 3, 'o') && At(s, 4, 't') && At(s, 5, ';') then Some(('"', 6))
    else if At(s, 1, 'a') && At(s, 2, 'p') && At(s, 3, 'o') && At(s, 4, 's') && At(s, 5, ';') then Some(('\'', 6))
    else if At(s, 1, 'l') && At(s, 2, 't') && At(s, 3, ';') then Some(('<', 4))
    else if At(s, 1, 'g') && At(s, 2, 't') && At(s, 3, ';') then Some(('>', 4))
    else if At(s, 1, 'a') && At(s, 2, 'm') && At(s, 3, 'p') && At(s, 4, ';') then Some(('&', 5))
    else None
  }

  /** Replaces the five predefined XML entities by their characters. */
  function UnescapeXml(s: string): string
    decreases |s|
  {
    if s == [] then []
    else match EntityAt(s)
      case Some(e) => if |s| < e.1 then s else [e.0] + UnescapeXml(s[e.1..])
      case None => [s[0]] + UnescapeXml(s[1..])
  }

  lemma UnescapeHead(c: char, t: string)
    ensures UnescapeXml(EscapeXml(c) + t) == [c] + UnescapeXml(t)
  {
    var e := EscapeXml(c);
    var s := e + t;
    assert s[|e|..] == t;
    if c == '"' {
      assert s[0] == '&' && s[1] == 'q' && s[2] == 'u' && s[3] == 'o' && s[4] == 't' && s[5] == ';';
    } else if c == '\'' {
      assert s[0] == '&' && s[1] == 'a' && s[2] == 'p' && s[3] == 'o' && s[4] == 's' && s[5] == ';';
    } else if c == '<' {
      assert s[0] == '&' && s[1] == 'l' && s[2] == 't' && s[3] == ';';
    } else if c == '>' {
      assert s[0] == '&' && s[1] == 'g' && s[2] == 't' && s[3] == ';';
    } else if c == '&' {
      assert s[0] == '&' && s[1] == 'a' && s[2] == 'm' && s[3] == 'p' && s[4] == ';';
    } else {
      assert s[0] == c;
    }
  }

  /** No raw double quote, apostrophe or angle bracket. */
  predicate Clean(s: string) {
    forall i | 0 <= i < |s| :: s[i] != '"' && s[i] != '\'' && s[i] != '<' && s[i] != '>'
  }

  lemma CleanAppend(c: char, t: string)
    requires Clean(t)
    ensures Clean(EscapeXml(c) + t)
  {
    var e := EscapeXml(c);
    assert Clean(e);
    assert forall i | 0 <= i < |e + t| :: (e + t)[i] == if i < |e| then e[i] else t[i - |e|];
  }

  /**
   * The text content as written: the five markup characters replaced by their entities,
   * every other character copied in order. The result holds no raw `"`, `'`, `<` or `>`,
   * decoding the entities gives back the text, and text without markup is kept as is.
   */
  function SafeData(data: string): (r: string)
    ensures Clean(r)
    ensures UnescapeXml(r) == data
    ensures (forall i | 0 <= i < |data| :: !Markup(data[i])) ==> r == data
  {
    if data == [] then ""
    else
      var rest := SafeData(data[1..]);
      UnescapeHead(data[0], rest);
      CleanAppend(data[0], rest);
      assert [data[0]] + data[1..] == data;
      EscapeXml(data[0]) + rest
  }

  // ---------------------------------------------------------------- rendering

  /** The output position of an element: an indent step and the current indent. */
  datatype Context = Context(indentStep: int, indent: int)

  /** The context one level deeper: same step, indent advanced by one step. */
  function Indented(c: Context): (r: Context)
    ensures r.indentStep == c.indentStep && r.indent == c.indent + c.indentStep
  {
    Context(c.indentStep, c.indent + c.indentStep)
  }

  function IndentedTimes(c: Context, k: nat): Context {
    if k == 0 then c else Indented(IndentedTimes(c, k - 1))
  }

  lemma {:induction false} IndentedTimesIndent(c: Context, k: nat)
    ensures IndentedTimes(c, k) == Context(c.indentStep, c.indent + k * c.indentStep)
  {
    if k > 0 {
      IndentedTimesIndent(c, k - 1);
    }
  }

  /** One space per unit of indent; a negative indent writes nothing. */
  function RenderIndent(c: Context): (r: string)
    ensures |r| == if c.indent > 0 then c.indent else 0
    ensures forall i | 0 <= i < |r| :: r[i] == ' '
    decreases if c.indent > 0 then c.indent else 0
  {
    if c.indent <= 0 then "" else RenderIndent(c.(indent := c.indent - 1)) + " "
  }

  function PointText(p: Point, n: Numerals): string {
    n.decimal(p.x) + "," + n.decimal(p.y)
  }

  function PointTexts(pts: seq<Point>, n: Numerals): (r: seq<string>)
    ensures |r| == |pts| && forall i | 0 <= i < |pts| :: r[i] == PointText(pts[i], n)
  {
    seq(|pts|, i requires 0 <= i < |pts| => PointText(pts[i], n))
  }

  /** The `points` attribute: each vertex as `x,y`, neighbours separated by one space. */
  function PointsText(pts: seq<Point>, n: Numerals): string {
    if pts == [] then "" else Join(PointTexts(pts, n), ' ')
  }

  lemma {:induction false} JoinSnoc(fs: seq<string>, f: string, sep: char)
    requires |fs| >= 1
    ensures Join(fs + [f], sep) == Join(fs, sep) + [sep] + f
  {
    JoinAppend(fs, [f], sep);
  }

  /** The source's loop over the vertices, writing a space before every vertex but the first. */
  method RenderPoints(pts: seq<Point>, n: Numerals) returns (out: string)
    ensures out == PointsText(pts, n)
  {
    out := "";
    var first := true;
    for k := 0 to |pts|
      invariant first <==> k == 0
      invariant k == 0 ==> out == ""
      invariant k > 0 ==> out == Join(PointTexts(pts[..k], n), ' ')
    {
      if !first {
        out := out + " ";
      }
      if k > 0 {
        assert PointTexts(pts[..k + 1], n) == PointTexts(pts[..k], n) + [PointText(pts[k], n)];
        JoinSnoc(PointTexts(pts[..k], n), PointText(pts[k], n), ' ');
      } else {
        assert PointTexts(pts[..1], n) == [PointText(pts[0], n)];
      }
      out := out + PointText(pts[k], n);
      first := false;
    }
    assert pts[..|pts|] == pts;
  }

  /**
   * The vertex list cut at its spaces gives back one `x,y` field per vertex, in order, when
   * the number texts hold no space.
   */
  lemma PointsRoundTrip(pts: seq<Point>, n: Numerals)
    requires pts != []
    requires forall x: real :: ' ' !in n.decimal(x)
    ensures Fields(PointsText(pts, n), ' ') == PointTexts(pts, n)
  {
    var fs := PointTexts(pts, n);
    forall i | 0 <= i < |fs| ensures ' ' !in fs[i] {
      assert ' ' !in n.decimal(pts[i].x) && ' ' !in n.decimal(pts[i].y);
    }
    FieldsOfJoin(fs, ' ');
  }

  /** With non-empty, space-free number texts the vertex list has no leading or trailing space. */
  lemma PointsTrimmed(pts: seq<Point>, n: Numerals)
    requires pts != []
    requires forall x: real :: ' ' !in n.decimal(x) && n.decimal(x) != []
    ensures PointsText(pts, n)[0] != ' '
    ensures PointsText(pts, n)[|PointsText(pts, n)| - 1] != ' '
  {
    var fs := PointTexts(pts, n);
    var first := n.decimal(pts[0].x);
    var last := n.decimal(pts[|pts| - 1].y);
    assert ' ' !in first && first != [] && ' ' !in last && last != [];
    assert fs[0] == first + "," + n.decimal(pts[0].y);
    assert fs[0][0] == first[0];
    var lf := fs[|fs| - 1];
    assert lf == n.decimal(pts[|pts| - 1].x) + "," + last;
    assert lf[|lf| - 1] == last[|last| - 1];
    JoinFirst(fs, ' ');
    JoinLast(fs, ' ');
    assert first[0] in first && last[|last| - 1] in last;
  }

  lemma JoinFirst(fs: seq<string>, sep: char)
    requires |fs| >= 1 && fs[0] != []
    ensures Join(fs, sep)[0] == fs[0][0]
  {
  }

  lemma {:induction false} JoinLast(fs: seq<string>, sep: char)
    requires |fs| >= 1 && fs[|fs| - 1] != []
    ensures Join(fs, sep)[|Join(fs, sep)| - 1] == fs[|fs| - 1][|fs[|fs| - 1]| - 1]
  {
    if |fs| > 1 {
      JoinLast(fs[1..], sep);
    }
  }

  /** The element's own markup, without indent or line end. */
  function RenderObject(o: Object, n: Numerals): string {
    match o
      case Circle(c, radius, p) =>
        "<circle cx=\"" + n.decimal(c.x) + "\" cy=\"" + n.decimal(c.y) + "\" "
        + "r=\"" + n.decimal(radius) + "\" " + RenderAttrs(p, n) + "/>"
      case Polyline(pts, p) =>
        "<polyline points=\"" + PointsText(pts, n) + "\"" + RenderAttrs(p, n) + "/>"
      case Text(_, _, _, _, _, data, _) =>
        TextOpen(o, n) + ">" + SafeData(data) + "</text>"
  }

  /** The opening `text` tag up to its closing `>`: attributes, position, offset and font. */
  function TextOpen(o: Object, n: Numerals): string
    requires o.Text?
  {
    "<text" + RenderAttrs(o.props, n)
    + " x=\"" + n.decimal(o.pos.x) + "\" " + "y=\"" + n.decimal(o.pos.y) + "\""
    + " dx=\"" + n.decimal(o.offset.x) + "\" " + "dy=\"" + n.decimal(o.offset.y) + "\""
    + " font-size=\"" + n.whole(o.fontSize) + "\""
    + (if o.fontFamily != [] then " font-family=\"" + o.fontFamily + "\"" else "")
    + (if o.fontWeight != [] then " font-weight=\"" + o.fontWeight + "\"" else "")
  }

  /**
   * A text element ends with `>`, its content and the closing tag; the content holds no raw
   * markup character and decodes to the element's text.
   */
  lemma TextEnds(o: Object, n: Numerals)
    requires o.Text?
    ensures var r := RenderObject(o, n);
      var k := |SafeData(o.data)|;
      |r| >= k + 8 && r[|r| - 7..] == "</text>" && r[|r| - 8 - k] == '>'
      && Clean(r[|r| - 7 - k..|r| - 7]) && UnescapeXml(r[|r| - 7 - k..|r| - 7]) == o.data
  {
    var head := TextOpen(o, n) + ">";
    var body := SafeData(o.data);
    var r := RenderObject(o, n);
    assert r == head + body + "</text>";
    assert r[|r| - 7..] == "</text>";
    assert r[|r| - 8 - |body|] == head[|head| - 1] == '>';
    assert r[|r| - 7 - |body|..|r| - 7] == body;
  }

  /** An element on its own line at the context's indent. */
  function Render(o: Object, n: Numerals, c: Context): string {
    RenderIndent(c) + RenderObject(o, n) + "\n"
  }

  // ---------------------------------------------------------------- document

  type Document = seq<Object>

  /** Takes ownership of one more object, after all those added before. */
  function AddPtr(doc: Document, o: Object): (r: Document)
    ensures |r| == |doc| + 1 && r[..|doc|] == doc && r[|doc|] == o
  {
    doc + [o]
  }

  const XmlDecl := "<?xml version=\"1.0\" encoding=\"UTF-8\" ?>"

  const SvgTag := "<svg xmlns=\"http://www.w3.org/2000/svg\""

  const SvgVersion := " version=\"1.1\">"

  const SvgOpen := SvgTag + SvgVersion

  const SvgClose := "</svg>"

  /** Texts written one after another. */
  function Concat(texts: seq<string>): string {
    if texts == [] then "" else texts[0] + Concat(texts[1..])
  }

  /** Every object rendered at indent 0 on its own line, in the order they were added. */
  function ObjectLines(doc: Document, n: Numerals): (r: seq<string>)
    ensures |r| == |doc| && forall i | 0 <= i < |doc| :: r[i] == Render(doc[i], n, Context(0, 0))
  {
    seq(|doc|, i requires 0 <= i < |doc| => Render(doc[i], n, Context(0, 0)))
  }

  function RenderDocument(doc: Document, n: Numerals): string {
    XmlDecl + "\n" + SvgOpen + "\n" + Concat(ObjectLines(doc, n)) + SvgClose
  }

  function ObjectTexts(doc: Document, n: Numerals): (r: seq<string>)
    ensures |r| == |doc| && forall i | 0 <= i < |doc| :: r[i] == RenderObject(doc[i], n)
  {
    seq(|doc|, i requires 0 <= i < |doc| => RenderObject(doc[i], n))
  }

  /** Texts each ending in a line break, then a last text: the texts joined by line breaks. */
  lemma {:induction false} TerminatedLines(lines: seq<string>, texts: seq<string>, z: string)
    requires |lines| == |texts|
    requires forall i | 0 <= i < |lines| :: lines[i] == texts[i] + "\n"
    ensures Concat(lines) + z == Join(texts + [z], '\n')
  {
    if lines == [] {
      assert texts + [z] == [z];
    } else {
      TerminatedLines(lines[1..], texts[1..], z);
      assert texts + [z] == [texts[0]] + (texts[1..] + [z]);
    }
  }

  /** Two header lines in front of a body that ends with the last line. */
  lemma HeaderLines(a: string, b: string, body: string, texts: seq<string>, z: string)
    requires body + z == Join(texts + [z], '\n')
    ensures a + "\n" + b + "\n" + body + z == Join([a, b] + texts + [z], '\n')
  {
    var rest := texts + [z];
    assert [a, b] + texts + [z] == [a] + ([b] + rest);
    assert ([a] + ([b] + rest))[1..] == [b] + rest;
    assert ([b] + rest)[1..] == rest;
  }

  lemma DocumentJoined(doc: Document, n: Numerals)
    ensures RenderDocument(doc, n) == Join([XmlDecl, SvgOpen] + ObjectTexts(doc, n) + [SvgClose], '\n')
  {
    LinesOfObjects(doc, n);
    TerminatedLines(ObjectLines(doc, n), ObjectTexts(doc, n), SvgClose);
    HeaderLines(XmlDecl, SvgOpen, Concat(ObjectLines(doc, n)), ObjectTexts(doc, n), SvgClose);
  }

  lemma LinesOfObjects(doc: Document, n: Numerals)
    ensures forall i | 0 <= i < |doc| :: ObjectLines(doc, n)[i] == ObjectTexts(doc, n)[i] + "\n"
  {
    forall i | 0 <= i < |doc| ensures ObjectLines(doc, n)[i] == ObjectTexts(doc, n)[i] + "\n" {
      RenderAtTop(doc[i], n);
    }
  }

  /** At indent 0 an element is its markup and a line break. */
  lemma RenderAtTop(o: Object, n: Numerals)
    ensures Render(o, n, Context(0, 0)) == RenderObject(o, n) + "\n"
  {
    assert RenderIndent(Context(0, 0)) == "";
  }

  predicate NoBreak(s: string) {
    forall i | 0 <= i < |s| :: s[i] != '\n'
  }

  lemma NoBreakAppend(a: string, b: string)
    requires NoBreak(a) && NoBreak(b)
    ensures NoBreak(a + b)
  {
    assert forall i | 0 <= i < |a + b| :: (a + b)[i] == if i < |a| then a[i] else b[i - |a|];
  }

  lemma HeaderHasNoBreaks()
    ensures '\n' !in XmlDecl && '\n' !in SvgOpen && '\n' !in SvgClose
  {
    assert NoBreak(XmlDecl) && NoBreak(SvgTag) && NoBreak(SvgVersion) && NoBreak(SvgClose);
    NoBreakAppend(SvgTag, SvgVersion);
  }

  /**
   * The document read line by line: the XML declaration, the opening `svg` tag, one line
   * per object in insertion order, and the closing tag, when no object's markup holds a
   * line break.
   */
  lemma DocumentLines(doc: Document, n: Numerals)
    requires forall i | 0 <= i < |doc| :: '\n' !in RenderObject(doc[i], n)
    ensures Fields(RenderDocument(doc, n), '\n') == [XmlDecl, SvgOpen] + ObjectTexts(doc, n) + [SvgClose]
  {
    var texts := ObjectTexts(doc, n);
    DocumentJoined(doc, n);
    HeaderHasNoBreaks();
    FramedLines(XmlDecl, SvgOpen, texts, SvgClose);
    FieldsOfJoin([XmlDecl, SvgOpen] + texts + [SvgClose], '\n');
  }

  lemma FramedLines(a: string, b: string, texts: seq<string>, z: string)
    requires '\n' !in a && '\n' !in b && '\n' !in z
    requires forall i | 0 <= i < |texts| :: '\n' !in texts[i]
    ensures forall i | 0 <= i < |[a, b] + texts + [z]| :: '\n' !in ([a, b] + texts + [z])[i]
  {
    var lines := [a, b] + texts + [z];
    forall i | 0 <= i < |lines| ensures '\n' !in lines[i] {
      if 2 <= i < |lines| - 1 {
        assert lines[i] == texts[i - 2];
      }
    }
  }

  lemma {:induction false} ConcatSnoc(texts: seq<string>, t: string)
    ensures Concat(texts + [t]) == Concat(texts) + t
  {
    if texts != [] {
      assert (texts + [t])[1..] == texts[1..] + [t];
      ConcatSnoc(texts[1..], t);
    }
  }

  /** Adding an object writes it after everything added before and before the closing tag. */
  lemma BodyAppend(doc: Document, o: Object, n: Numerals)
    ensures Concat(ObjectLines(AddPtr(doc, o), n)) == Concat(ObjectLines(doc, n)) + Render(o, n, Context(0, 0))
  {
    var lines := ObjectLines(AddPtr(doc, o), n);
    assert lines[..|doc|] == ObjectLines(doc, n);
    assert lines == lines[..|doc|] + [lines[|doc|]];
    ConcatSnoc(ObjectLines(doc, n), Render(o, n, Context(0, 0)));
  }

  // ---------------------------------------------------------------- shapes

  /** A triangle draws one closed polyline: its three corners and the first corner again. */
  function DrawTriangle(container: Document, p1: Point, p2: Point, p3: Point): (r: Document)
    ensures |r| == |container| + 1 && r[..|container|] == container
    ensures r[|container|].Polyline? && r[|container|].props == Unset
    ensures r[|container|].points == [p1, p2, p3, p1]
  {
    var line := AddPoint(AddPoint(AddPoint(AddPoint(NewPolyline, p1), p2), p3), p1);
    AddPtr(container, line)
  }
}
