/**
 * The hand-written JSON reader: a recursive-descent parser over a character
 * sequence with the reader's own quirks (nulls vanish from arrays, the first
 * value of a duplicated key wins, booleans are read up to the first `e`),
 * the node accessors, and the string printer.
 *
 * A parser state is a position `p` into the whole input `s`; every parsing
 * function returns the value read and the position just after it.
 */
module Json {
  import opened Wrappers
  import opened Text

  /** A JSON value. A dictionary is an ordered `std::map`, modelled as a map. */
  datatype Node =
    | Null
    | Array(elems: seq<Node>)
    | Dict(fields: map<string, Node>)
    | Bool(bval: bool)
    | Int(ival: int)
    | Double(dval: real)
    | Str(sval: string)

  /** What encloses the value being read: it decides whether a closing bracket is an error. */
  datatype Parent = InArray | InMap | NotOpening

  // ---------------------------------------------------------------------------
  // Reading characters
  // ---------------------------------------------------------------------------

  /**
   * The character under the cursor. Dereferencing the stream iterator at the
   * end of input yields the end-of-file value, which equals no character the
   * parser compares against: that is `None` here.
   */
  function Peek(s: string, p: nat): (r: Option<char>)
    ensures r.Some? <==> p < |s|
    ensures r.Some? ==> r.value == s[p]
  {
    if p < |s| then Some(s[p]) else None
  }

  /** Advancing the iterator; at the end of input it stays there. */
  function Next(s: string, p: nat): (q: nat)
    requires p <= |s|
    ensures q <= |s|
    ensures p < |s| ==> q == p + 1
    ensures p == |s| ==> q == p
  {
    if p < |s| then p + 1 else p
  }

  /** The whitespace skipped before a value: tab, carriage return, line feed and space. */
  predicate IgnoreChar(c: char) {
    c == '\t' || c == '\r' || c == '\n' || c == ' '
  }

  predicate IsDigit(c: char) {
    '0' <= c <= '9'
  }

  predicate AllDigits(ds: string) {
    forall i | 0 <= i < |ds| :: IsDigit(ds[i])
  }

  /** `w` occurs in `s` starting at position `p`. */
  predicate OccursAt(w: string, s: string, p: nat) {
    p + |w| <= |s| && s[p..p + |w|] == w
  }

  /** The first position at or after `p` holding one of `stops`, or the end of input. */
  function ScanTo(s: string, p: nat, stops: set<char>): (q: nat)
    requires p <= |s|
    ensures p <= q <= |s|
    ensures forall k | p <= k < q :: s[k] !in stops
    ensures q < |s| ==> s[q] in stops
    decreases |s| - p
  {
    if p == |s| || s[p] in stops then p else ScanTo(s, p + 1, stops)
  }

  // ---------------------------------------------------------------------------
  // Strings
  // ---------------------------------------------------------------------------

  /** The character an escape `\c` stands for, if `c` is one of the five recognised escapes. */
  function Unescape(c: char): (r: Option<char>)
    ensures r.Some? <==> c in {'n', 't', 'r', '"', '\\'}
  {
    match c
    case 'n' => Some('\n')
    case 't' => Some('\t')
    case 'r' => Some('\r')
    case '"' => Some('"')
    case '\\' => Some('\\')
    case _ => None
  }

  /**
   * The body of a string literal from position `p`, after the opening quote,
   * with `acc` decoded so far. Returns the decoded text and the position after
   * the closing quote.
   */
  function LoadStringFrom(s: string, p: nat, acc: string): (r: Result<(string, nat)>)
    requires p <= |s|
    ensures r.Success? ==> p < r.value.1 <= |s| && s[r.value.1 - 1] == '"'
    ensures r.Success? ==> forall k | p <= k < r.value.1 :: s[k] != '\n' && s[k] != '\r'
    ensures r.Success? ==> acc <= r.value.0
    decreases |s| - p
  {
    if p == |s| then Failure("String parsing error")
    else if s[p] == '"' then Success((acc, p + 1))
    else if s[p] == '\\' then
      if p + 1 == |s| then Failure("String parsing error")
      else match Unescape(s[p + 1])
        case Some(c) => LoadStringFrom(s, p + 2, acc + [c])
        case None => Failure("Unrecognized escape sequence \\" + [s[p + 1]])
    else if s[p] == '\n' || s[p] == '\r' then Failure("Unexpected end of line")
    else LoadStringFrom(s, p + 1, acc + [s[p]])
  }

  /** A string literal whose opening quote has been consumed; `p` is just after it. */
  function LoadString(s: string, p: nat): (r: Result<(string, nat)>)
    requires p <= |s|
    ensures r.Success? ==> p < r.value.1 <= |s| && s[r.value.1 - 1] == '"'
    ensures r.Success? ==> forall k | p <= k < r.value.1 :: s[k] != '\n' && s[k] != '\r'
  {
    LoadStringFrom(s, p, "")
  }

  /** A character that stands for itself inside a literal. */
  predicate Plain(c: char) {
    c != '"' && c != '\\' && c != '\n' && c != '\r'
  }

  /** How the printer writes one character of a string. */
  function EscapeChar(c: char): (r: string)
    ensures |r| == 1 <==> Plain(c)
    ensures |r| == 1 ==> r == [c]
    ensures |r| == 2 ==> r[0] == '\\' && Unescape(r[1]) == Some(c)
  {
    if c == '\r' then "\\r"
    else if c == '\n' then "\\n"
    else if c == '\\' then "\\\\"
    else if c == '"' then "\\\""
    else [c]
  }

  function Escape(t: string): string {
    if t == [] then [] else EscapeChar(t[0]) + Escape(t[1..])
  }

  /** Printing a string node: the escaped text between double quotes. */
  function PrintString(t: string): (r: string)
    ensures |r| >= 2 && r[0] == '"' && r[|r| - 1] == '"'
  {
    "\"" + Escape(t) + "\""
  }

  /** A word made of two parts occurs where its first part occurs and the second part follows. */
  lemma OccursAtSplit(u: string, v: string, s: string, p: nat)
    requires OccursAt(u + v, s, p)
    ensures OccursAt(u, s, p) && OccursAt(v, s, p + |u|)
  {
    assert s[p..p + |u|] == (u + v)[..|u|];
    assert s[p + |u|..p + |u| + |v|] == (u + v)[|u|..];
  }

  /** The escaped text of `t` at `p`, closed by a quote at `q`, loads as `t` appended to what was decoded so far. */
  lemma {:induction false} EscapedBodyLoads(s: string, p: nat, q: nat, t: string, acc: string)
    requires OccursAt(Escape(t), s, p) && q == p + |Escape(t)|
    requires q < |s| && s[q] == '"'
    ensures LoadStringFrom(s, p, acc) == Success((acc + t, q + 1))
    decreases |t|
  {
    if t == [] {
      ClosingQuoteLoads(s, q, acc);
      assert acc + t == acc;
    } else {
      var e := EscapeChar(t[0]);
      OccursAtSplit(e, Escape(t[1..]), s, p);
      EscapedCharLoads(s, p, t[0], acc);
      EscapedBodyLoads(s, p + |e|, q, t[1..], acc + [t[0]]);
      HeadAppended(acc, t);
    }
  }

  /** A closing quote ends the literal with what was decoded so far. */
  lemma ClosingQuoteLoads(s: string, q: nat, acc: string)
    requires q < |s| && s[q] == '"'
    ensures LoadStringFrom(s, q, acc) == Success((acc, q + 1))
  {
  }

  lemma HeadAppended(acc: string, t: string)
    requires t != []
    ensures acc + [t[0]] + t[1..] == acc + t
  {
    assert [t[0]] + t[1..] == t;
  }

  /** One escaped character at `p` decodes to itself and moves past its one or two characters. */
  lemma EscapedCharLoads(s: string, p: nat, c: char, acc: string)
    requires OccursAt(EscapeChar(c), s, p)
    ensures LoadStringFrom(s, p, acc) == LoadStringFrom(s, p + |EscapeChar(c)|, acc + [c])
  {
    WordAt(EscapeChar(c), s, p);
  }

  /** Loading what the printer wrote gives back the original string, and consumes exactly the literal. */
  lemma StringRoundTrip(t: string, rest: string)
    ensures LoadString(PrintString(t) + rest, 1) == Success((t, |PrintString(t)|))
  {
    Pieces4("\"", Escape(t), "\"", rest);
    EscapedBodyLoads(PrintString(t) + rest, 1, 1 + |Escape(t)|, t, "");
    assert "" + t == t;
  }

  /** A run of plain characters is copied through unchanged. */
  lemma {:induction false} PlainRunCopied(s: string, p: nat, q: nat, acc: string)
    requires p <= q <= |s|
    requires forall k | p <= k < q :: Plain(s[k])
    ensures LoadStringFrom(s, p, acc) == LoadStringFrom(s, q, acc + s[p..q])
    decreases q - p
  {
    if p < q {
      PlainRunCopied(s, p + 1, q, acc + [s[p]]);
      assert acc + [s[p]] + s[p + 1..q] == acc + s[p..q];
    } else {
      assert acc + s[p..q] == acc;
    }
  }

  /** A backslash that ends the input, or starts an escape other than the five recognised ones, makes the literal fail. */
  lemma BadEscapeFails(s: string, p: nat, q: nat)
    requires p <= q < |s|
    requires forall k | p <= k < q :: Plain(s[k])
    requires s[q] == '\\'
    requires q + 1 == |s| || s[q + 1] !in {'n', 't', 'r', '"', '\\'}
    ensures LoadString(s, p).Failure?
  {
    PlainRunCopied(s, p, q, "");
  }

  // ---------------------------------------------------------------------------
  // Literals
  // ---------------------------------------------------------------------------

  /** `true` or `false`: characters are read up to the first `e`, which must follow "tru" or "fals". */
  function LoadBool(s: string, p: nat): (r: Result<(Node, nat)>)
    requires p <= |s|
    ensures r.Success? <==> OccursAt("true", s, p) || OccursAt("false", s, p)
    ensures OccursAt("true", s, p) ==> r == Success((Bool(true), p + 4))
    ensures OccursAt("false", s, p) ==> r == Success((Bool(false), p + 5))
  {
    var q := ScanTo(s, p, {'e'});
    BoolWordEnds(s, p);
    if q < |s| then
      if s[p..q] == "tru" then Success((Bool(true), q + 1))
      else if s[p..q] == "fals" then Success((Bool(false), q + 1))
      else Failure("Bool parsing error")
    else Failure("Bool parsing error")
  }

  /** The characters of a word that occurs at `p`, one by one. */
  lemma WordAt(w: string, s: string, p: nat)
    requires OccursAt(w, s, p)
    ensures forall k | p <= k < p + |w| :: s[k] == w[k - p]
  {
    forall k | p <= k < p + |w| ensures s[k] == w[k - p] {
      assert s[k] == s[p..p + |w|][k - p];
    }
  }

  /** The scan stops at `q` when nothing before it and something at it is a stop character. */
  lemma {:induction false} ScanToIs(s: string, p: nat, q: nat, stops: set<char>)
    requires p <= q <= |s|
    requires forall k | p <= k < q :: s[k] !in stops
    requires q == |s| || s[q] in stops
    ensures ScanTo(s, p, stops) == q
    decreases q - p
  {
    if p < q {
      ScanToIs(s, p + 1, q, stops);
    }
  }

  /** A word ending in its only `e` is scanned up to that `e`, and what precedes it is the word's stem. */
  lemma WordEnds(w: string, s: string, p: nat)
    requires |w| >= 1 && w[|w| - 1] == 'e' && forall k | 0 <= k < |w| - 1 :: w[k] != 'e'
    requires OccursAt(w, s, p)
    ensures ScanTo(s, p, {'e'}) == p + |w| - 1 && s[p..p + |w| - 1] == w[..|w| - 1]
  {
    WordAt(w, s, p);
    ScanToIs(s, p, p + |w| - 1, {'e'});
  }

  /** A scan that stops on an `e` right after a word's stem has found the whole word. */
  lemma StemEnds(w: string, s: string, p: nat)
    requires |w| >= 1 && w[|w| - 1] == 'e' && p <= |s|
    requires var q := ScanTo(s, p, {'e'}); q < |s| && s[p..q] == w[..|w| - 1]
    ensures OccursAt(w, s, p)
  {
    var q := ScanTo(s, p, {'e'});
    assert s[p..q + 1] == s[p..q] + [s[q]];
    assert w == w[..|w| - 1] + [w[|w| - 1]];
  }

  /** Where the scan for `e` stops on the two boolean words, and what a stop after "tru"/"fals" means. */
  lemma BoolWordEnds(s: string, p: nat)
    requires p <= |s|
    ensures OccursAt("true", s, p) ==> ScanTo(s, p, {'e'}) == p + 3 && s[p..p + 3] == "tru"
    ensures OccursAt("false", s, p) ==> ScanTo(s, p, {'e'}) == p + 4 && s[p..p + 4] == "fals"
    ensures var q := ScanTo(s, p, {'e'});
      q < |s| ==> (s[p..q] == "tru" ==> OccursAt("true", s, p)) && (s[p..q] == "fals" ==> OccursAt("false", s, p))
  {
    var q := ScanTo(s, p, {'e'});
    if OccursAt("true", s, p) {
      WordEnds("true", s, p);
    }
    if OccursAt("false", s, p) {
      WordEnds("false", s, p);
    }
    if q < |s| && s[p..q] == "tru" {
      StemEnds("true", s, p);
    }
    if q < |s| && s[p..q] == "fals" {
      StemEnds("false", s, p);
    }
  }

  /** `null`: characters are read up to a space, a comma or the end, and must spell exactly "null". */
  function LoadNull(s: string, p: nat): (r: Result<(Node, nat)>)
    requires p <= |s|
    ensures r.Success? <==> OccursAt("null", s, p) && (p + 4 == |s| || s[p + 4] in {' ', ','})
    ensures r.Success? ==> r.value == (Null, p + 4)
  {
    var q := ScanTo(s, p, {' ', ','});
    NullWordEnds(s, p);
    if s[p..q] == "null" then Success((Null, q)) else Failure("Null parsing error")
  }

  lemma NullWordEnds(s: string, p: nat)
    requires p <= |s|
    ensures var q := ScanTo(s, p, {' ', ','});
      s[p..q] == "null" <==> OccursAt("null", s, p) && (p + 4 == |s| || s[p + 4] in {' ', ','})
  {
    var q := ScanTo(s, p, {' ', ','});
    if OccursAt("null", s, p) && (p + 4 == |s| || s[p + 4] in {' ', ','}) {
      assert s[p] == 'n' && s[p + 1] == 'u' && s[p + 2] == 'l' && s[p + 3] == 'l';
      assert q == p + 4;
    }
  }

  // ---------------------------------------------------------------------------
  // Numbers
  // ---------------------------------------------------------------------------

  /** The exponent part of a number: the marker `e` or `E`, an optional sign, digits. */
  datatype Exponent = Exponent(marker: char, sign: Option<char>, digits: string)

  /**
   * The text of a number as the lexer splits it: an optional minus, the whole
   * part, an optional fraction (the digits after `.`) and an optional exponent.
   */
  datatype NumberText = NumberText(negative: bool, whole: string, fraction: Option<string>, exponent: Option<Exponent>)

  /** The number grammar: `-`? (`0` | digits), (`.` digits)?, ((`e`|`E`) (`+`|`-`)? digits)?. */
  ghost predicate WellFormedNumber(n: NumberText) {
    && WellFormedWhole(n.whole)
    && (n.fraction.Some? ==> |n.fraction.value| >= 1 && AllDigits(n.fraction.value))
    && (n.exponent.Some? ==> WellFormedExponent(n.exponent.value))
  }

  /** A lone zero, or digits that do not start with zero. */
  ghost predicate WellFormedWhole(ds: string) {
    ds == "0" || (|ds| >= 1 && AllDigits(ds) && ds[0] != '0')
  }

  ghost predicate WellFormedExponent(e: Exponent) {
    && e.marker in {'e', 'E'}
    && (e.sign.Some? ==> e.sign.value in {'+', '-'})
    && |e.digits| >= 1 && AllDigits(e.digits)
  }

  function FractionText(f: Option<string>): string {
    if f.Some? then "." + f.value else ""
  }

  function OptExponentText(x: Option<Exponent>): string {
    if x.Some? then ExponentText(x.value) else ""
  }

  function ExponentText(e: Exponent): string {
    [e.marker] + (if e.sign.Some? then [e.sign.value] else []) + e.digits
  }

  /** The characters a number was read from. */
  function NumberChars(n: NumberText): string {
    SignText(n)
    + n.whole
    + FractionText(n.fraction)
    + OptExponentText(n.exponent)
  }

  /** A number is integral exactly when it has neither a fraction nor an exponent. */
  predicate Integral(n: NumberText) {
    n.fraction.None? && n.exponent.None?
  }

  /** The end of the run of digits starting at `p`. */
  function DigitRunEnd(s: string, p: nat): (q: nat)
    requires p <= |s|
    ensures p <= q <= |s|
    ensures AllDigits(s[p..q])
    ensures q == |s| || !IsDigit(s[q])
    decreases |s| - p
  {
    if p < |s| && IsDigit(s[p]) then DigitRunEnd(s, p + 1) else p
  }

  /** One or more digits; a missing first digit (or the end of input) is an error. */
  function ReadDigits(s: string, p: nat): (r: Result<nat>)
    requires p <= |s|
    ensures r.Success? <==> p < |s| && IsDigit(s[p])
    ensures r.Success? ==> p < r.value <= |s| && AllDigits(s[p..r.value])
    ensures r.Success? ==> r.value == |s| || !IsDigit(s[r.value])
  {
    if p < |s| && IsDigit(s[p]) then Success(DigitRunEnd(s, p)) else Failure("A digit is expected")
  }

  /** The whole part at `p`: a zero stands alone, anything else must be a run of digits. */
  function LexWhole(s: string, p: nat): (r: Result<nat>)
    requires p <= |s|
    ensures r.Success? ==> p < r.value <= |s| && WellFormedWhole(s[p..r.value])
    ensures r.Success? <==> p < |s| && IsDigit(s[p])
  {
    if p < |s| && s[p] == '0' then
      assert s[p..p + 1] == "0";
      Success(p + 1)
    else ReadDigits(s, p)
  }

  /** The optional fraction after the whole part at `p`. */
  function LexFraction(s: string, p: nat): (r: Result<(Option<string>, nat)>)
    requires p <= |s|
    ensures r.Success? ==> p <= r.value.1 <= |s|
    ensures r.Success? ==> s[p..r.value.1] == FractionText(r.value.0)
    ensures r.Success? && r.value.0.Some? ==> |r.value.0.value| >= 1 && AllDigits(r.value.0.value)
    ensures r.Failure? <==> p < |s| && s[p] == '.' && (p + 1 == |s| || !IsDigit(s[p + 1]))
  {
    if p < |s| && s[p] == '.' then
      var e :- ReadDigits(s, p + 1);
      assert s[p..e] == [s[p]] + s[p + 1..e];
      Success((Some(s[p + 1..e]), e))
    else Success((None, p))
  }

  /** The optional exponent at `p`; after the marker and sign, at least one digit is required. */
  function LexExponent(s: string, p: nat): (r: Result<(Option<Exponent>, nat)>)
    requires p <= |s|
    ensures r.Success? ==> p <= r.value.1 <= |s|
    ensures r.Success? ==> s[p..r.value.1] == OptExponentText(r.value.0)
    ensures r.Success? && r.value.0.Some? ==> WellFormedExponent(r.value.0.value)
  {
    if p < |s| && (s[p] == 'e' || s[p] == 'E') then
      var sign := if p + 1 < |s| && (s[p + 1] == '+' || s[p + 1] == '-') then Some(s[p + 1]) else None;
      var d := if sign.Some? then p + 2 else p + 1;
      var e :- ReadDigits(s, d);
      var x := Exponent(s[p], sign, s[d..e]);
      ExponentChars(s, p, d, e, sign);
      Success((Some(x), e))
    else Success((None, p))
  }

  /** The characters from the marker at `p` to `e`: marker, optional sign, then the digits from `d`. */
  lemma ExponentChars(s: string, p: nat, d: nat, e: nat, sign: Option<char>)
    requires p < d <= e <= |s|
    requires sign.Some? ==> d == p + 2 && s[p + 1] == sign.value
    requires sign.None? ==> d == p + 1
    ensures s[p..e] == ExponentText(Exponent(s[p], sign, s[d..e]))
  {
    assert s[p..e] == [s[p]] + s[p + 1..d] + s[d..e];
  }

  /** The lexical part of reading a number that starts at `p`. */
  function LexNumber(s: string, p: nat): (r: Result<(NumberText, nat)>)
    requires p <= |s|
    ensures r.Success? ==> p < r.value.1 <= |s|
    ensures r.Success? ==> WellFormedNumber(r.value.0) && s[p..r.value.1] == NumberChars(r.value.0)
  {
    var negative := p < |s| && s[p] == '-';
    var w := if negative then p + 1 else p;
    assert s[p..w] == (if negative then "-" else "");
    var wEnd :- LexWhole(s, w);
    var f :- LexFraction(s, wEnd);
    var x :- LexExponent(s, f.1);
    var n := NumberText(negative, s[w..wEnd], f.0, x.0);
    NumberCharsSplit(s, p, w, wEnd, f.1, x.1, n);
    Success((n, x.1))
  }

  lemma NumberCharsSplit(s: string, p: nat, w: nat, a: nat, b: nat, c: nat, n: NumberText)
    requires p <= w <= a <= b <= c <= |s|
    requires s[p..w] == (if n.negative then "-" else "")
    requires s[w..a] == n.whole
    requires s[a..b] == FractionText(n.fraction)
    requires s[b..c] == OptExponentText(n.exponent)
    ensures s[p..c] == NumberChars(n)
  {
    assert s[p..c] == s[p..w] + s[w..a] + s[a..b] + s[b..c];
  }

  /** A character that would extend a number if it followed one. */
  predicate Delimits(rest: string) {
    rest == [] || !(IsDigit(rest[0]) || rest[0] in {'.', 'e', 'E'})
  }

  lemma {:induction false} DigitRunEndIs(s: string, p: nat, q: nat)
    requires p <= q <= |s|
    requires forall k | p <= k < q :: IsDigit(s[k])
    requires q == |s| || !IsDigit(s[q])
    ensures DigitRunEnd(s, p) == q
    decreases q - p
  {
    if p < q {
      DigitRunEndIs(s, p + 1, q);
    }
  }

  lemma WholeRoundTrip(s: string, p: nat, whole: string)
    requires WellFormedWhole(whole)
    requires OccursAt(whole, s, p)
    requires whole != "0" ==> p + |whole| == |s| || !IsDigit(s[p + |whole|])
    ensures LexWhole(s, p) == Success(p + |whole|)
  {
    WordAt(whole, s, p);
    if whole != "0" {
      DigitRunEndIs(s, p, p + |whole|);
    }
  }

  lemma FractionRoundTrip(s: string, p: nat, f: Option<string>)
    requires f.Some? ==> |f.value| >= 1 && AllDigits(f.value)
    requires OccursAt(FractionText(f), s, p)
    requires var q := p + |FractionText(f)|;
      if f.Some? then q == |s| || !IsDigit(s[q]) else q == |s| || s[q] != '.'
    ensures LexFraction(s, p) == Success((f, p + |FractionText(f)|))
  {
    if f.Some? {
      var q := p + |FractionText(f)|;
      assert s[p] == '.';
      forall k | p + 1 <= k < q
        ensures IsDigit(s[k])
      {
        assert s[k] == FractionText(f)[k - p] == f.value[k - p - 1];
      }
      DigitRunEndIs(s, p + 1, q);
      assert s[p + 1..q] == FractionText(f)[1..] == f.value;
    }
  }

  lemma ExponentRoundTrip(s: string, p: nat, x: Option<Exponent>)
    requires x.Some? ==> WellFormedExponent(x.value)
    requires OccursAt(OptExponentText(x), s, p)
    requires var q := p + |OptExponentText(x)|;
      if x.Some? then q == |s| || !IsDigit(s[q]) else q == |s| || s[q] !in {'e', 'E'}
    ensures LexExponent(s, p) == Success((x, p + |OptExponentText(x)|))
  {
    if x.Some? {
      var e := x.value;
      var t := OptExponentText(x);
      var q := p + |t|;
      var d := if e.sign.Some? then p + 2 else p + 1;
      assert s[p] == t[0] == e.marker;
      assert t == [e.marker] + (if e.sign.Some? then [e.sign.value] else []) + e.digits;
      if e.sign.Some? {
        assert s[p + 1] == t[1] == e.sign.value;
      } else {
        assert s[p + 1] == t[1] == e.digits[0];
      }
      assert d + |e.digits| == q;
      forall k | d <= k < q
        ensures IsDigit(s[k])
      {
        assert s[k] == t[k - p] == e.digits[k - d];
      }
      DigitRunEndIs(s, d, q);
      assert s[d..q] == t[d - p..] == e.digits;
    }
  }

  /** How `LexNumber` composes its three parts. */
  lemma LexNumberParts(s: string, w: nat, a: nat, f: Option<string>, b: nat, x: Option<Exponent>, c: nat)
    requires w <= |s|
    requires w == 1 <==> (|s| > 0 && s[0] == '-')
    requires w == 0 || w == 1
    requires LexWhole(s, w) == Success(a)
    requires LexFraction(s, a) == Success((f, b))
    requires LexExponent(s, b) == Success((x, c))
    ensures LexNumber(s, 0) == Success((NumberText(w == 1, s[w..a], f, x), c))
  {
  }

  function SignText(n: NumberText): string {
    if n.negative then "-" else ""
  }

  /** Where the parts of a number sit among its characters when `rest` follows them. */
  lemma NumberLayout(n: NumberText, rest: string)
    ensures var s := NumberChars(n) + rest;
      var a := |SignText(n)| + |n.whole|;
      var b := a + |FractionText(n.fraction)|;
      var c := b + |OptExponentText(n.exponent)|;
      && |SignText(n)| == (if n.negative then 1 else 0) && (n.negative ==> s[0] == '-')
      && OccursAt(n.whole, s, |SignText(n)|)
      && OccursAt(FractionText(n.fraction), s, a)
      && OccursAt(OptExponentText(n.exponent), s, b)
      && c == |NumberChars(n)| && c + |rest| == |s|
      && (rest != [] ==> s[c] == rest[0])
  {
    var ft := FractionText(n.fraction);
    var xt := OptExponentText(n.exponent);
    Pieces5(SignText(n), n.whole, ft, xt, rest);
    Pieces4(SignText(n) + n.whole, ft, xt, rest);
    Pieces(SignText(n) + n.whole + ft, xt, rest);
  }

  /** The character at `a`, after the whole part: the fraction's dot, else the exponent's marker, else what follows. */
  lemma AfterWhole(s: string, a: nat, b: nat, c: nat, ft: string, xt: string)
    requires OccursAt(ft, s, a) && b == a + |ft|
    requires OccursAt(xt, s, b) && c == b + |xt|
    requires a < |s|
    ensures s[a] == (if ft != [] then ft[0] else if xt != [] then xt[0] else s[c])
  {
    if ft != [] {
      WordAt(ft, s, a);
    } else if xt != [] {
      WordAt(xt, s, b);
    }
  }

  /** The whole part at `w` is lexed up to `a`, where the fraction, the exponent or a delimiter begins. */
  lemma WholeStage(s: string, n: NumberText, w: nat, a: nat, b: nat, c: nat)
    requires WellFormedNumber(n)
    requires OccursAt(n.whole, s, w) && a == w + |n.whole|
    requires OccursAt(FractionText(n.fraction), s, a) && b == a + |FractionText(n.fraction)|
    requires OccursAt(OptExponentText(n.exponent), s, b) && c == b + |OptExponentText(n.exponent)|
    requires c == |s| || !(IsDigit(s[c]) || s[c] in {'.', 'e', 'E'})
    ensures LexWhole(s, w) == Success(a)
  {
    if a < |s| {
      AfterWhole(s, a, b, c, FractionText(n.fraction), OptExponentText(n.exponent));
    }
    WholeRoundTrip(s, w, n.whole);
  }

  /** The fraction at `a` is lexed up to `b`, where the exponent or a delimiter begins. */
  lemma FractionStage(s: string, n: NumberText, a: nat, b: nat, c: nat)
    requires WellFormedNumber(n)
    requires OccursAt(FractionText(n.fraction), s, a) && b == a + |FractionText(n.fraction)|
    requires OccursAt(OptExponentText(n.exponent), s, b) && c == b + |OptExponentText(n.exponent)|
    requires c == |s| || !(IsDigit(s[c]) || s[c] in {'.', 'e', 'E'})
    ensures LexFraction(s, a) == Success((n.fraction, b))
  {
    if b < |s| {
      AfterWhole(s, b, c, c, OptExponentText(n.exponent), []);
    }
    FractionRoundTrip(s, a, n.fraction);
  }

  /**
   * A well-formed number laid out at the start of `s` (sign, whole part, fraction, exponent,
   * ending at `c` before a character that cannot continue it) is lexed back in three stages.
   */
  lemma NumberParsed(s: string, n: NumberText, a: nat, b: nat, c: nat)
    requires WellFormedNumber(n)
    requires n.negative ==> 0 < |s| && s[0] == '-'
    requires OccursAt(n.whole, s, if n.negative then 1 else 0) && a == (if n.negative then 1 else 0) + |n.whole|
    requires OccursAt(FractionText(n.fraction), s, a) && b == a + |FractionText(n.fraction)|
    requires OccursAt(OptExponentText(n.exponent), s, b) && c == b + |OptExponentText(n.exponent)|
    requires c == |s| || !(IsDigit(s[c]) || s[c] in {'.', 'e', 'E'})
    ensures LexNumber(s, 0) == Success((n, c))
  {
    var w := if n.negative then 1 else 0;
    WordAt(n.whole, s, w);
    WholeStage(s, n, w, a, b, c);
    FractionStage(s, n, a, b, c);
    ExponentRoundTrip(s, b, n.exponent);
    NumberComposed(s, n, w, a, b, c);
  }

  /** The three stages, once each is known to succeed at its place, give the number back. */
  lemma NumberComposed(s: string, n: NumberText, w: nat, a: nat, b: nat, c: nat)
    requires w <= a <= |s|
    requires w == 0 || w == 1
    requires w == 1 <==> n.negative
    requires 0 < |s| && (n.negative <==> s[0] == '-')
    requires s[w..a] == n.whole
    requires LexWhole(s, w) == Success(a)
    requires LexFraction(s, a) == Success((n.fraction, b))
    requires b <= |s| && LexExponent(s, b) == Success((n.exponent, c))
    ensures LexNumber(s, 0) == Success((n, c))
  {
    LexNumberParts(s, w, a, n.fraction, b, n.exponent, c);
    assert NumberText(w == 1, s[w..a], n.fraction, n.exponent) == n;
  }

  /** Lexing the characters of a well-formed number, followed by anything that cannot continue it, gives the number back. */
  lemma NumberRoundTrip(n: NumberText, rest: string)
    requires WellFormedNumber(n)
    requires Delimits(rest)
    ensures LexNumber(NumberChars(n) + rest, 0) == Success((n, |NumberChars(n)|))
  {
    var a := |SignText(n)| + |n.whole|;
    var b := a + |FractionText(n.fraction)|;
    NumberLayout(n, rest);
    NumberParsed(NumberChars(n) + rest, n, a, b, b + |OptExponentText(n.exponent)|);
  }

  // ---------------------------------------------------------------------------
  // Number values
  // ---------------------------------------------------------------------------

  /** The range of the C++ `int` the reader first tries to convert an integral number to. */
  const IntMin: int := -0x8000_0000
  const IntMax: int := 0x7FFF_FFFF

  function DigitValue(c: char): nat {
    if IsDigit(c) then c as int - '0' as int else 0
  }

  /** The value of a run of decimal digits. */
  function DigitsValue(ds: string): nat {
    if ds == [] then 0 else DigitsValue(ds[..|ds| - 1]) * 10 + DigitValue(ds[|ds| - 1])
  }

  function Pow10(k: nat): (r: nat)
    ensures r >= 1
  {
    if k == 0 then 1 else 10 * Pow10(k - 1)
  }

  /** The integer an integral number's text denotes. */
  function WholeValue(n: NumberText): int {
    var magnitude: int := DigitsValue(n.whole);
    if n.negative then -magnitude else magnitude
  }

  /** The exact rational a number's text denotes. */
  function RealValue(n: NumberText): real {
    var mantissa := DigitsValue(n.whole) as real
      + (if n.fraction.Some? then DigitsValue(n.fraction.value) as real / Pow10(|n.fraction.value|) as real else 0.0);
    var scaled :=
      if n.exponent.None? then mantissa
      else if n.exponent.value.sign == Some('-') then mantissa / Pow10(DigitsValue(n.exponent.value.digits)) as real
      else mantissa * Pow10(DigitsValue(n.exponent.value.digits)) as real;
    if n.negative then -scaled else scaled
  }

  /**
   * The conversion after lexing: an integral number that fits an `int` becomes
   * an int node; any other number becomes a double node.
   */
  function ToNumberNode(n: NumberText): (r: Node)
    ensures r.Int? || r.Double?
    ensures r.Int? <==> Integral(n) && IntMin <= WholeValue(n) <= IntMax
    ensures r.Int? ==> r.ival == WholeValue(n)
    ensures r.Double? ==> r.dval == RealValue(n)
  {
    if Integral(n) && IntMin <= WholeValue(n) <= IntMax then Int(WholeValue(n))
    else Double(RealValue(n))
  }

  function Pow2(k: nat): (r: nat)
    ensures r >= 1
  {
    if k == 0 then 1 else 2 * Pow2(k - 1)
  }

  /**
   * The least magnitude that rounds to infinity as a double: half a unit in the last place
   * above the largest double (2 - 2^-52) 2^1023, the tie rounding up to even.
   */
  const DoubleOverflow: real := (Pow2(1024) - Pow2(970)) as real

  /** The least normal double, 2^-1022. */
  const DoubleMinNormal: real := 1.0 / Pow2(1022) as real

  /**
   * `stod` returns without signalling a range error: the value neither overflows to
   * infinity nor is a non-zero value below the normal range.
   */
  predicate DoubleInRange(x: real) {
    var m := if x < 0.0 then -x else x;
    m < DoubleOverflow && (m == 0.0 || DoubleMinNormal <= m)
  }

  /**
   * The conversion of the lexed text `text`: `stoi` first for an integral number, and `stod`
   * when that is not one or does not fit; a range error of `stod` is a parsing error.
   */
  function ConvertNumber(n: NumberText, text: string): (r: Result<Node>)
    ensures r.Success? <==> (Integral(n) && IntMin <= WholeValue(n) <= IntMax) || DoubleInRange(RealValue(n))
    ensures r.Success? ==> r.value == ToNumberNode(n)
    ensures r.Failure? ==> r.error == "Failed to convert " + text + " to number"
  {
    if Integral(n) && IntMin <= WholeValue(n) <= IntMax then Success(Int(WholeValue(n)))
    else if DoubleInRange(RealValue(n)) then Success(Double(RealValue(n)))
    else Failure("Failed to convert " + text + " to number")
  }

  /** Reading a number at `p`: lexing, then conversion of the lexed text. */
  function LoadNumber(s: string, p: nat): (r: Result<(Node, nat)>)
    requires p <= |s|
    ensures r.Success? <==> LexNumber(s, p).Success? && ConvertNumber(LexNumber(s, p).value.0, s[p..LexNumber(s, p).value.1]).Success?
    ensures r.Success? ==> p < r.value.1 <= |s| && (r.value.0.Int? || r.value.0.Double?)
    ensures r.Success? ==> r.value == (ToNumberNode(LexNumber(s, p).value.0), LexNumber(s, p).value.1)
  {
    var lexed :- LexNumber(s, p);
    var node :- ConvertNumber(lexed.0, s[p..lexed.1]);
    Success((node, lexed.1))
  }

  // ---------------------------------------------------------------------------
  // Values
  // ---------------------------------------------------------------------------

  /**
   * Any value at `p`, after skipping whitespace. A closing bracket is not a
   * value: inside an array or a dictionary it reads as null without being
   * consumed, and at the top level it is an error.
   */
  function LoadNode(s: string, p: nat, parent: Parent): (r: Result<(Node, nat)>)
    requires p <= |s|
    ensures r.Success? ==> p <= r.value.1 <= |s|
    decreases |s| - p, 2
  {
    if p == |s| then Failure("Unexpected ending of a stream")
    else if IgnoreChar(s[p]) then LoadNode(s, p + 1, parent)
    else if s[p] == ']' || s[p] == '}' then
      if parent != NotOpening then Success((Null, p)) else Failure("Map parsing error")
    else if s[p] == '[' then LoadArray(s, p, [])
    else if s[p] == '{' then LoadDict(s, p + 1, "", map[])
    else LoadScalar(s, p)
  }

  /** A value that is not a container, chosen by its first character. */
  function LoadScalar(s: string, p: nat): (r: Result<(Node, nat)>)
    requires p < |s|
    ensures r.Success? ==> p < r.value.1 <= |s|
  {
    if s[p] == '"' then
      var str :- LoadString(s, p + 1);
      Success((Str(str.0), str.1))
    else if s[p] == 't' || s[p] == 'f' then LoadBool(s, p)
    else if s[p] == 'n' || s[p] == 'N' || s[p] == ',' then LoadNull(s, p)
    else LoadNumber(s, p)
  }

  predicate NoNulls(items: seq<Node>) {
    forall i | 0 <= i < |items| :: !items[i].Null?
  }

  /**
   * The loop of the array reader at `p`, with `acc` read so far. An opening
   * bracket or a comma introduces an element; null elements are dropped; any
   * other character is skipped; the array ends at `]`.
   */
  function LoadArray(s: string, p: nat, acc: seq<Node>): (r: Result<(Node, nat)>)
    requires p <= |s|
    requires NoNulls(acc)
    ensures r.Success? ==> p < r.value.1 <= |s| && s[r.value.1 - 1] == ']'
    ensures r.Success? ==> r.value.0.Array? && NoNulls(r.value.0.elems) && acc <= r.value.0.elems
    decreases |s| - p, 1
  {
    if p == |s| then Failure("Array parsing error")
    else if s[p] == ']' then Success((Array(acc), p + 1))
    else
      var step :- ArrayStep(s, p, acc);
      LoadArray(s, step.1, step.0)
  }

  /**
   * One step of the array reader at `p`, which does not hold `]`: an opening bracket or a comma
   * reads an element, any other character is skipped. Returns the elements and the position reached.
   */
  function ArrayStep(s: string, p: nat, acc: seq<Node>): (r: Result<(seq<Node>, nat)>)
    requires p < |s|
    requires NoNulls(acc)
    ensures r.Success? ==> p < r.value.1 <= |s| && NoNulls(r.value.0) && acc <= r.value.0
    decreases |s| - p, 0
  {
    if s[p] == ',' || s[p] == '[' then
      var item :- LoadNode(s, p + 1, InArray);
      Success((KeepElement(acc, item.0), item.1))
    else Success((acc, p + 1))
  }

  /** The elements after one more is read: a null is dropped, anything else is appended. */
  function KeepElement(acc: seq<Node>, item: Node): (r: seq<Node>)
    requires NoNulls(acc)
    ensures NoNulls(r) && acc <= r
    ensures item.Null? ==> r == acc
    ensures !item.Null? ==> r == acc + [item]
  {
    if item.Null? then acc
    else
      assert forall i | 0 <= i < |acc| :: (acc + [item])[i] == acc[i];
      acc + [item]
  }

  /** The key at `p`: a quote starts a new key, anything else leaves the pending `key`. */
  function DictKey(s: string, p: nat, key: string): (r: Result<(string, nat)>)
    requires p < |s|
    ensures r.Success? ==> p <= r.value.1 <= |s|
  {
    if s[p] == '"' then LoadString(s, p + 1) else Success((key, p))
  }

  /**
   * After the key, at `q`: a colon reads a value and inserts it under `key` unless that key is
   * already present, after which the key is left empty (it was moved into the map). Returns the
   * pending key, the entries and the position reached.
   */
  function DictValue(s: string, q: nat, key: string, acc: map<string, Node>): (r: Result<(string, map<string, Node>, nat)>)
    requires q <= |s|
    ensures r.Success? ==> q <= r.value.2 <= |s|
    ensures r.Success? ==> r.value.1.Keys >= acc.Keys && forall k | k in acc :: r.value.1[k] == acc[k]
    decreases |s| - q, 0
  {
    if Peek(s, q) == Some(':') then
      var value :- LoadNode(s, q + 1, InMap);
      Success(("", if key in acc then acc else acc[key := value.0], value.1))
    else Success((key, acc, q))
  }

  /** One step of the dictionary reader at `p`: the key, then the value if a colon follows. */
  function DictEntry(s: string, p: nat, key: string, acc: map<string, Node>): (r: Result<(string, map<string, Node>, nat)>)
    requires p < |s|
    ensures r.Success? ==> p <= r.value.2 <= |s|
    ensures r.Success? ==> r.value.1.Keys >= acc.Keys && forall k | k in acc :: r.value.1[k] == acc[k]
    decreases |s| - p, 1
  {
    var k :- DictKey(s, p, key);
    DictValue(s, k.1, k.0, acc)
  }

  /**
   * The loop of the dictionary reader at `p`, with `key` the pending key and
   * `acc` read so far: after each step it ends at `}`, and otherwise skips one
   * character.
   */
  function LoadDict(s: string, p: nat, key: string, acc: map<string, Node>): (r: Result<(Node, nat)>)
    requires p <= |s|
    ensures r.Success? ==> p < r.value.1 <= |s| && s[r.value.1 - 1] == '}'
    ensures r.Success? ==> r.value.0.Dict?
    ensures r.Success? ==> r.value.0.fields.Keys >= acc.Keys && forall k | k in acc :: r.value.0.fields[k] == acc[k]
    decreases |s| - p, 2
  {
    if p == |s| then Failure("Dictionary parsing error")
    else
      var v :- DictEntry(s, p, key, acc);
      if Peek(s, v.2) == Some('}') then Success((Dict(v.1), v.2 + 1))
      else LoadDict(s, Next(s, v.2), v.0, v.1)
  }

  /** Reading a whole document: one value at the top level; anything after it is ignored. */
  function Load(s: string): (r: Result<Node>)
    ensures r.Success? <==> LoadNode(s, 0, NotOpening).Success?
  {
    var root :- LoadNode(s, 0, NotOpening);
    Success(root.0)
  }

  /** Whitespace before a value changes nothing but where reading starts. */
  lemma {:induction false} SkipsWhitespace(s: string, p: nat, q: nat, parent: Parent)
    requires p <= q <= |s|
    requires forall k | p <= k < q :: IgnoreChar(s[k])
    ensures LoadNode(s, p, parent) == LoadNode(s, q, parent)
    decreases q - p
  {
    if p < q {
      assert LoadNode(s, p, parent) == LoadNode(s, p + 1, parent);
      SkipsWhitespace(s, p + 1, q, parent);
    }
  }

  /** A printed string, wherever a value is expected, reads back as the same string node. */
  lemma StringNodeRoundTrip(t: string, rest: string, parent: Parent)
    ensures LoadNode(PrintString(t) + rest, 0, parent) == Success((Str(t), |PrintString(t)|))
  {
    StringRoundTrip(t, rest);
    assert (PrintString(t) + rest)[0] == '"';
  }

  /** A printed string at `p` is read as that string, ending just past its closing quote. */
  lemma StringLiteralAt(s: string, p: nat, t: string)
    requires OccursAt(PrintString(t), s, p)
    ensures s[p] == '"' && LoadString(s, p + 1) == Success((t, p + |PrintString(t)|))
  {
    var e := Escape(t);
    OccursAtSplit("\"" + e, "\"", s, p);
    OccursAtSplit("\"", e, s, p);
    WordAt("\"", s, p);
    WordAt("\"", s, p + 1 + |e|);
    EscapedBodyLoads(s, p + 1, p + 1 + |e|, t, "");
    assert "" + t == t;
  }

  /** A printed string at `p`, wherever a value is expected, reads back as the same string node. */
  lemma StringAt(s: string, p: nat, t: string, parent: Parent)
    requires OccursAt(PrintString(t), s, p)
    ensures LoadNode(s, p, parent) == Success((Str(t), p + |PrintString(t)|))
  {
    StringLiteralAt(s, p, t);
    ScalarDispatch(s, p, parent);
  }

  /** The string nodes of `xs`, in order. */
  function StrNodes(xs: seq<string>): (r: seq<Node>)
    ensures |r| == |xs| && forall i | 0 <= i < |xs| :: r[i] == Str(xs[i])
  {
    seq(|xs|, i requires 0 <= i < |xs| => Str(xs[i]))
  }

  /** The printed form of each string, in order. */
  function Printed(xs: seq<string>): (r: seq<string>)
    ensures |r| == |xs| && forall i | 0 <= i < |xs| :: r[i] == PrintString(xs[i])
  {
    seq(|xs|, i requires 0 <= i < |xs| => PrintString(xs[i]))
  }

  /** The words, each introduced by a comma. */
  function CommaJoined(ws: seq<string>): string {
    if ws == [] then "" else "," + ws[0] + CommaJoined(ws[1..])
  }

  /** Non-empty words between brackets, separated by commas. */
  function Bracketed(ws: seq<string>): string
    requires ws != []
  {
    "[" + ws[0] + CommaJoined(ws[1..]) + "]"
  }

  /** An array of strings as text: the printed strings between brackets, separated by commas. */
  function ArrayText(xs: seq<string>): string {
    if xs == [] then "[]" else Bracketed(Printed(xs))
  }

  lemma PrintedCons(xs: seq<string>)
    requires xs != []
    ensures Printed(xs)[0] == PrintString(xs[0]) && Printed(xs)[1..] == Printed(xs[1..])
  {
  }

  /**
   * From `p` on, `s` holds, for each of `ws` in turn, an opening bracket or a comma and then the
   * word; the last word ends at `e`.
   */
  ghost predicate WordsAt(s: string, p: nat, ws: seq<string>, e: nat)
    decreases |ws|
  {
    if ws == [] then e == p
    else
      p < |s| && (s[p] == ',' || s[p] == '[') && OccursAt(ws[0], s, p + 1) &&
      WordsAt(s, p + 1 + |ws[0]|, ws[1..], e)
  }

  /** Where a character, then `u`, then `v` sit when they occur at `p`. */
  lemma SeparatedThen(c: char, u: string, v: string, s: string, p: nat)
    requires OccursAt([c] + u + v, s, p)
    ensures s[p] == c && OccursAt(u, s, p + 1) && OccursAt(v, s, p + 1 + |u|)
  {
    OccursAtSplit([c] + u, v, s, p);
    OccursAtSplit([c], u, s, p);
    assert s[p] == s[p..p + 1][0];
  }

  /** Where an opening character, `u`, `v` and a closing character sit when they occur at `p`. */
  lemma EnclosedAt(c: char, u: string, v: string, d: char, s: string, p: nat)
    requires OccursAt([c] + u + v + [d], s, p)
    ensures s[p] == c && OccursAt(u, s, p + 1) && OccursAt(v, s, p + 1 + |u|)
    ensures s[p + 1 + |u| + |v|] == d
  {
    OccursAtSplit([c] + u + v, [d], s, p);
    SeparatedThen(c, u, v, s, p);
    assert s[p + 1 + |u| + |v|] == s[p + 1 + |u| + |v|..p + 2 + |u| + |v|][0];
  }

  /** A word is found at the start of any text it begins. */
  lemma PrefixAt(w: string, rest: string)
    ensures OccursAt(w, w + rest, 0)
  {
    assert (w + rest)[..|w|] == w;
  }

  lemma CommaJoinedUnfold(ws: seq<string>)
    requires ws != []
    ensures CommaJoined(ws) == [','] + ws[0] + CommaJoined(ws[1..])
  {
  }

  /** Comma-introduced words at `p` are placed as `WordsAt` says. */
  lemma {:induction false} CommaJoinedPlaced(s: string, p: nat, ws: seq<string>)
    requires OccursAt(CommaJoined(ws), s, p)
    ensures WordsAt(s, p, ws, p + |CommaJoined(ws)|)
    decreases |ws|
  {
    if ws != [] {
      CommaJoinedUnfold(ws);
      SeparatedThen(',', ws[0], CommaJoined(ws[1..]), s, p);
      CommaJoinedPlaced(s, p + 1 + |ws[0]|, ws[1..]);
    }
  }

  /** The array reader at `]` closes the array with the elements read so far. */
  lemma ArrayClosed(s: string, p: nat, acc: seq<Node>)
    requires p < |s| && s[p] == ']' && NoNulls(acc)
    ensures LoadArray(s, p, acc) == Success((Array(acc), p + 1))
  {
  }

  /** The array reader at an opening bracket or a comma reads one element and goes on after it. */
  lemma ArrayElement(s: string, p: nat, acc: seq<Node>, item: Node, q: nat)
    requires p < |s| && (s[p] == ',' || s[p] == '[') && NoNulls(acc)
    requires LoadNode(s, p + 1, InArray) == Success((item, q))
    ensures p < q <= |s| && LoadArray(s, p, acc) == LoadArray(s, q, KeepElement(acc, item))
  {
    assert ArrayStep(s, p, acc) == Success((KeepElement(acc, item), q));
  }

  /** The array reader at `[` or `,` followed by a printed string reads that string and goes on after it. */
  lemma StringElement(s: string, p: nat, t: string, q: nat, acc: seq<Node>)
    requires NoNulls(acc) && p < |s| && (s[p] == ',' || s[p] == '[') && OccursAt(PrintString(t), s, p + 1)
    requires q == p + 1 + |PrintString(t)|
    ensures LoadArray(s, p, acc) == LoadArray(s, q, acc + [Str(t)])
  {
    StringAt(s, p + 1, t, InArray);
    ArrayElement(s, p, acc, Str(t), q);
  }

  /** Moving the first string into the prefix keeps the nodes in order. */
  lemma StrNodesShift(acc: seq<Node>, ys: seq<string>)
    requires ys != [] && NoNulls(acc)
    ensures NoNulls(acc + [Str(ys[0])])
    ensures (acc + [Str(ys[0])]) + StrNodes(ys[1..]) == acc + StrNodes(ys)
  {
    assert (acc + [Str(ys[0])]) + StrNodes(ys[1..]) == acc + ([Str(ys[0])] + StrNodes(ys[1..]));
    assert [Str(ys[0])] + StrNodes(ys[1..]) == StrNodes(ys);
  }

  /** The array reader, at printed strings placed as `WordsAt` says and closed by `]`, appends them in order. */
  lemma {:induction false} StringsLoad(s: string, p: nat, ys: seq<string>, e: nat, acc: seq<Node>)
    requires NoNulls(acc) && WordsAt(s, p, Printed(ys), e) && e < |s| && s[e] == ']'
    ensures LoadArray(s, p, acc) == Success((Array(acc + StrNodes(ys)), e + 1))
    decreases |ys|
  {
    if ys == [] {
      ArrayClosed(s, p, acc);
      assert acc + StrNodes(ys) == acc;
    } else {
      PrintedCons(ys);
      var q := p + 1 + |PrintString(ys[0])|;
      StrNodesShift(acc, ys);
      StringsLoad(s, q, ys[1..], e, acc + [Str(ys[0])]);
      StringsStep(s, p, ys, e, acc, q);
    }
  }

  /** One printed string before the rest: the reader's result after it is its result from `p`. */
  lemma StringsStep(s: string, p: nat, ys: seq<string>, e: nat, acc: seq<Node>, q: nat)
    requires NoNulls(acc) && ys != [] && p < |s| && (s[p] == ',' || s[p] == '[') && OccursAt(PrintString(ys[0]), s, p + 1)
    requires q == p + 1 + |PrintString(ys[0])|
    requires LoadArray(s, q, acc + [Str(ys[0])]) == Success((Array((acc + [Str(ys[0])]) + StrNodes(ys[1..])), e + 1))
    ensures LoadArray(s, p, acc) == Success((Array(acc + StrNodes(ys)), e + 1))
  {
    StringElement(s, p, ys[0], q, acc);
    StrNodesShift(acc, ys);
  }

  /** Bracketed words at `p` are placed as `WordsAt` says, the closing bracket last. */
  lemma BracketedPlaced(s: string, p: nat, ws: seq<string>)
    requires ws != [] && OccursAt(Bracketed(ws), s, p)
    ensures s[p] == '['
    ensures var e := p + |Bracketed(ws)| - 1; WordsAt(s, p, ws, e) && e < |s| && s[e] == ']'
  {
    var tail := CommaJoined(ws[1..]);
    assert Bracketed(ws) == ['['] + ws[0] + tail + [']'];
    EnclosedAt('[', ws[0], tail, ']', s, p);
    CommaJoinedPlaced(s, p + 1 + |ws[0]|, ws[1..]);
  }

  /** `[]`, wherever a value is expected, reads as the empty array. */
  lemma EmptyArrayAt(s: string, p: nat, parent: Parent)
    requires OccursAt("[]", s, p)
    ensures LoadNode(s, p, parent) == Success((Array([]), p + 2))
  {
    WordAt("[]", s, p);
    assert LoadNode(s, p + 1, InArray) == Success((Null, p + 1));
    ArrayElement(s, p, [], Null, p + 1);
    ArrayClosed(s, p + 1, []);
  }

  /** An opening bracket, wherever a value is expected, starts the array reader. */
  lemma ArrayDispatch(s: string, p: nat, parent: Parent)
    requires p < |s| && s[p] == '['
    ensures LoadNode(s, p, parent) == LoadArray(s, p, [])
  {
  }

  /** At `[`, printed strings placed as `WordsAt` says and closed by `]` read as an array of those strings. */
  lemma PlacedArrayLoads(s: string, p: nat, xs: seq<string>, e: nat, parent: Parent)
    requires p < |s| && s[p] == '[' && WordsAt(s, p, Printed(xs), e) && e < |s| && s[e] == ']'
    ensures LoadNode(s, p, parent) == Success((Array(StrNodes(xs)), e + 1))
  {
    ArrayDispatch(s, p, parent);
    StringsLoad(s, p, xs, e, []);
    assert [] + StrNodes(xs) == StrNodes(xs);
  }

  /** Bracketed printed strings at `p`, wherever a value is expected, read back as those strings in order. */
  lemma BracketedArrayAt(s: string, p: nat, xs: seq<string>, parent: Parent)
    requires xs != [] && OccursAt(Bracketed(Printed(xs)), s, p)
    ensures LoadNode(s, p, parent) == Success((Array(StrNodes(xs)), p + |Bracketed(Printed(xs))|))
  {
    BracketedPlaced(s, p, Printed(xs));
    PlacedArrayLoads(s, p, xs, p + |Bracketed(Printed(xs))| - 1, parent);
  }

  /**
   * The text of an array of strings, wherever a value is expected and whatever follows it,
   * reads back as the array of those strings in order.
   */
  lemma ArrayRoundTrip(xs: seq<string>, rest: string, parent: Parent)
    ensures LoadNode(ArrayText(xs) + rest, 0, parent) == Success((Array(StrNodes(xs)), |ArrayText(xs)|))
  {
    PrefixAt(ArrayText(xs), rest);
    if xs == [] {
      EmptyArrayAt(ArrayText(xs) + rest, 0, parent);
    } else {
      BracketedArrayAt(ArrayText(xs) + rest, 0, xs, parent);
    }
  }

  /** `null` followed by a comma, wherever a value is expected, reads as null. */
  lemma NullAt(s: string, p: nat, parent: Parent)
    requires OccursAt("null", s, p) && p + 4 < |s| && s[p + 4] == ','
    ensures LoadNode(s, p, parent) == Success((Null, p + 4))
  {
    WordAt("null", s, p);
    ScalarDispatch(s, p, parent);
  }

  /** The array reader at `[null`, followed by comma-introduced strings and `]`, reads those strings alone. */
  lemma NullArrayLoads(s: string, p: nat, ys: seq<string>, e: nat)
    requires ys != [] && p < |s| && s[p] == '[' && OccursAt("null", s, p + 1)
    requires WordsAt(s, p + 5, Printed(ys), e) && s[p + 5] == ',' && e < |s| && s[e] == ']'
    ensures LoadArray(s, p, []) == Success((Array(StrNodes(ys)), e + 1))
  {
    NullAt(s, p + 1, InArray);
    ArrayElement(s, p, [], Null, p + 5);
    StringsLoad(s, p + 5, ys, e, []);
    assert [] + StrNodes(ys) == StrNodes(ys);
  }

  /** The text `[null` followed by comma-introduced words and `]`. */
  function NullArrayText(ws: seq<string>): string {
    "[null" + CommaJoined(ws) + "]"
  }

  /** Where the parts of `[null`, comma-introduced words and `]` sit when they occur at `p`. */
  lemma NullArrayTextPlaced(s: string, p: nat, ws: seq<string>)
    requires ws != [] && OccursAt(NullArrayText(ws), s, p)
    ensures s[p] == '[' && OccursAt("null", s, p + 1) && s[p + 5] == ','
    ensures var e := p + |NullArrayText(ws)| - 1; WordsAt(s, p + 5, ws, e) && e < |s| && s[e] == ']'
  {
    var tail := CommaJoined(ws);
    assert NullArrayText(ws) == ['['] + "null" + tail + [']'];
    EnclosedAt('[', "null", tail, ']', s, p);
    CommaJoinedPlaced(s, p + 5, ws);
  }

  /** `[null` followed by comma-introduced printed strings and `]` at `p`, wherever a value is expected, reads as those strings. */
  lemma NullArrayAt(s: string, p: nat, ys: seq<string>, parent: Parent)
    requires ys != [] && OccursAt(NullArrayText(Printed(ys)), s, p)
    ensures LoadNode(s, p, parent) == Success((Array(StrNodes(ys)), p + |NullArrayText(Printed(ys))|))
  {
    NullArrayTextPlaced(s, p, Printed(ys));
    ArrayDispatch(s, p, parent);
    NullArrayLoads(s, p, ys, p + |NullArrayText(Printed(ys))| - 1);
  }

  /**
   * A `null` element is read and dropped: `[null` followed by comma-introduced strings and `]`
   * reads as those strings alone. At least one string must follow, since the null reader only
   * stops at a space or a comma.
   */
  lemma NullElementDropped(ys: seq<string>, rest: string, parent: Parent)
    requires ys != []
    ensures var text := NullArrayText(Printed(ys));
      LoadNode(text + rest, 0, parent) == Success((Array(StrNodes(ys)), |text|))
  {
    PrefixAt(NullArrayText(Printed(ys)), rest);
    NullArrayAt(NullArrayText(Printed(ys)) + rest, 0, ys, parent);
  }

  /** `[null]` is rejected: the null reader runs on to the next space or comma and sees `null]`. */
  lemma LoneNullRejected(parent: Parent)
    ensures LoadNode("[null]", 0, parent) == Failure("Null parsing error")
  {
    var s := "[null]";
    assert LoadNode(s, 0, parent) == LoadArray(s, 0, []);
    ScalarDispatch(s, 1, InArray);
    ScanToIs(s, 1, 6, {' ', ','});
    assert LoadNull(s, 1) == Failure("Null parsing error");
  }

  /** `acc` with `k` mapped to the string `v`, unless `k` is already there. */
  function AddFirst(acc: map<string, Node>, k: string, v: string): map<string, Node> {
    if k in acc then acc else acc[k := Str(v)]
  }

  /** Where the parts of `u`, a separator `c` and `v` sit when their concatenation occurs at `p`. */
  lemma SeparatedAt(u: string, c: char, v: string, s: string, p: nat)
    requires OccursAt(u + [c] + v, s, p)
    ensures OccursAt(u, s, p) && s[p + |u|] == c && OccursAt(v, s, p + |u| + 1)
  {
    OccursAtSplit(u + [c], v, s, p);
    OccursAtSplit(u, [c], s, p);
    assert s[p + |u|] == s[p + |u|..p + |u| + 1][0];
  }

  /** A quoted key read up to `q`. */
  lemma KeyStep(s: string, p: nat, key: string, k: string, q: nat)
    requires p < |s| && s[p] == '"' && LoadString(s, p + 1) == Success((k, q))
    ensures DictKey(s, p, key) == Success((k, q))
  {
  }

  /** A colon at `q` and a value read after it store the value unless the key is present. */
  lemma ValueStep(s: string, q: nat, key: string, acc: map<string, Node>, n: Node, e: nat)
    requires q < |s| && s[q] == ':' && LoadNode(s, q + 1, InMap) == Success((n, e))
    ensures DictValue(s, q, key, acc) == Success(("", if key in acc then acc else acc[key := n], e))
  {
    assert Peek(s, q) == Some(':');
  }

  /** An entry is its key followed by its value. */
  lemma EntrySplit(s: string, p: nat, key: string, acc: map<string, Node>, k: string, q: nat)
    requires p < |s| && DictKey(s, p, key) == Success((k, q))
    ensures DictEntry(s, p, key, acc) == DictValue(s, q, k, acc)
  {
  }

  /** The dictionary reader closes the dictionary at `}` after a complete entry. */
  lemma DictClosed(s: string, p: nat, key: string, acc: map<string, Node>, m: map<string, Node>, q: nat)
    requires p < |s| && DictEntry(s, p, key, acc) == Success(("", m, q)) && q < |s| && s[q] == '}'
    ensures LoadDict(s, p, key, acc) == Success((Dict(m), q + 1))
  {
  }

  /** The dictionary reader goes on past the comma after a complete entry. */
  lemma DictNext(s: string, p: nat, key: string, acc: map<string, Node>, m: map<string, Node>, q: nat)
    requires p < |s| && DictEntry(s, p, key, acc) == Success(("", m, q)) && q < |s| && s[q] == ','
    ensures LoadDict(s, p, key, acc) == LoadDict(s, q + 1, "", m)
  {
  }

  /**
   * An entry as the dictionary reader meets it at `p`: a quoted key `k` read up to `q`, a colon
   * there and the string value `v` read up to `e`.
   */
  ghost predicate EntryAt(s: string, p: nat, k: string, q: nat, v: string, e: nat) {
    && p < |s| && s[p] == '"' && LoadString(s, p + 1) == Success((k, q))
    && q < |s| && s[q] == ':' && LoadNode(s, q + 1, InMap) == Success((Str(v), e))
  }

  /** A complete entry at `p` followed by a comma: the reader stores it and goes on after the comma. */
  lemma EntryThenNext(s: string, p: nat, acc: map<string, Node>, k: string, q: nat, v: string, e: nat)
    requires EntryAt(s, p, k, q, v, e) && e < |s| && s[e] == ','
    ensures LoadDict(s, p, "", acc) == LoadDict(s, e + 1, "", AddFirst(acc, k, v))
  {
    KeyStep(s, p, "", k, q);
    EntrySplit(s, p, "", acc, k, q);
    ValueStep(s, q, k, acc, Str(v), e);
    DictNext(s, p, "", acc, AddFirst(acc, k, v), e);
  }

  /** A complete entry at `p` followed by a closing brace: the reader stores it and closes the dictionary. */
  lemma EntryThenClose(s: string, p: nat, acc: map<string, Node>, k: string, q: nat, v: string, e: nat)
    requires EntryAt(s, p, k, q, v, e) && e < |s| && s[e] == '}'
    ensures LoadDict(s, p, "", acc) == Success((Dict(AddFirst(acc, k, v)), e + 1))
  {
    KeyStep(s, p, "", k, q);
    EntrySplit(s, p, "", acc, k, q);
    ValueStep(s, q, k, acc, Str(v), e);
    DictClosed(s, p, "", acc, AddFirst(acc, k, v), e);
  }

  /** An opening brace, wherever a value is expected, starts the dictionary reader after it. */
  lemma DictDispatch(s: string, p: nat, parent: Parent)
    requires p < |s| && s[p] == '{'
    ensures LoadNode(s, p, parent) == LoadDict(s, p + 1, "", map[])
  {
  }

  /** `{}`, wherever a value is expected, reads as the empty dictionary. */
  lemma EmptyDictAt(s: string, p: nat, parent: Parent)
    requires OccursAt("{}", s, p)
    ensures LoadNode(s, p, parent) == Success((Dict(map[]), p + 2))
  {
    WordAt("{}", s, p);
    DictDispatch(s, p, parent);
    assert DictEntry(s, p + 1, "", map[]) == Success(("", map[], p + 1));
  }

  /** From `p` on, `s` holds the word `a` up to `q`, a colon there and the word `b` up to `e`. */
  ghost predicate WordsEntry(s: string, p: nat, a: string, b: string, q: nat, e: nat) {
    OccursAt(a, s, p) && q == p + |a| && q < |s| && s[q] == ':' && OccursAt(b, s, q + 1) && e == q + 1 + |b|
  }

  /** `a:b` at `p` puts the words as `WordsEntry` says. */
  lemma EntryWordsPlaced(s: string, p: nat, a: string, b: string, q: nat, e: nat)
    requires OccursAt(a + ":" + b, s, p) && q == p + |a| && e == q + 1 + |b|
    ensures WordsEntry(s, p, a, b, q, e)
  {
    SeparatedAt(a, ':', b, s, p);
  }

  /** The word `w` at `p` of `s`: the same as `OccursAt`, kept apart so that it alone sets off `KeyWord` and `ValueWord`. */
  ghost predicate WordAtPos(w: string, s: string, p: nat) {
    OccursAt(w, s, p)
  }

  /** Wherever the word `a` occurs, the string reader, started after its first character, reads `k` to its end. */
  ghost predicate KeyWord(a: string, k: string) {
    forall s: string, p: nat {:trigger WordAtPos(a, s, p)} | WordAtPos(a, s, p) ::
      p < |s| && s[p] == '"' && LoadString(s, p + 1) == Success((k, p + |a|))
  }

  /** Wherever the word `b` occurs, the value reader inside a dictionary reads the string `v` to its end. */
  ghost predicate ValueWord(b: string, v: string) {
    forall s: string, p: nat {:trigger WordAtPos(b, s, p)} | WordAtPos(b, s, p) ::
      p <= |s| && LoadNode(s, p, InMap) == Success((Str(v), p + |b|))
  }

  /** A printed string is a key word and a value word for that string. */
  lemma PrintedWords(t: string)
    ensures KeyWord(PrintString(t), t) && ValueWord(PrintString(t), t)
  {
    forall s: string, p: nat | WordAtPos(PrintString(t), s, p)
      ensures p < |s| && s[p] == '"' && LoadString(s, p + 1) == Success((t, p + |PrintString(t)|))
    {
      StringLiteralAt(s, p, t);
    }
    forall s: string, p: nat | WordAtPos(PrintString(t), s, p)
      ensures p <= |s| && LoadNode(s, p, InMap) == Success((Str(t), p + |PrintString(t)|))
    {
      StringAt(s, p, t, InMap);
    }
  }

  /** A key word at `p` is read, after its opening quote, up to `q`. */
  lemma KeyWordAt(s: string, p: nat, a: string, k: string, q: nat)
    requires KeyWord(a, k) && OccursAt(a, s, p) && q == p + |a|
    ensures p < |s| && s[p] == '"' && LoadString(s, p + 1) == Success((k, q))
  {
    assert WordAtPos(a, s, p);
  }

  /** A value word at `p` is read, inside a dictionary, up to `e`. */
  lemma ValueWordAt(s: string, p: nat, b: string, v: string, e: nat)
    requires ValueWord(b, v) && OccursAt(b, s, p) && e == p + |b|
    ensures LoadNode(s, p, InMap) == Success((Str(v), e))
  {
    assert WordAtPos(b, s, p);
  }

  /** A key word, a colon and a value word make an entry the reader finds. */
  lemma WordsEntryAt(s: string, p: nat, a: string, k: string, b: string, v: string, q: nat, e: nat)
    requires KeyWord(a, k) && ValueWord(b, v) && WordsEntry(s, p, a, b, q, e)
    ensures EntryAt(s, p, k, q, v, e)
  {
    KeyWordAt(s, p, a, k, q);
    ValueWordAt(s, q + 1, b, v, e);
  }

  /** The text `{a:b}`. */
  function OneEntryText(a: string, b: string): string {
    "{" + (a + ":" + b) + "}"
  }

  /** The text `{a:b,c:d}`. */
  function TwoEntriesText(a: string, b: string, c: string, d: string): string {
    "{" + (a + ":" + b) + "," + (c + ":" + d) + "}"
  }

  /** `s` starts with `{`, the entry `a:b` ending at `e`, and `}` there. */
  ghost predicate OneEntryShape(s: string, a: string, b: string, q: nat, e: nat) {
    s != [] && s[0] == '{' && WordsEntry(s, 1, a, b, q, e) && e < |s| && s[e] == '}'
  }

  /** `s` starts with `{`, the entry `a:b` ending at `e1`, a comma there, the entry `c:d` ending at `e2` and `}` there. */
  ghost predicate TwoEntriesShape(s: string, a: string, b: string, c: string, d: string, q1: nat, e1: nat, q2: nat, e2: nat) {
    && s != [] && s[0] == '{' && WordsEntry(s, 1, a, b, q1, e1) && e1 < |s| && s[e1] == ','
    && WordsEntry(s, e1 + 1, c, d, q2, e2) && e2 < |s| && s[e2] == '}'
  }

  /** Where `x` sits when `{x}` starts `s`, its closing brace at `i`. */
  lemma BracedAt(s: string, x: string, i: nat)
    requires OccursAt("{" + x + "}", s, 0) && i == 1 + |x|
    ensures s[0] == '{' && OccursAt(x, s, 1) && i < |s| && s[i] == '}'
  {
    assert "{" + x + "}" == ['{'] + x + "" + ['}'];
    EnclosedAt('{', x, "", '}', s, 0);
  }

  /** Where `x` and `y` sit when `{x,y}` starts `s`, the comma at `i` and the closing brace at `j`. */
  lemma BracedPairAt(s: string, x: string, y: string, i: nat, j: nat)
    requires OccursAt("{" + x + "," + y + "}", s, 0) && i == 1 + |x| && j == i + 1 + |y|
    ensures s[0] == '{' && OccursAt(x, s, 1) && i < |s| && s[i] == ',' && OccursAt(y, s, i + 1) && j < |s| && s[j] == '}'
  {
    assert "{" + x + "," + y + "}" == ['{'] + (x + [','] + y) + "" + ['}'];
    EnclosedAt('{', x + [','] + y, "", '}', s, 0);
    SeparatedAt(x, ',', y, s, 1);
  }

  /** Where the words of `{a:b}` sit when it starts `s`. */
  lemma OneEntryAt(s: string, a: string, b: string, q: nat, e: nat)
    requires OccursAt(OneEntryText(a, b), s, 0) && q == 1 + |a| && e == q + 1 + |b|
    ensures OneEntryShape(s, a, b, q, e)
  {
    BracedAt(s, a + ":" + b, e);
    EntryWordsPlaced(s, 1, a, b, q, e);
  }

  /** Where the words of `{a:b,c:d}` sit when it starts `s`. */
  lemma TwoEntriesAt(s: string, a: string, b: string, c: string, d: string, q1: nat, e1: nat, q2: nat, e2: nat)
    requires OccursAt(TwoEntriesText(a, b, c, d), s, 0)
    requires q1 == 1 + |a| && e1 == q1 + 1 + |b| && q2 == e1 + 1 + |c| && e2 == q2 + 1 + |d|
    ensures TwoEntriesShape(s, a, b, c, d, q1, e1, q2, e2)
  {
    BracedPairAt(s, a + ":" + b, c + ":" + d, e1, e2);
    EntryWordsPlaced(s, 1, a, b, q1, e1);
    EntryWordsPlaced(s, e1 + 1, c, d, q2, e2);
  }

  /**
   * A one-entry dictionary as the reader meets it: `{`, a quoted key read up to `q`, a colon, a
   * value read up to `e` and `}`.
   */
  lemma OneEntryLoads(s: string, k: string, v: string, q: nat, e: nat, parent: Parent)
    requires s != [] && s[0] == '{' && EntryAt(s, 1, k, q, v, e) && e < |s| && s[e] == '}'
    ensures LoadNode(s, 0, parent) == Success((Dict(map[k := Str(v)]), e + 1))
  {
    DictDispatch(s, 0, parent);
    EntryThenClose(s, 1, map[], k, q, v, e);
  }

  /** A key word and a value word between braces read as the one-entry dictionary. */
  lemma OneWordEntryLoads(s: string, a: string, k: string, b: string, v: string, q: nat, e: nat, parent: Parent)
    requires KeyWord(a, k) && ValueWord(b, v) && OneEntryShape(s, a, b, q, e)
    ensures LoadNode(s, 0, parent) == Success((Dict(map[k := Str(v)]), e + 1))
  {
    WordsEntryAt(s, 1, a, k, b, v, q, e);
    OneEntryLoads(s, k, v, q, e, parent);
  }

  /** Two entries of key and value words between braces read as the first and, unless its key is taken, the second. */
  lemma TwoWordEntriesLoad(s: string, a: string, k1: string, b: string, v1: string, c: string, k2: string, d: string, v2: string,
                           q1: nat, e1: nat, q2: nat, e2: nat, parent: Parent)
    requires KeyWord(a, k1) && ValueWord(b, v1) && KeyWord(c, k2) && ValueWord(d, v2)
    requires TwoEntriesShape(s, a, b, c, d, q1, e1, q2, e2)
    ensures LoadNode(s, 0, parent) == Success((Dict(AddFirst(map[k1 := Str(v1)], k2, v2)), e2 + 1))
  {
    DictDispatch(s, 0, parent);
    FirstOfTwoEntries(s, a, k1, b, v1, c, d, q1, e1, q2, e2);
    SecondOfTwoEntries(s, a, b, c, k2, d, v2, q1, e1, q2, e2, map[k1 := Str(v1)]);
  }

  /** The first of two entries of words is stored and the reader goes on after the comma. */
  lemma FirstOfTwoEntries(s: string, a: string, k1: string, b: string, v1: string, c: string, d: string, q1: nat, e1: nat, q2: nat, e2: nat)
    requires KeyWord(a, k1) && ValueWord(b, v1) && TwoEntriesShape(s, a, b, c, d, q1, e1, q2, e2)
    ensures LoadDict(s, 1, "", map[]) == LoadDict(s, e1 + 1, "", map[k1 := Str(v1)])
  {
    WordEntryThenNext(s, 1, a, k1, b, v1, q1, e1, map[]);
    assert AddFirst(map[], k1, v1) == map[k1 := Str(v1)];
  }

  /** The second of two entries of words is stored unless its key is taken, and the dictionary closes. */
  lemma SecondOfTwoEntries(s: string, a: string, b: string, c: string, k2: string, d: string, v2: string, q1: nat, e1: nat, q2: nat, e2: nat, acc: map<string, Node>)
    requires KeyWord(c, k2) && ValueWord(d, v2) && TwoEntriesShape(s, a, b, c, d, q1, e1, q2, e2)
    ensures LoadDict(s, e1 + 1, "", acc) == Success((Dict(AddFirst(acc, k2, v2)), e2 + 1))
  {
    WordEntryThenClose(s, e1 + 1, c, k2, d, v2, q2, e2, acc);
  }

  /** An entry of a key word and a value word followed by a comma: the reader stores it and goes on after the comma. */
  lemma WordEntryThenNext(s: string, p: nat, a: string, k: string, b: string, v: string, q: nat, e: nat, acc: map<string, Node>)
    requires KeyWord(a, k) && ValueWord(b, v) && WordsEntry(s, p, a, b, q, e) && e < |s| && s[e] == ','
    ensures LoadDict(s, p, "", acc) == LoadDict(s, e + 1, "", AddFirst(acc, k, v))
  {
    WordsEntryAt(s, p, a, k, b, v, q, e);
    EntryThenNext(s, p, acc, k, q, v, e);
  }

  /** An entry of a key word and a value word followed by `}`: the reader stores it and closes the dictionary. */
  lemma WordEntryThenClose(s: string, p: nat, a: string, k: string, b: string, v: string, q: nat, e: nat, acc: map<string, Node>)
    requires KeyWord(a, k) && ValueWord(b, v) && WordsEntry(s, p, a, b, q, e) && e < |s| && s[e] == '}'
    ensures LoadDict(s, p, "", acc) == Success((Dict(AddFirst(acc, k, v)), e + 1))
  {
    WordsEntryAt(s, p, a, k, b, v, q, e);
    EntryThenClose(s, p, acc, k, q, v, e);
  }

  /** `{a:b}` with a key word and a value word, whatever follows it, reads as the one-entry dictionary. */
  lemma OneEntryWordsLoad(a: string, k: string, b: string, v: string, rest: string, parent: Parent)
    requires KeyWord(a, k) && ValueWord(b, v)
    ensures LoadNode(OneEntryText(a, b) + rest, 0, parent) == Success((Dict(map[k := Str(v)]), |OneEntryText(a, b)|))
  {
    var s := OneEntryText(a, b) + rest;
    var q, e := 1 + |a|, 1 + |a| + 1 + |b|;
    PrefixAt(OneEntryText(a, b), rest);
    OneEntryAt(s, a, b, q, e);
    OneWordEntryLoads(s, a, k, b, v, q, e, parent);
    assert |OneEntryText(a, b)| == e + 1;
  }

  /** `{a:b,c:d}` with key and value words, whatever follows it, reads as the first entry and, unless its key is taken, the second. */
  lemma TwoEntriesWordsLoad(a: string, k1: string, b: string, v1: string, c: string, k2: string, d: string, v2: string, rest: string, parent: Parent)
    requires KeyWord(a, k1) && ValueWord(b, v1) && KeyWord(c, k2) && ValueWord(d, v2)
    ensures LoadNode(TwoEntriesText(a, b, c, d) + rest, 0, parent)
      == Success((Dict(AddFirst(map[k1 := Str(v1)], k2, v2)), |TwoEntriesText(a, b, c, d)|))
  {
    var s := TwoEntriesText(a, b, c, d) + rest;
    var q1, e1 := 1 + |a|, 1 + |a| + 1 + |b|;
    var q2, e2 := e1 + 1 + |c|, e1 + 1 + |c| + 1 + |d|;
    PrefixAt(TwoEntriesText(a, b, c, d), rest);
    TwoEntriesAt(s, a, b, c, d, q1, e1, q2, e2);
    TwoWordEntriesLoad(s, a, k1, b, v1, c, k2, d, v2, q1, e1, q2, e2, parent);
    assert |TwoEntriesText(a, b, c, d)| == e2 + 1;
  }

  /** `{"k":"v"}`, wherever a value is expected and whatever follows it, reads as the dictionary mapping k to v. */
  lemma OneEntryRoundTrip(k: string, v: string, rest: string, parent: Parent)
    ensures var text := OneEntryText(PrintString(k), PrintString(v));
      LoadNode(text + rest, 0, parent) == Success((Dict(map[k := Str(v)]), |text|))
  {
    PrintedWords(k);
    PrintedWords(v);
    OneEntryWordsLoad(PrintString(k), k, PrintString(v), v, rest, parent);
  }

  /**
   * `{"k1":"v1","k2":"v2"}`, wherever a value is expected and whatever follows it, reads as the
   * dictionary mapping k1 to v1 and, unless k2 is k1, k2 to v2.
   */
  lemma TwoEntriesRoundTrip(k1: string, v1: string, k2: string, v2: string, rest: string, parent: Parent)
    ensures var text := TwoEntriesText(PrintString(k1), PrintString(v1), PrintString(k2), PrintString(v2));
      LoadNode(text + rest, 0, parent) ==
        Success((Dict(if k2 == k1 then map[k1 := Str(v1)] else map[k1 := Str(v1), k2 := Str(v2)]), |text|))
  {
    PrintedWords(k1);
    PrintedWords(v1);
    PrintedWords(k2);
    PrintedWords(v2);
    TwoEntriesWordsLoad(PrintString(k1), k1, PrintString(v1), v1, PrintString(k2), k2, PrintString(v2), v2, rest, parent);
  }

  /** A key written twice keeps its first value: `{"k":"v1","k":"v2"}` reads as `{"k":"v1"}`. */
  lemma DuplicateKeyKeepsFirst(k: string, v1: string, v2: string, rest: string, parent: Parent)
    ensures var text := TwoEntriesText(PrintString(k), PrintString(v1), PrintString(k), PrintString(v2));
      LoadNode(text + rest, 0, parent) == Success((Dict(map[k := Str(v1)]), |text|))
  {
    TwoEntriesRoundTrip(k, v1, k, v2, rest, parent);
  }

  /** A minus sign or a digit starts a number. */
  lemma NumberDispatch(s: string, p: nat, parent: Parent)
    requires p < |s| && (s[p] == '-' || IsDigit(s[p]))
    ensures LoadNode(s, p, parent) == LoadNumber(s, p)
  {
    ScalarDispatch(s, p, parent);
    var c := s[p];
    assert c != '"' && c != 't' && c != 'f' && c != 'n' && c != 'N' && c != ',';
  }

  /**
   * A closing bracket, after any whitespace, is not a value: inside a container it reads as null
   * without being consumed, and at the top level it is an error.
   */
  lemma ClosingBracketAt(s: string, p: nat, q: nat, parent: Parent)
    requires p <= q < |s| && (s[q] == ']' || s[q] == '}')
    requires forall k | p <= k < q :: IgnoreChar(s[k])
    ensures LoadNode(s, p, parent) == if parent == NotOpening then Failure("Map parsing error") else Success((Null, q))
  {
    SkipsWhitespace(s, p, q, parent);
  }

  /** A character that neither is whitespace nor opens or closes a container starts a scalar. */
  lemma ScalarDispatch(s: string, p: nat, parent: Parent)
    requires p < |s| && !IgnoreChar(s[p]) && s[p] !in {']', '}', '[', '{'}
    ensures LoadNode(s, p, parent) == LoadScalar(s, p)
  {
  }

  lemma NumberCharsStart(n: NumberText, rest: string)
    requires WellFormedNumber(n)
    ensures |NumberChars(n) + rest| > 0
    ensures var c := (NumberChars(n) + rest)[0]; c == '-' || IsDigit(c)
  {
    if !n.negative {
      assert (NumberChars(n) + rest)[0] == n.whole[0];
    }
  }

  /** The text of a well-formed number, wherever a value is expected, reads back as that number's node. */
  lemma NumberNodeRoundTrip(n: NumberText, rest: string, parent: Parent)
    requires WellFormedNumber(n)
    requires Delimits(rest)
    ensures ConvertNumber(n, NumberChars(n)).Success? ==>
      LoadNode(NumberChars(n) + rest, 0, parent) == Success((ToNumberNode(n), |NumberChars(n)|))
    ensures ConvertNumber(n, NumberChars(n)).Failure? ==>
      LoadNode(NumberChars(n) + rest, 0, parent) == Failure("Failed to convert " + NumberChars(n) + " to number")
  {
    NumberRoundTrip(n, rest);
    NumberCharsStart(n, rest);
    NumberDispatch(NumberChars(n) + rest, 0, parent);
    assert (NumberChars(n) + rest)[0..|NumberChars(n)|] == NumberChars(n);
  }

  lemma {:induction false} Pow2BelowPow10(k: nat)
    requires k >= 1
    ensures Pow2(k) < Pow10(k)
  {
    if k > 1 {
      Pow2BelowPow10(k - 1);
    }
  }

  /** A well-formed number that is neither an `int` nor in the range of a double is a parsing error wherever it is read. */
  lemma OutOfRangeFails(n: NumberText, rest: string, parent: Parent)
    requires WellFormedNumber(n) && Delimits(rest)
    requires !(Integral(n) && IntMin <= WholeValue(n) <= IntMax) && !DoubleInRange(RealValue(n))
    ensures LoadNode(NumberChars(n) + rest, 0, parent) == Failure("Failed to convert " + NumberChars(n) + " to number")
  {
    NumberNodeRoundTrip(n, rest, parent);
  }

  /** Ten to the 1024th is beyond every double. */
  lemma HugeOutOfRange()
    ensures !DoubleInRange(Pow10(1024) as real)
  {
    Pow2BelowPow10(1024);
  }

  /** `1e` followed by the digits `ds` denotes ten to the value of those digits. */
  lemma PowerOfTenValue(ds: string)
    ensures RealValue(NumberText(false, "1", None, Some(Exponent('e', None, ds)))) == Pow10(DigitsValue(ds)) as real
  {
    assert DigitsValue("1") == 1 by {
      assert "1"[..0] == "";
    }
  }

  lemma DigitsValue1024()
    ensures DigitsValue("1024") == 1024
  {
    assert "1024"[..3] == "102" && "102"[..2] == "10" && "10"[..1] == "1" && "1"[..0] == "";
  }

  /** The text `1e1024`, split into its parts. */
  lemma HugeNumberText()
    ensures var n := NumberText(false, "1", None, Some(Exponent('e', None, "1024")));
      WellFormedNumber(n) && NumberChars(n) == "1e1024" && !Integral(n)
  {
  }

  /** Text such as `1e1024` is a well-formed number, but beyond every double: reading it is an error. */
  lemma HugeNumberFails(rest: string, parent: Parent)
    requires Delimits(rest)
    ensures LoadNode("1e1024" + rest, 0, parent) == Failure("Failed to convert " + "1e1024" + " to number")
  {
    var n := NumberText(false, "1", None, Some(Exponent('e', None, "1024")));
    HugeNumberText();
    PowerOfTenValue("1024");
    DigitsValue1024();
    HugeOutOfRange();
    OutOfRangeFails(n, rest, parent);
  }

  // ---------------------------------------------------------------------------
  // Accessors
  // ---------------------------------------------------------------------------

  /** An int is also a double to the reader's callers. */
  predicate IsDouble(n: Node) {
    n.Int? || n.Double?
  }

  predicate IsPureDouble(n: Node) {
    n.Double?
  }

  function AsInt(n: Node): (r: Result<int>)
    ensures r.Success? <==> n.Int?
    ensures r.Success? ==> n == Int(r.value)
  {
    if n.Int? then Success(n.ival) else Failure("Ahtung!")
  }

  function AsBool(n: Node): (r: Result<bool>)
    ensures r.Success? <==> n.Bool?
    ensures r.Success? ==> n == Bool(r.value)
  {
    if n.Bool? then Success(n.bval) else Failure("Ahtung!")
  }

  /** The value of a double, or of an int converted to a double. */
  function AsDouble(n: Node): (r: Result<real>)
    ensures r.Success? <==> IsDouble(n)
    ensures n.Double? ==> r == Success(n.dval)
    ensures n.Int? ==> r == Success(n.ival as real)
  {
    if n.Double? then Success(n.dval)
    else if n.Int? then Success(n.ival as real)
    else Failure("Ahtung!")
  }

  function AsString(n: Node): (r: Result<string>)
    ensures r.Success? <==> n.Str?
    ensures r.Success? ==> n == Str(r.value)
  {
    if n.Str? then Success(n.sval) else Failure("Ahtung!")
  }

  function AsArray(n: Node): (r: Result<seq<Node>>)
    ensures r.Success? <==> n.Array?
    ensures r.Success? ==> n == Array(r.value)
  {
    if n.Array? then Success(n.elems) else Failure("Ahtung!")
  }

  function AsMap(n: Node): (r: Result<map<string, Node>>)
    ensures r.Success? <==> n.Dict?
    ensures r.Success? ==> n == Dict(r.value)
  {
    if n.Dict? then Success(n.fields) else Failure("Ahtung!")
  }

  /** Whichever node a number converts to, reading it as a double gives the number's exact value. */
  lemma NumberAsDouble(n: NumberText)
    ensures AsDouble(ToNumberNode(n)) == Success(RealValue(n))
  {
    if Integral(n) {
      var m: int := DigitsValue(n.whole);
      assert RealValue(n) == if n.negative then -(m as real) else m as real;
    }
  }
}
