/**
 * The JSON builder: a stack machine that assembles a node from a sequence of
 * calls (start/end a dictionary or array, a key, a value, build), checking
 * every call against the element kinds the top of the stack expects next.
 *
 * Each operation maps a builder state to a new state or to the error the
 * builder throws. The model keeps the builder's two quirks: opening a
 * dictionary under a pending key empties the enclosing dictionary, and opening
 * an array inside an array adds an extra empty array to it.
 */
module JsonBuilder {
  import opened Wrappers
  import opened Json

  /** What a stack frame is, and what kinds of call the frames accept. */
  datatype NodeType = ArrayItem | KeyItem | ValueItem | DictItem | RootItem

  function TypeName(t: NodeType): string {
    match t
    case ArrayItem => "Array"
    case KeyItem => "Key"
    case ValueItem => "Value"
    case DictItem => "Dict"
    case RootItem => "Root"
  }

  /** A container under construction, its pending key, its kind, and the calls it accepts. */
  datatype Frame = Frame(node: Node, key: string, kind: NodeType, expected: seq<NodeType>)

  /** The frame stack (top last) and the number of elements added so far. */
  datatype Builder = Builder(stack: seq<Frame>, count: nat)

  const ContainerOrValue: seq<NodeType> := [ArrayItem, DictItem, ValueItem]

  /** A fresh builder: a root frame that accepts an array, a dictionary or a value. */
  const Fresh: Builder := Builder([Frame(Null, "", RootItem, ContainerOrValue)], 0)

  /**
   * The shapes the builder's stack keeps: the bottom frame is the root (still
   * open, or holding a value); every other frame is an open dictionary (possibly
   * with a pending key) or an open array, whose node is of that kind; and each
   * kind accepts its fixed set of calls.
   */
  ghost predicate Wf(b: Builder) {
    && |b.stack| >= 1
    && b.stack[0].kind in {RootItem, ValueItem}
    && (b.stack[0].kind == ValueItem ==> b.stack[0].expected == [RootItem])
    && (b.stack[0].expected == ContainerOrValue || b.stack[0].expected == [RootItem])
    && (forall i | 1 <= i < |b.stack| :: WfInner(b.stack[i]))
    && (|b.stack| > 1 ==> b.stack[0].kind == RootItem && b.stack[0].expected == ContainerOrValue)
    && (forall i | 1 <= i < |b.stack| - 1 :: b.stack[i].kind != DictItem)
  }

  ghost predicate WfInner(f: Frame) {
    match f.kind
    case DictItem => f.node.Dict? && f.expected == [KeyItem]
    case KeyItem => f.node.Dict? && f.expected == [ValueItem, ArrayItem, DictItem]
    case ArrayItem => f.node.Array? && f.expected == ContainerOrValue
    case _ => false
  }

  lemma FreshIsWf()
    ensures Wf(Fresh)
  {
  }

  function Top(b: Builder): Frame
    requires |b.stack| >= 1
  {
    b.stack[|b.stack| - 1]
  }

  /** The stack with its top frame replaced. */
  function SetTop(b: Builder, f: Frame): (r: seq<Frame>)
    requires |b.stack| >= 1
    ensures |r| == |b.stack| && r[|r| - 1] == f
    ensures forall i | 0 <= i < |r| - 1 :: r[i] == b.stack[i]
  {
    b.stack[..|b.stack| - 1] + [f]
  }

  /** Replacing an inner top frame by another well-formed inner frame keeps the stack well formed. */
  lemma SetTopInnerWf(b: Builder, f: Frame, count: nat)
    requires Wf(b) && |b.stack| > 1 && WfInner(f)
    ensures Wf(Builder(SetTop(b, f), count))
  {
  }

  /** Whether the top frame accepts a call of kind `t`; the error names the call and the accepted kinds. */
  function CheckExpectedElement(b: Builder, t: NodeType): (r: Result<()>)
    requires |b.stack| >= 1
    ensures r.Success? <==> t in Top(b).expected
  {
    if t in Top(b).expected then Success(())
    else Failure(TypeName(t) + " completion is incorrect. Expected:" + ExpectedNames(Top(b).expected))
  }

  function ExpectedNames(ts: seq<NodeType>): string {
    if ts == [] then "" else ExpectedNames(ts[..|ts| - 1]) + " " + TypeName(ts[|ts| - 1])
  }

  /** A frame that has received a keyed element: the key is consumed and the frame is a dictionary again. */
  function PutUnderKey(f: Frame, v: Node): Frame
    requires f.node.Dict?
  {
    Frame(Dict(f.node.fields[f.key := v]), f.key, DictItem, [KeyItem])
  }

  function Append(f: Frame, v: Node): Frame
    requires f.node.Array?
  {
    f.(node := Array(f.node.elems + [v]))
  }

  // ---------------------------------------------------------------------------
  // Operations
  // ---------------------------------------------------------------------------

  /**
   * Opens a dictionary. Unless the top frame is an array, its node is first
   * replaced by an empty dictionary.
   */
  function StartDict(b: Builder): (r: Result<Builder>)
    requires Wf(b)
    ensures r.Success? <==> DictItem in Top(b).expected
    ensures r.Success? ==> Wf(r.value) && r.value.count == b.count + 1
    ensures r.Success? ==> |r.value.stack| == |b.stack| + 1 && Top(r.value) == Frame(Dict(map[]), "", DictItem, [KeyItem])
    ensures r.Success? && Top(b).kind != ArrayItem ==> r.value.stack[|b.stack| - 1] == Top(b).(node := Dict(map[]))
    ensures r.Success? && Top(b).kind == ArrayItem ==> r.value.stack[..|b.stack|] == b.stack
    ensures r.Success? ==> r.value.stack[..|b.stack| - 1] == b.stack[..|b.stack| - 1]
  {
    var _ :- CheckExpectedElement(b, DictItem);
    var open := Frame(Dict(map[]), "", DictItem, [KeyItem]);
    if Top(b).kind == ArrayItem then
      Success(Builder(b.stack + [open], b.count + 1))
    else
      Success(Builder(SetTop(b, Top(b).(node := Dict(map[]))) + [open], b.count + 1))
  }

  /** Closes the dictionary on top and hands it to the frame below. */
  function EndDict(b: Builder): (r: Result<Builder>)
    requires Wf(b)
    ensures r.Success? <==> Top(b).kind == DictItem
    ensures r.Success? ==> Wf(r.value) && r.value.count == b.count && |r.value.stack| == |b.stack| - 1
    ensures r.Success? ==> Receives(b.stack[|b.stack| - 2], Top(b).node, Top(r.value))
    ensures r.Success? ==> r.value.stack[..|b.stack| - 2] == b.stack[..|b.stack| - 2]
  {
    if Top(b).kind == DictItem then Close(b)
    else Failure("End dictionary completion is incorrect")
  }

  /** Opens an array. Inside an array, an empty array is first appended to the enclosing one. */
  function StartArray(b: Builder): (r: Result<Builder>)
    requires Wf(b)
    ensures r.Success? <==> ArrayItem in Top(b).expected
    ensures r.Success? ==> Wf(r.value) && r.value.count == b.count + 1
    ensures r.Success? ==> |r.value.stack| == |b.stack| + 1 && Top(r.value) == Frame(Array([]), "", ArrayItem, ContainerOrValue)
    ensures r.Success? && Top(b).kind == ArrayItem ==> r.value.stack[|b.stack| - 1] == Append(Top(b), Array([]))
    ensures r.Success? && Top(b).kind != ArrayItem ==> r.value.stack[..|b.stack|] == b.stack
    ensures r.Success? ==> r.value.stack[..|b.stack| - 1] == b.stack[..|b.stack| - 1]
  {
    var _ :- CheckExpectedElement(b, ArrayItem);
    var open := Frame(Array([]), "", ArrayItem, ContainerOrValue);
    if Top(b).kind == ArrayItem then
      Success(Builder(SetTop(b, Append(Top(b), Array([]))) + [open], b.count + 1))
    else
      Success(Builder(b.stack + [open], b.count + 1))
  }

  /** Closes the array on top and hands it to the frame below. */
  function EndArray(b: Builder): (r: Result<Builder>)
    requires Wf(b)
    ensures r.Success? <==> Top(b).kind == ArrayItem
    ensures r.Success? ==> Wf(r.value) && r.value.count == b.count && |r.value.stack| == |b.stack| - 1
    ensures r.Success? ==> Receives(b.stack[|b.stack| - 2], Top(b).node, Top(r.value))
    ensures r.Success? ==> r.value.stack[..|b.stack| - 2] == b.stack[..|b.stack| - 2]
  {
    if Top(b).kind == ArrayItem then Close(b)
    else Failure("End array completion is incorrect.")
  }

  /**
   * How a frame takes a finished child: under its pending key (becoming a
   * dictionary that expects a key), appended to its array, or as the root (which
   * then accepts nothing more).
   */
  ghost predicate Receives(parent: Frame, child: Node, after: Frame) {
    match parent.kind
    case KeyItem => parent.node.Dict? && after == PutUnderKey(parent, child)
    case ArrayItem => parent.node.Array? && after == Append(parent, child)
    case RootItem => after == parent.(node := child, expected := [RootItem])
    case _ => false
  }

  /** Pops the open container on top and attaches it to the frame below. */
  function Close(b: Builder): (r: Result<Builder>)
    requires Wf(b) && Top(b).kind in {DictItem, ArrayItem}
    ensures r.Success? && Wf(r.value) && r.value.count == b.count && |r.value.stack| == |b.stack| - 1
    ensures Receives(b.stack[|b.stack| - 2], Top(b).node, Top(r.value))
    ensures r.value.stack[..|b.stack| - 2] == b.stack[..|b.stack| - 2]
  {
    var child := Top(b).node;
    var rest := Builder(b.stack[..|b.stack| - 1], b.count);
    var parent := Top(rest);
    assert parent == b.stack[|b.stack| - 2];
    if parent.kind == KeyItem then Success(Builder(SetTop(rest, PutUnderKey(parent, child)), b.count))
    else if parent.kind == ArrayItem then Success(Builder(SetTop(rest, Append(parent, child)), b.count))
    else Success(Builder(SetTop(rest, parent.(node := child, expected := [RootItem])), b.count))
  }

  /** Sets the pending key of the dictionary on top. */
  function Key(b: Builder, k: string): (r: Result<Builder>)
    requires Wf(b)
    ensures r.Success? <==> KeyItem in Top(b).expected
    ensures r.Success? ==> Wf(r.value) && r.value.count == b.count + 1
    ensures r.Success? ==> Top(r.value) == Frame(Top(b).node, k, KeyItem, [ValueItem, ArrayItem, DictItem])
    ensures r.Success? ==> |r.value.stack| == |b.stack| && r.value.stack[..|b.stack| - 1] == b.stack[..|b.stack| - 1]
  {
    var _ :- CheckExpectedElement(b, KeyItem);
    var f := Frame(Top(b).node, k, KeyItem, [ValueItem, ArrayItem, DictItem]);
    SetTopInnerWf(b, f, b.count + 1);
    Success(Builder(SetTop(b, f), b.count + 1))
  }

  /** Adds a value: appended in an array, stored under the pending key, or made the root. */
  function Value(b: Builder, v: Node): (r: Result<Builder>)
    requires Wf(b)
    ensures r.Success? <==> ValueItem in Top(b).expected
    ensures r.Success? ==> Wf(r.value) && r.value.count == b.count + 1 && |r.value.stack| == |b.stack|
    ensures r.Success? ==> r.value.stack[..|b.stack| - 1] == b.stack[..|b.stack| - 1]
    ensures r.Success? && Top(b).kind == ArrayItem ==> Top(r.value).node == Array(Top(b).node.elems + [v])
    ensures r.Success? && Top(b).kind == KeyItem ==> Top(r.value) == PutUnderKey(Top(b), v)
    ensures r.Success? && Top(b).kind == RootItem ==> Top(r.value) == Frame(v, Top(b).key, ValueItem, [RootItem])
  {
    var _ :- CheckExpectedElement(b, ValueItem);
    if Top(b).kind == ArrayItem then Success(Builder(SetTop(b, Append(Top(b), v)), b.count + 1))
    else if Top(b).kind == KeyItem then Success(Builder(SetTop(b, PutUnderKey(Top(b), v)), b.count + 1))
    else Success(Builder(SetTop(b, Frame(v, Top(b).key, ValueItem, [RootItem])), b.count + 1))
  }

  /** The finished node: every container must be closed and something must have been added. */
  function Build(b: Builder): (r: Result<Node>)
    requires Wf(b)
    ensures r.Success? <==> |b.stack| == 1 && b.count > 0
    ensures r.Success? ==> r.value == b.stack[0].node
  {
    if |b.stack| > 1 then Failure("Unclosed element: " + TypeName(Top(b).kind))
    else if b.count == 0 then Failure("There are no elements to build")
    else Success(b.stack[0].node)
  }

  // ---------------------------------------------------------------------------
  // Properties of call sequences
  // ---------------------------------------------------------------------------

  /** A key followed by a value stores the value under the key and leaves the dictionary expecting a key. */
  lemma KeyThenValue(b: Builder, k: string, v: Node)
    requires Wf(b) && Top(b).kind == DictItem
    ensures Key(b, k).Success? && Value(Key(b, k).value, v).Success?
    ensures var after := Value(Key(b, k).value, v).value;
      && Top(after) == Frame(Dict(Top(b).node.fields[k := v]), k, DictItem, [KeyItem])
      && after.stack[..|b.stack| - 1] == b.stack[..|b.stack| - 1]
  {
    var b1 := Key(b, k).value;
    assert b1.stack[..|b1.stack| - 1] == b.stack[..|b.stack| - 1];
  }

  /** Once the root holds a value, every further element is rejected and the value is what gets built. */
  lemma SealedRootRejects(b: Builder, k: string, v: Node)
    requires Wf(b) && Top(b).expected == [RootItem]
    ensures StartDict(b).Failure? && StartArray(b).Failure? && Key(b, k).Failure? && Value(b, v).Failure?
  {
  }

  lemma ValueAtRoot(v: Node, k: string, w: Node)
    ensures Value(Fresh, v).Success?
    ensures var b := Value(Fresh, v).value;
      && Build(b) == Success(v)
      && StartDict(b).Failure? && StartArray(b).Failure? && Key(b, k).Failure? && Value(b, w).Failure?
  {
    FreshIsWf();
    var b := Value(Fresh, v).value;
    SealedRootRejects(b, k, w);
  }

  /** One call of the builder's fluent interface. */
  datatype Call =
    | StartDictCall
    | EndDictCall
    | StartArrayCall
    | EndArrayCall
    | KeyCall(k: string)
    | ValueCall(v: Node)

  function Step(b: Builder, c: Call): (r: Result<Builder>)
    requires Wf(b)
    ensures r.Success? ==> Wf(r.value)
  {
    match c
    case StartDictCall => StartDict(b)
    case EndDictCall => EndDict(b)
    case StartArrayCall => StartArray(b)
    case EndArrayCall => EndArray(b)
    case KeyCall(k) => Key(b, k)
    case ValueCall(v) => Value(b, v)
  }

  /** A chain of calls on a fresh builder, ended by `Build`; the first rejected call ends the chain. */
  function BuildFrom(b: Builder, calls: seq<Call>): (r: Result<Node>)
    requires Wf(b)
    decreases |calls|
  {
    if calls == [] then Build(b)
    else
      var next :- Step(b, calls[0]);
      BuildFrom(next, calls[1..])
  }

  lemma BuildFromStep(b: Builder, c: Call, rest: seq<Call>, next: Builder)
    requires Wf(b) && Step(b, c) == Success(next)
    ensures BuildFrom(b, [c] + rest) == BuildFrom(next, rest)
  {
    assert ([c] + rest)[1..] == rest;
  }

  /** The first rejected call ends the chain, and its error is the chain's error. */
  lemma BuildFromRejected(b: Builder, c: Call, rest: seq<Call>)
    requires Wf(b) && Step(b, c).Failure?
    ensures BuildFrom(b, [c] + rest) == Failure(Step(b, c).error)
  {
  }

  /** The open root after a dictionary was started in it, and the frames the calls below leave on top of it. */
  const RootOpen: Frame := Frame(Dict(map[]), "", RootItem, ContainerOrValue)
  const AfterKey: seq<NodeType> := [ValueItem, ArrayItem, DictItem]

  /** The builder states of `StartDict Key("a") Value(1) Key("b") StartDict EndDict EndDict`, one per call. */
  const Drop1: Builder := Builder([RootOpen, Frame(Dict(map[]), "", DictItem, [KeyItem])], 1)
  const Drop2: Builder := Builder([RootOpen, Frame(Dict(map[]), "a", KeyItem, AfterKey)], 2)
  const Drop3: Builder := Builder([RootOpen, Frame(Dict(map["a" := Int(1)]), "a", DictItem, [KeyItem])], 3)
  const Drop4: Builder := Builder([RootOpen, Frame(Dict(map["a" := Int(1)]), "b", KeyItem, AfterKey)], 4)
  const Drop5: Builder := Builder([RootOpen, Frame(Dict(map[]), "b", KeyItem, AfterKey), Frame(Dict(map[]), "", DictItem, [KeyItem])], 5)
  const Drop6: Builder := Builder([RootOpen, Frame(Dict(map["b" := Dict(map[])]), "b", DictItem, [KeyItem])], 5)
  const Drop7: Builder := Builder([Frame(Dict(map["b" := Dict(map[])]), "", RootItem, [RootItem])], 5)

  lemma DropOpens()
    ensures Wf(Fresh) && Wf(Drop1) && Step(Fresh, StartDictCall) == Success(Drop1)
  {
    assert SetTop(Fresh, Top(Fresh).(node := Dict(map[]))) + [Top(Drop1)] == Drop1.stack;
  }

  lemma DropFirstEntry()
    ensures Wf(Drop1) && Wf(Drop2) && Step(Drop1, KeyCall("a")) == Success(Drop2)
    ensures Wf(Drop3) && Step(Drop2, ValueCall(Int(1))) == Success(Drop3)
  {
    assert SetTop(Drop1, Frame(Dict(map[]), "a", KeyItem, AfterKey)) == Drop2.stack;
    assert SetTop(Drop2, PutUnderKey(Top(Drop2), Int(1))) == Drop3.stack;
  }

  /** Starting the inner dictionary under key "b" empties the enclosing one: "a" is gone from `Drop5`. */
  lemma DropSecondKey()
    ensures Wf(Drop3) && Wf(Drop4) && Step(Drop3, KeyCall("b")) == Success(Drop4)
    ensures Wf(Drop5) && Step(Drop4, StartDictCall) == Success(Drop5)
  {
    assert SetTop(Drop3, Frame(Top(Drop3).node, "b", KeyItem, AfterKey)) == Drop4.stack;
    assert SetTop(Drop4, Top(Drop4).(node := Dict(map[]))) + [Top(Drop5)] == Drop5.stack;
  }

  lemma DropClosesInner()
    ensures Wf(Drop5) && Wf(Drop6) && Step(Drop5, EndDictCall) == Success(Drop6)
  {
    var rest := Builder(Drop5.stack[..2], 5);
    assert rest.stack == [RootOpen, Frame(Dict(map[]), "b", KeyItem, AfterKey)];
    assert SetTop(rest, PutUnderKey(Top(rest), Dict(map[]))) == Drop6.stack;
  }

  lemma DropClosesOuter()
    ensures Wf(Drop6) && Wf(Drop7) && Step(Drop6, EndDictCall) == Success(Drop7)
    ensures Build(Drop7) == Success(Dict(map["b" := Dict(map[])]))
  {
    var rest := Builder(Drop6.stack[..1], 5);
    assert rest.stack == [RootOpen];
    assert SetTop(rest, RootOpen.(node := Dict(map["b" := Dict(map[])]), expected := [RootItem])) == Drop7.stack;
  }

  /** Opening a dictionary under a pending key discards the entries the enclosing dictionary already had. */
  lemma DictUnderKeyDropsEntries()
    ensures BuildFrom(Fresh, [StartDictCall, KeyCall("a"), ValueCall(Int(1)), KeyCall("b"), StartDictCall, EndDictCall, EndDictCall])
         == Success(Dict(map["b" := Dict(map[])]))
  {
    DropOpens();
    DropFirstEntry();
    DropSecondKey();
    DropClosesInner();
    DropClosesOuter();
    BuildFromStep(Drop6, EndDictCall, [], Drop7);
    BuildFromStep(Drop5, EndDictCall, [EndDictCall], Drop6);
    BuildFromStep(Drop4, StartDictCall, [EndDictCall, EndDictCall], Drop5);
    BuildFromStep(Drop3, KeyCall("b"), [StartDictCall, EndDictCall, EndDictCall], Drop4);
    BuildFromStep(Drop2, ValueCall(Int(1)), [KeyCall("b"), StartDictCall, EndDictCall, EndDictCall], Drop3);
    BuildFromStep(Drop1, KeyCall("a"), [ValueCall(Int(1)), KeyCall("b"), StartDictCall, EndDictCall, EndDictCall], Drop2);
    BuildFromStep(Fresh, StartDictCall, [KeyCall("a"), ValueCall(Int(1)), KeyCall("b"), StartDictCall, EndDictCall, EndDictCall], Drop1);
  }

  /** Opening an array inside an array leaves an extra empty array in the enclosing one. */
  lemma NestedArrayDuplicated()
    ensures BuildFrom(Fresh, [StartArrayCall, StartArrayCall, EndArrayCall, EndArrayCall])
         == Success(Array([Array([]), Array([])]))
  {
    FreshIsWf();
    var b1 := StartArray(Fresh).value;
    var b2 := StartArray(b1).value;
    var b3 := EndArray(b2).value;
    var b4 := EndArray(b3).value;
    assert Top(b3).node == Array([Array([]), Array([])]);
    BuildFromStep(b3, EndArrayCall, [], b4);
    BuildFromStep(b2, EndArrayCall, [EndArrayCall], b3);
    BuildFromStep(b1, StartArrayCall, [EndArrayCall, EndArrayCall], b2);
    BuildFromStep(Fresh, StartArrayCall, [StartArrayCall, EndArrayCall, EndArrayCall], b1);
  }

  /** As written: an empty dictionary opened and closed under a pending key leaves only that key in the enclosing dictionary. */
  lemma EmptyDictUnderKeyAsWritten(b: Builder)
    requires Wf(b) && Top(b).kind == KeyItem
    ensures StartDict(b).Success? && EndDict(StartDict(b).value).Success?
    ensures Top(EndDict(StartDict(b).value).value).node == Dict(map[Top(b).key := Dict(map[])])
  {
  }

  /** As written: an empty array opened and closed inside an array adds two empty arrays to it. */
  lemma EmptyArrayInArrayAsWritten(b: Builder)
    requires Wf(b) && Top(b).kind == ArrayItem
    ensures StartArray(b).Success? && EndArray(StartArray(b).value).Success?
    ensures Top(EndArray(StartArray(b).value).value).node == Array(Top(b).node.elems + [Array([]), Array([])])
  {
  }

  /** `StartDict` as evidently intended: the enclosing frame is left as it is. */
  function StartDictKeepingEntries(b: Builder): (r: Result<Builder>)
    requires Wf(b)
    ensures r.Success? <==> DictItem in Top(b).expected
    ensures r.Success? ==> Wf(r.value) && r.value.count == b.count + 1
    ensures r.Success? ==> |r.value.stack| == |b.stack| + 1 && r.value.stack[..|b.stack|] == b.stack
  {
    var _ :- CheckExpectedElement(b, DictItem);
    Success(Builder(b.stack + [Frame(Dict(map[]), "", DictItem, [KeyItem])], b.count + 1))
  }

  /** `StartArray` as evidently intended: the enclosing array receives the new array only when it is closed. */
  function StartArrayOnce(b: Builder): (r: Result<Builder>)
    requires Wf(b)
    ensures r.Success? <==> ArrayItem in Top(b).expected
    ensures r.Success? ==> Wf(r.value) && r.value.count == b.count + 1
    ensures r.Success? ==> |r.value.stack| == |b.stack| + 1 && r.value.stack[..|b.stack|] == b.stack
  {
    var _ :- CheckExpectedElement(b, ArrayItem);
    Success(Builder(b.stack + [Frame(Array([]), "", ArrayItem, ContainerOrValue)], b.count + 1))
  }

  /** With the intended `StartDict`, a nested dictionary is added under the pending key and the earlier entries stay. */
  lemma DictUnderKeyKeepsEntries(b: Builder)
    requires Wf(b) && Top(b).kind == KeyItem
    ensures StartDictKeepingEntries(b).Success? && EndDict(StartDictKeepingEntries(b).value).Success?
    ensures Top(EndDict(StartDictKeepingEntries(b).value).value).node == Dict(Top(b).node.fields[Top(b).key := Dict(map[])])
  {
    var b1 := StartDictKeepingEntries(b).value;
    assert b1.stack[|b1.stack| - 2] == Top(b);
  }

  /** With the intended `StartArray`, a nested array is added to the enclosing array exactly once. */
  lemma ArrayInArrayAddedOnce(b: Builder)
    requires Wf(b) && Top(b).kind == ArrayItem
    ensures StartArrayOnce(b).Success? && EndArray(StartArrayOnce(b).value).Success?
    ensures Top(EndArray(StartArrayOnce(b).value).value).node == Array(Top(b).node.elems + [Array([])])
  {
    var b1 := StartArrayOnce(b).value;
    assert b1.stack[|b1.stack| - 2] == Top(b);
  }
}
