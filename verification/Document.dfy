/** GenericDocument as a handler: values are pushed on a flat stack, brackets pop what was pushed since they opened
    (document.h). */
module Document {
  import opened Events
  import opened Dom
  import opened ReaderSpec

  /** Whether stacked values are names and values in turn, as memory that is read as members must be. */
  predicate AreMembers(values: seq<Value>) {
    values == [] || (|values| >= 2 && values[0].StringValue? && AreMembers(values[2..]))
  }

  /** The members such values are read as. */
  function AsMembers(values: seq<Value>): seq<Member>
    requires AreMembers(values)
  {
    if values == [] then [] else [Member(values[0].text, values[1])] + AsMembers(values[2..])
  }

  /** One handler call. A call whose assertion on the stack size would fail is refused. */
  function Step(stack: seq<Value>, e: Event): (seq<Value>, bool) {
    match e
    case Null => (stack + [NullValue], true)
    case Bool(b) => (stack + [BoolValue(b)], true)
    case Int(i) => (stack + [OfInt(i)], true)
    case Uint(u) => (stack + [OfUint(u)], true)
    case Int64(i) => (stack + [OfInt64(i)], true)
    case Uint64(u) => (stack + [OfUint64(u)], true)
    case Double(d) => (stack + [DoubleValue(d)], true)
    case String(text) => (stack + [StringValue(text)], true)
    case Key(text) => (stack + [StringValue(text)], true)
    case StartObject => (stack + [ObjectValue([])], true)
    case StartArray => (stack + [ArrayValue([])], true)
    case EndArray(n) =>
      if n >= |stack| then (stack, false) else
        (stack[..|stack| - n - 1] + [ArrayValue(stack[|stack| - n..])], true)
    case EndObject(n) =>
      if 2 * n >= |stack| || !AreMembers(stack[|stack| - 2 * n..]) then (stack, false) else
        (stack[..|stack| - 2 * n - 1] + [ObjectValue(AsMembers(stack[|stack| - 2 * n..]))], true)
  }

  // ---------------------------------------------------------------- the frame lemma

  /** What the members from `k` on leave on the stack. */
  function Stacked(v: Value, k: nat): (values: seq<Value>)
    requires v.ObjectValue? && k <= |v.members|
    ensures |values| == 2 * (|v.members| - k)
    decreases |v.members| - k
  {
    if k == |v.members| then [] else
      [StringValue(v.members[k].name), v.members[k].value] + Stacked(v, k + 1)
  }

  /** EndArray pops exactly what was pushed since the bracket opened. */
  lemma ArrayCloses(stack: seq<Value>, es: seq<Value>)
    requires |es| < SIZE_MODULUS
    ensures Step(stack + [ArrayValue([])] + es, EndArray(|es|)) == (stack + [ArrayValue(es)], true)
  {
    var full := stack + [ArrayValue([])] + es;
    assert full[|full| - |es|..] == es;
    assert full[..|stack|] == stack;
  }

  lemma {:induction false} StackedAreMembers(v: Value, k: nat)
    requires v.ObjectValue? && k <= |v.members|
    ensures AreMembers(Stacked(v, k)) && AsMembers(Stacked(v, k)) == v.members[k..]
    decreases |v.members| - k
  {
    if k < |v.members| {
      assert Stacked(v, k)[2..] == Stacked(v, k + 1);
      StackedAreMembers(v, k + 1);
    }
  }

  /** So does EndObject, with two slots a member. */
  lemma EndObjectPops(stack: seq<Value>, values: seq<Value>, n: nat)
    requires AreMembers(values) && n < SIZE_MODULUS && |values| == 2 * n
    ensures Step(stack + [ObjectValue([])] + values, EndObject(n)) == (stack + [ObjectValue(AsMembers(values))], true)
  {
    hide AreMembers, AsMembers;
    var full := stack + [ObjectValue([])] + values;
    assert |full| - 2 * n == |stack| + 1;
    assert full[|full| - 2 * n..] == values;
    assert full[..|full| - 2 * n - 1] == stack;
  }

  lemma ObjectCloses(stack: seq<Value>, v: Value)
    requires v.ObjectValue? && |v.members| < SIZE_MODULUS
    ensures Step(stack + [ObjectValue([])] + Stacked(v, 0), EndObject(|v.members|)) == (stack + [v], true)
  {
    StackedAreMembers(v, 0);
    assert v.members[0..] == v.members;
    hide Stacked, AreMembers, AsMembers;
    EndObjectPops(stack, Stacked(v, 0), |v.members|);
  }

  /** Whoever sends them, the events of a value leave any stack as it was, plus that value. */
  lemma {:induction false} EventsPushValue(w: Sender, stack: seq<Value>, v: Value)
    requires Built(v)
    ensures Feed(Step, stack, EventsOf(w, v)) == (stack + [v], true)
    decreases v, Width(v) + 1
  {
    if v.ArrayValue? {
      ArrayCloses(stack, v.elements);
      assert v.elements[0..] == v.elements;
      assert Step(stack, StartArray) == (stack + [ArrayValue([])], true);
      hide Step, Feed;
      FeedBracketed(Step, stack, StartArray, ElementEvents(w, v, 0), EndArray(|v.elements|));
      ElementsPushValues(w, stack + [ArrayValue([])], v, 0);
    } else if v.ObjectValue? {
      ObjectCloses(stack, v);
      assert Step(stack, StartObject) == (stack + [ObjectValue([])], true);
      hide Step, Feed;
      FeedBracketed(Step, stack, StartObject, MemberEvents(w, v, 0), EndObject(|v.members|));
      MembersPushValues(w, stack + [ObjectValue([])], v, 0);
    } else {
      FeedOne(Step, stack, EventsOf(w, v)[0]);
    }
  }

  lemma {:induction false} ElementsPushValues(w: Sender, stack: seq<Value>, v: Value, k: nat)
    requires v.ArrayValue? && Built(v) && k <= |v.elements|
    ensures Feed(Step, stack, ElementEvents(w, v, k)) == (stack + v.elements[k..], true)
    decreases v, |v.elements| - k
  {
    if k < |v.elements| {
      EventsPushValue(w, stack, v.elements[k]);
      FeedAppend(Step, stack, EventsOf(w, v.elements[k]), ElementEvents(w, v, k + 1));
      ElementsPushValues(w, stack + [v.elements[k]], v, k + 1);
      assert stack + [v.elements[k]] + v.elements[k + 1..] == stack + v.elements[k..];
    } else {
      assert stack + v.elements[k..] == stack;
    }
  }

  lemma {:induction false} MembersPushValues(w: Sender, stack: seq<Value>, v: Value, k: nat)
    requires v.ObjectValue? && Built(v) && k <= |v.members|
    ensures Feed(Step, stack, MemberEvents(w, v, k)) == (stack + Stacked(v, k), true)
    decreases v, |v.members| - k
  {
    if k < |v.members| {
      var m := v.members[k];
      var stack1 := stack + [StringValue(m.name)];
      assert Step(stack, Key(m.name)) == (stack1, true);
      assert stack1 + [m.value] + Stacked(v, k + 1) == stack + Stacked(v, k);
      hide Step, Stacked, Feed, EventsOf;
      FeedMember(Step, stack, Key(m.name), EventsOf(w, m.value), MemberEvents(w, v, k + 1));
      EventsPushValue(w, stack1, m.value);
      MembersPushValues(w, stack1 + [m.value], v, k + 1);
    } else {
      assert stack + Stacked(v, k) == stack;
    }
  }

  // ---------------------------------------------------------------- deep copy

  /** The deep-copy constructor: Accept into a fresh document, pop its one value. */
  function DeepCopy(v: Value): (Value, bool)
    requires Built(v)
  {
    var (stack, ok) := Accept(Step, [], v);
    if ok && |stack| == 1 then (stack[0], true) else (NullValue, false)
  }

  lemma DeepCopyIsEqual(v: Value)
    requires Built(v)
    ensures DeepCopy(v) == (v, true)
  {
    AcceptSendsEvents(Step, [], v);
    EventsPushValue(ByAccept, [], v);
  }

  // ---------------------------------------------------------------- the document as it runs

  class GenericDocument {
    var stack: seq<Value>        // stack_
    var root: Value              // the document is itself a value
    var error: ErrorCode         // parseResult_

    constructor ()
      ensures stack == [] && root == NullValue && error == NoError
    {
      stack, root, error := [], NullValue, NoError;
    }

    method Push(v: Value)
      modifies this`stack
      ensures stack == old(stack) + [v]
    {
      stack := stack + [v];
    }

    method Pop(count: nat) returns (values: seq<Value>)
      requires count <= |stack|
      modifies this`stack
      ensures values == old(stack)[|old(stack)| - count..]
      ensures stack == old(stack)[..|old(stack)| - count]
    {
      values := stack[|stack| - count..];
      stack := stack[..|stack| - count];
    }

    method SetTop(v: Value)
      requires stack != []
      modifies this`stack
      ensures stack == old(stack)[..|old(stack)| - 1] + [v]
    {
      stack := stack[|stack| - 1 := v];
    }

    /** The handler methods. The precondition is that none of their assertions fails. */
    method Handle(e: Event)
      requires Step(stack, e).1
      modifies this`stack
      ensures stack == Step(old(stack), e).0
    {
      match e {
        case Null => Push(NullValue);
        case Bool(b) => Push(BoolValue(b));
        case Int(i) => Push(OfInt(i));
        case Uint(u) => Push(OfUint(u));
        case Int64(i) => Push(OfInt64(i));
        case Uint64(u) => Push(OfUint64(u));
        case Double(d) => Push(DoubleValue(d));
        case String(text) => Push(StringValue(text));
        case Key(text) => Push(StringValue(text));
        case StartObject => Push(ObjectValue([]));
        case StartArray => Push(ArrayValue([]));
        case EndObject(memberCount) =>
          var members := Pop(2 * memberCount);
          SetTop(ObjectValue(AsMembers(members)));
        case EndArray(elementCount) =>
          var elements := Pop(elementCount);
          SetTop(ArrayValue(elements));
      }
    }
  }
}
