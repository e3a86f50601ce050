/** The document object model: values, the events a value sends, and the handler that builds values back (document.h). */
module Dom {
  import opened Streams
  import opened Events

  /** The type-test flags of a number. */
  datatype Flags = Flags(isInt: bool, isUint: bool, isInt64: bool, isUint64: bool)

  datatype Value =
    | NullValue
    | BoolValue(b: bool)
    | StringValue(text: bytes)
    | NumberValue(n: int, flags: Flags)
    | DoubleValue(d: Float)
    | ArrayValue(elements: seq<Value>)
    | ObjectValue(members: seq<Member>)

  datatype Member = Member(name: bytes, value: Value)

  // ---------------------------------------------------------------- numbers

  function OfInt(i: int32): Value {
    NumberValue(i, Flags(true, i >= 0, true, i >= 0))
  }

  function OfUint(u: uint32): Value {
    NumberValue(u, Flags(u < 0x8000_0000, true, true, true))
  }

  function OfInt64(i: int64): Value {
    if i >= 0 then NumberValue(i, Flags(i < 0x8000_0000, i < 0x1_0000_0000, true, true))
    else NumberValue(i, Flags(i >= -0x8000_0000, false, true, false))
  }

  function OfUint64(u: uint64): Value {
    NumberValue(u, Flags(u < 0x8000_0000, u < 0x1_0000_0000, u < 0x8000_0000_0000_0000, true))
  }

  /** Each flag says whether the number fits its type. */
  function FittingFlags(n: int): Flags {
    Flags(-0x8000_0000 <= n < 0x8000_0000, 0 <= n < 0x1_0000_0000,
          -0x8000_0000_0000_0000 <= n < 0x8000_0000_0000_0000, 0 <= n < 0x1_0000_0000_0000_0000)
  }

  predicate InRange(n: int) {
    -0x8000_0000_0000_0000 <= n < 0x1_0000_0000_0000_0000
  }

  /** The number event Accept sends: the first type the flags allow. */
  function EventOfNumber(n: int, flags: Flags): Event
    requires InRange(n) && flags == FittingFlags(n)
  {
    if flags.isInt then Int(n)
    else if flags.isUint then Uint(n)
    else if flags.isInt64 then Int64(n)
    else Uint64(n)
  }

  /** The number event ParseNumber sends: after a minus Int or Int64, otherwise Uint or Uint64. */
  function EventOfInteger(n: int): Event
    requires InRange(n)
  {
    if n < -0x8000_0000 then Int64(n)
    else if n < 0 then Int(n)
    else if n < 0x1_0000_0000 then Uint(n)
    else Uint64(n)
  }

  // ---------------------------------------------------------------- values that constructors build

  /** Numbers carry the flags of their value; sizes fit SizeType. */
  predicate Built(v: Value) {
    match v
    case NumberValue(n, flags) => InRange(n) && flags == FittingFlags(n)
    case ArrayValue(es) => |es| < SIZE_MODULUS && forall i | 0 <= i < |es| :: Built(es[i])
    case ObjectValue(ms) => |ms| < SIZE_MODULUS && forall i | 0 <= i < |ms| :: Built(ms[i].value)
    case _ => true
  }

  function Width(v: Value): nat {
    match v
    case ArrayValue(es) => |es|
    case ObjectValue(ms) => |ms|
    case _ => 0
  }

  // ---------------------------------------------------------------- Accept

  /** Who tells a value: Accept, or a reader of its text. They choose different events for small numbers. */
  datatype Sender = ByAccept | ByReader

  /** The events of a value, in order. */
  function EventsOf(w: Sender, v: Value): seq<Event>
    requires Built(v)
    decreases v, Width(v) + 1
  {
    match v
    case NullValue => [Null]
    case BoolValue(b) => [Bool(b)]
    case StringValue(text) => [String(text)]
    case NumberValue(n, flags) => [if w.ByAccept? then EventOfNumber(n, flags) else EventOfInteger(n)]
    case DoubleValue(d) => [Double(d)]
    case ArrayValue(es) => [StartArray] + ElementEvents(w, v, 0) + [EndArray(|es|)]
    case ObjectValue(ms) => [StartObject] + MemberEvents(w, v, 0) + [EndObject(|ms|)]
  }

  /** The events of the elements from `k` on. */
  function ElementEvents(w: Sender, v: Value, k: nat): seq<Event>
    requires v.ArrayValue? && Built(v) && k <= |v.elements|
    decreases v, |v.elements| - k
  {
    if k == |v.elements| then [] else EventsOf(w, v.elements[k]) + ElementEvents(w, v, k + 1)
  }

  /** The events of the members from `k` on. */
  function MemberEvents(w: Sender, v: Value, k: nat): seq<Event>
    requires v.ObjectValue? && Built(v) && k <= |v.members|
    decreases v, |v.members| - k
  {
    if k == |v.members| then [] else
      [Key(v.members[k].name)] + EventsOf(w, v.members[k].value) + MemberEvents(w, v, k + 1)
  }

  /** A handler with state: the state after an event, and whether it wants more. */
  type Handler<!S> = (S, Event) -> (S, bool)

  /** Send events until one is refused. */
  function Feed<S>(h: Handler<S>, s: S, events: seq<Event>): (S, bool) {
    if events == [] then (s, true) else
      var (s', ok) := h(s, events[0]);
      if ok then Feed(h, s', events[1..]) else (s', false)
  }

  lemma {:induction false} FeedAppend<S>(h: Handler<S>, s: S, a: seq<Event>, b: seq<Event>)
    ensures Feed(h, s, a + b) == if Feed(h, s, a).1 then Feed(h, Feed(h, s, a).0, b) else Feed(h, s, a)
    decreases |a|
  {
    if a == [] {
      assert a + b == b;
    } else {
      assert (a + b)[1..] == a[1..] + b;
      FeedAppend(h, h(s, a[0]).0, a[1..], b);
    }
  }

  /** Accept: the recursion over the tree, each call to the handler cutting it short. */
  function Accept<S>(h: Handler<S>, s: S, v: Value): (S, bool)
    requires Built(v)
    decreases v, Width(v) + 1
  {
    match v
    case NullValue => h(s, Null)
    case BoolValue(b) => h(s, Bool(b))
    case StringValue(text) => h(s, String(text))
    case NumberValue(n, flags) => h(s, EventOfNumber(n, flags))
    case DoubleValue(d) => h(s, Double(d))
    case ArrayValue(es) =>
      var (s1, ok1) := h(s, StartArray);
      if !ok1 then (s1, false) else
        var (s2, ok2) := AcceptElements(h, s1, v, 0);
        if !ok2 then (s2, false) else h(s2, EndArray(|es|))
    case ObjectValue(ms) =>
      var (s1, ok1) := h(s, StartObject);
      if !ok1 then (s1, false) else
        var (s2, ok2) := AcceptMembers(h, s1, v, 0);
        if !ok2 then (s2, false) else h(s2, EndObject(|ms|))
  }

  function AcceptElements<S>(h: Handler<S>, s: S, v: Value, k: nat): (S, bool)
    requires v.ArrayValue? && Built(v) && k <= |v.elements|
    decreases v, |v.elements| - k
  {
    if k == |v.elements| then (s, true) else
      var (s', ok) := Accept(h, s, v.elements[k]);
      if !ok then (s', false) else AcceptElements(h, s', v, k + 1)
  }

  function AcceptMembers<S>(h: Handler<S>, s: S, v: Value, k: nat): (S, bool)
    requires v.ObjectValue? && Built(v) && k <= |v.members|
    decreases v, |v.members| - k
  {
    if k == |v.members| then (s, true) else
      var (s1, ok1) := h(s, Key(v.members[k].name));
      if !ok1 then (s1, false) else
        var (s2, ok2) := Accept(h, s1, v.members[k].value);
        if !ok2 then (s2, false) else AcceptMembers(h, s2, v, k + 1)
  }

  /** Accept sends exactly the events of the value, up to the first one refused. */
  lemma {:induction false} AcceptSendsEvents<S>(h: Handler<S>, s: S, v: Value)
    requires Built(v)
    ensures Accept(h, s, v) == Feed(h, s, EventsOf(ByAccept, v))
    decreases v, Width(v) + 1
  {
    if v.ArrayValue? {
      FeedBracketed(h, s, StartArray, ElementEvents(ByAccept, v, 0), EndArray(|v.elements|));
      AcceptElementsSendsEvents(h, h(s, StartArray).0, v, 0);
    } else if v.ObjectValue? {
      FeedBracketed(h, s, StartObject, MemberEvents(ByAccept, v, 0), EndObject(|v.members|));
      AcceptMembersSendsEvents(h, h(s, StartObject).0, v, 0);
    } else {
      FeedOne(h, s, EventsOf(ByAccept, v)[0]);
    }
  }

  lemma FeedBracketed<S>(h: Handler<S>, s: S, a: Event, inner: seq<Event>, b: Event)
    ensures var (s1, ok1) := h(s, a);
            var (s2, ok2) := Feed(h, s1, inner);
            Feed(h, s, [a] + inner + [b]) == if !ok1 then (s1, false) else if !ok2 then (s2, false) else h(s2, b)
  {
    FeedAppend(h, s, [a] + inner, [b]);
    FeedAppend(h, s, [a], inner);
    FeedOne(h, s, a);
    FeedOne(h, Feed(h, h(s, a).0, inner).0, b);
  }

  lemma FeedMember<S>(h: Handler<S>, s: S, a: Event, inner: seq<Event>, rest: seq<Event>)
    ensures var (s1, ok1) := h(s, a);
            var (s2, ok2) := Feed(h, s1, inner);
            Feed(h, s, [a] + inner + rest) == if !ok1 then (s1, false) else if !ok2 then (s2, false) else Feed(h, s2, rest)
  {
    FeedAppend(h, s, [a] + inner, rest);
    FeedAppend(h, s, [a], inner);
    FeedOne(h, s, a);
  }

  lemma FeedOne<S>(h: Handler<S>, s: S, e: Event)
    ensures Feed(h, s, [e]) == h(s, e)
  {
    assert [e][1..] == [];
  }

  lemma {:induction false} AcceptElementsSendsEvents<S>(h: Handler<S>, s: S, v: Value, k: nat)
    requires v.ArrayValue? && Built(v) && k <= |v.elements|
    ensures AcceptElements(h, s, v, k) == Feed(h, s, ElementEvents(ByAccept, v, k))
    decreases v, |v.elements| - k
  {
    if k < |v.elements| {
      var (s', ok) := Accept(h, s, v.elements[k]);
      AcceptSendsEvents(h, s, v.elements[k]);
      FeedAppend(h, s, EventsOf(ByAccept, v.elements[k]), ElementEvents(ByAccept, v, k + 1));
      AcceptElementsSendsEvents(h, s', v, k + 1);
    }
  }

  lemma {:induction false} AcceptMembersSendsEvents<S>(h: Handler<S>, s: S, v: Value, k: nat)
    requires v.ObjectValue? && Built(v) && k <= |v.members|
    ensures AcceptMembers(h, s, v, k) == Feed(h, s, MemberEvents(ByAccept, v, k))
    decreases v, |v.members| - k
  {
    if k < |v.members| {
      var key, events := Key(v.members[k].name), EventsOf(ByAccept, v.members[k].value);
      var (s1, ok1) := h(s, key);
      var (s2, ok2) := Accept(h, s1, v.members[k].value);
      FeedMember(h, s, key, events, MemberEvents(ByAccept, v, k + 1));
      AcceptSendsEvents(h, s1, v.members[k].value);
      AcceptMembersSendsEvents(h, s2, v, k + 1);
    }
  }
}
