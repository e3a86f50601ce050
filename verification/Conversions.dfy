/** A conversion that stops when its target is full and can be called again: what such calls have in common
    (server/include/ConvertUTF.h). */
module Conversions {
  datatype ConversionResult = ConversionOK | SourceExhausted | TargetExhausted | SourceIllegal

  /** One turn of a conversion loop: it stops, or reads `n` units and writes some. */
  datatype Turn<T> = Stop(result: ConversionResult) | Write(n: nat, units: seq<T>)

  /** What a call reads, writes and returns. */
  datatype Outcome<T> = Outcome(consumed: nat, out: seq<T>, result: ConversionResult)

  function After<T>(n: nat, units: seq<T>, o: Outcome<T>): Outcome<T> {
    Outcome(n + o.consumed, units + o.out, o.result)
  }

  /** A call on `s` with room for `room` units. */
  function Convert<S, T>(step: (seq<S>, nat) -> Turn<T>, s: seq<S>, room: nat): (o: Outcome<T>)
    ensures o.consumed <= |s| && |o.out| <= room
    ensures o.result.ConversionOK? ==> o.consumed == |s|
  {
    if s == [] then Outcome(0, [], ConversionOK) else
      match step(s, room)
      case Stop(r) => Outcome(0, [], if r.ConversionOK? then SourceIllegal else r)
      case Write(n, units) =>
        if 0 < n <= |s| && |units| <= room then After(n, units, Convert(step, s[n..], room - |units|))
        else Outcome(0, [], TargetExhausted)
  }

  /** What the loops of both directions keep to: they write within the room, and what they write once there is room
      enough does not depend on how much there is. */
  ghost predicate RoomOnlyLimits<S(!new), T(!new)>(step: (seq<S>, nat) -> Turn<T>) {
    forall s, room | s != [] :: Limits(step, s, room)
  }

  ghost predicate Limits<S(!new), T(!new)>(step: (seq<S>, nat) -> Turn<T>, s: seq<S>, room: nat)
    requires s != []
  {
    match step(s, room)
    case Write(n, units) =>
      0 < n <= |s| && |units| <= room && forall room' | room' >= |units| :: step(s, room') == Write(n, units)
    case Stop(r) =>
      r.TargetExhausted? || (!r.ConversionOK? && forall room' | room' >= room :: step(s, room') == Stop(r))
  }

  lemma OneTurn<S(!new), T(!new)>(step: (seq<S>, nat) -> Turn<T>, s: seq<S>, room: nat)
    requires RoomOnlyLimits(step)
    ensures s == [] ==> Convert(step, s, room) == Outcome(0, [], ConversionOK)
    ensures s != [] ==>
              match step(s, room)
              case Stop(r) => Convert(step, s, room) == Outcome(0, [], r)
              case Write(n, units) =>
                && 0 < n <= |s| && |units| <= room
                && Convert(step, s, room) == After(n, units, Convert(step, s[n..], room - |units|))
  {
    assert s != [] ==> Limits(step, s, room);
  }

  lemma Stable<S(!new), T(!new)>(step: (seq<S>, nat) -> Turn<T>, s: seq<S>, room: nat, room': nat)
    requires RoomOnlyLimits(step) && s != [] && step(s, room).Write? && room' >= |step(s, room).units|
    ensures step(s, room') == step(s, room)
  {
    assert Limits(step, s, room);
  }

  /** A call that ran out of target, and the next one from where it stopped, do what one call with both rooms does. */
  lemma {:induction false} Resume<S(!new), T(!new)>(step: (seq<S>, nat) -> Turn<T>, s: seq<S>, room: nat, more: nat)
    requires RoomOnlyLimits(step) && Convert(step, s, room).result.TargetExhausted?
    ensures var first := Convert(step, s, room);
            Convert(step, s, |first.out| + more)
            == After(first.consumed, first.out, Convert(step, s[first.consumed..], more))
    decreases |s|
  {
    hide Convert, RoomOnlyLimits, After;
    OneTurn(step, s, room);
    var first := Convert(step, s, room);
    if step(s, room).Stop? {
      assert s[0..] == s;
      AfterNothing(Convert(step, s, more));
    } else {
      var n, units := step(s, room).n, step(s, room).units;
      var rest := Convert(step, s[n..], room - |units|);
      AfterIs(n, units, rest);
      Resume(step, s[n..], room - |units|, more);
      var total := |first.out| + more;
      Stable(step, s, room, total);
      OneTurn(step, s, total);
      assert s[n..][rest.consumed..] == s[first.consumed..];
      AfterTwice(n, units, rest.consumed, rest.out, Convert(step, s[first.consumed..], more));
    }
  }

  lemma AfterIs<T>(n: nat, units: seq<T>, o: Outcome<T>)
    ensures After(n, units, o) == Outcome(n + o.consumed, units + o.out, o.result)
  {
  }

  lemma AfterNothing<T>(o: Outcome<T>)
    ensures After(0, [], o) == o
  {
    assert [] + o.out == o.out;
  }

  lemma AfterTwice<T>(n: nat, units: seq<T>, n': nat, units': seq<T>, o: Outcome<T>)
    ensures After(n, units, After(n', units', o)) == After(n + n', units + units', o)
  {
    assert units + (units' + o.out) == units + units' + o.out;
  }

  /** A call that did not run out of target has the same outcome with any larger one. */
  lemma {:induction false} MoreRoom<S(!new), T(!new)>(step: (seq<S>, nat) -> Turn<T>, s: seq<S>, room: nat, room': nat)
    requires RoomOnlyLimits(step) && !Convert(step, s, room).result.TargetExhausted?
    requires room' >= if Convert(step, s, room).result.ConversionOK? then |Convert(step, s, room).out| else room
    ensures Convert(step, s, room') == Convert(step, s, room)
    decreases |s|
  {
    if s != [] {
      assert Limits(step, s, room);
      match step(s, room)
      case Stop(_) =>
      case Write(n, units) =>
        MoreRoom(step, s[n..], room - |units|, room' - |units|);
    }
  }

  /** Calls one after the other, each into a target of its own, until one does not run out of it. */
  function Calls<S, T>(step: (seq<S>, nat) -> Turn<T>, s: seq<S>, rooms: seq<nat>): Outcome<T>
    decreases |rooms|
  {
    if rooms == [] then Outcome(0, [], TargetExhausted) else
      var o := Convert(step, s, rooms[0]);
      if o.result.TargetExhausted? then After(o.consumed, o.out, Calls(step, s[o.consumed..], rooms[1..])) else o
  }

  /** However a conversion is cut into calls, it is the conversion made by one call with room for all of it. */
  lemma {:induction false} CallsAreOne<S(!new), T(!new)>(step: (seq<S>, nat) -> Turn<T>, s: seq<S>, rooms: seq<nat>) returns (room: nat)
    requires RoomOnlyLimits(step) && !Calls(step, s, rooms).result.TargetExhausted?
    ensures Calls(step, s, rooms) == Convert(step, s, room)
    ensures forall room' | room' >= room :: Convert(step, s, room') == Calls(step, s, rooms)
    decreases |rooms|
  {
    var o := Convert(step, s, rooms[0]);
    if o.result.TargetExhausted? {
      var more := CallsAreOne(step, s[o.consumed..], rooms[1..]);
      Resume(step, s, rooms[0], more);
      room := |o.out| + more;
    } else {
      room := rooms[0];
    }
    forall room' | room' >= room ensures Convert(step, s, room') == Calls(step, s, rooms) {
      MoreRoom(step, s, room, room');
    }
  }
}
