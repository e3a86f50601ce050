/** Why and where the two converters stop, in terms of the texts and not of the loops: a cut text is told from a wrong one,
    what was read is as much as can be read, and a text may come in parts (server/include/ConvertUTF.c, section 2.2 of
    RFC 2781, sections 3 and 4 of RFC 3629). */
module UtfStops {
  import opened Streams
  import opened Conversions
  import opened ConvertUtf
  import opened UtfTrips
  import Utf8

  // ---------------------------------------------------------------- a text that comes in parts

  /** What a turn reads and writes does not depend on what comes behind. */
  ghost predicate ReadsOnlyItsOwn<S(!new), T(!new)>(step: (seq<S>, nat) -> Turn<T>) {
    forall s, t, room | s != [] && step(s, room).Write? :: step(s + t, room) == step(s, room)
  }

  lemma UnitsReadTheirOwn()
    ensures ReadsOnlyItsOwn(ToUnits)
  {
    forall s: bytes, t: bytes, room | s != [] && ToUnits(s, room).Write? ensures ToUnits(s + t, room) == ToUnits(s, room) {
      OwnBytes(s, t);
    }
  }

  lemma OwnBytes(s: bytes, t: bytes)
    requires s != [] && Trailing(s[0]) < |s|
    ensures var n := Trailing(s[0]);
            && Trailing((s + t)[0]) == n && (IsLegal(s + t, n + 1) <==> IsLegal(s, n + 1))
            && (IsLegal(s, n + 1) ==> Value(s + t, n) == Value(s, n))
  {
  }

  lemma BytesReadTheirOwn(strict: bool)
    ensures ReadsOnlyItsOwn(BytesStep(strict))
  {
    forall s: seq<Utf16>, t: seq<Utf16>, room | s != [] && BytesStep(strict)(s, room).Write?
      ensures BytesStep(strict)(s + t, room) == BytesStep(strict)(s, room)
    {
      OwnUnits(strict, s, t, room);
    }
  }

  lemma OwnUnits(strict: bool, s: seq<Utf16>, t: seq<Utf16>, room: nat)
    requires s != [] && ToBytes(strict, s, room).Write?
    ensures ToBytes(strict, s + t, room) == ToBytes(strict, s, room)
  {
    hide Utf8.Encode;
  }

  /** A text in two parts: what the first call leaves is put in front of the second part, and the two calls make of it what
      one call on the whole does. */
  lemma {:induction false} Continue<S(!new), T(!new)>(step: (seq<S>, nat) -> Turn<T>, s: seq<S>, t: seq<S>, room: nat)
    requires RoomOnlyLimits(step) && ReadsOnlyItsOwn(step)
    ensures var first := Convert(step, s, room);
            Convert(step, s + t, room)
            == After(first.consumed, first.out, Convert(step, s[first.consumed..] + t, room - |first.out|))
    decreases |s|
  {
    hide Convert, RoomOnlyLimits, After;
    OneTurn(step, s, room);
    if s == [] || step(s, room).Stop? {
      assert s[0..] == s;
      AfterNothing(Convert(step, s + t, room));
    } else {
      var n, units := step(s, room).n, step(s, room).units;
      var rest := Convert(step, s[n..], room - |units|);
      AfterIs(n, units, rest);
      Continue(step, s[n..], t, room - |units|);
      OneTurn(step, s + t, room);
      assert (s + t)[n..] == s[n..] + t;
      assert s[n..][rest.consumed..] == s[n + rest.consumed..];
      AfterTwice(n, units, rest.consumed, rest.out,
                 Convert(step, s[n + rest.consumed..] + t, room - |units| - |rest.out|));
    }
  }

  /** So it is with UTF-8 cut between any two bytes ... */
  lemma ContinueBytes(s: bytes, t: bytes, room: nat)
    ensures var first := Convert(ToUnits, s, room);
            Convert(ToUnits, s + t, room)
            == After(first.consumed, first.out, Convert(ToUnits, s[first.consumed..] + t, room - |first.out|))
  {
    hide *;
    UnitsLimited();
    UnitsReadTheirOwn();
    Continue(ToUnits, s, t, room);
  }

  /** ... and with UTF-16 cut between any two units, strict or not. */
  lemma ContinueUnits(strict: bool, s: seq<Utf16>, t: seq<Utf16>, room: nat)
    ensures var first := Convert(BytesStep(strict), s, room);
            Convert(BytesStep(strict), s + t, room)
            == After(first.consumed, first.out, Convert(BytesStep(strict), s[first.consumed..] + t, room - |first.out|))
  {
    hide *;
    BytesLimited(strict);
    BytesReadTheirOwn(strict);
    Continue(BytesStep(strict), s, t, room);
  }

  // ---------------------------------------------------------------- UTF-16, strict

  /** Whether a text that is not well-formed may yet become so. */
  ghost predicate CanGoOn(s: seq<Utf16>) {
    exists t: seq<Utf16> :: WellFormed16(s + t)
  }

  /** Whether this is the length of the longest well-formed beginning. */
  predicate IsLongest(s: seq<Utf16>, n: nat) {
    n <= |s| && WellFormed16(s[..n]) && forall m | n < m <= |s| :: !WellFormed16(s[..m])
  }

  lemma {:induction false} Prepend(a: seq<Utf16>, b: seq<Utf16>)
    requires WellFormed16(a)
    ensures WellFormed16(a + b) <==> WellFormed16(b)
    decreases |a|
  {
    if a == [] {
      assert a + b == b;
    } else {
      var n := if IsHigh(a[0]) then 2 else 1;
      Prepend(a[n..], b);
      assert (a + b)[n..] == a[n..] + b;
    }
  }

  /** What stops a strict conversion that has room: a high surrogate with nothing behind it, or one without its partner. */
  lemma {:induction false} StopsAtSurrogate(s: seq<Utf16>, room: nat)
    requires !Convert(BytesStep(true), s, room).result.TargetExhausted?
    ensures var o := Convert(BytesStep(true), s, room);
            && WellFormed16(s[..o.consumed])
            && (o.result.ConversionOK? <==> o.consumed == |s|)
            && (o.result.SourceExhausted? ==> o.consumed == |s| - 1 && IsHigh(s[o.consumed]))
            && (o.result.SourceIllegal? ==> o.consumed < |s| && Unpaired(s[o.consumed..]))
    decreases |s|
  {
    hide Convert, Utf8.Encode, BytesStep, WellFormed16;
    OneBytesTurn(true, s, room);
    assert WellFormed16([]) by { NothingIsWellFormed(); }
    if s != [] && ToBytes(true, s, room).Write? {
      var n := ToBytes(true, s, room).n;
      var room' := room - |ToBytes(true, s, room).units|;
      StopsAtSurrogate(s[n..], room');
      var k := Convert(BytesStep(true), s[n..], room').consumed;
      assert s[..n + k] == s[..n] + s[n..][..k];
      OneIsWellFormed(s, n, room);
      Prepend(s[..n], s[n..][..k]);
      assert s[n..][k..] == s[n + k..];
    } else {
      assert s[..0] == [];
      assert s[0..] == s;
    }
  }

  lemma NothingIsWellFormed()
    ensures WellFormed16([])
  {
  }

  lemma OneIsWellFormed(s: seq<Utf16>, n: nat, room: nat)
    requires s != [] && ToBytes(true, s, room).Write? && n == ToBytes(true, s, room).n
    ensures n <= |s| && WellFormed16(s[..n])
  {
    hide Utf8.Encode;
    var u := s[..n];
    assert n == 2 ==> u[2..] == [];
    assert n == 1 ==> u[1..] == [];
  }

  /** A low surrogate, or a high one with something else behind it. */
  predicate Unpaired(s: seq<Utf16>) {
    s != [] && (IsLow(s[0]) || (IsHigh(s[0]) && |s| > 1 && !IsLow(s[1])))
  }

  lemma UnpairedStays(s: seq<Utf16>, t: seq<Utf16>)
    requires Unpaired(s)
    ensures !WellFormed16(s + t)
  {
  }

  /** With room enough, a strict conversion returns conversionOK exactly for a well-formed text, sourceExhausted exactly for
      one that is not but may become so when more comes, and sourceIllegal exactly for one that nothing can save. */
  lemma StrictVerdict(s: seq<Utf16>, room: nat)
    requires !Convert(BytesStep(true), s, room).result.TargetExhausted?
    ensures var r := Convert(BytesStep(true), s, room).result;
            && (r.ConversionOK? <==> WellFormed16(s))
            && (r.SourceExhausted? <==> !WellFormed16(s) && CanGoOn(s))
            && (r.SourceIllegal? <==> !CanGoOn(s))
  {
    hide *;
    var o := Convert(BytesStep(true), s, room);
    BytesAcceptWellFormed(s, room);
    StopsAtSurrogate(s, room);
    var read, left := s[..o.consumed], s[o.consumed..];
    assert s == read + left;
    if o.result.ConversionOK? {
      GoesOn(s, []);
    } else if o.result.SourceExhausted? {
      CompletesPair(left[0]);
      Prepend(read, left + [0xDC00]);
      assert s + [0xDC00] == read + (left + [0xDC00]);
      assert left == [left[0]];
      GoesOn(s, [0xDC00]);
    } else if CanGoOn(s) {
      var t := WhatGoesOn(s);
      assert s + t == read + (left + t);
      Prepend(read, left + t);
      UnpairedStays(left, t);
    }
  }

  lemma GoesOn(s: seq<Utf16>, t: seq<Utf16>)
    requires WellFormed16(s + t) || (t == [] && WellFormed16(s))
    ensures CanGoOn(s)
  {
    assert s + [] == s;
    assert WellFormed16(s + t);
  }

  lemma WhatGoesOn(s: seq<Utf16>) returns (t: seq<Utf16>)
    requires CanGoOn(s)
    ensures WellFormed16(s + t)
  {
    t :| WellFormed16(s + t);
  }

  lemma CompletesPair(high: Utf16)
    requires IsHigh(high)
    ensures WellFormed16([high] + [0xDC00])
  {
    assert ([high] + [0xDC00])[2..] == [];
  }

  /** What a strict conversion has read when it stops is the longest well-formed beginning of the text. */
  lemma StrictReadsLongest(s: seq<Utf16>, room: nat)
    requires !Convert(BytesStep(true), s, room).result.TargetExhausted?
    ensures IsLongest(s, Convert(BytesStep(true), s, room).consumed)
  {
    hide Convert, BytesStep, WellFormed16;
    StopsAtSurrogate(s, room);
    var c := Convert(BytesStep(true), s, room).consumed;
    forall m | c < m <= |s| ensures !WellFormed16(s[..m]) {
      CutTwice(s, c, m);
      Prepend(s[..c], s[c..m]);
      BeginsBadly(s[c..], m - c);
    }
  }

  lemma CutTwice(s: seq<Utf16>, c: nat, m: nat)
    requires c <= m <= |s|
    ensures s[..m] == s[..c] + s[c..m] && s[c..m] == s[c..][..m - c]
  {
  }

  lemma BeginsBadly(s: seq<Utf16>, k: nat)
    requires 0 < k <= |s| && (Unpaired(s) || (|s| == 1 && IsHigh(s[0])))
    ensures !WellFormed16(s[..k])
  {
  }

  // ---------------------------------------------------------------- UTF-16, lenient

  /** Without strictConversion nothing is illegal, and only a high surrogate at the end leaves something to wait for. */
  lemma {:induction false} LenientVerdict(s: seq<Utf16>, room: nat)
    requires !Convert(BytesStep(false), s, room).result.TargetExhausted?
    ensures var o := Convert(BytesStep(false), s, room);
            if s != [] && IsHigh(s[|s| - 1]) then o.result.SourceExhausted? && o.consumed == |s| - 1
            else o.result.ConversionOK? && o.consumed == |s|
    decreases |s|
  {
    hide Convert, Utf8.Encode, BytesStep;
    OneBytesTurn(false, s, room);
    if s != [] && ToBytes(false, s, room).Write? {
      LenientVerdict(s[ToBytes(false, s, room).n..], room - |ToBytes(false, s, room).units|);
    }
  }

  /** A well-formed text is converted alike in both modes. */
  lemma {:induction false} LenientIsStrict(s: seq<Utf16>, room: nat)
    requires WellFormed16(s)
    ensures Convert(BytesStep(false), s, room) == Convert(BytesStep(true), s, room)
    decreases |s|
  {
    hide Convert, Utf8.Encode, BytesStep;
    OneBytesTurn(false, s, room);
    OneBytesTurn(true, s, room);
    if s != [] && ToBytes(true, s, room).Write? {
      LenientIsStrict(s[ToBytes(true, s, room).n..], room - |ToBytes(true, s, room).units|);
    }
  }

  /** The three bytes that section 3 of RFC 3629 would have for a surrogate if it did not rule them out. */
  function Lone(u: Utf16): (r: bytes)
    requires IsHigh(u) || IsLow(u)
    ensures |r| == 3 && !Utf8.IsChar(r)
  {
    [0xED, 0x80 + (u - 0xD000) / 0x40, 0x80 + u % 0x40]
  }

  /** A surrogate without its partner, behind a well-formed text, is written as such. */
  lemma LoneIsWritten(s: seq<Utf16>, u: Utf16, t: seq<Utf16>, room: nat)
    requires WellFormed16(s) && Unpaired([u] + t)
    requires |Convert(BytesStep(true), s, room).out| + 3 <= room
    requires Convert(BytesStep(true), s, room).result.ConversionOK?
    ensures var out := Convert(BytesStep(true), s, room).out;
            Convert(BytesStep(false), s + ([u] + t), room)
            == After(|s| + 1, out + Lone(u), Convert(BytesStep(false), t, room - (|out| + 3)))
  {
    hide Convert, BytesStep, WellFormed16, Utf8.Encode, Lone;
    LenientIsStrict(s, room);
    var out := Convert(BytesStep(true), s, room).out;
    var left := room - |out|;
    ContinueUnits(false, s, [u] + t, room);
    assert s[|s|..] + ([u] + t) == [u] + t;
    LoneBytes(u);
    OneBytesTurn(false, [u] + t, left);
    assert ([u] + t)[1..] == t;
    AfterTwice(|s|, out, 1, Lone(u), Convert(BytesStep(false), t, left - 3));
  }

  lemma LoneBytes(u: Utf16)
    requires IsHigh(u) || IsLow(u)
    ensures Utf8.Encode(u) == Lone(u)
  {
  }

  // ---------------------------------------------------------------- UTF-8

  const WEIGHTS: seq<nat> := [0x80, 0x40, 0x20, 0x10, 0x08, 0x04, 0x02, 0x01]

  /** How many bits of a byte, from the one with index `i` on, are 1 before the first 0. */
  function Ones(c: byte, i: nat): nat
    requires i <= 8
    decreases 8 - i
  {
    if i < 8 && c / WEIGHTS[i] % 2 == 1 then 1 + Ones(c, i + 1) else 0
  }

  /** How many more bytes a first byte asks for: one less than it has leading bits that are 1, but none if there is only
      one, and never more than five. */
  function Asked(lead: byte): nat {
    var n := Ones(lead, 0);
    if n < 2 then 0 else if n > 6 then 5 else n - 1
  }

  lemma AskedIs(lead: byte)
    ensures Asked(lead) == Trailing(lead)
  {
    if lead < 0x80 {
    } else if lead < 0xC0 {
      assert lead / 0x40 % 2 == 0;
    } else if lead < 0xE0 {
      assert lead / 0x40 % 2 == 1 && lead / 0x20 % 2 == 0;
    } else if lead < 0xF0 {
      assert lead / 0x20 % 2 == 1 && lead / 0x10 % 2 == 0;
    } else {
      LongLead(lead);
    }
  }

  lemma LongLead(lead: byte)
    requires lead >= 0xF0
    ensures Asked(lead) == Trailing(lead)
  {
    assert lead / 0x80 % 2 == 1 && lead / 0x40 % 2 == 1 && lead / 0x20 % 2 == 1 && lead / 0x10 % 2 == 1;
    assert Ones(lead, 0) == 4 + Ones(lead, 4);
    if lead < 0xF8 {
      assert lead / 0x08 % 2 == 0;
    } else if lead < 0xFC {
      assert lead / 0x08 % 2 == 1 && lead / 0x04 % 2 == 0;
    } else {
      assert lead / 0x08 % 2 == 1 && lead / 0x04 % 2 == 1;
    }
  }

  /** With room enough, a conversion from UTF-8 stops at the end of the text, with sourceExhausted exactly where fewer
      bytes are left than the first of them asks for, and with sourceIllegal exactly where they are there but are no
      character (and not one of those the code takes for one). */
  lemma {:induction false} BytesVerdict(s: bytes, room: nat)
    requires !Convert(ToUnits, s, room).result.TargetExhausted?
    ensures var o := Convert(ToUnits, s, room);
            && (o.result.ConversionOK? <==> o.consumed == |s|)
            && (o.consumed < |s| ==>
                  var left := s[o.consumed..];
                  && (o.result.SourceExhausted? <==> Asked(left[0]) >= |left|)
                  && (o.result.SourceIllegal? <==> Asked(left[0]) < |left| && Wrong(left[..Asked(left[0]) + 1])))
    decreases |s|
  {
    hide Convert, IsLegal, Value, Units, Asked, Wrong;
    OneUnitsTurn(s, room);
    if s != [] {
      AskedIs(s[0]);
      if ToUnits(s, room).Write? {
        var n := Trailing(s[0]) + 1;
        var room' := room - |ToUnits(s, room).units|;
        BytesVerdict(s[n..], room');
        assert s[n..][Convert(ToUnits, s[n..], room').consumed..] == s[Convert(ToUnits, s, room).consumed..];
      } else {
        assert s[0..] == s;
        if Trailing(s[0]) < |s| {
          WrongIs(s);
        }
      }
    }
  }

  predicate Wrong(u: bytes) {
    !Utf8.IsChar(u) && !LowSecond(u)
  }

  lemma WrongIs(s: bytes)
    requires s != [] && Trailing(s[0]) < |s|
    ensures IsLegal(s, Trailing(s[0]) + 1) <==> !Wrong(s[..Trailing(s[0]) + 1])
  {
    LegalIs(s);
  }

  /** Whether bytes begin a character and need more to be one. */
  predicate Begun(u: bytes) {
    && u != [] && 0xC2 <= u[0] <= 0xF4 && Asked(u[0]) >= |u|
    && (|u| >= 2 ==> Utf8.IsTail(u[1]) && !(u[0] == 0xE0 && u[1] < 0xA0) && !(u[0] == 0xED && u[1] > 0x9F)
                     && !(u[0] == 0xF0 && u[1] < 0x90) && !(u[0] == 0xF4 && u[1] > 0x8F))
    && (|u| >= 3 ==> Utf8.IsTail(u[2]))
  }

  ghost predicate CanBecome(s: bytes) {
    exists t: bytes :: Utf8.WellFormed(s + t)
  }

  lemma {:induction false} PrependBytes(a: bytes, b: bytes)
    requires Utf8.WellFormed(a)
    ensures Utf8.WellFormed(a + b) <==> Utf8.WellFormed(b)
    decreases |a|
  {
    hide Utf8.IsChar;
    if a == [] {
      assert a + b == b;
    } else {
      var n := Utf8.CharLength(a[0]);
      PrependBytes(a[n..], b);
      assert (a + b)[n..] == a[n..] + b && (a + b)[..n] == a[..n];
    }
  }

  lemma WellFormedHasNoLow(s: bytes)
    requires Utf8.WellFormed(s)
    ensures NoLowSecond(s)
  {
    hide *;
    UnitsFit(s, |s|);
    UnitsAcceptWellFormed(s, |s|);
  }

  lemma FillUp(u: bytes) returns (t: bytes)
    requires Begun(u)
    ensures Utf8.IsChar(u + t)
  {
    AskedIs(u[0]);
    var second := if u[0] == 0xE0 then 0xA0 else if u[0] == 0xF0 then 0x90 else 0x80;
    var n := Trailing(u[0]) + 1 - |u|;
    if |u| >= 2 {
      t := if n == 1 then [0x80] else [0x80, 0x80];
    } else {
      t := if n == 1 then [second] else if n == 2 then [second, 0x80] else [second, 0x80, 0x80];
    }
  }

  lemma BeginningIsBegun(u: bytes, t: bytes)
    requires u != [] && Asked(u[0]) >= |u| && Asked(u[0]) < |u + t| && Utf8.IsChar((u + t)[..Asked(u[0]) + 1])
    ensures Begun(u)
  {
    hide Asked;
    AskedIs(u[0]);
  }

  /** What nothing can save is told by sourceIllegal; but sourceExhausted does not mean that something can: it does exactly
      if what was read has no low second byte and what is left begins a character. */
  lemma MoreMayHelp(s: bytes, room: nat)
    requires !Convert(ToUnits, s, room).result.TargetExhausted?
    ensures var o := Convert(ToUnits, s, room);
            && (o.result.SourceIllegal? ==> !CanBecome(s))
            && (o.result.SourceExhausted? ==>
                  (CanBecome(s) <==> NoLowSecond(s[..o.consumed]) && Begun(s[o.consumed..])))
  {
    hide *;
    var o := Convert(ToUnits, s, room);
    BytesVerdict(s, room);
    StopsAtBoundary(s, room);
    var read, left := s[..o.consumed], s[o.consumed..];
    assert s == read + left;
    UnitsAcceptWellFormed(read, |o.out|);
    if CanBecome(s) {
      var t := WhatCompletes(s);
      WellFormedHasNoLow(s + t);
      NoLowAtFront(read, left, t);
      assert s + t == read + (left + t);
      PrependBytes(read, left + t);
      if o.result.SourceIllegal? {
        WrongStays(left, t);
        assert false;
      } else if o.result.SourceExhausted? {
        LeftBegins(left, t);
      }
    }
    if o.result.SourceExhausted? && NoLowSecond(read) && Begun(left) {
      var t := FillUp(left);
      OneCharIsWellFormed(left + t);
      PrependBytes(read, left + t);
      assert s + t == read + (left + t);
      Completes(s, t);
    }
  }

  lemma WhatCompletes(s: bytes) returns (t: bytes)
    requires CanBecome(s)
    ensures Utf8.WellFormed(s + t)
  {
    t :| Utf8.WellFormed(s + t);
  }

  lemma Completes(s: bytes, t: bytes)
    requires Utf8.WellFormed(s + t)
    ensures CanBecome(s)
  {
  }

  lemma NoLowAtFront(read: bytes, left: bytes, t: bytes)
    requires NoLowSecond(read + left + t)
    ensures NoLowSecond(read)
  {
    forall i | 0 <= i < |read| - 1 && (read[i] == 0xED || read[i] == 0xF4) ensures read[i + 1] >= 0x80 {
      assert (read + left + t)[i] == read[i] && (read + left + t)[i + 1] == read[i + 1];
    }
  }

  lemma WrongStays(left: bytes, t: bytes)
    requires left != [] && Asked(left[0]) < |left| && Wrong(left[..Asked(left[0]) + 1])
    ensures !Utf8.WellFormed(left + t)
  {
    hide Utf8.IsChar, Asked, Utf8.WellFormed;
    AskedIs(left[0]);
    var n := Asked(left[0]) + 1;
    assert (left + t)[..n] == left[..n];
    WellFormedTurn(left + t);
  }

  lemma LeftBegins(left: bytes, t: bytes)
    requires left != [] && Asked(left[0]) >= |left| && Utf8.WellFormed(left + t)
    ensures Begun(left)
  {
    hide Utf8.IsChar, Asked, Utf8.WellFormed, Begun;
    AskedIs(left[0]);
    WellFormedTurn(left + t);
    BeginningIsBegun(left, t);
  }

  lemma OneCharIsWellFormed(u: bytes)
    requires Utf8.IsChar(u)
    ensures Utf8.WellFormed(u)
  {
    var n := Utf8.CharLength(u[0]);
    assert n == |u| && u[..n] == u && u[n..] == [];
  }

  /** Two bytes that are exhausted although nothing can follow. */
  lemma ExhaustedForNothing()
    ensures Convert(ToUnits, [0xE0, 0x41], 2).result.SourceExhausted? && !CanBecome([0xE0, 0x41])
  {
    var s: bytes := [0xE0, 0x41];
    AskedIs(0xE0);
    MoreMayHelp(s, 2);
    assert s[0..] == s;
  }
}
