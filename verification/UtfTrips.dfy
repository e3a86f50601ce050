/** What the two converters undo, and what they accept (server/include/ConvertUTF.c, section 4 of RFC 3629, section 2 of
    RFC 2781). */
module UtfTrips {
  import opened Streams
  import opened Conversions
  import opened ConvertUtf
  import Utf8

  // ---------------------------------------------------------------- one character

  /** The sequences isLegalUTF8 lets through although RFC 3629 does not: it sets no lower bound after ED and F4. */
  predicate LowSecond(u: bytes) {
    || (|u| == 3 && u[0] == 0xED && u[1] < 0x80 && Utf8.IsTail(u[2]))
    || (|u| == 4 && u[0] == 0xF4 && u[1] < 0x80 && Utf8.IsTail(u[2]) && Utf8.IsTail(u[3]))
  }

  lemma LegalIs(s: bytes)
    requires s != [] && Trailing(s[0]) < |s|
    ensures var n := Trailing(s[0]) + 1; IsLegal(s, n) <==> Utf8.IsChar(s[..n]) || LowSecond(s[..n])
  {
  }

  lemma CharIsLegal(u: bytes, post: bytes)
    requires Utf8.IsChar(u)
    ensures Trailing(u[0]) + 1 == |u| && IsLegal(u + post, |u|) && Value(u + post, |u| - 1) == Utf8.Scalar(u)
  {
    var s := u + post;
    assert s[..|u|] == u;
    LegalIs(s);
  }

  /** Which units spell a character, section 2.1 of RFC 2781. */
  lemma UnitsSpell(ch: nat)
    requires Utf8.IsScalar(ch)
    ensures var us := Units(ch);
            if ch <= 0xFFFF then us == [ch] && !IsHigh(us[0]) && !IsLow(us[0])
            else |us| == 2 && IsHigh(us[0]) && IsLow(us[1]) && Pair(us[0], us[1]) == ch
  {
  }

  lemma PairIsScalar(high: Utf16, low: Utf16)
    requires IsHigh(high) && IsLow(low)
    ensures 0x10000 <= Pair(high, low) <= 0x10FFFF && Units(Pair(high, low)) == [high, low]
  {
  }

  // ---------------------------------------------------------------- well-formed UTF-16

  /** Section 2.2 of RFC 2781: surrogates come in pairs, a high one first. */
  predicate WellFormed16(s: seq<Utf16>) {
    s == [] || (
      if IsHigh(s[0]) then |s| > 1 && IsLow(s[1]) && WellFormed16(s[2..])
      else !IsLow(s[0]) && WellFormed16(s[1..]))
  }

  /** The first character of a well-formed text and how many units it has. */
  function First(s: seq<Utf16>): (r: (nat, nat))
    requires s != [] && WellFormed16(s)
    ensures Utf8.IsScalar(r.0) && 0 < r.1 <= |s| && Units(r.0) == s[..r.1] && WellFormed16(s[r.1..])
  {
    if IsHigh(s[0]) then
      PairIsScalar(s[0], s[1]);
      assert s[..2] == [s[0], s[1]];
      (Pair(s[0], s[1]), 2)
    else
      assert s[..1] == [s[0]];
      (s[0], 1)
  }

  /** A strict conversion that finds room accepts exactly the well-formed texts. */
  lemma {:induction false} BytesAcceptWellFormed(s: seq<Utf16>, room: nat)
    requires !Convert(BytesStep(true), s, room).result.TargetExhausted?
    ensures Convert(BytesStep(true), s, room).result == ConversionOK <==> WellFormed16(s)
    decreases |s|
  {
    hide Convert, Utf8.Encode, BytesStep;
    OneBytesTurn(true, s, room);
    if s != [] {
      if ToBytes(true, s, room).Write? {
        var n := ToBytes(true, s, room).n;
        BytesAcceptWellFormed(s[n..], room - |ToBytes(true, s, room).units|);
      }
    }
  }

  /** One turn of the way back, on the bytes of one character. */
  lemma UnitsTurn(ch: nat, post: bytes, room: nat)
    requires Utf8.IsScalar(ch) && room >= |Units(ch)|
    ensures Convert(ToUnits, Utf8.Encode(ch) + post, room)
            == After(|Utf8.Encode(ch)|, Units(ch), Convert(ToUnits, post, room - |Units(ch)|))
  {
    hide Convert, Utf8.Encode, Utf8.Scalar, IsLegal, Units, Value;
    var u := Utf8.Encode(ch);
    Utf8.EncodeThenDecode(ch);
    CharIsLegal(u, post);
    assert (u + post)[0] == u[0] && (u + post)[|u|..] == post;
    OneUnitsTurn(u + post, room);
  }

  /** Well-formed UTF-16 to UTF-8 and back, with room enough: every unit is restored, and both calls return
      conversionOK. */
  lemma {:induction false} RoundTrip16(s: seq<Utf16>, room: nat, room': nat)
    requires WellFormed16(s) && room' >= |s|
    requires !Convert(BytesStep(true), s, room).result.TargetExhausted?
    ensures var there := Convert(BytesStep(true), s, room);
            && there == Outcome(|s|, there.out, ConversionOK)
            && Convert(ToUnits, there.out, room') == Outcome(|there.out|, s, ConversionOK)
    decreases |s|
  {
    hide Convert, Utf8.Encode, BytesStep, Units, WellFormed16;
    OneBytesTurn(true, s, room);
    if s == [] {
      OneUnitsTurn([], room');
    } else {
      var (ch, n) := First(s);
      assert ToBytes(true, s, room) == Fitting(n, ch, room) by { FirstTurn(s, room); }
      var u := Utf8.Encode(ch);
      RoundTrip16(s[n..], room - |u|, room' - n);
      var rest := Convert(BytesStep(true), s[n..], room - |u|);
      UnitsTurn(ch, rest.out, room');
      assert s == s[..n] + s[n..];
    }
  }

  lemma FirstTurn(s: seq<Utf16>, room: nat)
    requires s != [] && WellFormed16(s)
    ensures ToBytes(true, s, room) == Fitting(First(s).1, First(s).0, room)
  {
    hide Utf8.Encode;
  }

  // ---------------------------------------------------------------- UTF-8

  /** Whether no byte ED or F4 is followed by one below 80. */
  predicate NoLowSecond(s: bytes) {
    forall i | 0 <= i < |s| - 1 && (s[i] == 0xED || s[i] == 0xF4) :: s[i + 1] >= 0x80
  }

  /** With room enough, exactly the well-formed texts of RFC 3629 are accepted among those without such a pair; no
      well-formed text has one. */
  lemma {:induction false} UnitsAcceptWellFormed(s: bytes, room: nat)
    requires !Convert(ToUnits, s, room).result.TargetExhausted?
    ensures Convert(ToUnits, s, room).result == ConversionOK && NoLowSecond(s) <==> Utf8.WellFormed(s)
    decreases |s|
  {
    hide Convert, Utf8.IsChar, LowSecond, Value, Units, IsLegal, NoLowSecond;
    OneUnitsTurn(s, room);
    if s == [] {
      assert NoLowSecond([]) by { NothingLow(); }
    } else {
      WellFormedTurn(s);
      if Trailing(s[0]) < |s| {
        LegalIs(s);
      }
      if ToUnits(s, room).Write? {
        var n := Trailing(s[0]) + 1;
        UnitsAcceptWellFormed(s[n..], room - |ToUnits(s, room).units|);
        LowSecondSplits(s, n);
      }
    }
  }

  lemma NothingLow()
    ensures NoLowSecond([])
  {
  }

  lemma WellFormedTurn(s: bytes)
    requires s != []
    ensures var n := Trailing(s[0]) + 1;
            Utf8.WellFormed(s) <==> n <= |s| && Utf8.IsChar(s[..n]) && Utf8.WellFormed(s[n..])
  {
    hide Utf8.IsChar;
    CharLengths(s, Trailing(s[0]) + 1);
    CharLengths(s, Utf8.CharLength(s[0]));
  }

  lemma CharLengths(s: bytes, n: nat)
    requires s != [] && n > 0
    ensures n <= |s| && Utf8.IsChar(s[..n]) ==> n == Trailing(s[0]) + 1 == Utf8.CharLength(s[0])
  {
  }

  /** A pair cannot straddle two legal characters, and lies inside one only as its first two bytes. */
  lemma LowSecondSplits(s: bytes, n: nat)
    requires s != [] && n == Trailing(s[0]) + 1 <= |s| && IsLegal(s, n)
    ensures NoLowSecond(s) <==> !LowSecond(s[..n]) && NoLowSecond(s[n..])
    ensures Utf8.IsChar(s[..n]) <==> !LowSecond(s[..n])
  {
    LegalIs(s);
    assert forall i | 0 <= i < |s| - n :: s[n..][i] == s[n + i];
  }

  /** UTF-8 to UTF-16 and back, with room enough, restores every well-formed text. */
  lemma {:induction false} RoundTrip8(s: bytes, room: nat, room': nat)
    requires Utf8.WellFormed(s) && room' >= |s|
    requires !Convert(ToUnits, s, room).result.TargetExhausted?
    ensures var there := Convert(ToUnits, s, room);
            && there == Outcome(|s|, there.out, ConversionOK)
            && Convert(BytesStep(true), there.out, room') == Outcome(|there.out|, s, ConversionOK)
    decreases |s|
  {
    hide Convert, Utf8.Encode, BytesStep, Units, Utf8.Scalar, IsLegal, Value, Utf8.IsChar;
    OneUnitsTurn(s, room);
    if s == [] {
      OneBytesTurn(true, [], room');
    } else {
      var n := Utf8.CharLength(s[0]);
      var u, post := s[..n], s[n..];
      assert s == u + post;
      CharIsLegal(u, post);
      Utf8.DecodeThenEncode(u);
      var ch := Utf8.Scalar(u);
      RoundTrip8(post, room - |Units(ch)|, room' - n);
      var rest := Convert(ToUnits, post, room - |Units(ch)|);
      BytesTurn(ch, rest.out, room');
    }
  }

  /** One turn of the way back, on the units of one character. */
  lemma BytesTurn(ch: nat, post: seq<Utf16>, room: nat)
    requires Utf8.IsScalar(ch) && room >= |Utf8.Encode(ch)|
    ensures Convert(BytesStep(true), Units(ch) + post, room)
            == After(|Units(ch)|, Utf8.Encode(ch), Convert(BytesStep(true), post, room - |Utf8.Encode(ch)|))
  {
    hide Convert, Utf8.Encode, BytesStep, Units;
    var us := Units(ch);
    UnitsSpell(ch);
    assert (us + post)[|us|..] == post;
    OneBytesTurn(true, us + post, room);
  }

  lemma CharThenWellFormed(ch: nat, post: bytes)
    requires Utf8.IsScalar(ch) && Utf8.WellFormed(post)
    ensures Utf8.WellFormed(Utf8.Encode(ch) + post)
  {
    hide Utf8.Encode, Utf8.Scalar;
    var u := Utf8.Encode(ch);
    Utf8.EncodeThenDecode(ch);
    assert (u + post)[..|u|] == u && (u + post)[|u|..] == post;
    assert |u| == Utf8.CharLength(u[0]);
  }

  /** Whatever a strict conversion writes is well-formed. */
  lemma {:induction false} BytesAreWellFormed(s: seq<Utf16>, room: nat)
    ensures Utf8.WellFormed(Convert(BytesStep(true), s, room).out)
    decreases |s|
  {
    hide Convert, Utf8.Encode, BytesStep, Utf8.IsChar;
    OneBytesTurn(true, s, room);
    if s != [] && ToBytes(true, s, room).Write? {
      var n, u := ToBytes(true, s, room).n, ToBytes(true, s, room).units;
      BytesAreWellFormed(s[n..], room - |u|);
      CharThenWellFormed(CharAt(s), Convert(BytesStep(true), s[n..], room - |u|).out);
    }
  }

  /** The character that a strict turn reads. */
  function CharAt(s: seq<Utf16>): (ch: nat)
    requires s != [] && (if IsHigh(s[0]) then |s| > 1 && IsLow(s[1]) else !IsLow(s[0]))
    ensures Utf8.IsScalar(ch)
  {
    if IsHigh(s[0]) then Pair(s[0], s[1]) else s[0]
  }

  /** Of the texts that conversion to UTF-16 accepts, the way back restores the well-formed ones, which are those without
      a low second byte, and no other. */
  lemma RestoredIfWellFormed(s: bytes, room: nat, room': nat)
    requires Convert(ToUnits, s, room).result == ConversionOK && room' >= |s|
    ensures var there := Convert(ToUnits, s, room);
            Convert(BytesStep(true), there.out, room') == Outcome(|there.out|, s, ConversionOK) <==> Utf8.WellFormed(s)
    ensures Utf8.WellFormed(s) <==> NoLowSecond(s)
  {
    hide Convert, BytesStep, Utf8.WellFormed, NoLowSecond;
    UnitsAcceptWellFormed(s, room);
    BytesAreWellFormed(Convert(ToUnits, s, room).out, room');
    if Utf8.WellFormed(s) {
      RoundTrip8(s, room, room');
    }
  }

  lemma LowSecondIsChanged()
    ensures Convert(ToUnits, [0xED, 0x41, 0x80], 1) == Outcome(3, [0xC040], ConversionOK)
    ensures !Utf8.WellFormed([0xED, 0x41, 0x80])
    ensures Convert(BytesStep(true), [0xC040], 3) == Outcome(1, [0xEC, 0x81, 0x80], ConversionOK)
  {
  }

  // ---------------------------------------------------------------- room enough

  /** As many units as bytes are always enough, ... */
  lemma {:induction false} UnitsFit(s: bytes, room: nat)
    requires room >= |s|
    ensures !Convert(ToUnits, s, room).result.TargetExhausted?
    decreases |s|
  {
    hide Convert, IsLegal, Value, Units;
    OneUnitsTurn(s, room);
    if s != [] && Trailing(s[0]) < |s| && IsLegal(s, Trailing(s[0]) + 1) {
      FewUnits(s);
    }
    if s != [] && ToUnits(s, room).Write? {
      UnitsFit(s[ToUnits(s, room).n..], room - |ToUnits(s, room).units|);
    }
  }

  lemma FewUnits(s: bytes)
    requires s != [] && Trailing(s[0]) < |s| && IsLegal(s, Trailing(s[0]) + 1)
    ensures |Units(Value(s, Trailing(s[0])))| <= Trailing(s[0]) + 1
  {
  }

  /** ... and three bytes for every unit. */
  lemma {:induction false} BytesFit(strict: bool, s: seq<Utf16>, room: nat)
    requires room >= 3 * |s|
    ensures !Convert(BytesStep(strict), s, room).result.TargetExhausted?
    decreases |s|
  {
    hide Convert, BytesStep;
    OneBytesTurn(strict, s, room);
    if s != [] && ToBytes(strict, s, room).Write? {
      BytesFit(strict, s[ToBytes(strict, s, room).n..], room - |ToBytes(strict, s, room).units|);
    }
  }

  // ---------------------------------------------------------------- boundaries

  /** Wherever a call stops, what it has read is a text of whole characters, and what it has written is that text. */
  lemma {:induction false} StopsAtBoundary(s: bytes, room: nat)
    ensures var o := Convert(ToUnits, s, room);
            Convert(ToUnits, s[..o.consumed], |o.out|) == Outcome(o.consumed, o.out, ConversionOK)
    decreases |s|
  {
    hide Convert, Units;
    var o := Convert(ToUnits, s, room);
    OneUnitsTurn(s, room);
    if s == [] || ToUnits(s, room).Stop? {
      assert s[..0] == [];
      OneUnitsTurn([], 0);
    } else {
      var n, units := ToUnits(s, room).n, ToUnits(s, room).units;
      StopsAtBoundary(s[n..], room - |units|);
      var rest := Convert(ToUnits, s[n..], room - |units|);
      var read := s[..o.consumed];
      assert read[n..] == s[n..][..rest.consumed];
      SameTurn(s, o.consumed, room, |o.out|);
      OneUnitsTurn(read, |o.out|);
    }
  }

  /** A turn depends on the bytes it reads only. */
  lemma SameTurn(s: bytes, k: nat, room: nat, room': nat)
    requires s != [] && k <= |s| && ToUnits(s, room).Write? && ToUnits(s, room).n <= k
    requires room' >= |ToUnits(s, room).units|
    ensures ToUnits(s[..k], room') == ToUnits(s, room)
  {
    hide Units;
  }

  // ---------------------------------------------------------------- calls one after the other

  /** Resumed after every targetExhausted, in targets of any sizes, UTF-8 becomes what one call with room for all of it
      makes of it. */
  lemma CutUnits(s: bytes, rooms: seq<nat>) returns (room: nat)
    requires !Calls(ToUnits, s, rooms).result.TargetExhausted?
    ensures forall room' | room' >= room :: Convert(ToUnits, s, room') == Calls(ToUnits, s, rooms)
  {
    UnitsLimited();
    room := CallsAreOne(ToUnits, s, rooms);
  }

  /** So does UTF-16, strict or not. */
  lemma CutBytes(strict: bool, s: seq<Utf16>, rooms: seq<nat>) returns (room: nat)
    requires !Calls(BytesStep(strict), s, rooms).result.TargetExhausted?
    ensures forall room' | room' >= room :: Convert(BytesStep(strict), s, room') == Calls(BytesStep(strict), s, rooms)
  {
    BytesLimited(strict);
    room := CallsAreOne(BytesStep(strict), s, rooms);
  }
}
